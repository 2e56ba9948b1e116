/**
 R extraction, codegraph-kernel/src/rlang.rs, as a function from syntax trees
 to outlines.
 */
module RLang {
  import opened Bytes
  import opened Buffers
  import opened Options
  import opened Outline
  import opened SyntaxTree
  import opened Walking

  /** The two text functions of textutil.rs the walk calls. */
  datatype Env = Env(parenConversion: Text -> Option<Text>, importSignature: Text -> Text)

  predicate IsAssignLeft(op: Text) {
    op == Ascii("<-") || op == Ascii("<<-") || op == Ascii("=")
  }

  predicate IsAssignRight(op: Text) {
    op == Ascii("->") || op == Ascii("->>")
  }

  predicate IsImportFn(name: Text) {
    || name == Ascii("library") || name == Ascii("require")
    || name == Ascii("requireNamespace") || name == Ascii("loadNamespace")
  }

  predicate IsClassFn(name: Text) {
    name == Ascii("setClass") || name == Ascii("setRefClass") || name == Ascii("R6Class") || name == Ascii("ggproto")
  }

  predicate IsGenericFn(name: Text) {
    name == Ascii("setGeneric") || name == Ascii("setMethod")
  }

  predicate IsUpper(b: Byte) {
    65 <= b <= 90
  }

  /** `^[A-Z][A-Z0-9._]*$` */
  predicate IsConstantName(name: Text) {
    name != [] && IsUpper(name[0]) &&
    forall i :: 0 <= i < |name| ==> IsUpper(name[i]) || 48 <= name[i] <= 57 || name[i] == 46 || name[i] == 95
  }

  // ----- lookups -----

  function CalleeName(call: Node): Option<Text> {
    match ByField(call, "function")
    case None => None
    case Some(f) =>
      if f.kind == "identifier" then Some(f.text)
      else if f.kind == "namespace_operator" then TextOf(ByField(f, "rhs"))
      else None
  }

  predicate IsArgument(c: Child) {
    c.named && c.node.kind == "argument"
  }

  /** The value of the first argument, named or not. */
  function FirstArgValue(call: Node): Option<Node> {
    match ByField(call, "arguments") case None => None case Some(args) => FirstValue(args.children)
  }

  function FirstValue(children: seq<Child>): Option<Node> {
    if children == [] then None
    else if IsArgument(children[0]) then ByField(children[0].node, "value")
    else FirstValue(children[1..])
  }

  function LiteralOrIdentifier(n: Option<Node>): Option<Text> {
    match n
    case None => None
    case Some(m) =>
      if m.kind == "identifier" then Some(m.text)
      else if m.kind == "string" then Some(StringContent(m.children))
      else None
  }

  function StringContent(children: seq<Child>): Text {
    if children == [] then []
    else if children[0].named && children[0].node.kind == "string_content" then children[0].node.text
    else StringContent(children[1..])
  }

  /** Like LiteralOrIdentifier, with an empty result dropped. */
  function NonEmptyLiteral(n: Option<Node>): (r: Option<Text>)
    ensures r.Some? ==> r.value != []
  {
    match LiteralOrIdentifier(n)
    case None => None
    case Some(t) => if t == [] then None else Some(t)
  }

  /** The first argument value, at any position, that is a function. */
  function FirstFunction(children: seq<Child>): (r: Option<Node>)
    ensures r.Some? ==>
      exists i :: 0 <= i < |children| && IsArgument(children[i]) && ByField(children[i].node, "value") == r
    ensures r.Some? ==> r.value.kind == "function_definition" && Size(r.value) <= SizeAll(children)
  {
    if children == [] then None
    else
      var v := if IsArgument(children[0]) then ByField(children[0].node, "value") else None;
      if v.Some? && v.value.kind == "function_definition" then
        assert ByField(children[0].node, "value") == v;
        v
      else
        var r := FirstFunction(children[1..]);
        assert r.Some? ==>
          exists i :: 0 <= i < |children| && IsArgument(children[i]) && ByField(children[i].node, "value") == r by {
          if r.Some? {
            var i :| 0 <= i < |children[1..]|
              && IsArgument(children[1..][i]) && ByField(children[1..][i].node, "value") == r;
            assert ByField(children[i + 1].node, "value") == r;
          }
        }
        r
  }

  // ----- rows -----

  function DeclAt(kind: Kind, name: Text, n: Node, signature: Option<Text>): Decl {
    Decl(kind, name, n.span, None, signature, None, None, n.index)
  }

  // ----- the walk -----

  /** `top`: the parent is the program node. */
  function Visit(env: Env, n: Node, top: bool): seq<Item>
    decreases Size(n), 5
  {
    [Visited(n.index, Main, Plain)] +
    match Hook(env, n, top)
    case Some(items) => items
    case None =>
      (if n.kind == "call" then ExtractCall(env.parenConversion, n) else [])
      + VisitAll(env, n.children, n.kind == "program")
  }

  function VisitAll(env: Env, children: seq<Child>, top: bool): seq<Item>
    decreases SizeAll(children), 6
  {
    if children == [] then []
    else (if children[0].named then Visit(env, children[0].node, top) else []) + VisitAll(env, children[1..], top)
  }

  /** What the language hook makes of a node it consumes. */
  function Hook(env: Env, n: Node, top: bool): Option<seq<Item>>
    decreases Size(n), 4
  {
    if n.kind == "call" then HookCall(env, n)
    else if n.kind == "binary_operator" then HookBinaryOperator(env, n, top)
    else None
  }

  function HookCall(env: Env, n: Node): Option<seq<Item>>
    decreases Size(n), 3
  {
    match CalleeName(n)
    case None => None
    case Some(fname) =>
      if IsImportFn(fname) || fname == Ascii("source") then
        match NonEmptyLiteral(FirstArgValue(n))
        case None => Some([])
        case Some(mod) =>
          Some([Sym(DeclAt(Import, mod, n, Some(env.importSignature(n.text))), []), Ref(RefAt(EDGE_IMPORTS, mod, n))])
      else if IsClassFn(fname) then
        match NonEmptyLiteral(FirstArgValue(n))
        case None => None
        case Some(name) => Some([Sym(DeclAt(Class, name, n, None), ClassMembers(env, n))])
      else if IsGenericFn(fname) then
        match NonEmptyLiteral(FirstArgValue(n))
        case None => None
        case Some(name) => Some(FunctionSym(env, DeclAt(Function, name, n, None), Implementation(n)))
      else None
  }

  /** The function among the arguments of setGeneric or setMethod. */
  function Implementation(call: Node): (r: Option<Node>)
    ensures r.Some? ==> Size(r.value) < Size(call)
  {
    match ByField(call, "arguments") case None => None case Some(args) => FirstFunction(args.children)
  }

  /** A function or method, with its parameters for a signature and its body inside. */
  function FunctionSym(env: Env, d: Decl, f: Option<Node>): seq<Item>
    decreases if f.Some? then Size(f.value) else 0, 1
  {
    match f
    case None => SymUnlessNameless(d, [])
    case Some(g) =>
      SymUnlessNameless(d.(signature := TextOf(ByField(g, "parameters"))),
                        match ByField(g, "body") case None => [] case Some(body) => Visit(env, body, false))
  }

  function HookBinaryOperator(env: Env, n: Node, top: bool): Option<seq<Item>>
    decreases Size(n), 3
  {
    match ByField(n, "operator")
    case None => None
    case Some(operator) =>
      match (ByField(n, "lhs"), ByField(n, "rhs"))
      case (Some(lhs), Some(rhs)) =>
        var op := operator.text;
        // name <- function(...), in any scope
        if IsAssignLeft(op) && lhs.kind == "identifier" && rhs.kind == "function_definition" then
          Some(FunctionSym(env, DeclAt(Function, lhs.text, n, None), Some(rhs)))
        // a value assigned at top level
        else if top && IsAssignLeft(op) && lhs.kind == "identifier" then
          Some((if DefinesClassOrGeneric(rhs) then [] else Variable(lhs.text, n)) + Visit(env, rhs, false))
        else if top && IsAssignRight(op) && rhs.kind == "identifier" then
          Some(Variable(rhs.text, n) + Visit(env, lhs, false))
        else None
      case _ => None
  }

  /** `Name <- setClass(...)` and the like make no variable of that name. */
  predicate DefinesClassOrGeneric(rhs: Node) {
    rhs.kind == "call" &&
    match CalleeName(rhs) case None => false case Some(c) => IsClassFn(c) || IsGenericFn(c)
  }

  function Variable(name: Text, n: Node): seq<Item> {
    SymUnlessNameless(DeclAt(if IsConstantName(name) then Constant else Outline.Variable, name, n, None), [])
  }

  function ClassMembers(env: Env, call: Node): seq<Item>
    decreases Size(call), 2
  {
    match ByField(call, "arguments") case None => [] case Some(args) => Members(env, args.children, 0)
  }

  /** The arguments of a class call, of which `positional` unnamed ones have gone by. */
  function Members(env: Env, children: seq<Child>, positional: nat): seq<Item>
    decreases SizeAll(children), 5
  {
    if children == [] then []
    else if !IsArgument(children[0]) then Members(env, children[1..], positional)
    else
      Argument(env, children[0].node, positional)
      + Members(env, children[1..], if IsUnnamed(children[0].node) then positional + 1 else positional)
  }

  predicate IsUnnamed(arg: Node) {
    ByField(arg, "name").None?
  }

  function Argument(env: Env, arg: Node, positional: nat): seq<Item>
    decreases Size(arg), 4
  {
    match ByField(arg, "name")
    case None => if positional == 1 then SecondPositional(ByField(arg, "value")) else []
    case Some(name) => Member(env, arg, name.text)
  }

  /** ggproto's second unnamed argument, if an identifier, is the parent class. */
  function SecondPositional(value: Option<Node>): seq<Item> {
    match value
    case None => []
    case Some(v) => if v.kind == "identifier" then [Ref(RefAt(EDGE_EXTENDS, v.text, v))] else []
  }

  function Member(env: Env, arg: Node, name: Text): seq<Item>
    decreases Size(arg), 3
  {
    match ByField(arg, "value")
    case None => []
    case Some(v) =>
      if name == Ascii("inherit") || name == Ascii("contains") then Parent(v)
      else if v.kind == "function_definition" then MethodArg(env, arg)
      else if v.kind == "call" && CalleeName(v) == Some(Ascii("list")) then
        match ByField(v, "arguments") case None => [] case Some(entries) => MethodArgs(env, entries.children)
      else []
  }

  function Parent(v: Node): seq<Item> {
    match NonEmptyLiteral(Some(v)) case None => [] case Some(name) => [Ref(RefAt(EDGE_EXTENDS, name, v))]
  }

  function MethodArgs(env: Env, children: seq<Child>): seq<Item>
    decreases SizeAll(children), 4
  {
    if children == [] then []
    else (if IsArgument(children[0]) then MethodArg(env, children[0].node) else []) + MethodArgs(env, children[1..])
  }

  /** `name = function(...)`: a method at the argument node. */
  function MethodArg(env: Env, entry: Node): seq<Item>
    decreases Size(entry), 2
  {
    match (ByField(entry, "name"), ByField(entry, "value"))
    case (Some(name), Some(v)) =>
      if v.kind == "function_definition" then FunctionSym(env, DeclAt(Method, name.text, entry, None), Some(v)) else []
    case _ => []
  }
}
