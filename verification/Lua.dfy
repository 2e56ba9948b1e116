/**
 Lua and Luau extraction, codegraph-kernel/src/lua.rs, as a function from syntax
 trees to outlines: one walk for the file's top level and one for function bodies.
 */
module Lua {
  import opened Buffers
  import opened Bytes
  import opened Options
  import opened Outline
  import opened SyntaxTree
  import opened Walking

  /** The dialect, the text functions of textutil.rs, and the docstring before each node. */
  datatype Env = Env(
    isLuau: bool,
    parenConversion: Text -> Option<Text>,
    trim: Text -> Text,
    trimStart: Text -> Text,
    importSignature: Text -> Text,
    initSignature: Text -> Text,
    docstring: nat -> Option<Text>)

  const ANONYMOUS := Ascii("<anonymous>")

  // ----- named children -----

  /** The named children, in order. */
  function Named(children: seq<Child>): (r: seq<Node>)
    ensures TotalSize(r) <= SizeAll(children)
  {
    if children == [] then []
    else if children[0].named then
      assert ([children[0].node] + Named(children[1..]))[1..] == Named(children[1..]);
      [children[0].node] + Named(children[1..])
    else Named(children[1..])
  }

  function TotalSize(nodes: seq<Node>): nat {
    if nodes == [] then 0 else Size(nodes[0]) + TotalSize(nodes[1..])
  }

  lemma {:induction false} TotalSizeAppend(a: seq<Node>, b: seq<Node>)
    ensures TotalSize(a + b) == TotalSize(a) + TotalSize(b)
  {
    if a == [] {
      assert a + b == b;
    } else {
      assert (a + b)[1..] == a[1..] + b;
      TotalSizeAppend(a[1..], b);
    }
  }

  /** The first named child of `kind`. */
  function FindNamed(n: Node, kind: string): (r: Option<Node>)
    ensures r.Some? ==> Size(r.value) < Size(n)
  {
    Find(Named(n.children), kind)
  }

  function Find(nodes: seq<Node>, kind: string): (r: Option<Node>)
    ensures r.Some? ==> r.value.kind == kind && Size(r.value) <= TotalSize(nodes)
    ensures r.Some? <==> exists i :: 0 <= i < |nodes| && nodes[i].kind == kind
  {
    if nodes == [] then None
    else if nodes[0].kind == kind then Some(nodes[0])
    else
      var r := Find(nodes[1..], kind);
      assert forall i :: 1 <= i < |nodes| ==> nodes[1..][i - 1] == nodes[i];
      r
  }

  // ----- find_descendant, level by level -----

  /** All named children of a level. */
  function Below(level: seq<Node>): (r: seq<Node>)
    ensures TotalSize(r) + |level| <= TotalSize(level)
  {
    if level == [] then []
    else
      TotalSizeAppend(Named(level[0].children), Below(level[1..]));
      Named(level[0].children) + Below(level[1..])
  }

  /** The leftmost node of `kind` on the first level that has one. */
  function Shallowest(level: seq<Node>, kind: string): (r: Option<Node>)
    ensures r.Some? ==> r.value.kind == kind && Size(r.value) <= TotalSize(level)
    decreases TotalSize(level)
  {
    if level == [] then None
    else if Find(level, kind).Some? then Find(level, kind)
    else Shallowest(Below(level), kind)
  }

  function FindDescendant(n: Node, kind: string): (r: Option<Node>)
    ensures r.Some? ==> r.value.kind == kind
  {
    Shallowest(Named(n.children), kind)
  }

  // ----- require -----

  function StripPrefix(t: Text, p: Text): Text {
    if |p| <= |t| && t[..|p|] == p then t[|p|..] else t
  }

  function StripSuffix(t: Text, p: Text): Text {
    if |p| <= |t| && t[|t| - |p|..] == p then t[..|t| - |p|] else t
  }

  predicate IsQuote(b: Byte) {
    b == 34 || b == 39
  }

  /** A string literal without its brackets and quotes. */
  function Unquoted(t: Text): Text {
    var t1 := StripSuffix(StripPrefix(t, Ascii("[[")), Ascii("]]"));
    var t2 := if t1 != [] && IsQuote(t1[0]) then t1[1..] else t1;
    if t2 != [] && IsQuote(t2[|t2| - 1]) then t2[..|t2| - 1] else t2
  }

  function NonEmpty(t: Text): (r: Option<Text>)
    ensures r.Some? ==> r.value != []
  {
    if t == [] then None else Some(t)
  }

  /** The module a call to `require` names, if it can be told. */
  function RequireModule(env: Env, call: Node): (r: Option<Text>)
    ensures r.Some? ==> r.value != []
  {
    match (ByField(call, "name"), ByField(call, "arguments"))
    case (Some(name), Some(args)) =>
      if name.kind != "identifier" || name.text != Ascii("require") then None else ModuleNamedIn(env, args)
    case _ => None
  }

  function ModuleNamedIn(env: Env, args: Node): (r: Option<Text>)
    ensures r.Some? ==> r.value != []
  {
    match FindDescendant(args, "string_content")
    case Some(content) => NonEmpty(env.trim(content.text))
    case None =>
      match FindDescendant(args, "string")
      case Some(s) =>
        if Unquoted(env.trim(s.text)) != [] then Some(Unquoted(env.trim(s.text))) else InstancePath(env, args)
      case None => InstancePath(env, args)
  }

  /** Roblox instance path: the trailing field or method. */
  function InstancePath(env: Env, args: Node): (r: Option<Text>)
    ensures r.Some? ==> r.value != []
  {
    match OrElse(FindDescendant(args, "dot_index_expression"), FindDescendant(args, "method_index_expression"))
    case None => None
    case Some(idx) =>
      match FieldOrMethod(idx) case None => None case Some(f) => NonEmpty(env.trim(f.text))
  }

  function OrElse<T>(a: Option<T>, b: Option<T>): Option<T> {
    if a.Some? then a else b
  }

  function FieldOrMethod(n: Node): Option<Node> {
    OrElse(ByField(n, "field"), ByField(n, "method"))
  }

  function RoleOf(env: Env, n: Node): Role {
    if n.kind == "function_call" then
      Call(RequireModule(env, n).Some?, CalleeText(env.parenConversion, n).Some?)
    else Plain
  }

  // ----- names and signatures -----

  predicate IsIndex(n: Node) {
    n.kind == "dot_index_expression" || n.kind == "method_index_expression"
  }

  function ReceiverType(n: Node): Option<Text> {
    match ByField(n, "name")
    case Some(name) => if IsIndex(name) then TextOf(ByField(name, "table")) else None
    case None => None
  }

  predicate IsIdentifierish(n: Node) {
    n.kind == "identifier" || n.kind == "type_identifier" || n.kind == "simple_identifier" || n.kind == "constant"
  }

  function FirstIdentifierish(nodes: seq<Node>): Text {
    if nodes == [] then ANONYMOUS
    else if IsIdentifierish(nodes[0]) then nodes[0].text
    else FirstIdentifierish(nodes[1..])
  }

  function ExtractName(n: Node): Text {
    match ByField(n, "name")
    case None => FirstIdentifierish(Named(n.children))
    case Some(name) =>
      if name.kind == "dot_index_expression" && ByField(name, "field").Some? then ByField(name, "field").value.text
      else if name.kind == "method_index_expression" && ByField(name, "method").Some? then
        ByField(name, "method").value.text
      else name.text
  }

  /** The node right after the first one that starts where the parameters do. */
  function AfterParameters(nodes: seq<Node>, params: Node): Option<Node> {
    if nodes == [] then None
    else if
      nodes[0].span.startLine == params.span.startLine && nodes[0].span.startColumn == params.span.startColumn
    then
      if |nodes| > 1 then Some(nodes[1]) else None
    else AfterParameters(nodes[1..], params)
  }

  function SignatureOf(env: Env, n: Node): Option<Text> {
    match ByField(n, "parameters")
    case None => None
    case Some(params) =>
      var ret := if env.isLuau then AfterParameters(Named(n.children), params) else None;
      Some(params.text + if ret.Some? && ret.value.kind != "block" then Ascii(": ") + ret.value.text else [])
  }

  function IsExportedOf(env: Env, n: Node): Option<bool> {
    if env.isLuau then Some(|n.text| >= 7 && n.text[..7] == Ascii("export ")) else None
  }

  /** What an assignment target is called: its name, its receiver, and both together. */
  datatype Target = Target(name: Text, receiver: Option<Text>, fullName: Text)

  const DOT: Byte := 46

  function AssignmentTarget(env: Env, n: Node): (r: Option<Target>)
    ensures r.Some? ==> r.value.name != []
  {
    if n.kind == "identifier" then
      var name := env.trim(n.text);
      if name == [] then None else Some(Target(name, None, name))
    else if !IsIndex(n) && n.kind != "bracket_index_expression" then None
    else
      match (ByField(n, "table"), FieldOrMethod(n))
      case (Some(table), Some(field)) =>
        var receiver := env.trim(table.text);
        var name := StaticFieldName(env, field, n.kind == "bracket_index_expression");
        if receiver == [] || name == [] then None else Some(Target(name, Some(receiver), receiver + [DOT] + name))
      case _ => None
  }

  function StaticFieldName(env: Env, n: Node, bracketed: bool): Text {
    if n.kind == "identifier" then (if bracketed then [] else env.trim(n.text))
    else if n.kind == "string" then
      match Find(Named(n.children), "string_content") case None => [] case Some(c) => env.trim(c.text)
    else []
  }

  // ----- the walk of the top level -----

  function Import(env: Env, call: Node, mod: Text): seq<Item> {
    [Sym(ImportDecl(env, call, mod), []), Ref(RefAt(EDGE_IMPORTS, mod, call))]
  }

  function ImportDecl(env: Env, call: Node, mod: Text): Decl {
    Decl(Outline.Import, mod, call.span, None, Some(env.importSignature(call.text)), None, None, call.index)
  }

  function Visit(env: Env, n: Node): seq<Item>
    decreases Size(n), 5
  {
    [Visited(n.index, Main, RoleOf(env, n))] +
    if n.kind == "function_call" && RequireModule(env, n).Some? then Import(env, n, RequireModule(env, n).value)
    else Initializers(env, InitialValues(n)) + Ladder(env, n)
  }

  function VisitAll(env: Env, nodes: seq<Node>): seq<Item>
    decreases TotalSize(nodes), 6
  {
    if nodes == [] then [] else Visit(env, nodes[0]) + VisitAll(env, nodes[1..])
  }

  /** The values a `local` declaration initializes its names with. */
  function InitialValues(n: Node): (r: seq<Node>)
    ensures TotalSize(r) < Size(n)
  {
    if n.kind != "variable_declaration" then []
    else
      match FindNamed(n, "assignment_statement")
      case None => []
      case Some(assign) => ListOf(assign, "expression_list")
  }

  function ListOf(assign: Node, kind: string): (r: seq<Node>)
    ensures TotalSize(r) < Size(assign)
  {
    match FindNamed(assign, kind) case None => [] case Some(list) => Named(list.children)
  }

  /** Requires standing as direct initializers are dug out; the ladder skips initializers. */
  function Initializers(env: Env, values: seq<Node>): seq<Item> {
    if values == [] then [] else Initializer(env, values[0]) + Initializers(env, values[1..])
  }

  function Initializer(env: Env, v: Node): seq<Item> {
    if v.kind != "function_call" then []
    else
      [Visited(v.index, Mode.Initializer, RoleOf(env, v))] +
      match RequireModule(env, v) case None => [] case Some(mod) => Import(env, v, mod)
  }

  function Ladder(env: Env, n: Node): seq<Item>
    decreases Size(n), 4
  {
    if n.kind == "function_declaration" then ExtractFunction(env, n)
    else if env.isLuau && n.kind == "type_definition" then
      ExtractTypeAlias(env, n) + VisitAll(env, Named(n.children))
    else if n.kind == "variable_declaration" || n.kind == "assignment_statement" then ExtractVariable(env, n)
    else if n.kind == "function_call" then
      Walking.ExtractCall(env.parenConversion, n) + VisitAll(env, Named(n.children))
    else VisitAll(env, Named(n.children))
  }

  function ExtractTypeAlias(env: Env, n: Node): seq<Item> {
    var name := ExtractName(n);
    if name == ANONYMOUS then []
    else SymUnlessNameless(
      Decl(TypeAlias, name, n.span, env.docstring(n.index), None, IsExportedOf(env, n), None, n.index), [])
  }

  // ----- functions -----

  /** A declaration with the body of `f` inside. */
  function WithBody(env: Env, d: Decl, f: Node): seq<Item>
    decreases Size(f), 2
  {
    SymUnlessNameless(d, BodyItems(env, f))
  }

  function BodyItems(env: Env, f: Node): seq<Item>
    decreases Size(f), 1
  {
    match ByField(f, "body") case None => [] case Some(body) => VisitBody(env, body)
  }

  function ExtractFunction(env: Env, n: Node): seq<Item>
    decreases Size(n), 3
  {
    match ReceiverType(n)
    case Some(receiver) => WithBody(env, MethodDecl(env, n, receiver), n)
    case None =>
      if ExtractName(n) == ANONYMOUS then BodyItems(env, n)
      else WithBody(env, FunctionDecl(env, n), n)
  }

  function MethodDecl(env: Env, n: Node, receiver: Text): Decl {
    var name := ExtractName(n);
    Decl(Method, name, n.span, env.docstring(n.index), SignatureOf(env, n), None,
         Some(receiver + SEPARATOR + name), n.index)
  }

  function FunctionDecl(env: Env, n: Node): Decl {
    Decl(Function, ExtractName(n), n.span, env.docstring(n.index), SignatureOf(env, n),
         IsExportedOf(env, n), None, n.index)
  }

  // ----- variables -----

  function ExtractVariable(env: Env, n: Node): seq<Item>
    decreases Size(n), 3
  {
    VariableTargets(env, n, ListOf(AssignmentOf(n), "variable_list"), ListOf(AssignmentOf(n), "expression_list"))
  }

  function AssignmentOf(n: Node): (r: Node)
    ensures Size(r) <= Size(n)
  {
    match FindNamed(n, "assignment_statement") case None => n case Some(assign) => assign
  }

  /** Targets pair with values by position; a target may be without a value. */
  function VariableTargets(env: Env, n: Node, targets: seq<Node>, values: seq<Node>): seq<Item>
    decreases TotalSize(values), 5, |targets|
  {
    if targets == [] then []
    else if values == [] then
      VariableTarget(env, n, targets[0], None) + VariableTargets(env, n, targets[1..], [])
    else
      VariableTarget(env, n, targets[0], Some(values[0])) + VariableTargets(env, n, targets[1..], values[1..])
  }

  function VariableTarget(env: Env, n: Node, t: Node, value: Option<Node>): seq<Item>
    decreases if value.Some? then Size(value.value) else 0, 4
  {
    match AssignmentTarget(env, t)
    case None => []
    case Some(target) =>
      if value.Some? && value.value.kind == "function_definition" then
        WithBody(env, FunctionValueDecl(env, value.value, target.name, target.receiver, env.docstring(n.index)),
                 value.value)
      else
        (if value.Some? && value.value.kind == "table_constructor"
         then TableFunctions(env, Named(value.value.children), target.fullName) else [])
        + (if target.receiver.Some? || n.kind == "assignment_statement" then []
           else [Sym(VariableDecl(env, n, t, target.name, value), [])])
  }

  function VariableDecl(env: Env, n: Node, t: Node, name: Text, value: Option<Node>): Decl {
    Decl(Variable, name, t.span, env.docstring(n.index),
         match value case None => None case Some(v) => Some(env.initSignature(v.text)),
         match IsExportedOf(env, n) case None => Some(false) case Some(e) => Some(e), None, t.index)
  }

  function FunctionValueDecl(env: Env, v: Node, name: Text, receiver: Option<Text>, docstring: Option<Text>): Decl {
    match receiver
    case Some(r) =>
      Decl(Method, name, v.span, docstring, SignatureOf(env, v), None, Some(r + SEPARATOR + name), v.index)
    case None => Decl(Function, name, v.span, docstring, SignatureOf(env, v), IsExportedOf(env, v), None, v.index)
  }

  function TableFunctions(env: Env, fields: seq<Node>, receiver: Text): seq<Item>
    decreases TotalSize(fields), 3
  {
    if fields == [] then [] else TableField(env, fields[0], receiver) + TableFunctions(env, fields[1..], receiver)
  }

  /** What a table constructor's field is called; empty when that cannot be told. */
  function FieldName(env: Env, field: Node): Text {
    match ByField(field, "name")
    case None => []
    case Some(name) =>
      var text := env.trimStart(field.text);
      StaticFieldName(env, name, text != [] && text[0] == 91)
  }

  function TableField(env: Env, field: Node, receiver: Text): seq<Item>
    decreases Size(field), 2
  {
    match ByField(field, "value")
    case None => []
    case Some(v) =>
      var name := FieldName(env, field);
      if field.kind != "field" || name == [] then []
      else if v.kind == "function_definition" then
        WithBody(env, FunctionValueDecl(env, v, name, Some(receiver), None), v)
      else if v.kind == "table_constructor" then
        TableFunctions(env, Named(v.children), receiver + [DOT] + name)
      else []
  }

  // ----- the walk of function bodies -----

  function VisitBody(env: Env, n: Node): seq<Item>
    decreases Size(n), 5
  {
    [Visited(n.index, Body, RoleOf(env, n))] +
    if n.kind == "function_declaration" then ExtractFunction(env, n)
    else
      (if n.kind == "function_call" then Walking.ExtractCall(env.parenConversion, n) else [])
      + VisitBodies(env, Named(n.children))
  }

  function VisitBodies(env: Env, nodes: seq<Node>): seq<Item>
    decreases TotalSize(nodes), 6
  {
    if nodes == [] then [] else VisitBody(env, nodes[0]) + VisitBodies(env, nodes[1..])
  }
}
