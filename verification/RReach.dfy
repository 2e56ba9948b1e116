/**
 What R extraction finds, said of the syntax tree: which nodes the walk comes
 to and inside which declarations, and what each of them yields.
 */
module RReach {
  import opened Buffers
  import opened Bytes
  import opened Contents
  import opened Options
  import opened Outline
  import opened SyntaxTree
  import opened Texts
  import opened Walking
  import opened RLang

  // ----- sorts of nodes -----

  /** What a node is to the walk; all but the last two are taken by the language hook. */
  datatype Sort =
    | ImportCall(told: Option<Text>)
    | ClassCall(name: Text)
    | GenericCall(name: Text, f: Option<Node>)
    | FunctionAssigned(name: Text, g: Node)
    | ValueAssigned(target: Option<Text>, value: Node)
    | OtherCall
    | Other

  function Arguments(call: Node): seq<Child> {
    match ByField(call, "arguments") case None => [] case Some(args) => args.children
  }

  /** The first argument's value tells this name; see RLookups.TellsIff. */
  predicate Tells(call: Node, name: Text) {
    NonEmptyLiteral(FirstArgValue(call)) == Some(name)
  }

  predicate Calls(n: Node, callee: Text) {
    n.kind == "call" && CalleeName(n) == Some(callee)
  }

  predicate IsImporter(callee: Text) {
    IsImportFn(callee) || callee == Ascii("source")
  }

  ghost predicate IsImportCall(n: Node) {
    exists callee :: Calls(n, callee) && IsImporter(callee)
  }

  ghost predicate IsClassCall(n: Node, name: Text) {
    Tells(n, name) && exists callee :: Calls(n, callee) && IsClassFn(callee)
  }

  ghost predicate IsGenericCall(n: Node, name: Text) {
    Tells(n, name) && exists callee :: Calls(n, callee) && IsGenericFn(callee)
  }

  /** `target op value`, or for the rightward operators `value op target`. */
  predicate IsAssignment(n: Node, target: Node, value: Node, leftward: bool) {
    && n.kind == "binary_operator" && ByField(n, "operator").Some? && target.kind == "identifier"
    && (if leftward
        then IsAssignLeft(ByField(n, "operator").value.text)
             && ByField(n, "lhs") == Some(target) && ByField(n, "rhs") == Some(value)
        else IsAssignRight(ByField(n, "operator").value.text)
             && ByField(n, "lhs") == Some(value) && ByField(n, "rhs") == Some(target))
  }

  /** A function assigned leftwards, in any scope. */
  ghost predicate AssignsFunction(n: Node, name: Text, g: Node) {
    exists target :: IsAssignment(n, target, g, true) && g.kind == "function_definition" && target.text == name
  }

  /** Anything else assigned at top level; there is no target when a class or a generic is assigned leftwards. */
  ghost predicate AssignsValue(n: Node, top: bool, name: Option<Text>, value: Node) {
    top && exists target, leftward :: AssignsTo(n, name, value, target, leftward)
  }

  predicate AssignsTo(n: Node, name: Option<Text>, value: Node, target: Node, leftward: bool) {
    && IsAssignment(n, target, value, leftward) && !(leftward && value.kind == "function_definition")
    && name == if leftward && DefinesClassOrGeneric(value) then None else Some(target.text)
  }

  ghost predicate IsOfSort(n: Node, top: bool, sort: Sort) {
    match sort
    case ImportCall(told) => IsImportCall(n) && (forall name :: told == Some(name) <==> Tells(n, name))
    case ClassCall(name) => IsClassCall(n, name)
    case GenericCall(name, f) => IsGenericCall(n, name) && f == Implementation(n)
    case FunctionAssigned(name, g) => AssignsFunction(n, name, g)
    case ValueAssigned(target, value) => AssignsValue(n, top, target, value)
    case OtherCall =>
      n.kind == "call" && !IsImportCall(n) && !exists name :: IsClassCall(n, name) || IsGenericCall(n, name)
    case Other =>
      && n.kind != "call" && (forall name, g :: !AssignsFunction(n, name, g))
      && (forall target, value :: !AssignsValue(n, top, target, value))
  }

  // ----- the hook takes just these -----

  lemma NamesAreApart(t: Text)
    ensures IsImporter(t) ==> !IsClassFn(t) && !IsGenericFn(t)
    ensures IsClassFn(t) ==> !IsGenericFn(t)
  {
    assert Ascii("library")[0] == 108 && Ascii("require")[0] == 114;
    assert Ascii("R6Class")[0] == 82 && Ascii("ggproto")[0] == 103;
  }

  lemma ArrowsAreApart(t: Text)
    ensures IsAssignLeft(t) ==> !IsAssignRight(t)
  {
    assert Ascii("<-")[0] == 60 && Ascii("<<-")[0] == 60;
    assert Ascii("->")[0] == 45 && Ascii("->>")[0] == 45;
  }

  /** What the visit makes of a node of this sort. */
  function Items(env: Env, n: Node, sort: Sort): seq<Item> {
    match sort
    case ImportCall(told) => if told.None? then [] else ImportItems(env, n, told.value)
    case ClassCall(name) => [Sym(DeclAt(Class, name, n, None), ClassMembers(env, n))]
    case GenericCall(name, f) => FunctionSym(env, DeclAt(Function, name, n, None), f)
    case FunctionAssigned(name, g) => FunctionSym(env, DeclAt(Function, name, n, None), Some(g))
    case ValueAssigned(target, value) =>
      (if target.None? then [] else RLang.Variable(target.value, n)) + Visit(env, value, false)
    case OtherCall => ExtractCall(env.parenConversion, n) + VisitAll(env, n.children, false)
    case Other => VisitAll(env, n.children, n.kind == "program")
  }

  function ImportItems(env: Env, n: Node, name: Text): seq<Item> {
    [Sym(DeclAt(Import, name, n, Some(env.importSignature(n.text))), []), Ref(RefAt(EDGE_IMPORTS, name, n))]
  }

  /** The language hook takes the node, and the walk does not go on below it by itself. */
  predicate IsTaken(sort: Sort) {
    !sort.OtherCall? && !sort.Other?
  }

  lemma CallIsOfSort(n: Node, top: bool) returns (sort: Sort)
    requires n.kind == "call"
    ensures IsOfSort(n, top, sort)
  {
    var told := NonEmptyLiteral(FirstArgValue(n));
    sort := OtherCall;
    if CalleeName(n).Some? {
      var callee := CalleeName(n).value;
      assert Calls(n, callee);
      if IsImporter(callee) {
        sort := ImportCall(told);
      } else if IsClassFn(callee) && told.Some? {
        sort := ClassCall(told.value);
      } else if IsGenericFn(callee) && told.Some? {
        sort := GenericCall(told.value, Implementation(n));
      }
    }
  }

  lemma NodeIsOfSort(n: Node, top: bool) returns (sort: Sort)
    ensures IsOfSort(n, top, sort)
  {
    if n.kind == "call" {
      sort := CallIsOfSort(n, top);
    } else if exists name, g :: AssignsFunction(n, name, g) {
      var name, g :| AssignsFunction(n, name, g);
      sort := FunctionAssigned(name, g);
    } else if exists name, value :: AssignsValue(n, top, name, value) {
      var name, value :| AssignsValue(n, top, name, value);
      sort := ValueAssigned(name, value);
    } else {
      sort := Other;
    }
  }

  lemma CallIsHooked(env: Env, n: Node, top: bool, sort: Sort)
    requires IsOfSort(n, top, sort) && n.kind == "call"
    ensures Hook(env, n, top) == if IsTaken(sort) then Some(Items(env, n, sort)) else None
  {
    var told := NonEmptyLiteral(FirstArgValue(n));
    if CalleeName(n).Some? {
      var callee := CalleeName(n).value;
      assert Calls(n, callee);
      NamesAreApart(callee);
      match sort
      case ImportCall(told') =>
        if told.Some? {
          assert Tells(n, told.value);
        }
        assert told' == told;
      case OtherCall =>
        if told.Some? {
          assert IsClassFn(callee) ==> IsClassCall(n, told.value);
          assert IsGenericFn(callee) ==> IsGenericCall(n, told.value);
        }
      case _ =>
    }
  }

  lemma AssignmentIsHooked(env: Env, n: Node, top: bool, sort: Sort)
    requires IsOfSort(n, top, sort) && n.kind == "binary_operator"
    ensures Hook(env, n, top) == if IsTaken(sort) then Some(Items(env, n, sort)) else None
  {
    if ByField(n, "operator").Some? {
      ArrowsAreApart(ByField(n, "operator").value.text);
    }
    match sort
    case FunctionAssigned(name, g) =>
      assert HookBinaryOperator(env, n, top) == Some(Items(env, n, sort));
    case ValueAssigned(name, value) =>
      var target, leftward :| AssignsTo(n, name, value, target, leftward);
      assert HookBinaryOperator(env, n, top) == Some(Items(env, n, sort));
    case _ =>
      if HookBinaryOperator(env, n, top).Some? {
        NoAssignment(env, n, top);
      }
  }

  lemma NoAssignment(env: Env, n: Node, top: bool)
    requires n.kind == "binary_operator" && HookBinaryOperator(env, n, top).Some?
    ensures !IsOfSort(n, top, Other)
  {
    var lhs, rhs := ByField(n, "lhs").value, ByField(n, "rhs").value;
    if IsAssignLeft(ByField(n, "operator").value.text) && lhs.kind == "identifier" {
      assert IsAssignment(n, lhs, rhs, true);
      if rhs.kind == "function_definition" {
        assert AssignsFunction(n, lhs.text, rhs);
      } else {
        var name := if DefinesClassOrGeneric(rhs) then None else Some(lhs.text);
        assert AssignsTo(n, name, rhs, lhs, true);
        assert AssignsValue(n, top, name, rhs);
      }
    } else {
      assert AssignsTo(n, Some(rhs.text), lhs, rhs, false);
      assert AssignsValue(n, top, Some(rhs.text), lhs);
    }
  }

  lemma HookTakes(env: Env, n: Node, top: bool, sort: Sort)
    requires IsOfSort(n, top, sort)
    ensures Hook(env, n, top) == if IsTaken(sort) then Some(Items(env, n, sort)) else None
  {
    if n.kind == "call" {
      CallIsHooked(env, n, top, sort);
    } else if n.kind == "binary_operator" {
      AssignmentIsHooked(env, n, top, sort);
    }
  }

  /** The hook takes a node by what it is and where it stands. */
  lemma HookTakesIff(env: Env, n: Node, top: bool)
    ensures Hook(env, n, top).Some? <==>
      || IsImportCall(n)
      || (exists name :: IsClassCall(n, name) || IsGenericCall(n, name))
      || (exists name, g :: AssignsFunction(n, name, g))
      || (exists name, value :: AssignsValue(n, top, name, value))
  {
    var sort := NodeIsOfSort(n, top);
    HookTakes(env, n, top, sort);
  }

  /** So a node is of one sort, and its visit is what that sort makes of it. */
  lemma VisitYieldsItems(env: Env, n: Node, top: bool, sort: Sort)
    requires IsOfSort(n, top, sort)
    ensures Visit(env, n, top) == [Visited(n.index, Main, Plain)] + Items(env, n, sort)
  {
    HookTakes(env, n, top, sort);
    if sort.OtherCall? {
      assert n.kind != "program";
    } else if sort.Other? {
      assert [] + VisitAll(env, n.children, n.kind == "program") == VisitAll(env, n.children, n.kind == "program");
    }
  }

  // ----- the members of a class -----

  /** How many of the arguments have no name. */
  function Unnamed(args: seq<Child>): nat {
    if args == [] then 0
    else (if IsArgument(args[0]) && IsUnnamed(args[0].node) then 1 else 0) + Unnamed(args[1..])
  }

  predicate IsParentKey(key: Text) {
    key == Ascii("inherit") || key == Ascii("contains")
  }

  /**
   `v` names the parent class `name`: as the second unnamed argument, if it is an
   identifier, or under a key, if it is an identifier or a string that is not empty.
   */
  predicate IsParentIn(arg: Node, before: nat, v: Node, name: Text) {
    ByField(arg, "value") == Some(v) &&
    match ByField(arg, "name")
    case None => before == 1 && v.kind == "identifier" && v.text == name
    case Some(key) => IsParentKey(key.text) && NonEmptyLiteral(Some(v)) == Some(name)
  }

  predicate IsMethod(entry: Node, name: Text, g: Node) {
    && ByField(entry, "name").Some? && ByField(entry, "name").value.text == name && name != []
    && ByField(entry, "value") == Some(g) && g.kind == "function_definition"
  }

  /** A named argument that is a method, or an entry that is one of a `list` it is given. */
  ghost predicate IsMethodIn(arg: Node, entry: Node, name: Text, g: Node) {
    && ByField(arg, "name").Some? && !IsParentKey(ByField(arg, "name").value.text)
    && IsMethod(entry, name, g) && (entry == arg || IsListed(arg, entry))
  }

  ghost predicate IsListed(arg: Node, entry: Node) {
    && ByField(arg, "value").Some? && Calls(ByField(arg, "value").value, Ascii("list"))
    && IsArgumentOf(ByField(arg, "value").value, entry)
  }

  ghost predicate IsArgumentOf(call: Node, entry: Node) {
    exists j :: 0 <= j < |Arguments(call)| && IsArgument(Arguments(call)[j]) && Arguments(call)[j].node == entry
  }

  ghost predicate IsParentOf(call: Node, v: Node, name: Text) {
    exists i :: 0 <= i < |Arguments(call)| && IsParentAt(Arguments(call), i, v, name)
  }

  predicate IsParentAt(args: seq<Child>, i: nat, v: Node, name: Text)
    requires i < |args|
  {
    IsArgument(args[i]) && IsParentIn(args[i].node, Unnamed(args[..i]), v, name)
  }

  ghost predicate IsMethodOf(call: Node, entry: Node, name: Text, g: Node) {
    exists arg :: IsArgumentOf(call, arg) && IsMethodIn(arg, entry, name, g)
  }

  // ----- what a node yields, and where the walk goes from it -----

  /** The declaration of a symbol with nothing but a name, a place and perhaps a signature. */
  predicate Declares(e: Entry, kind: Kind, name: Text, n: Node, signature: Option<Text>) {
    && e.Declared? && e.decl.kind == kind && e.decl.name == name && e.decl.span == n.span && e.decl.at == n.index
    && e.decl.signature == signature
    && e.decl.docstring.None? && e.decl.exported.None? && e.decl.qualifiedOverride.None?
  }

  function ParametersOf(g: Node): Option<Text> {
    TextOf(ByField(g, "parameters"))
  }

  /** Names in capitals, digits, dots and underscores are constants. */
  function ValueKind(name: Text): Kind {
    if IsConstantName(name) then Constant else Outline.Variable
  }

  /** `n`, being of this sort, yields `e`, inside `path` of its own making. */
  ghost predicate Yields(env: Env, n: Node, sort: Sort, path: seq<Decl>, e: Entry) {
    match sort
    case ImportCall(told) =>
      && path == [] && told.Some?
      && (|| Declares(e, Import, told.value, n, Some(env.importSignature(n.text)))
          || Refers(e, EDGE_IMPORTS, told.value, n))
    case ClassCall(name) =>
      || (path == [] && Declares(e, Class, name, n, None))
      || (|path| == 1 && Declares(Declared(path[0]), Class, name, n, None) && YieldsMember(n, e))
    case GenericCall(name, f) =>
      path == [] && Declares(e, Function, name, n, if f.Some? then ParametersOf(f.value) else None)
    case FunctionAssigned(name, g) => path == [] && name != [] && Declares(e, Function, name, n, ParametersOf(g))
    case ValueAssigned(target, _) =>
      path == [] && target.Some? && target.value != [] && Declares(e, ValueKind(target.value), target.value, n, None)
    case OtherCall =>
      && path == [] && CalleeText(env.parenConversion, n).Some?
      && Refers(e, EDGE_CALLS, CalleeText(env.parenConversion, n).value, n)
    case Other => false
  }

  ghost predicate YieldsMember(call: Node, e: Entry) {
    NamesParentOf(call, e) || DeclaresMethodOf(call, e)
  }

  ghost predicate NamesParentOf(call: Node, e: Entry) {
    exists v, name :: IsParentOf(call, v, name) && Refers(e, EDGE_EXTENDS, name, v)
  }

  ghost predicate DeclaresMethodOf(call: Node, e: Entry) {
    exists entry, name, g :: IsMethodOf(call, entry, name, g) && Declares(e, Method, name, entry, ParametersOf(g))
  }

  /** From `n`, being of this sort, the walk goes to `c`, inside the declarations `under`. */
  ghost predicate GoesTo(n: Node, sort: Sort, c: Node, top: bool, under: seq<Decl>) {
    match sort
    case ImportCall(_) => false
    case ClassCall(name) =>
      && !top && |under| == 2 && Declares(Declared(under[0]), Class, name, n, None)
      && GoesToMethod(n, c, under[1])
    case GenericCall(name, f) =>
      && !top && |under| == 1 && f.Some? && Declares(Declared(under[0]), Function, name, n, ParametersOf(f.value))
      && ByField(f.value, "body") == Some(c)
    case FunctionAssigned(name, g) =>
      && !top && |under| == 1 && name != [] && Declares(Declared(under[0]), Function, name, n, ParametersOf(g))
      && ByField(g, "body") == Some(c)
    case ValueAssigned(_, value) => !top && under == [] && c == value
    case _ => under == [] && IsNamedChild(c, n) && top == (n.kind == "program")
  }

  ghost predicate GoesToMethod(call: Node, body: Node, d: Decl) {
    exists entry, name, g :: IsMethodOf(call, entry, name, g)
      && Declares(Declared(d), Method, name, entry, ParametersOf(g)) && ByField(g, "body") == Some(body)
  }

  ghost predicate IsNamedChild(c: Node, n: Node) {
    exists i :: 0 <= i < |n.children| && n.children[i].named && n.children[i].node == c
  }

  // ----- members -----

  lemma DeclaresIff(e: Entry, kind: Kind, name: Text, n: Node, signature: Option<Text>)
    ensures Declares(e, kind, name, n, signature) <==> e == Declared(DeclAt(kind, name, n, signature))
  {}

  lemma RefersIff(e: Entry, kind: Byte, name: Text, n: Node)
    ensures Refers(e, kind, name, n) <==> e == Referred(RefAt(kind, name, n))
  {}

  /** A declared function, and what the walk of its body finds. */
  predicate HasFunction(env: Env, d: Decl, body: Option<Node>, path: seq<Decl>, e: Entry) {
    d.name != [] &&
    (|| (path == [] && e == Declared(d))
     || (path != [] && path[0] == d && body.Some? && Lies(Visit(env, body.value, false), path[1..], e)))
  }

  function BodyOf(f: Option<Node>): Option<Node> {
    if f.Some? then ByField(f.value, "body") else None
  }

  function Signed(d: Decl, f: Option<Node>): Decl {
    if f.Some? then d.(signature := ParametersOf(f.value)) else d
  }

  lemma FunctionSymHas(env: Env, d: Decl, f: Option<Node>, path: seq<Decl>, e: Entry)
    ensures Lies(FunctionSym(env, d, f), path, e) <==> HasFunction(env, Signed(d, f), BodyOf(f), path, e)
  {
    var inside := if BodyOf(f).Some? then Visit(env, BodyOf(f).value, false) else [];
    assert FunctionSym(env, d, f) == SymUnlessNameless(Signed(d, f), inside);
    if d.name != [] {
      LiesInOne(Sym(Signed(d, f), inside), path, e);
    }
  }

  /** A method among the arguments of a class call. */
  ghost predicate HasMethod(env: Env, entry: Node, name: Text, g: Node, path: seq<Decl>, e: Entry) {
    HasFunction(env, DeclAt(Method, name, entry, ParametersOf(g)), ByField(g, "body"), path, e)
  }

  lemma MethodArgHas(env: Env, entry: Node, path: seq<Decl>, e: Entry)
    ensures Lies(MethodArg(env, entry), path, e) <==>
      exists name, g :: IsMethod(entry, name, g) && HasMethod(env, entry, name, g, path, e)
  {
    if ByField(entry, "name").Some? && ByField(entry, "value").Some? {
      var name, g := ByField(entry, "name").value.text, ByField(entry, "value").value;
      if g.kind == "function_definition" {
        FunctionSymHas(env, DeclAt(Method, name, entry, None), Some(g), path, e);
        if name != [] {
          assert IsMethod(entry, name, g);
        }
      }
    }
  }

  lemma {:induction false} MethodArgsHave(env: Env, args: seq<Child>, path: seq<Decl>, e: Entry)
    ensures Lies(MethodArgs(env, args), path, e) <==>
      exists j :: 0 <= j < |args| && IsArgument(args[j]) && Lies(MethodArg(env, args[j].node), path, e)
  {
    if args != [] {
      var first := if IsArgument(args[0]) then MethodArg(env, args[0].node) else [];
      MethodArgsHave(env, args[1..], path, e);
      LiesAppend(first, MethodArgs(env, args[1..]), path, e);
      forall j | 1 <= j < |args|
        ensures args[1..][j - 1] == args[j]
      {}
    }
  }

  /** What an argument of a class call holds, `before` unnamed ones having gone by. */
  ghost predicate ArgumentHolds(env: Env, arg: Node, before: nat, path: seq<Decl>, e: Entry) {
    (path == [] && NamesParent(arg, before, e)) || DefinesMethod(env, arg, path, e)
  }

  ghost predicate NamesParent(arg: Node, before: nat, e: Entry) {
    exists v, name :: IsParentIn(arg, before, v, name) && Refers(e, EDGE_EXTENDS, name, v)
  }

  ghost predicate DefinesMethod(env: Env, arg: Node, path: seq<Decl>, e: Entry) {
    exists entry, name, g :: IsMethodIn(arg, entry, name, g) && HasMethod(env, entry, name, g, path, e)
  }

  lemma ArgumentHas(env: Env, arg: Node, before: nat, path: seq<Decl>, e: Entry)
    ensures Lies(Argument(env, arg, before), path, e) <==> ArgumentHolds(env, arg, before, path, e)
  {
    if ByField(arg, "value").Some? {
      var v := ByField(arg, "value").value;
      if ByField(arg, "name").None? {
        RefersIff(e, EDGE_EXTENDS, v.text, v);
        LiesInOne(Ref(RefAt(EDGE_EXTENDS, v.text, v)), path, e);
      } else if IsParentKey(ByField(arg, "name").value.text) {
        ParentHas(env, arg, v, before, path, e);
      } else {
        MemberHas(env, arg, v, before, path, e);
      }
    }
  }

  lemma ParentHas(env: Env, arg: Node, v: Node, before: nat, path: seq<Decl>, e: Entry)
    requires ByField(arg, "value") == Some(v)
    requires ByField(arg, "name").Some? && IsParentKey(ByField(arg, "name").value.text)
    ensures Lies(Argument(env, arg, before), path, e) <==> ArgumentHolds(env, arg, before, path, e)
  {
    assert Argument(env, arg, before) == Parent(v);
    var name := NonEmptyLiteral(Some(v));
    if name.Some? {
      RefersIff(e, EDGE_EXTENDS, name.value, v);
      LiesInOne(Ref(RefAt(EDGE_EXTENDS, name.value, v)), path, e);
      assert IsParentIn(arg, before, v, name.value);
    }
  }

  lemma MemberHas(env: Env, arg: Node, v: Node, before: nat, path: seq<Decl>, e: Entry)
    requires ByField(arg, "value") == Some(v)
    requires ByField(arg, "name").Some? && !IsParentKey(ByField(arg, "name").value.text)
    ensures Lies(Argument(env, arg, before), path, e) <==> ArgumentHolds(env, arg, before, path, e)
  {
    if v.kind == "function_definition" {
      assert Argument(env, arg, before) == MethodArg(env, arg);
      MethodArgHas(env, arg, path, e);
    } else if Calls(v, Ascii("list")) {
      assert Argument(env, arg, before) == MethodArgs(env, Arguments(v));
      if Lies(Argument(env, arg, before), path, e) {
        ListedIsHeld(env, arg, v, before, path, e);
      }
      if DefinesMethod(env, arg, path, e) {
        HeldIsListed(env, arg, v, path, e);
      }
    }
  }

  lemma HeldIsListed(env: Env, arg: Node, v: Node, path: seq<Decl>, e: Entry)
    requires ByField(arg, "value") == Some(v) && Calls(v, Ascii("list"))
    requires ByField(arg, "name").Some? && !IsParentKey(ByField(arg, "name").value.text)
    requires DefinesMethod(env, arg, path, e)
    ensures Lies(MethodArgs(env, Arguments(v)), path, e)
  {
    var entry, name, g :| IsMethodIn(arg, entry, name, g) && HasMethod(env, entry, name, g, path, e);
    assert entry != arg by {
      assert v.kind != "function_definition";
    }
    EntryIsListed(env, v, entry, name, g, path, e);
  }

  lemma EntryIsListed(env: Env, v: Node, entry: Node, name: Text, g: Node, path: seq<Decl>, e: Entry)
    requires IsArgumentOf(v, entry) && IsMethod(entry, name, g) && HasMethod(env, entry, name, g, path, e)
    ensures Lies(MethodArgs(env, Arguments(v)), path, e)
  {
    MethodArgsHave(env, Arguments(v), path, e);
    MethodArgHas(env, entry, path, e);
  }

  lemma ListedIsHeld(env: Env, arg: Node, v: Node, before: nat, path: seq<Decl>, e: Entry)
    requires ByField(arg, "value") == Some(v) && Calls(v, Ascii("list"))
    requires ByField(arg, "name").Some? && !IsParentKey(ByField(arg, "name").value.text)
    requires Lies(MethodArgs(env, Arguments(v)), path, e)
    ensures ArgumentHolds(env, arg, before, path, e)
  {
    MethodArgsHave(env, Arguments(v), path, e);
    var args := Arguments(v);
    var j :| 0 <= j < |args| && IsArgument(args[j]) && Lies(MethodArg(env, args[j].node), path, e);
    MethodArgHas(env, args[j].node, path, e);
    var name, g :| IsMethod(args[j].node, name, g) && HasMethod(env, args[j].node, name, g, path, e);
    assert IsListed(arg, args[j].node);
    assert IsMethodIn(arg, args[j].node, name, g);
  }

  ghost predicate HoldsAt(env: Env, args: seq<Child>, before: nat, i: nat, path: seq<Decl>, e: Entry)
    requires i < |args|
  {
    IsArgument(args[i]) && Lies(Argument(env, args[i].node, before + Unnamed(args[..i])), path, e)
  }

  lemma OneFurther(env: Env, args: seq<Child>, before: nat, i: nat, path: seq<Decl>, e: Entry)
    requires i + 1 < |args|
    ensures HoldsAt(env, args[1..], before + Unnamed(args[..1]), i, path, e) <==>
      HoldsAt(env, args, before, i + 1, path, e)
  {
    assert args[..i + 1][1..] == args[1..][..i] && args[..1][1..] == [];
  }

  ghost predicate SomeHolds(env: Env, args: seq<Child>, before: nat, path: seq<Decl>, e: Entry) {
    exists i :: 0 <= i < |args| && HoldsAt(env, args, before, i, path, e)
  }

  lemma SomeFurther(env: Env, args: seq<Child>, before: nat, path: seq<Decl>, e: Entry)
    requires args != [] && SomeHolds(env, args[1..], before + Unnamed(args[..1]), path, e)
    ensures SomeHolds(env, args, before, path, e)
  {
    var rest, next := args[1..], before + Unnamed(args[..1]);
    var i :| 0 <= i < |rest| && HoldsAt(env, rest, next, i, path, e);
    OneFurther(env, args, before, i, path, e);
  }

  lemma FirstOrFurther(env: Env, args: seq<Child>, before: nat, path: seq<Decl>, e: Entry)
    requires SomeHolds(env, args, before, path, e)
    ensures HoldsAt(env, args, before, 0, path, e)
      || SomeHolds(env, args[1..], before + Unnamed(args[..1]), path, e)
  {
    var i :| 0 <= i < |args| && HoldsAt(env, args, before, i, path, e);
    if i > 0 {
      OneFurther(env, args, before, i - 1, path, e);
    }
  }

  lemma SomeIff(env: Env, args: seq<Child>, before: nat, path: seq<Decl>, e: Entry)
    requires args != []
    ensures SomeHolds(env, args, before, path, e) <==>
      HoldsAt(env, args, before, 0, path, e) || SomeHolds(env, args[1..], before + Unnamed(args[..1]), path, e)
  {
    if SomeHolds(env, args, before, path, e) {
      FirstOrFurther(env, args, before, path, e);
    } else if SomeHolds(env, args[1..], before + Unnamed(args[..1]), path, e) {
      SomeFurther(env, args, before, path, e);
    }
  }

  lemma {:induction false} MembersHave(env: Env, args: seq<Child>, before: nat, path: seq<Decl>, e: Entry)
    ensures Lies(Members(env, args, before), path, e) <==> SomeHolds(env, args, before, path, e)
  {
    if args != [] {
      FirstMemberHas(env, args, before, path, e);
      MembersHave(env, args[1..], before + Unnamed(args[..1]), path, e);
      SomeIff(env, args, before, path, e);
    }
  }

  lemma FirstMemberHas(env: Env, args: seq<Child>, before: nat, path: seq<Decl>, e: Entry)
    requires args != []
    ensures Lies(Members(env, args, before), path, e) <==>
      HoldsAt(env, args, before, 0, path, e) || Lies(Members(env, args[1..], before + Unnamed(args[..1])), path, e)
  {
    var next := before + Unnamed(args[..1]);
    assert args[..1][1..] == [] && args[..0] == [];
    assert Unnamed(args[..1]) == if IsArgument(args[0]) && IsUnnamed(args[0].node) then 1 else 0;
    var first := if IsArgument(args[0]) then Argument(env, args[0].node, before) else [];
    assert Members(env, args, before) == first + Members(env, args[1..], next);
    LiesAppend(first, Members(env, args[1..], next), path, e);
  }

  /** What a class call holds within the class. */
  ghost predicate ClassHolds(env: Env, call: Node, path: seq<Decl>, e: Entry) {
    (path == [] && NamesParentOf(call, e)) || DefinesMethodOf(env, call, path, e)
  }

  ghost predicate DefinesMethodOf(env: Env, call: Node, path: seq<Decl>, e: Entry) {
    exists entry, name, g :: IsMethodOf(call, entry, name, g) && HasMethod(env, entry, name, g, path, e)
  }

  lemma MembersAreHeld(env: Env, call: Node, path: seq<Decl>, e: Entry)
    requires Lies(ClassMembers(env, call), path, e)
    ensures ClassHolds(env, call, path, e)
  {
    var args := Arguments(call);
    MembersHave(env, args, 0, path, e);
    var i :| 0 <= i < |args| && HoldsAt(env, args, 0, i, path, e);
    var arg := args[i].node;
    ArgumentHas(env, arg, Unnamed(args[..i]), path, e);
    if DefinesMethod(env, arg, path, e) {
      var entry, name, g :| IsMethodIn(arg, entry, name, g) && HasMethod(env, entry, name, g, path, e);
      assert IsArgumentOf(call, arg);
      assert IsMethodOf(call, entry, name, g);
    } else {
      var v, name :| IsParentIn(arg, Unnamed(args[..i]), v, name) && Refers(e, EDGE_EXTENDS, name, v);
      assert IsParentAt(args, i, v, name);
      assert IsParentOf(call, v, name);
    }
  }

  lemma MethodIsMember(env: Env, call: Node, entry: Node, name: Text, g: Node, path: seq<Decl>, e: Entry)
    requires IsMethodOf(call, entry, name, g) && HasMethod(env, entry, name, g, path, e)
    ensures Lies(ClassMembers(env, call), path, e)
  {
    var args := Arguments(call);
    var arg :| IsArgumentOf(call, arg) && IsMethodIn(arg, entry, name, g);
    var i :| 0 <= i < |args| && IsArgument(args[i]) && args[i].node == arg;
    assert DefinesMethod(env, arg, path, e);
    ArgumentHas(env, arg, Unnamed(args[..i]), path, e);
    assert HoldsAt(env, args, 0, i, path, e);
    MembersHave(env, args, 0, path, e);
  }

  lemma ParentIsMember(env: Env, call: Node, v: Node, name: Text, e: Entry)
    requires IsParentOf(call, v, name) && Refers(e, EDGE_EXTENDS, name, v)
    ensures Lies(ClassMembers(env, call), [], e)
  {
    var args := Arguments(call);
    var i :| 0 <= i < |args| && IsParentAt(args, i, v, name);
    assert NamesParent(args[i].node, Unnamed(args[..i]), e);
    ArgumentHas(env, args[i].node, Unnamed(args[..i]), [], e);
    assert HoldsAt(env, args, 0, i, [], e);
    MembersHave(env, args, 0, [], e);
  }

  // ----- one node -----

  lemma {:induction false} VisitAllHas(env: Env, children: seq<Child>, top: bool, path: seq<Decl>, e: Entry)
    ensures Lies(VisitAll(env, children, top), path, e) <==>
      exists i :: 0 <= i < |children| && children[i].named && Lies(Visit(env, children[i].node, top), path, e)
  {
    if children != [] {
      var first := if children[0].named then Visit(env, children[0].node, top) else [];
      VisitAllHas(env, children[1..], top, path, e);
      LiesAppend(first, VisitAll(env, children[1..], top), path, e);
      forall i | 1 <= i < |children|
        ensures children[1..][i - 1] == children[i]
      {}
    }
  }

  /** What the walk finds where it goes on from `n`. */
  ghost predicate GoesOn(env: Env, n: Node, sort: Sort, path: seq<Decl>, e: Entry) {
    exists c, top, under :: GoesTo(n, sort, c, top, under) && Finds(env, n, c, top, under, path, e)
  }

  predicate Finds(env: Env, n: Node, c: Node, top: bool, under: seq<Decl>, path: seq<Decl>, e: Entry) {
    Size(c) < Size(n) && under <= path && Lies(Visit(env, c, top), path[|under|..], e)
  }

  lemma ArgumentIsSmaller(call: Node, arg: Node)
    requires IsArgumentOf(call, arg)
    ensures Size(arg) < Size(call)
  {
    var j :| 0 <= j < |Arguments(call)| && Arguments(call)[j].node == arg;
    ChildIsSmaller(Arguments(call), j);
  }

  lemma MethodIsSmaller(call: Node, entry: Node, name: Text, g: Node)
    requires IsMethodOf(call, entry, name, g)
    ensures Size(g) < Size(call)
  {
    var arg :| IsArgumentOf(call, arg) && IsMethodIn(arg, entry, name, g);
    ArgumentIsSmaller(call, arg);
    if entry != arg {
      ArgumentIsSmaller(ByField(arg, "value").value, entry);
    }
  }

  /** A declared function is the declaration, or in it what the walk of its body finds. */
  lemma FunctionFound(env: Env, n: Node, sort: Sort, d: Decl, g: Node, path: seq<Decl>, e: Entry)
    requires HasFunction(env, d, ByField(g, "body"), path, e) && Size(g) < Size(n)
    requires forall c :: ByField(g, "body") == Some(c) ==> GoesTo(n, sort, c, false, [d])
    ensures (path == [] && e == Declared(d)) || GoesOn(env, n, sort, path, e)
  {
    if path != [] {
      assert Finds(env, n, ByField(g, "body").value, false, [d], path, e);
    }
  }

  lemma ImportFound(env: Env, n: Node, name: Text, path: seq<Decl>, e: Entry)
    ensures Lies(ImportItems(env, n, name), path, e) <==>
      && path == []
      && (Declares(e, Import, name, n, Some(env.importSignature(n.text))) || Refers(e, EDGE_IMPORTS, name, n))
  {
    var d, r := Sym(DeclAt(Import, name, n, Some(env.importSignature(n.text))), []), Ref(RefAt(EDGE_IMPORTS, name, n));
    assert ImportItems(env, n, name) == [d] + [r];
    LiesAppend([d], [r], path, e);
    LiesInOne(d, path, e);
    LiesInOne(r, path, e);
  }

  lemma ClassFound(env: Env, n: Node, name: Text, path: seq<Decl>, e: Entry)
    requires Lies(Items(env, n, ClassCall(name)), path, e)
    ensures Yields(env, n, ClassCall(name), path, e) || GoesOn(env, n, ClassCall(name), path, e)
  {
    LiesInOne(Sym(DeclAt(Class, name, n, None), ClassMembers(env, n)), path, e);
    if path != [] {
      MemberFound(env, n, name, path, e);
    }
  }

  lemma MemberFound(env: Env, n: Node, name: Text, path: seq<Decl>, e: Entry)
    requires path != [] && path[0] == DeclAt(Class, name, n, None) && Lies(ClassMembers(env, n), path[1..], e)
    ensures (|path| == 1 && YieldsMember(n, e)) || GoesOn(env, n, ClassCall(name), path, e)
  {
    MembersAreHeld(env, n, path[1..], e);
    if DefinesMethodOf(env, n, path[1..], e) {
      var entry, key, g :| IsMethodOf(n, entry, key, g) && HasMethod(env, entry, key, g, path[1..], e);
      MethodFound(env, n, name, entry, key, g, path, e);
    }
  }

  lemma MethodFound(env: Env, n: Node, name: Text, entry: Node, key: Text, g: Node, path: seq<Decl>, e: Entry)
    requires IsMethodOf(n, entry, key, g) && path != [] && path[0] == DeclAt(Class, name, n, None)
    requires HasMethod(env, entry, key, g, path[1..], e)
    ensures (|path| == 1 && DeclaresMethodOf(n, e)) || GoesOn(env, n, ClassCall(name), path, e)
  {
    if |path| > 1 {
      MethodIsSmaller(n, entry, key, g);
      assert path[1..][1..] == path[2..];
      assert GoesToMethod(n, ByField(g, "body").value, path[1]);
      MethodBodyFound(env, n, name, ByField(g, "body").value, path, e);
    }
  }

  lemma MethodBodyFound(env: Env, n: Node, name: Text, body: Node, path: seq<Decl>, e: Entry)
    requires |path| >= 2 && Declares(Declared(path[0]), Class, name, n, None) && GoesToMethod(n, body, path[1])
    requires Size(body) < Size(n) && Lies(Visit(env, body, false), path[2..], e)
    ensures GoesOn(env, n, ClassCall(name), path, e)
  {
    var under := path[..2];
    assert GoesTo(n, ClassCall(name), body, false, under);
    assert Finds(env, n, body, false, under, path, e);
  }

  lemma ValueFound(env: Env, n: Node, target: Option<Text>, value: Node, path: seq<Decl>, e: Entry)
    ensures var sort := ValueAssigned(target, value);
      Lies(Items(env, n, sort), path, e) <==> Yields(env, n, sort, path, e) || Lies(Visit(env, value, false), path, e)
  {
    var first := if target.None? then [] else RLang.Variable(target.value, n);
    LiesAppend(first, Visit(env, value, false), path, e);
    if target.Some? && target.value != [] {
      LiesInOne(Sym(DeclAt(ValueKind(target.value), target.value, n, None), []), path, e);
    }
  }

  lemma CallFound(env: Env, n: Node, path: seq<Decl>, e: Entry)
    ensures Lies(Items(env, n, OtherCall), path, e) <==>
      Yields(env, n, OtherCall, path, e) || Lies(VisitAll(env, n.children, false), path, e)
  {
    LiesAppend(ExtractCall(env.parenConversion, n), VisitAll(env, n.children, false), path, e);
    if CalleeText(env.parenConversion, n).Some? {
      LiesInOne(Ref(RefAt(EDGE_CALLS, CalleeText(env.parenConversion, n).value, n)), path, e);
    }
  }

  lemma ChildFound(env: Env, n: Node, sort: Sort, path: seq<Decl>, e: Entry)
    requires (sort.OtherCall? || sort.Other?) && Lies(VisitAll(env, n.children, n.kind == "program"), path, e)
    ensures GoesOn(env, n, sort, path, e)
  {
    var top := n.kind == "program";
    VisitAllHas(env, n.children, top, path, e);
    var i :| 0 <= i < |n.children| && n.children[i].named && Lies(Visit(env, n.children[i].node, top), path, e);
    var c := n.children[i].node;
    ChildIsSmaller(n.children, i);
    assert IsNamedChild(c, n);
    assert Finds(env, n, c, top, [], path, e);
  }

  /** All that the visit of a node finds, the node yields, or it is found where the walk goes from it. */
  lemma FoundIsYielded(env: Env, n: Node, top: bool, sort: Sort, path: seq<Decl>, e: Entry)
    requires IsOfSort(n, top, sort) && Lies(Visit(env, n, top), path, e)
    ensures Yields(env, n, sort, path, e) || GoesOn(env, n, sort, path, e)
  {
    VisitYieldsItems(env, n, top, sort);
    LiesPastMark(n.index, Main, Plain, Items(env, n, sort), path, e);
    match sort
    case ImportCall(told) =>
      if told.Some? {
        ImportFound(env, n, told.value, path, e);
      }
    case ClassCall(name) => ClassFound(env, n, name, path, e);
    case GenericCall(name, f) => GenericFound(env, n, name, f, path, e);
    case FunctionAssigned(name, g) => AssignedFunctionFound(env, n, name, g, path, e);
    case ValueAssigned(target, value) =>
      ValueFound(env, n, target, value, path, e);
      assert Lies(Visit(env, value, false), path, e) ==> Finds(env, n, value, false, [], path, e);
    case OtherCall =>
      CallFound(env, n, path, e);
      if !Yields(env, n, sort, path, e) {
        ChildFound(env, n, sort, path, e);
      }
    case Other => ChildFound(env, n, sort, path, e);
  }

  lemma GenericFound(env: Env, n: Node, name: Text, f: Option<Node>, path: seq<Decl>, e: Entry)
    requires name != [] && f == Implementation(n) && Lies(Items(env, n, GenericCall(name, f)), path, e)
    ensures var sort := GenericCall(name, f); Yields(env, n, sort, path, e) || GoesOn(env, n, sort, path, e)
  {
    FunctionSymHas(env, DeclAt(Function, name, n, None), f, path, e);
    if f.Some? {
      FunctionFound(env, n, GenericCall(name, f), DeclAt(Function, name, n, ParametersOf(f.value)), f.value, path, e);
    }
  }

  lemma AssignedFunctionFound(env: Env, n: Node, name: Text, g: Node, path: seq<Decl>, e: Entry)
    requires Size(g) < Size(n) && Lies(Items(env, n, FunctionAssigned(name, g)), path, e)
    ensures var sort := FunctionAssigned(name, g); Yields(env, n, sort, path, e) || GoesOn(env, n, sort, path, e)
  {
    FunctionSymHas(env, DeclAt(Function, name, n, None), Some(g), path, e);
    FunctionFound(env, n, FunctionAssigned(name, g), DeclAt(Function, name, n, ParametersOf(g)), g, path, e);
  }

  /** All that a node yields, its visit finds. */
  lemma YieldedIsFound(env: Env, n: Node, top: bool, sort: Sort, path: seq<Decl>, e: Entry)
    requires IsOfSort(n, top, sort) && Yields(env, n, sort, path, e)
    ensures Lies(Visit(env, n, top), path, e)
  {
    VisitYieldsItems(env, n, top, sort);
    LiesPastMark(n.index, Main, Plain, Items(env, n, sort), path, e);
    match sort
    case ImportCall(told) => ImportFound(env, n, told.value, path, e);
    case ClassCall(name) => ClassYields(env, n, name, path, e);
    case GenericCall(name, f) => FunctionSymHas(env, DeclAt(Function, name, n, None), f, path, e);
    case FunctionAssigned(name, g) => FunctionSymHas(env, DeclAt(Function, name, n, None), Some(g), path, e);
    case ValueAssigned(target, value) => ValueFound(env, n, target, value, path, e);
    case OtherCall => CallFound(env, n, path, e);
  }

  lemma ClassYields(env: Env, n: Node, name: Text, path: seq<Decl>, e: Entry)
    requires Yields(env, n, ClassCall(name), path, e)
    ensures Lies(Items(env, n, ClassCall(name)), path, e)
  {
    LiesInOne(Sym(DeclAt(Class, name, n, None), ClassMembers(env, n)), path, e);
    if path != [] {
      assert path[1..] == [];
      if NamesParentOf(n, e) {
        var v, parent :| IsParentOf(n, v, parent) && Refers(e, EDGE_EXTENDS, parent, v);
        ParentIsMember(env, n, v, parent, e);
      } else {
        var entry, key, g :| IsMethodOf(n, entry, key, g) && Declares(e, Method, key, entry, ParametersOf(g));
        MethodIsMember(env, n, entry, key, g, [], e);
      }
    }
  }

  /** And all that is found where the walk goes, the visit finds. */
  lemma GoneToIsFound(env: Env, n: Node, top: bool, sort: Sort, c: Node, top': bool, under: seq<Decl>,
                      path: seq<Decl>, e: Entry)
    requires IsOfSort(n, top, sort) && GoesTo(n, sort, c, top', under) && Lies(Visit(env, c, top'), path, e)
    ensures Lies(Visit(env, n, top), under + path, e)
  {
    GoneToIsInItems(env, n, sort, c, top', under, path, e);
    VisitYieldsItems(env, n, top, sort);
    LiesPastMark(n.index, Main, Plain, Items(env, n, sort), under + path, e);
  }

  lemma GoneToIsInItems(env: Env, n: Node, sort: Sort, c: Node, top: bool, under: seq<Decl>, path: seq<Decl>, e: Entry)
    requires (sort.OtherCall? ==> n.kind == "call") && (sort.GenericCall? ==> sort.name != [])
    requires GoesTo(n, sort, c, top, under) && Lies(Visit(env, c, top), path, e)
    ensures Lies(Items(env, n, sort), under + path, e)
  {
    if sort.ClassCall? {
      MethodBodyLies(env, n, sort.name, c, under, path, e);
    } else if sort.GenericCall? {
      FunctionBodyLies(env, DeclAt(Function, sort.name, n, None), sort.f.value, c, under, path, e);
    } else if sort.FunctionAssigned? {
      FunctionBodyLies(env, DeclAt(Function, sort.name, n, None), sort.g, c, under, path, e);
    } else {
      BelowIsFound(env, n, sort, c, top, under, path, e);
    }
  }

  lemma BelowIsFound(env: Env, n: Node, sort: Sort, c: Node, top: bool, under: seq<Decl>, path: seq<Decl>, e: Entry)
    requires !sort.ClassCall? && !sort.GenericCall? && !sort.FunctionAssigned?
    requires sort.OtherCall? ==> n.kind == "call"
    requires GoesTo(n, sort, c, top, under) && Lies(Visit(env, c, top), path, e)
    ensures Lies(Items(env, n, sort), under + path, e)
  {
    assert under + path == path;
    match sort
    case ValueAssigned(target, value) => ValueFound(env, n, target, value, path, e);
    case OtherCall =>
      ChildLies(env, n, c, top, path, e);
      CallFound(env, n, path, e);
    case Other => ChildLies(env, n, c, top, path, e);
  }

  lemma ChildLies(env: Env, n: Node, c: Node, top: bool, path: seq<Decl>, e: Entry)
    requires IsNamedChild(c, n) && Lies(Visit(env, c, top), path, e)
    ensures Lies(VisitAll(env, n.children, top), path, e)
  {
    VisitAllHas(env, n.children, top, path, e);
  }

  lemma FunctionBodyLies(env: Env, d: Decl, g: Node, body: Node, under: seq<Decl>, path: seq<Decl>, e: Entry)
    requires d.name != [] && under == [Signed(d, Some(g))] && ByField(g, "body") == Some(body)
    requires Lies(Visit(env, body, false), path, e)
    ensures Lies(FunctionSym(env, d, Some(g)), under + path, e)
  {
    FunctionSymHas(env, d, Some(g), under + path, e);
    assert (under + path)[1..] == path;
  }

  lemma MethodBodyLies(env: Env, n: Node, name: Text, body: Node, under: seq<Decl>, path: seq<Decl>, e: Entry)
    requires GoesTo(n, ClassCall(name), body, false, under) && Lies(Visit(env, body, false), path, e)
    ensures Lies(Items(env, n, ClassCall(name)), under + path, e)
  {
    var entry, key, g :| IsMethodOf(n, entry, key, g)
      && Declares(Declared(under[1]), Method, key, entry, ParametersOf(g)) && ByField(g, "body") == Some(body);
    var inner := [under[1]] + path;
    assert HasMethod(env, entry, key, g, inner, e) by {
      assert inner[1..] == path;
    }
    MethodIsMember(env, n, entry, key, g, inner, e);
    ClassMemberLies(env, n, name, under, path, e);
  }

  lemma ClassMemberLies(env: Env, n: Node, name: Text, under: seq<Decl>, path: seq<Decl>, e: Entry)
    requires |under| == 2 && under[0] == DeclAt(Class, name, n, None)
    requires Lies(ClassMembers(env, n), [under[1]] + path, e)
    ensures Lies(Items(env, n, ClassCall(name)), under + path, e)
  {
    LiesInOne(Sym(DeclAt(Class, name, n, None), ClassMembers(env, n)), under + path, e);
    assert (under + path)[1..] == [under[1]] + path;
  }

  // ----- the whole tree -----

  /** The walk goes from `n` to `c`, inside the declarations `under`. */
  ghost predicate Leads(n: Node, top: bool, c: Node, top': bool, under: seq<Decl>) {
    Size(c) < Size(n) && exists sort :: IsOfSort(n, top, sort) && GoesTo(n, sort, c, top', under)
  }

  /** The walk from `n` comes to `m`, inside the declarations `outer`. */
  ghost predicate Reaches(n: Node, top: bool, m: Node, top': bool, outer: seq<Decl>)
    decreases Size(n)
  {
    || (m == n && top' == top && outer == [])
    || (exists c, top'', under :: Leads(n, top, c, top'', under) && under <= outer
          && Reaches(c, top'', m, top', outer[|under|..]))
  }

  /** `n`, reached so, yields `e`. */
  ghost predicate YieldsAsMet(env: Env, n: Node, top: bool, path: seq<Decl>, e: Entry) {
    exists sort :: IsOfSort(n, top, sort) && Yields(env, n, sort, path, e)
  }

  /** `e` is yielded by a node the walk from `n` comes to. */
  ghost predicate Stands(env: Env, n: Node, top: bool, path: seq<Decl>, e: Entry) {
    exists m, top', outer, own ::
      path == outer + own && Reaches(n, top, m, top', outer) && YieldsAsMet(env, m, top', own, e)
  }

  /** The step from a node to what the walk goes to. */
  lemma OneStep(env: Env, n: Node, top: bool, path: seq<Decl>, e: Entry)
      returns (here: bool, c: Node, top': bool, under: seq<Decl>)
    requires Lies(Visit(env, n, top), path, e)
    ensures here ==> YieldsAsMet(env, n, top, path, e)
    ensures !here ==> Leads(n, top, c, top', under) && Finds(env, n, c, top', under, path, e)
  {
    var sort := NodeIsOfSort(n, top);
    FoundIsYielded(env, n, top, sort, path, e);
    here, c, top', under := Yields(env, n, sort, path, e), n, top, [];
    if !here {
      c, top', under :| GoesTo(n, sort, c, top', under) && Finds(env, n, c, top', under, path, e);
    }
  }

  lemma OneStepBack(env: Env, n: Node, top: bool, c: Node, top': bool, under: seq<Decl>, path: seq<Decl>, e: Entry)
    requires Leads(n, top, c, top', under) && Lies(Visit(env, c, top'), path, e)
    ensures Lies(Visit(env, n, top), under + path, e)
  {
    var sort :| IsOfSort(n, top, sort) && GoesTo(n, sort, c, top', under);
    GoneToIsFound(env, n, top, sort, c, top', under, path, e);
  }

  lemma FirstStep(n: Node, top: bool, c: Node, top': bool, under: seq<Decl>, m: Node, top'': bool, outer: seq<Decl>)
    requires Leads(n, top, c, top', under) && Reaches(c, top', m, top'', outer)
    ensures Reaches(n, top, m, top'', under + outer)
  {
    assert (under + outer)[|under|..] == outer;
  }

  lemma {:induction false} FoundComesFrom(env: Env, n: Node, top: bool, path: seq<Decl>, e: Entry)
      returns (m: Node, top': bool, outer: seq<Decl>, own: seq<Decl>)
    requires Lies(Visit(env, n, top), path, e)
    ensures path == outer + own && Reaches(n, top, m, top', outer) && YieldsAsMet(env, m, top', own, e)
    decreases Size(n)
  {
    var here, c, top'', under := OneStep(env, n, top, path, e);
    if here {
      return n, top, [], path;
    }
    var inner;
    m, top', inner, own := FoundComesFrom(env, c, top'', path[|under|..], e);
    FirstStep(n, top, c, top'', under, m, top', inner);
    HeadAndRest(under, path);
    Regroup(under, inner, own);
    outer := under + inner;
  }

  lemma {:induction false} ReachedIsFound(env: Env, n: Node, top: bool, m: Node, top': bool, outer: seq<Decl>,
                                          path: seq<Decl>, e: Entry)
    requires Reaches(n, top, m, top', outer) && Lies(Visit(env, m, top'), path, e)
    ensures Lies(Visit(env, n, top), outer + path, e)
    decreases Size(n)
  {
    if m == n && top' == top && outer == [] {
      assert outer + path == path;
    } else {
      var c, top'', under :|
        Leads(n, top, c, top'', under) && under <= outer && Reaches(c, top'', m, top', outer[|under|..]);
      var rest := outer[|under|..];
      ReachedIsFound(env, c, top'', m, top', rest, path, e);
      OneStepBack(env, n, top, c, top'', under, rest + path, e);
      HeadAndRest(under, outer);
      Regroup(under, rest, path);
    }
  }

  lemma YieldedAsMetIsFound(env: Env, n: Node, top: bool, path: seq<Decl>, e: Entry)
    requires YieldsAsMet(env, n, top, path, e)
    ensures Lies(Visit(env, n, top), path, e)
  {
    var sort :| IsOfSort(n, top, sort) && Yields(env, n, sort, path, e);
    YieldedIsFound(env, n, top, sort, path, e);
  }

  lemma YieldedWhereReached(env: Env, root: Node, m: Node, top: bool, outer: seq<Decl>, path: seq<Decl>, e: Entry)
    requires Reaches(root, false, m, top, outer) && YieldsAsMet(env, m, top, path, e)
    ensures Lies(Visit(env, root, false), outer + path, e)
  {
    YieldedAsMetIsFound(env, m, top, path, e);
    ReachedIsFound(env, root, false, m, top, outer, path, e);
  }

  /**
   The outline of a file holds what the nodes the walk comes to yield, each in
   the declarations it is met in, and nothing else.
   */
  lemma OutlineHoldsExactly(env: Env, root: Node, path: seq<Decl>, e: Entry)
    ensures Lies(Visit(env, root, false), path, e) <==> Stands(env, root, false, path, e)
  {
    if Lies(Visit(env, root, false), path, e) {
      var m, top, outer, own := FoundComesFrom(env, root, false, path, e);
    }
    if Stands(env, root, false, path, e) {
      var m, top, outer, own :|
        path == outer + own && Reaches(root, false, m, top, outer) && YieldsAsMet(env, m, top, own, e);
      YieldedWhereReached(env, root, m, top, outer, own, e);
    }
  }
}
