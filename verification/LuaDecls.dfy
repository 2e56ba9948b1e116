/**
 What Lua extraction finds, said of the syntax tree: which nodes the two walks
 come to and inside which declarations, and what each of them yields.
 */
module LuaDecls {
  import opened Buffers
  import opened Bytes
  import opened Contents
  import opened Options
  import opened Outline
  import opened SyntaxTree
  import opened Texts
  import opened Walking
  import opened Lua
  import opened LuaTables

  // ----- what a node declares -----

  /** `d` is what the function declaration `n` declares: a method of the table it names, or else a function. */
  predicate IsDeclaredBy(env: Env, n: Node, d: Decl) {
    ExtractName(n) != [] &&
    match ReceiverType(n)
    case Some(owner) => IsMethodOf(env, d, n, ExtractName(n), owner, env.docstring(n.index))
    case None => ExtractName(n) != ANONYMOUS && IsFunctionOf(env, d, n, ExtractName(n), env.docstring(n.index))
  }

  predicate IsAnonymous(n: Node) {
    ReceiverType(n).None? && ExtractName(n) == ANONYMOUS
  }

  /** The `i`th target, and the value at its place, if there is one. */
  predicate IsPair(n: Node, i: nat, t: Node, value: Option<Node>) {
    var targets := ListOf(AssignmentOf(n), "variable_list");
    i < |targets| && t == targets[i] && value == ValueAt(ListOf(AssignmentOf(n), "expression_list"), i)
  }

  function ValueAt(values: seq<Node>, i: nat): Option<Node> {
    if i < |values| then Some(values[i]) else None
  }

  predicate IsFunctionValue(value: Option<Node>) {
    value.Some? && value.value.kind == "function_definition"
  }

  predicate IsTableValue(value: Option<Node>) {
    value.Some? && value.value.kind == "table_constructor"
  }

  /** `d` declares the function at a target's place: a method if the target has a receiver. */
  predicate IsAssignedFunction(env: Env, n: Node, target: Target, f: Node, d: Decl) {
    match target.receiver
    case Some(owner) => IsMethodOf(env, d, f, target.name, owner, env.docstring(n.index))
    case None => IsFunctionOf(env, d, f, target.name, env.docstring(n.index))
  }

  /** `d` declares `f`, which stands at the place of the target `t`, or in the table there. */
  ghost predicate TargetDeclares(env: Env, n: Node, t: Node, value: Option<Node>, f: Node, d: Decl) {
    AssignmentTarget(env, t).Some? &&
    var target := AssignmentTarget(env, t).value;
    || (IsFunctionValue(value) && f == value.value && IsAssignedFunction(env, n, target, f, d))
    || (IsTableValue(value)
        && exists keys :: IsTableMethod(env, Named(value.value.children), target.fullName, keys, f, d))
  }

  /** `d` is the variable that a local target without a function at its place makes. */
  predicate TargetIsVariable(env: Env, n: Node, t: Node, value: Option<Node>, d: Decl) {
    && n.kind != "assignment_statement" && !IsFunctionValue(value)
    && AssignmentTarget(env, t).Some? && AssignmentTarget(env, t).value.receiver.None?
    && d.kind == Outline.Variable && d.name == AssignmentTarget(env, t).value.name
    && d.span == t.span && d.at == t.index
    && d.docstring == env.docstring(n.index)
    && d.signature == (if value.Some? then Some(env.initSignature(value.value.text)) else None)
    && d.exported == Some(IsExportedOf(env, n) == Some(true)) && d.qualifiedOverride.None?
  }

  lemma ExtractFunctionHas(env: Env, n: Node, path: seq<Decl>, e: Entry)
    ensures Lies(ExtractFunction(env, n), path, e) <==>
      || (exists d :: IsDeclaredBy(env, n, d) && HasFunction(env, d, n, path, e))
      || (IsAnonymous(n) && HasBody(env, n, path, e))
  {
    match ReceiverType(n)
    case Some(owner) =>
      var d := MethodDecl(env, n, owner);
      WithBodyHas(env, d, n, path, e);
      assert forall d' :: IsDeclaredBy(env, n, d') <==> d'.name != [] && d' == d;
    case None =>
      var d := FunctionDecl(env, n);
      WithBodyHas(env, d, n, path, e);
      assert forall d' :: IsDeclaredBy(env, n, d') <==> d'.name != [] && d'.name != ANONYMOUS && d' == d;
  }

  lemma TargetFound(env: Env, n: Node, t: Node, value: Option<Node>, path: seq<Decl>, e: Entry)
    requires Lies(VariableTarget(env, n, t, value), path, e)
    ensures (path == [] && e.Declared? && TargetIsVariable(env, n, t, value, e.decl))
      || exists f, d :: TargetDeclares(env, n, t, value, f, d) && HasFunction(env, d, f, path, e)
  {
    var target := AssignmentTarget(env, t).value;
    if IsFunctionValue(value) {
      var d := FunctionValueDecl(env, value.value, target.name, target.receiver, env.docstring(n.index));
      WithBodyHas(env, d, value.value, path, e);
      assert TargetDeclares(env, n, t, value, value.value, d);
    } else {
      var d := VariableDecl(env, n, t, target.name, value);
      var methods := if IsTableValue(value)
        then TableFunctions(env, Named(value.value.children), target.fullName) else [];
      var variable := if target.receiver.Some? || n.kind == "assignment_statement" then [] else [Sym(d, [])];
      LiesAppend(methods, variable, path, e);
      LiesInOne(Sym(d, []), path, e);
      if Lies(methods, path, e) {
        var keys, f, d' := TableFound(env, Named(value.value.children), target.fullName, path, e);
        assert TargetDeclares(env, n, t, value, f, d');
      }
    }
  }

  lemma TargetVariableLies(env: Env, n: Node, t: Node, value: Option<Node>, d: Decl)
    requires TargetIsVariable(env, n, t, value, d)
    ensures Lies(VariableTarget(env, n, t, value), [], Declared(d))
  {
    var target := AssignmentTarget(env, t).value;
    assert d == VariableDecl(env, n, t, target.name, value);
    var methods := if IsTableValue(value)
      then TableFunctions(env, Named(value.value.children), target.fullName) else [];
    LiesAppend(methods, [Sym(d, [])], [], Declared(d));
    LiesInOne(Sym(d, []), [], Declared(d));
  }

  lemma TargetFunctionLies(env: Env, n: Node, t: Node, value: Option<Node>, f: Node, d: Decl, path: seq<Decl>, e: Entry)
    requires TargetDeclares(env, n, t, value, f, d) && HasFunction(env, d, f, path, e)
    ensures Lies(VariableTarget(env, n, t, value), path, e)
  {
    var target := AssignmentTarget(env, t).value;
    if IsFunctionValue(value) {
      assert d == FunctionValueDecl(env, f, target.name, target.receiver, env.docstring(n.index));
      WithBodyHas(env, d, f, path, e);
    } else {
      var fields := Named(value.value.children);
      var variable := if target.receiver.Some? || n.kind == "assignment_statement" then []
                      else [Sym(VariableDecl(env, n, t, target.name, value), [])];
      var keys :| IsTableMethod(env, fields, target.fullName, keys, f, d);
      TableMethodIsFound(env, fields, target.fullName, keys, f, d, path, e);
      LiesAppend(TableFunctions(env, fields, target.fullName), variable, path, e);
    }
  }

  lemma {:induction false} TargetsHave(env: Env, n: Node, targets: seq<Node>, values: seq<Node>,
                                       path: seq<Decl>, e: Entry)
    ensures Lies(VariableTargets(env, n, targets, values), path, e) <==>
      exists i :: 0 <= i < |targets| && Lies(VariableTarget(env, n, targets[i], ValueAt(values, i)), path, e)
    decreases |targets|
  {
    if targets != [] {
      var rest := if values == [] then [] else values[1..];
      LiesAppend(VariableTarget(env, n, targets[0], ValueAt(values, 0)),
                 VariableTargets(env, n, targets[1..], rest), path, e);
      TargetsHave(env, n, targets[1..], rest, path, e);
      forall i | 1 <= i < |targets|
        ensures targets[1..][i - 1] == targets[i] && ValueAt(rest, i - 1) == ValueAt(values, i)
      {}
    }
  }

  predicate NamesImport(env: Env, call: Node, mod: Text, e: Entry) {
    || Refers(e, EDGE_IMPORTS, mod, call)
    || (&& e.Declared? && e.decl.kind == Outline.Import && e.decl.name == mod && e.decl.span == call.span
        && e.decl.at == call.index && e.decl.signature == Some(env.importSignature(call.text))
        && e.decl.docstring.None? && e.decl.exported.None? && e.decl.qualifiedOverride.None?)
  }

  lemma ImportHas(env: Env, call: Node, mod: Text, path: seq<Decl>, e: Entry)
    ensures Lies(Lua.Import(env, call, mod), path, e) <==> path == [] && NamesImport(env, call, mod, e)
  {
    var d, r := Sym(ImportDecl(env, call, mod), []), Ref(RefAt(EDGE_IMPORTS, mod, call));
    assert Lua.Import(env, call, mod) == [d] + [r];
    LiesAppend([d], [r], path, e);
    LiesInOne(d, path, e);
    LiesInOne(r, path, e);
  }

  /** `v` is a call that requires `mod`. */
  predicate Requires(env: Env, v: Node, mod: Text) {
    v.kind == "function_call" && RequireModule(env, v) == Some(mod)
  }

  lemma {:induction false} InitializersHave(env: Env, values: seq<Node>, path: seq<Decl>, e: Entry)
    ensures Lies(Initializers(env, values), path, e) <==>
      path == [] && exists v, mod :: v in values && Requires(env, v, mod) && NamesImport(env, v, mod, e)
  {
    if values != [] {
      LiesAppend(Lua.Initializer(env, values[0]), Initializers(env, values[1..]), path, e);
      InitializersHave(env, values[1..], path, e);
      InitializerHas(env, values[0], path, e);
      assert values == [values[0]] + values[1..];
    }
  }

  lemma InitializerHas(env: Env, v: Node, path: seq<Decl>, e: Entry)
    ensures Lies(Lua.Initializer(env, v), path, e) <==>
      path == [] && exists mod :: Requires(env, v, mod) && NamesImport(env, v, mod, e)
  {
    if v.kind == "function_call" {
      var found := match RequireModule(env, v) case None => [] case Some(mod) => Lua.Import(env, v, mod);
      LiesPastMark(v.index, Mode.Initializer, RoleOf(env, v), found, path, e);
      if RequireModule(env, v).Some? {
        ImportHas(env, v, RequireModule(env, v).value, path, e);
      }
    }
  }

  // ----- what a node yields, and where the walks go from it -----

  predicate IsAssignment(n: Node, mode: Mode) {
    mode.Main? && (n.kind == "variable_declaration" || n.kind == "assignment_statement")
  }

  predicate IsResolved(env: Env, n: Node, mode: Mode) {
    mode.Main? && n.kind == "function_call" && RequireModule(env, n).Some?
  }

  ghost predicate YieldsRequire(env: Env, n: Node, mode: Mode, e: Entry) {
    mode.Main? && exists mod :: Requires(env, n, mod) && NamesImport(env, n, mod, e)
  }

  ghost predicate YieldsInitial(env: Env, n: Node, mode: Mode, e: Entry) {
    mode.Main? && exists v, mod :: v in InitialValues(n) && Requires(env, v, mod) && NamesImport(env, v, mod, e)
  }

  predicate YieldsFunction(env: Env, n: Node, e: Entry) {
    n.kind == "function_declaration" && e.Declared? && IsDeclaredBy(env, n, e.decl)
  }

  ghost predicate YieldsAssigned(env: Env, n: Node, mode: Mode, e: Entry) {
    IsAssignment(n, mode) && e.Declared?
    && exists i, t, value, f :: IsPair(n, i, t, value) && TargetDeclares(env, n, t, value, f, e.decl)
  }

  ghost predicate YieldsVariable(env: Env, n: Node, mode: Mode, e: Entry) {
    IsAssignment(n, mode) && e.Declared?
    && exists i, t, value :: IsPair(n, i, t, value) && TargetIsVariable(env, n, t, value, e.decl)
  }

  predicate YieldsAlias(env: Env, n: Node, mode: Mode, e: Entry) {
    && mode.Main? && env.isLuau && n.kind == "type_definition" && ExtractName(n) != ANONYMOUS && ExtractName(n) != []
    && e.Declared? && e.decl.kind == TypeAlias && e.decl.name == ExtractName(n) && e.decl.span == n.span
    && e.decl.at == n.index && e.decl.docstring == env.docstring(n.index) && e.decl.signature.None?
    && e.decl.exported == IsExportedOf(env, n) && e.decl.qualifiedOverride.None?
  }

  predicate YieldsCall(env: Env, n: Node, mode: Mode, e: Entry) {
    && n.kind == "function_call" && !IsResolved(env, n, mode) && CalleeText(env.parenConversion, n).Some?
    && Refers(e, EDGE_CALLS, CalleeText(env.parenConversion, n).value, n)
  }

  /** `n`, met in this walk, yields `e`. */
  ghost predicate Yields(env: Env, n: Node, mode: Mode, e: Entry) {
    || YieldsRequire(env, n, mode, e) || YieldsInitial(env, n, mode, e) || YieldsFunction(env, n, e)
    || YieldsAssigned(env, n, mode, e) || YieldsVariable(env, n, mode, e) || YieldsAlias(env, n, mode, e)
    || YieldsCall(env, n, mode, e)
  }

  predicate GoesToFunction(env: Env, n: Node, c: Node, under: seq<Decl>) {
    && n.kind == "function_declaration" && ByField(n, "body") == Some(c)
    && ((under == [] && IsAnonymous(n)) || (|under| == 1 && IsDeclaredBy(env, n, under[0])))
  }

  ghost predicate GoesToAssigned(env: Env, n: Node, mode: Mode, c: Node, under: seq<Decl>) {
    IsAssignment(n, mode) && |under| == 1 && exists i, t, value, f ::
      IsPair(n, i, t, value) && TargetDeclares(env, n, t, value, f, under[0]) && ByField(f, "body") == Some(c)
  }

  /** The walk goes on to the named children. */
  predicate IsPassed(env: Env, n: Node, mode: Mode) {
    n.kind != "function_declaration" && !IsAssignment(n, mode) && !IsResolved(env, n, mode)
  }

  /** From `n`, met in this walk, that walk or the one for bodies goes to `c`, inside the declarations `under`. */
  ghost predicate GoesTo(env: Env, n: Node, mode: Mode, c: Node, mode': Mode, under: seq<Decl>) {
    || (mode'.Body? && (GoesToFunction(env, n, c, under) || GoesToAssigned(env, n, mode, c, under)))
    || (mode' == mode && under == [] && IsPassed(env, n, mode) && c in Named(n.children))
  }

  // ----- one node -----

  predicate IsWalk(mode: Mode) {
    mode.Main? || mode.Body?
  }

  function Seen(env: Env, n: Node, mode: Mode): seq<Item> {
    if mode.Main? then Visit(env, n) else VisitBody(env, n)
  }

  predicate Finds(env: Env, n: Node, c: Node, mode: Mode, under: seq<Decl>, path: seq<Decl>, e: Entry) {
    Size(c) < Size(n) && under <= path && Lies(Seen(env, c, mode), path[|under|..], e)
  }

  ghost predicate GoesOn(env: Env, n: Node, mode: Mode, path: seq<Decl>, e: Entry) {
    exists c, mode', under ::
      IsWalk(mode') && GoesTo(env, n, mode, c, mode', under) && Finds(env, n, c, mode', under, path, e)
  }

  lemma {:induction false} ListedIsSmaller(nodes: seq<Node>, v: Node)
    requires v in nodes
    ensures Size(v) <= TotalSize(nodes)
  {
    if v != nodes[0] {
      ListedIsSmaller(nodes[1..], v);
    }
  }

  lemma {:induction false} LedIsSmaller(env: Env, fields: seq<Node>, keys: seq<Text>, v: Node)
    requires KeysLead(env, fields, keys, v)
    ensures Size(v) < TotalSize(fields)
    decreases |keys|
  {
    if |keys| == 1 {
      var field :| field in fields && HasKey(env, field, keys[0]) && ByField(field, "value") == Some(v);
      ListedIsSmaller(fields, field);
    } else {
      var table :| IsTableUnder(env, fields, keys[0], table) && KeysLead(env, Named(table.children), keys[1..], v);
      var field :| field in fields && HasKey(env, field, keys[0]) && ByField(field, "value") == Some(table);
      ListedIsSmaller(fields, field);
      LedIsSmaller(env, Named(table.children), keys[1..], v);
    }
  }

  lemma DeclaredIsSmaller(env: Env, n: Node, i: nat, t: Node, value: Option<Node>, f: Node, d: Decl)
    requires IsPair(n, i, t, value) && TargetDeclares(env, n, t, value, f, d)
    ensures Size(f) < Size(n)
  {
    var values := ListOf(AssignmentOf(n), "expression_list");
    ListedIsSmaller(values, values[i]);
    if !IsFunctionValue(value) {
      var target := AssignmentTarget(env, t).value;
      var keys :| IsTableMethod(env, Named(value.value.children), target.fullName, keys, f, d);
      LedIsSmaller(env, Named(value.value.children), keys, f);
    }
  }

  /** A function's declaration, or what is found in its body. */
  lemma FunctionFound(env: Env, n: Node, mode: Mode, f: Node, d: Decl, path: seq<Decl>, e: Entry)
    requires HasFunction(env, d, f, path, e) && Size(f) <= Size(n)
    requires forall c :: ByField(f, "body") == Some(c) ==> GoesTo(env, n, mode, c, Body, [d])
    ensures (path == [] && e == Declared(d)) || GoesOn(env, n, mode, path, e)
  {
    if path != [] {
      assert Finds(env, n, ByField(f, "body").value, Body, [d], path, e);
    }
  }

  lemma DeclarationFound(env: Env, n: Node, mode: Mode, path: seq<Decl>, e: Entry)
    requires n.kind == "function_declaration" && Lies(ExtractFunction(env, n), path, e)
    ensures (path == [] && YieldsFunction(env, n, e)) || GoesOn(env, n, mode, path, e)
  {
    ExtractFunctionHas(env, n, path, e);
    if d :| IsDeclaredBy(env, n, d) && HasFunction(env, d, n, path, e) {
      FunctionFound(env, n, mode, n, d, path, e);
    } else {
      assert Finds(env, n, ByField(n, "body").value, Body, [], path, e);
    }
  }

  lemma AssignmentFound(env: Env, n: Node, path: seq<Decl>, e: Entry)
    requires IsAssignment(n, Main) && Lies(ExtractVariable(env, n), path, e)
    ensures (path == [] && (YieldsAssigned(env, n, Main, e) || YieldsVariable(env, n, Main, e)))
      || GoesOn(env, n, Main, path, e)
  {
    var targets, values := ListOf(AssignmentOf(n), "variable_list"), ListOf(AssignmentOf(n), "expression_list");
    TargetsHave(env, n, targets, values, path, e);
    var i :| 0 <= i < |targets| && Lies(VariableTarget(env, n, targets[i], ValueAt(values, i)), path, e);
    var t, value := targets[i], ValueAt(values, i);
    assert IsPair(n, i, t, value);
    TargetFound(env, n, t, value, path, e);
    if f, d :| TargetDeclares(env, n, t, value, f, d) && HasFunction(env, d, f, path, e) {
      DeclaredIsSmaller(env, n, i, t, value, f, d);
      FunctionFound(env, n, Main, f, d, path, e);
    }
  }

  lemma {:induction false} AllHave(env: Env, nodes: seq<Node>, mode: Mode, path: seq<Decl>, e: Entry)
    requires IsWalk(mode)
    ensures Lies(SeenAll(env, nodes, mode), path, e) <==> exists c :: c in nodes && Lies(Seen(env, c, mode), path, e)
  {
    if nodes != [] {
      LiesAppend(Seen(env, nodes[0], mode), SeenAll(env, nodes[1..], mode), path, e);
      AllHave(env, nodes[1..], mode, path, e);
      assert nodes == [nodes[0]] + nodes[1..];
    }
  }

  function SeenAll(env: Env, nodes: seq<Node>, mode: Mode): seq<Item> {
    if mode.Main? then VisitAll(env, nodes) else VisitBodies(env, nodes)
  }

  lemma ChildFound(env: Env, n: Node, mode: Mode, path: seq<Decl>, e: Entry)
    requires IsWalk(mode) && IsPassed(env, n, mode) && Lies(SeenAll(env, Named(n.children), mode), path, e)
    ensures GoesOn(env, n, mode, path, e)
  {
    AllHave(env, Named(n.children), mode, path, e);
    var c :| c in Named(n.children) && Lies(Seen(env, c, mode), path, e);
    ListedIsSmaller(Named(n.children), c);
    assert Finds(env, n, c, mode, [], path, e);
  }

  lemma CallHas(env: Env, n: Node, path: seq<Decl>, e: Entry)
    ensures Lies(Walking.ExtractCall(env.parenConversion, n), path, e) <==>
      && path == [] && CalleeText(env.parenConversion, n).Some?
      && Refers(e, EDGE_CALLS, CalleeText(env.parenConversion, n).value, n)
  {
    if CalleeText(env.parenConversion, n).Some? {
      LiesInOne(Ref(RefAt(EDGE_CALLS, CalleeText(env.parenConversion, n).value, n)), path, e);
    }
  }

  lemma AliasHas(env: Env, n: Node, path: seq<Decl>, e: Entry)
    requires env.isLuau && n.kind == "type_definition"
    ensures Lies(ExtractTypeAlias(env, n), path, e) <==> path == [] && YieldsAlias(env, n, Main, e)
  {
    var name := ExtractName(n);
    var d := Decl(TypeAlias, name, n.span, env.docstring(n.index), None, IsExportedOf(env, n), None, n.index);
    if name != ANONYMOUS && name != [] {
      LiesInOne(Sym(d, []), path, e);
    }
  }

  /** What a walk makes of a node it passes, before it goes on below it. */
  function OwnItems(env: Env, n: Node, mode: Mode): seq<Item> {
    if n.kind == "function_call" then Walking.ExtractCall(env.parenConversion, n)
    else if mode.Main? && env.isLuau && n.kind == "type_definition" then ExtractTypeAlias(env, n)
    else []
  }

  lemma OwnHas(env: Env, n: Node, mode: Mode, path: seq<Decl>, e: Entry)
    requires IsPassed(env, n, mode)
    ensures Lies(OwnItems(env, n, mode), path, e) <==>
      path == [] && (YieldsAlias(env, n, mode, e) || YieldsCall(env, n, mode, e))
  {
    if n.kind == "function_call" {
      CallHas(env, n, path, e);
    } else if mode.Main? && env.isLuau && n.kind == "type_definition" {
      AliasHas(env, n, path, e);
    }
  }

  lemma VisitIsLadder(env: Env, n: Node)
    requires n.kind != "variable_declaration" && !IsResolved(env, n, Main)
    ensures Visit(env, n) == [Visited(n.index, Main, RoleOf(env, n))] + Ladder(env, n)
  {
    assert Initializers(env, InitialValues(n)) == [];
    assert [] + Ladder(env, n) == Ladder(env, n);
  }

  lemma PassedIsSeen(env: Env, n: Node, mode: Mode)
    requires IsWalk(mode) && IsPassed(env, n, mode)
    ensures Seen(env, n, mode) ==
      [Visited(n.index, mode, RoleOf(env, n))] + (OwnItems(env, n, mode) + SeenAll(env, Named(n.children), mode))
  {
    var rest := SeenAll(env, Named(n.children), mode);
    if mode.Main? {
      VisitIsLadder(env, n);
    }
    assert [] + rest == rest;
  }

  lemma PassedHas(env: Env, n: Node, mode: Mode, path: seq<Decl>, e: Entry)
    requires IsWalk(mode) && IsPassed(env, n, mode)
    ensures Lies(Seen(env, n, mode), path, e) <==>
      || (path == [] && (YieldsAlias(env, n, mode, e) || YieldsCall(env, n, mode, e)))
      || Lies(SeenAll(env, Named(n.children), mode), path, e)
  {
    var own, rest := OwnItems(env, n, mode), SeenAll(env, Named(n.children), mode);
    PassedIsSeen(env, n, mode);
    OwnHas(env, n, mode, path, e);
    LiesPastMark(n.index, mode, RoleOf(env, n), own + rest, path, e);
    LiesAppend(own, rest, path, e);
  }

  lemma DeclarationHas(env: Env, n: Node, mode: Mode, path: seq<Decl>, e: Entry)
    requires IsWalk(mode) && n.kind == "function_declaration"
    ensures Lies(Seen(env, n, mode), path, e) <==> Lies(ExtractFunction(env, n), path, e)
  {
    LiesPastMark(n.index, mode, RoleOf(env, n), ExtractFunction(env, n), path, e);
    if mode.Main? {
      VisitIsLadder(env, n);
    }
  }

  lemma AssignmentHas(env: Env, n: Node, path: seq<Decl>, e: Entry)
    requires IsAssignment(n, Main)
    ensures Lies(Visit(env, n), path, e) <==>
      (path == [] && YieldsInitial(env, n, Main, e)) || Lies(ExtractVariable(env, n), path, e)
  {
    var first := Initializers(env, InitialValues(n));
    LiesPastMark(n.index, Main, RoleOf(env, n), first + ExtractVariable(env, n), path, e);
    LiesAppend(first, ExtractVariable(env, n), path, e);
    InitializersHave(env, InitialValues(n), path, e);
  }

  lemma ResolvedHas(env: Env, n: Node, path: seq<Decl>, e: Entry)
    requires IsResolved(env, n, Main)
    ensures Lies(Visit(env, n), path, e) <==> path == [] && YieldsRequire(env, n, Main, e)
  {
    var mod := RequireModule(env, n).value;
    LiesPastMark(n.index, Main, RoleOf(env, n), Lua.Import(env, n, mod), path, e);
    ImportHas(env, n, mod, path, e);
  }

  /** All that is found at a node, the node yields, or it is found where the walk goes from it. */
  lemma FoundIsYielded(env: Env, n: Node, mode: Mode, path: seq<Decl>, e: Entry)
    requires IsWalk(mode) && Lies(Seen(env, n, mode), path, e)
    ensures (path == [] && Yields(env, n, mode, e)) || GoesOn(env, n, mode, path, e)
  {
    if n.kind == "function_declaration" {
      DeclarationHas(env, n, mode, path, e);
      DeclarationFound(env, n, mode, path, e);
    } else if IsAssignment(n, mode) {
      AssignmentHas(env, n, path, e);
      if !(path == [] && YieldsInitial(env, n, Main, e)) {
        AssignmentFound(env, n, path, e);
      }
    } else if IsResolved(env, n, mode) {
      ResolvedHas(env, n, path, e);
    } else {
      PassedHas(env, n, mode, path, e);
      if Lies(SeenAll(env, Named(n.children), mode), path, e) {
        ChildFound(env, n, mode, path, e);
      }
    }
  }

  /** All that a node yields is found at it. */
  lemma YieldedIsFound(env: Env, n: Node, mode: Mode, e: Entry)
    requires IsWalk(mode) && Yields(env, n, mode, e)
    ensures Lies(Seen(env, n, mode), [], e)
  {
    if YieldsFunction(env, n, e) {
      DeclarationIsFound(env, n, mode, e);
    } else if YieldsRequire(env, n, mode, e) {
      ResolvedHas(env, n, [], e);
    } else if YieldsAlias(env, n, mode, e) || YieldsCall(env, n, mode, e) {
      PassedHas(env, n, mode, [], e);
    } else {
      AssignmentHas(env, n, [], e);
      if !YieldsInitial(env, n, mode, e) {
        AssignedIsFound(env, n, e);
      }
    }
  }

  lemma DeclarationIsFound(env: Env, n: Node, mode: Mode, e: Entry)
    requires IsWalk(mode) && YieldsFunction(env, n, e)
    ensures Lies(Seen(env, n, mode), [], e)
  {
    DeclarationHas(env, n, mode, [], e);
    ExtractFunctionHas(env, n, [], e);
    assert HasFunction(env, e.decl, n, [], e);
  }

  lemma PairLies(env: Env, n: Node, i: nat, t: Node, value: Option<Node>, path: seq<Decl>, e: Entry)
    requires IsPair(n, i, t, value) && Lies(VariableTarget(env, n, t, value), path, e)
    ensures Lies(ExtractVariable(env, n), path, e)
  {
    TargetsHave(env, n, ListOf(AssignmentOf(n), "variable_list"), ListOf(AssignmentOf(n), "expression_list"), path, e);
  }

  lemma AssignedIsFound(env: Env, n: Node, e: Entry)
    requires YieldsAssigned(env, n, Main, e) || YieldsVariable(env, n, Main, e)
    ensures Lies(ExtractVariable(env, n), [], e)
  {
    if YieldsVariable(env, n, Main, e) {
      var i, t, value :| IsPair(n, i, t, value) && TargetIsVariable(env, n, t, value, e.decl);
      TargetVariableLies(env, n, t, value, e.decl);
      PairLies(env, n, i, t, value, [], e);
    } else {
      var i, t, value, f :| IsPair(n, i, t, value) && TargetDeclares(env, n, t, value, f, e.decl);
      TargetFunctionLies(env, n, t, value, f, e.decl, [], e);
      PairLies(env, n, i, t, value, [], e);
    }
  }

  /** And all that is found where the walk goes from it is found at it. */
  lemma GoneToIsFound(env: Env, n: Node, mode: Mode, c: Node, mode': Mode, under: seq<Decl>, path: seq<Decl>, e: Entry)
    requires IsWalk(mode) && IsWalk(mode') && GoesTo(env, n, mode, c, mode', under)
    requires Lies(Seen(env, c, mode'), path, e)
    ensures Lies(Seen(env, n, mode), under + path, e)
  {
    if n.kind == "function_declaration" {
      DeclarationHas(env, n, mode, under + path, e);
      FunctionBodyIsFound(env, n, c, under, path, e);
    } else if IsAssignment(n, mode) {
      AssignmentHas(env, n, under + path, e);
      AssignedBodyIsFound(env, n, c, under, path, e);
    } else {
      assert under + path == path;
      AllHave(env, Named(n.children), mode, path, e);
      PassedHas(env, n, mode, path, e);
    }
  }

  lemma FunctionBodyIsFound(env: Env, n: Node, c: Node, under: seq<Decl>, path: seq<Decl>, e: Entry)
    requires GoesToFunction(env, n, c, under) && Lies(VisitBody(env, c), path, e)
    ensures Lies(ExtractFunction(env, n), under + path, e)
  {
    ExtractFunctionHas(env, n, under + path, e);
    if under == [] {
      assert under + path == path;
    } else {
      assert (under + path)[1..] == path;
      assert HasFunction(env, under[0], n, under + path, e);
    }
  }

  lemma AssignedBodyIsFound(env: Env, n: Node, c: Node, under: seq<Decl>, path: seq<Decl>, e: Entry)
    requires GoesToAssigned(env, n, Main, c, under) && Lies(VisitBody(env, c), path, e)
    ensures Lies(ExtractVariable(env, n), under + path, e)
  {
    var i, t, value, f :|
      IsPair(n, i, t, value) && TargetDeclares(env, n, t, value, f, under[0]) && ByField(f, "body") == Some(c);
    assert (under + path)[1..] == path;
    TargetFunctionLies(env, n, t, value, f, under[0], under + path, e);
    PairLies(env, n, i, t, value, under + path, e);
  }

  // ----- the whole tree -----

  ghost predicate Leads(env: Env, n: Node, mode: Mode, c: Node, mode': Mode, under: seq<Decl>) {
    Size(c) < Size(n) && IsWalk(mode) && IsWalk(mode') && GoesTo(env, n, mode, c, mode', under)
  }

  /** From `n` the walks come to `m`, inside the declarations `outer`. */
  ghost predicate Reaches(env: Env, n: Node, mode: Mode, m: Node, mode': Mode, outer: seq<Decl>)
    decreases Size(n)
  {
    || (m == n && mode' == mode && outer == [])
    || (exists c, mode'', under :: Leads(env, n, mode, c, mode'', under) && under <= outer
          && Reaches(env, c, mode'', m, mode', outer[|under|..]))
  }

  lemma FirstStep(env: Env, n: Node, mode: Mode, c: Node, mode': Mode, under: seq<Decl>,
                  m: Node, mode'': Mode, outer: seq<Decl>)
    requires Leads(env, n, mode, c, mode', under) && Reaches(env, c, mode', m, mode'', outer)
    ensures Reaches(env, n, mode, m, mode'', under + outer)
  {
    assert (under + outer)[|under|..] == outer;
  }

  lemma OneStep(env: Env, n: Node, mode: Mode, path: seq<Decl>, e: Entry)
      returns (here: bool, c: Node, mode': Mode, under: seq<Decl>)
    requires IsWalk(mode) && Lies(Seen(env, n, mode), path, e)
    ensures here ==> path == [] && Yields(env, n, mode, e)
    ensures !here ==> Leads(env, n, mode, c, mode', under) && Finds(env, n, c, mode', under, path, e)
  {
    FoundIsYielded(env, n, mode, path, e);
    here, c, mode', under := path == [] && Yields(env, n, mode, e), n, mode, [];
    if !here {
      c, mode', under :|
        IsWalk(mode') && GoesTo(env, n, mode, c, mode', under) && Finds(env, n, c, mode', under, path, e);
    }
  }

  lemma {:induction false} FoundComesFrom(env: Env, n: Node, mode: Mode, path: seq<Decl>, e: Entry)
      returns (m: Node, mode': Mode)
    requires IsWalk(mode) && Lies(Seen(env, n, mode), path, e)
    ensures IsWalk(mode') && Reaches(env, n, mode, m, mode', path) && Yields(env, m, mode', e)
    decreases Size(n)
  {
    var here, c, mode'', under := OneStep(env, n, mode, path, e);
    if here {
      return n, mode;
    }
    m, mode' := FoundComesFrom(env, c, mode'', path[|under|..], e);
    FirstStep(env, n, mode, c, mode'', under, m, mode', path[|under|..]);
    HeadAndRest(under, path);
  }

  lemma {:induction false} ReachedIsFound(env: Env, n: Node, mode: Mode, m: Node, mode': Mode,
                                          path: seq<Decl>, e: Entry)
    requires IsWalk(mode) && Reaches(env, n, mode, m, mode', path) && Lies(Seen(env, m, mode'), [], e)
    ensures Lies(Seen(env, n, mode), path, e)
    decreases Size(n)
  {
    if !(m == n && mode' == mode && path == []) {
      var c, mode'', under :|
        Leads(env, n, mode, c, mode'', under) && under <= path && Reaches(env, c, mode'', m, mode', path[|under|..]);
      ReachedIsFound(env, c, mode'', m, mode', path[|under|..], e);
      GoneToIsFound(env, n, mode, c, mode'', under, path[|under|..], e);
      HeadAndRest(under, path);
    }
  }

  /** A walk comes to `m` in this mode, inside the declarations `outer`. */
  ghost predicate IsMet(env: Env, root: Node, m: Node, mode: Mode, outer: seq<Decl>) {
    Reaches(env, root, Main, m, mode, outer)
  }
}
