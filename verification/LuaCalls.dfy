/** Call accounting: what every call of a Lua file yields, and which nodes the walks come to. */
module LuaCalls {
  import opened Buffers
  import opened Bytes
  import opened Options
  import opened Outline
  import opened SyntaxTree
  import opened Walking
  import opened Lua
  import opened LuaFacts

  /** The node visited at `x` in a given way, as recorded. */
  predicate Records(items: seq<Item>, x: nat, mode: Mode, role: Role)
    decreases items, 0
  {
    items != [] && (RecordsItem(items[0], x, mode, role) || Records(items[1..], x, mode, role))
  }

  predicate RecordsItem(item: Item, x: nat, mode: Mode, role: Role)
    decreases item, 1
  {
    match item
    case Sym(_, inside) => Records(inside, x, mode, role)
    case Ref(_) => false
    case Visited(at, m, r) => at == x && m == mode && r == role
  }

  lemma {:induction false} RecordedIsPicked(items: seq<Item>, x: nat, mode: Mode, role: Role, pick: Pick)
    requires Records(items, x, mode, role) && PickedItem(Visited(x, mode, role), pick) == [x]
    ensures Times(Picked(items, pick), x) >= 1
    decreases items
  {
    var item := items[0];
    TimesAppend(PickedItem(item, pick), Picked(items[1..], pick), x);
    if RecordsItem(item, x, mode, role) {
      if item.Sym? {
        RecordedIsPicked(item.inside, x, mode, role, pick);
        PickedInside(item, pick);
      }
    } else {
      RecordedIsPicked(items[1..], x, mode, role, pick);
    }
  }

  function ImportsOf(items: seq<Item>, x: nat): nat {
    Times(Picked(items, ImportRows), x)
  }

  function CallRefsOf(items: seq<Item>, x: nat): nat {
    Times(Picked(items, CallRows), x)
  }

  /** The walk came to `call` in this way. */
  predicate Met(env: Env, items: seq<Item>, call: Node, mode: Mode) {
    Records(items, call.index, mode, RoleOf(env, call))
  }

  /**
   Call accounting, for every tree and every call: it yields at most one of an
   import and a calls reference, and none unless the walk comes to it, which
   happens at most once.  A call that resolves to a module yields exactly the
   import when met at top level or as an initializer, and exactly the
   reference when met in a body; any other call with a callee, met at top
   level or in a body, exactly the reference.
   */
  lemma EveryCallIsAccountedFor(env: Env, root: Node, call: Node, mode: Mode)
    requires Numbered(root) && Spanned(root) && call.kind == "function_call"
    ensures var items, x := Visit(env, root), call.index;
      ImportsOf(items, x) + CallRefsOf(items, x) <= VisitsOf(items, x) <= 1
    ensures var items, x := Visit(env, root), call.index;
      var resolves, named := RequireModule(env, call).Some?, CalleeText(env.parenConversion, call).Some?;
      Met(env, items, call, mode) ==>
        && ImportsOf(items, x) == (if resolves && !mode.Body? then 1 else 0)
        && CallRefsOf(items, x) == (if named && (mode.Body? || (mode.Main? && !resolves)) then 1 else 0)
  {
    VisitFine(env, root, call.index);
    AccountOf(Visit(env, root), call.index, mode, RoleOf(env, call));
  }

  lemma AccountOf(items: seq<Item>, x: nat, mode: Mode, role: Role)
    requires Accounted(items) && VisitsOf(items, x) <= 1 && role.Call?
    ensures ImportsOf(items, x) + CallRefsOf(items, x) <= VisitsOf(items, x)
    ensures Records(items, x, mode, role) ==>
      && ImportsOf(items, x) == (if role.resolves && !mode.Body? then 1 else 0)
      && CallRefsOf(items, x) == (if role.named && (mode.Body? || (mode.Main? && !role.resolves)) then 1 else 0)
  {
    TimesOfPicked(items, ImportVisits, x);
    TimesOfPicked(items, CallVisits, x);
    if Records(items, x, mode, role) {
      RecordedIsPicked(items, x, mode, role, AllVisits);
      if role.resolves && !mode.Body? {
        RecordedIsPicked(items, x, mode, role, ImportVisits);
      } else if role.named && (mode.Body? || (mode.Main? && !role.resolves)) {
        RecordedIsPicked(items, x, mode, role, CallVisits);
      } else {
        RecordedIsUnpicked(items, x, mode, role, ImportVisits);
        RecordedIsUnpicked(items, x, mode, role, CallVisits);
      }
    }
  }

  lemma {:induction false} RecordsAppend(xs: seq<Item>, ys: seq<Item>, x: nat, mode: Mode, role: Role)
    ensures Records(xs + ys, x, mode, role) <==> Records(xs, x, mode, role) || Records(ys, x, mode, role)
  {
    if xs == [] {
      assert xs + ys == ys;
    } else {
      assert (xs + ys)[1..] == xs[1..] + ys;
      RecordsAppend(xs[1..], ys, x, mode, role);
    }
  }

  // ----- which nodes the walks come to -----

  /** `m` stands in the body `n`: below it by named children, or in the body of a named function there. */
  predicate InBody(m: Node, n: Node)
    decreases Size(n), 0
  {
    m == n ||
    if n.kind == "function_declaration" then
      ExtractName(n) != [] && ByField(n, "body").Some? && InBody(m, ByField(n, "body").value)
    else InBodies(m, Named(n.children))
  }

  predicate InBodies(m: Node, nodes: seq<Node>)
    decreases TotalSize(nodes), 1
  {
    nodes != [] && (InBody(m, nodes[0]) || InBodies(m, nodes[1..]))
  }

  /** `m` stands at the top level of `n`: below it through nodes that the walk of the top level goes through. */
  predicate AtTopLevel(env: Env, m: Node, n: Node)
    decreases Size(n), 0
  {
    m == n || (IsPassedThrough(env, n) && AnyAtTopLevel(env, m, Named(n.children)))
  }

  predicate AnyAtTopLevel(env: Env, m: Node, nodes: seq<Node>)
    decreases TotalSize(nodes), 1
  {
    nodes != [] && (AtTopLevel(env, m, nodes[0]) || AnyAtTopLevel(env, m, nodes[1..]))
  }

  /** All but functions, variables and resolved requires. */
  predicate IsPassedThrough(env: Env, n: Node) {
    && n.kind != "function_declaration" && n.kind != "variable_declaration" && n.kind != "assignment_statement"
    && !(n.kind == "function_call" && RequireModule(env, n).Some?)
  }

  lemma MarkIsMet(env: Env, n: Node, walk: Mode, rest: seq<Item>, m: Node, mode: Mode)
    ensures m == n && mode == walk ==> Met(env, [Visited(n.index, walk, RoleOf(env, n))] + rest, m, mode)
    ensures Met(env, rest, m, mode) ==> Met(env, [Visited(n.index, walk, RoleOf(env, n))] + rest, m, mode)
  {
    RecordsAppend([Visited(n.index, walk, RoleOf(env, n))], rest, m.index, mode, RoleOf(env, m));
  }

  /** Nothing in a body is missed. */
  lemma {:induction false} BodyMeetsAll(env: Env, m: Node, n: Node)
    requires InBody(m, n)
    ensures Met(env, VisitBody(env, n), m, Body)
    decreases Size(n), 0
  {
    if n.kind == "function_declaration" {
      MarkIsMet(env, n, Body, ExtractFunction(env, n), m, Body);
      if m != n {
        BodyMeetsAll(env, m, ByField(n, "body").value);
        FunctionMeets(env, m, n);
      }
    } else {
      var call := if n.kind == "function_call" then ExtractCall(env.parenConversion, n) else [];
      var rest := VisitBodies(env, Named(n.children));
      MarkIsMet(env, n, Body, call + rest, m, Body);
      if m != n {
        BodiesMeetAll(env, m, Named(n.children));
        RecordsAppend(call, rest, m.index, Body, RoleOf(env, m));
      }
    }
  }

  lemma FunctionMeets(env: Env, m: Node, n: Node)
    requires ExtractName(n) != [] && Met(env, BodyItems(env, n), m, Body)
    ensures Met(env, ExtractFunction(env, n), m, Body)
  {
    if ReceiverType(n).Some? {
      RecordsSym(MethodDecl(env, n, ReceiverType(n).value), BodyItems(env, n), m.index, Body, RoleOf(env, m));
    } else {
      RecordsSym(FunctionDecl(env, n), BodyItems(env, n), m.index, Body, RoleOf(env, m));
    }
  }

  lemma RecordsSym(d: Decl, inside: seq<Item>, x: nat, mode: Mode, role: Role)
    ensures Records([Sym(d, inside)], x, mode, role) <==> Records(inside, x, mode, role)
  {
    assert [Sym(d, inside)][1..] == [];
  }

  lemma {:induction false} BodiesMeetAll(env: Env, m: Node, nodes: seq<Node>)
    requires InBodies(m, nodes)
    ensures Met(env, VisitBodies(env, nodes), m, Body)
    decreases TotalSize(nodes), 1
  {
    RecordsAppend(VisitBody(env, nodes[0]), VisitBodies(env, nodes[1..]), m.index, Body, RoleOf(env, m));
    if InBody(m, nodes[0]) {
      BodyMeetsAll(env, m, nodes[0]);
    } else {
      BodiesMeetAll(env, m, nodes[1..]);
    }
  }

  /** What the visit of a node at top level meets, the visit of the root meets. */
  lemma {:induction false} TopLevelKeeps(env: Env, d: Node, n: Node, m: Node, mode: Mode)
    requires AtTopLevel(env, d, n) && Met(env, Visit(env, d), m, mode)
    ensures Met(env, Visit(env, n), m, mode)
    decreases Size(n), 0
  {
    if d != n {
      var rest := VisitAll(env, Named(n.children));
      var call := if n.kind == "function_call" then ExtractCall(env.parenConversion, n)
                  else if env.isLuau && n.kind == "type_definition" then ExtractTypeAlias(env, n) else [];
      AllKeep(env, d, Named(n.children), m, mode);
      RecordsAppend(call, rest, m.index, mode, RoleOf(env, m));
      MarkIsMet(env, n, Main, call + rest, m, mode);
      assert [] + (call + rest) == call + rest && [] + rest == rest;
    }
  }

  lemma {:induction false} AllKeep(env: Env, d: Node, nodes: seq<Node>, m: Node, mode: Mode)
    requires AnyAtTopLevel(env, d, nodes) && Met(env, Visit(env, d), m, mode)
    ensures Met(env, VisitAll(env, nodes), m, mode)
    decreases TotalSize(nodes), 1
  {
    RecordsAppend(Visit(env, nodes[0]), VisitAll(env, nodes[1..]), m.index, mode, RoleOf(env, m));
    if AtTopLevel(env, d, nodes[0]) {
      TopLevelKeeps(env, d, nodes[0], m, mode);
    } else {
      AllKeep(env, d, nodes[1..], m, mode);
    }
  }

  /** Nothing at top level is missed. */
  lemma TopLevelMeetsAll(env: Env, m: Node, n: Node)
    requires AtTopLevel(env, m, n)
    ensures Met(env, Visit(env, n), m, Main)
  {
    assert Visit(env, m) == [Visited(m.index, Main, RoleOf(env, m))] + Visit(env, m)[1..];
    MarkIsMet(env, m, Main, Visit(env, m)[1..], m, Main);
    TopLevelKeeps(env, m, n, m, Main);
  }

  /** So a call at top level yields its import if it resolves, and else its calls reference if it has a callee. */
  lemma TopLevelCall(env: Env, root: Node, call: Node)
    requires Numbered(root) && Spanned(root) && AtTopLevel(env, call, root) && call.kind == "function_call"
    ensures var items, x := Visit(env, root), call.index;
      var resolves, named := RequireModule(env, call).Some?, CalleeText(env.parenConversion, call).Some?;
      && ImportsOf(items, x) == (if resolves then 1 else 0)
      && CallRefsOf(items, x) == (if named && !resolves then 1 else 0)
  {
    TopLevelMeetsAll(env, call, root);
    EveryCallIsAccountedFor(env, root, call, Main);
  }

  // ----- the bodies that are walked -----

  /** `body` is that of the function a value is, or of one in the fields of the table it is, at any depth. */
  predicate IsBodyIn(env: Env, body: Node, v: Node)
    decreases Size(v), 0
  {
    if v.kind == "function_definition" then ByField(v, "body") == Some(body)
    else v.kind == "table_constructor" && IsBodyAmong(env, body, Named(v.children))
  }

  predicate IsBodyAmong(env: Env, body: Node, fields: seq<Node>)
    decreases TotalSize(fields), 2
  {
    fields != [] && (IsBodyOfField(env, body, fields[0]) || IsBodyAmong(env, body, fields[1..]))
  }

  predicate IsBodyOfField(env: Env, body: Node, field: Node)
    decreases Size(field), 1
  {
    && field.kind == "field" && FieldName(env, field) != []
    && ByField(field, "value").Some? && IsBodyIn(env, body, ByField(field, "value").value)
  }

  /** `body` is that of a named function, or in a value that is assigned to a target with a name. */
  predicate IsBodyOf(env: Env, body: Node, d: Node) {
    if d.kind == "function_declaration" then ExtractName(d) != [] && ByField(d, "body") == Some(body)
    else
      && (d.kind == "variable_declaration" || d.kind == "assignment_statement")
      && IsBodyAssigned(env, body, ListOf(AssignmentOf(d), "variable_list"), ListOf(AssignmentOf(d), "expression_list"))
  }

  predicate IsBodyAssigned(env: Env, body: Node, targets: seq<Node>, values: seq<Node>)
    decreases |targets|
  {
    && targets != [] && values != []
    && ((AssignmentTarget(env, targets[0]).Some? && IsBodyIn(env, body, values[0]))
        || IsBodyAssigned(env, body, targets[1..], values[1..]))
  }

  lemma WithBodyMeets(env: Env, d: Decl, f: Node, body: Node, m: Node)
    requires d.name != [] && ByField(f, "body") == Some(body) && Met(env, VisitBody(env, body), m, Body)
    ensures Met(env, WithBody(env, d, f), m, Body)
  {
    RecordsSym(d, BodyItems(env, f), m.index, Body, RoleOf(env, m));
  }

  lemma {:induction false} FieldsMeet(env: Env, fields: seq<Node>, receiver: Text, body: Node, m: Node)
    requires IsBodyAmong(env, body, fields) && Met(env, VisitBody(env, body), m, Body)
    ensures Met(env, TableFunctions(env, fields, receiver), m, Body)
    decreases TotalSize(fields), 2
  {
    RecordsAppend(TableField(env, fields[0], receiver), TableFunctions(env, fields[1..], receiver),
                  m.index, Body, RoleOf(env, m));
    if IsBodyOfField(env, body, fields[0]) {
      FieldMeets(env, fields[0], receiver, body, m);
    } else {
      FieldsMeet(env, fields[1..], receiver, body, m);
    }
  }

  lemma {:induction false} FieldMeets(env: Env, field: Node, receiver: Text, body: Node, m: Node)
    requires IsBodyOfField(env, body, field) && Met(env, VisitBody(env, body), m, Body)
    ensures Met(env, TableField(env, field, receiver), m, Body)
    decreases Size(field), 1
  {
    var v := ByField(field, "value").value;
    var name := FieldName(env, field);
    if v.kind == "function_definition" {
      WithBodyMeets(env, FunctionValueDecl(env, v, name, Some(receiver), None), v, body, m);
    } else {
      FieldsMeet(env, Named(v.children), receiver + [DOT] + name, body, m);
    }
  }

  lemma TargetMeets(env: Env, n: Node, t: Node, v: Node, body: Node, m: Node)
    requires AssignmentTarget(env, t).Some? && IsBodyIn(env, body, v) && Met(env, VisitBody(env, body), m, Body)
    ensures Met(env, VariableTarget(env, n, t, Some(v)), m, Body)
  {
    var target := AssignmentTarget(env, t).value;
    if v.kind == "function_definition" {
      WithBodyMeets(env, FunctionValueDecl(env, v, target.name, target.receiver, env.docstring(n.index)), v, body, m);
    } else {
      var functions := TableFunctions(env, Named(v.children), target.fullName);
      var variable := if target.receiver.Some? || n.kind == "assignment_statement" then []
                      else [Sym(VariableDecl(env, n, t, target.name, Some(v)), [])];
      FieldsMeet(env, Named(v.children), target.fullName, body, m);
      RecordsAppend(functions, variable, m.index, Body, RoleOf(env, m));
    }
  }

  lemma {:induction false} TargetsMeet(env: Env, n: Node, targets: seq<Node>, values: seq<Node>, body: Node, m: Node)
    requires IsBodyAssigned(env, body, targets, values) && Met(env, VisitBody(env, body), m, Body)
    ensures Met(env, VariableTargets(env, n, targets, values), m, Body)
    decreases |targets|
  {
    RecordsAppend(VariableTarget(env, n, targets[0], Some(values[0])),
                  VariableTargets(env, n, targets[1..], values[1..]), m.index, Body, RoleOf(env, m));
    if AssignmentTarget(env, targets[0]).Some? && IsBodyIn(env, body, values[0]) {
      TargetMeets(env, n, targets[0], values[0], body, m);
    } else {
      TargetsMeet(env, n, targets[1..], values[1..], body, m);
    }
  }

  /** What the walk of such a body meets, the visit of its declaration meets. */
  lemma DeclarationMeets(env: Env, d: Node, body: Node, m: Node)
    requires IsBodyOf(env, body, d) && Met(env, VisitBody(env, body), m, Body)
    ensures Met(env, Visit(env, d), m, Body)
  {
    if d.kind == "function_declaration" {
      FunctionMeets(env, m, d);
    } else {
      TargetsMeet(env, d, ListOf(AssignmentOf(d), "variable_list"), ListOf(AssignmentOf(d), "expression_list"),
                  body, m);
    }
    var first := Initializers(env, InitialValues(d));
    RecordsAppend(first, Ladder(env, d), m.index, Body, RoleOf(env, m));
    MarkIsMet(env, d, Main, first + Ladder(env, d), m, Body);
  }

  /**
   And a call in a body that stands at top level yields no import, and a calls
   reference if it has a callee, require or not.
   */
  lemma BodyCall(env: Env, root: Node, d: Node, body: Node, call: Node)
    requires Numbered(root) && Spanned(root) && AtTopLevel(env, d, root) && IsBodyOf(env, body, d)
    requires InBody(call, body) && call.kind == "function_call"
    ensures var items, x := Visit(env, root), call.index;
      && ImportsOf(items, x) == 0
      && CallRefsOf(items, x) == (if CalleeText(env.parenConversion, call).Some? then 1 else 0)
  {
    BodyMeetsAll(env, call, body);
    DeclarationMeets(env, d, body, call);
    TopLevelKeeps(env, d, root, call, Body);
    EveryCallIsAccountedFor(env, root, call, Body);
  }

  lemma {:induction false} InitializersAreMet(env: Env, values: seq<Node>, i: nat)
    requires i < |values| && values[i].kind == "function_call"
    ensures Met(env, Initializers(env, values), values[i], Mode.Initializer)
  {
    var call := values[i];
    RecordsAppend(Lua.Initializer(env, values[0]), Initializers(env, values[1..]),
                  call.index, Mode.Initializer, RoleOf(env, call));
    if i > 0 {
      InitializersAreMet(env, values[1..], i - 1);
    }
  }

  lemma InitializerIsMet(env: Env, d: Node, i: nat)
    requires i < |InitialValues(d)| && InitialValues(d)[i].kind == "function_call"
    ensures Met(env, Visit(env, d), InitialValues(d)[i], Mode.Initializer)
  {
    var call := InitialValues(d)[i];
    var first := Initializers(env, InitialValues(d));
    InitializersAreMet(env, InitialValues(d), i);
    RecordsAppend(first, Ladder(env, d), call.index, Mode.Initializer, RoleOf(env, call));
    MarkIsMet(env, d, Main, first + Ladder(env, d), call, Mode.Initializer);
  }

  /** A require that stands as a direct initializer of a top-level local is imported, and makes no calls reference. */
  lemma InitializerRequireIsImported(env: Env, root: Node, d: Node, i: nat)
    requires Numbered(root) && Spanned(root) && AtTopLevel(env, d, root) && i < |InitialValues(d)|
    requires InitialValues(d)[i].kind == "function_call" && RequireModule(env, InitialValues(d)[i]).Some?
    ensures var items, x := Visit(env, root), InitialValues(d)[i].index;
      ImportsOf(items, x) == 1 && CallRefsOf(items, x) == 0
  {
    var call := InitialValues(d)[i];
    InitializerIsMet(env, d, i);
    TopLevelKeeps(env, d, root, call, Mode.Initializer);
    EveryCallIsAccountedFor(env, root, call, Mode.Initializer);
  }

  /** A node visited once, in a way that is not picked, is not picked. */
  lemma {:induction false} RecordedIsUnpicked(items: seq<Item>, x: nat, mode: Mode, role: Role, pick: Pick)
    requires Records(items, x, mode, role) && VisitsOf(items, x) <= 1
    requires PickedItem(Visited(x, mode, role), pick) == []
    requires pick.ImportVisits? || pick.CallVisits? || pick.AllVisits?
    ensures Times(Picked(items, pick), x) == 0
    decreases items
  {
    var item := items[0];
    var rest := items[1..];
    TimesAppend(PickedItem(item, pick), Picked(rest, pick), x);
    TimesAppend(PickedItem(item, AllVisits), Picked(rest, AllVisits), x);
    if RecordsItem(item, x, mode, role) {
      if item.Sym? {
        RecordedIsPicked(item.inside, x, mode, role, AllVisits);
        PickedInside(item, AllVisits);
        PickedInside(item, pick);
        RecordedIsUnpicked(item.inside, x, mode, role, pick);
      } else {
        var s: seq<nat> := [x];
        assert s[1..] == [];
      }
      TimesOfPicked(rest, pick, x);
    } else {
      RecordedIsPicked(rest, x, mode, role, AllVisits);
      RecordedIsUnpicked(rest, x, mode, role, pick);
      if item.Sym? {
        PickedInside(item, AllVisits);
        PickedInside(item, pick);
        TimesOfPicked(item.inside, pick, x);
      } else if item.Visited? {
        var s: seq<nat> := [item.at];
        assert s[1..] == [];
      }
    }
  }
}
