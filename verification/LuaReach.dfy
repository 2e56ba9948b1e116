/**
 Which calls of a Lua file yield what, said of the tree alone: the walks come to
 the nodes that LuaCalls names, and to no others.
 */
module LuaReach {
  import opened Buffers
  import opened Bytes
  import opened Options
  import opened Outline
  import opened SyntaxTree
  import opened Walking
  import opened Lua
  import opened LuaFacts
  import opened LuaCalls

  // ----- a visit is recorded -----

  lemma {:induction false} VisitIsRecorded(items: seq<Item>, x: nat) returns (mode: Mode, role: Role)
    requires VisitsOf(items, x) > 0
    ensures Records(items, x, mode, role)
    decreases items
  {
    var item := items[0];
    TimesAppend(PickedItem(item, AllVisits), Picked(items[1..], AllVisits), x);
    if item.Visited? && item.at == x {
      return item.mode, item.role;
    }
    if item.Sym? && VisitsOf(item.inside, x) > 0 {
      PickedInside(item, AllVisits);
      mode, role := VisitIsRecorded(item.inside, x);
    } else {
      NoVisitIn(item, x);
      mode, role := VisitIsRecorded(items[1..], x);
    }
  }

  lemma NoVisitIn(item: Item, x: nat)
    requires item.Visited? ==> item.at != x
    requires item.Sym? ==> VisitsOf(item.inside, x) == 0
    ensures Times(PickedItem(item, AllVisits), x) == 0
  {
    if item.Sym? {
      PickedInside(item, AllVisits);
    } else if item.Visited? {
      var s: seq<nat> := [item.at];
      assert s[1..] == [];
    }
  }

  // ----- where a recorded visit comes from -----

  /** `m` is the node that was visited at `x`. */
  predicate IsIt(env: Env, m: Node, x: nat, role: Role) {
    m.index == x && RoleOf(env, m) == role
  }

  lemma MarkOrRest(env: Env, n: Node, walk: Mode, rest: seq<Item>, x: nat, mode: Mode, role: Role)
    requires Records([Visited(n.index, walk, RoleOf(env, n))] + rest, x, mode, role)
    ensures (IsIt(env, n, x, role) && mode == walk) || Records(rest, x, mode, role)
  {
    RecordsAppend([Visited(n.index, walk, RoleOf(env, n))], rest, x, mode, role);
  }

  lemma NoMarkInCall(env: Env, n: Node, x: nat, mode: Mode, role: Role)
    ensures !Records(ExtractCall(env.parenConversion, n), x, mode, role)
  {
    var refs := ExtractCall(env.parenConversion, n);
    if refs != [] {
      assert refs[1..] == [];
    }
  }

  lemma NoMarkInImport(env: Env, n: Node, mod: Text, x: nat, mode: Mode, role: Role)
    ensures !Records(Lua.Import(env, n, mod), x, mode, role)
  {
    var d := ImportDecl(env, n, mod);
    var r := Ref(RefAt(EDGE_IMPORTS, mod, n));
    assert Lua.Import(env, n, mod) == [Sym(d, [])] + [r];
    RecordsAppend([Sym(d, [])], [r], x, mode, role);
    RecordsSym(d, [], x, mode, role);
    assert [r][1..] == [];
  }

  lemma {:induction false} BodyMark(env: Env, n: Node, x: nat, mode: Mode, role: Role) returns (m: Node)
    requires Records(VisitBody(env, n), x, mode, role)
    ensures mode.Body? && InBody(m, n) && IsIt(env, m, x, role)
    decreases Size(n), 5
  {
    if n.kind == "function_declaration" {
      MarkOrRest(env, n, Body, ExtractFunction(env, n), x, mode, role);
      if IsIt(env, n, x, role) && mode.Body? {
        return n;
      }
      var body;
      body, m := FunctionMark(env, n, x, mode, role);
    } else {
      var call := if n.kind == "function_call" then ExtractCall(env.parenConversion, n) else [];
      var rest := VisitBodies(env, Named(n.children));
      MarkOrRest(env, n, Body, call + rest, x, mode, role);
      if IsIt(env, n, x, role) && mode.Body? {
        return n;
      }
      NoMarkInCall(env, n, x, mode, role);
      RecordsAppend(call, rest, x, mode, role);
      m := BodiesMark(env, Named(n.children), x, mode, role);
    }
  }

  lemma {:induction false} BodiesMark(env: Env, nodes: seq<Node>, x: nat, mode: Mode, role: Role) returns (m: Node)
    requires Records(VisitBodies(env, nodes), x, mode, role)
    ensures mode.Body? && InBodies(m, nodes) && IsIt(env, m, x, role)
    decreases TotalSize(nodes), 6
  {
    RecordsAppend(VisitBody(env, nodes[0]), VisitBodies(env, nodes[1..]), x, mode, role);
    if Records(VisitBody(env, nodes[0]), x, mode, role) {
      m := BodyMark(env, nodes[0], x, mode, role);
    } else {
      m := BodiesMark(env, nodes[1..], x, mode, role);
    }
  }

  lemma {:induction false} BodyItemsMark(env: Env, f: Node, x: nat, mode: Mode, role: Role)
      returns (body: Node, m: Node)
    requires Records(BodyItems(env, f), x, mode, role)
    ensures mode.Body? && ByField(f, "body") == Some(body) && InBody(m, body) && IsIt(env, m, x, role)
    decreases Size(f), 1
  {
    body := ByField(f, "body").value;
    m := BodyMark(env, body, x, mode, role);
  }

  lemma {:induction false} WithBodyMark(env: Env, d: Decl, f: Node, x: nat, mode: Mode, role: Role)
      returns (body: Node, m: Node)
    requires Records(WithBody(env, d, f), x, mode, role)
    ensures d.name != [] && mode.Body? && ByField(f, "body") == Some(body) && InBody(m, body) && IsIt(env, m, x, role)
    decreases Size(f), 2
  {
    RecordsSym(d, BodyItems(env, f), x, mode, role);
    body, m := BodyItemsMark(env, f, x, mode, role);
  }

  lemma {:induction false} FunctionMark(env: Env, n: Node, x: nat, mode: Mode, role: Role) returns (body: Node, m: Node)
    requires Records(ExtractFunction(env, n), x, mode, role)
    ensures mode.Body? && ExtractName(n) != [] && ByField(n, "body") == Some(body)
    ensures InBody(m, body) && IsIt(env, m, x, role)
    decreases Size(n), 3
  {
    if ReceiverType(n).Some? {
      body, m := WithBodyMark(env, MethodDecl(env, n, ReceiverType(n).value), n, x, mode, role);
    } else if ExtractName(n) == ANONYMOUS {
      body, m := BodyItemsMark(env, n, x, mode, role);
    } else {
      body, m := WithBodyMark(env, FunctionDecl(env, n), n, x, mode, role);
    }
  }

  lemma {:induction false} FieldsMark(env: Env, fields: seq<Node>, receiver: Text, x: nat, mode: Mode, role: Role)
      returns (body: Node, m: Node)
    requires Records(TableFunctions(env, fields, receiver), x, mode, role)
    ensures mode.Body? && IsBodyAmong(env, body, fields) && InBody(m, body) && IsIt(env, m, x, role)
    decreases TotalSize(fields), 3
  {
    RecordsAppend(TableField(env, fields[0], receiver), TableFunctions(env, fields[1..], receiver), x, mode, role);
    if Records(TableField(env, fields[0], receiver), x, mode, role) {
      body, m := FieldMark(env, fields[0], receiver, x, mode, role);
    } else {
      body, m := FieldsMark(env, fields[1..], receiver, x, mode, role);
    }
  }

  lemma {:induction false} FieldMark(env: Env, field: Node, receiver: Text, x: nat, mode: Mode, role: Role)
      returns (body: Node, m: Node)
    requires Records(TableField(env, field, receiver), x, mode, role)
    ensures mode.Body? && IsBodyOfField(env, body, field) && InBody(m, body) && IsIt(env, m, x, role)
    decreases Size(field), 2
  {
    var v := ByField(field, "value").value;
    var name := FieldName(env, field);
    if v.kind == "function_definition" {
      body, m := WithBodyMark(env, FunctionValueDecl(env, v, name, Some(receiver), None), v, x, mode, role);
    } else {
      body, m := FieldsMark(env, Named(v.children), receiver + [DOT] + name, x, mode, role);
    }
  }

  lemma TargetMark(env: Env, n: Node, t: Node, value: Option<Node>, x: nat, mode: Mode, role: Role)
      returns (body: Node, m: Node)
    requires Records(VariableTarget(env, n, t, value), x, mode, role)
    ensures mode.Body? && AssignmentTarget(env, t).Some? && value.Some? && IsBodyIn(env, body, value.value)
    ensures InBody(m, body) && IsIt(env, m, x, role)
  {
    var target := AssignmentTarget(env, t).value;
    if value.Some? && value.value.kind == "function_definition" {
      var d := FunctionValueDecl(env, value.value, target.name, target.receiver, env.docstring(n.index));
      body, m := WithBodyMark(env, d, value.value, x, mode, role);
    } else {
      var d := VariableDecl(env, n, t, target.name, value);
      var functions := if value.Some? && value.value.kind == "table_constructor"
        then TableFunctions(env, Named(value.value.children), target.fullName) else [];
      var variable := if target.receiver.Some? || n.kind == "assignment_statement" then [] else [Sym(d, [])];
      RecordsAppend(functions, variable, x, mode, role);
      RecordsSym(d, [], x, mode, role);
      body, m := FieldsMark(env, Named(value.value.children), target.fullName, x, mode, role);
    }
  }

  lemma {:induction false} TargetsMark(env: Env, n: Node, targets: seq<Node>, values: seq<Node>,
                                       x: nat, mode: Mode, role: Role) returns (body: Node, m: Node)
    requires Records(VariableTargets(env, n, targets, values), x, mode, role)
    ensures mode.Body? && IsBodyAssigned(env, body, targets, values) && InBody(m, body) && IsIt(env, m, x, role)
    decreases |targets|
  {
    var value, rest := if values == [] then None else Some(values[0]), if values == [] then [] else values[1..];
    RecordsAppend(VariableTarget(env, n, targets[0], value), VariableTargets(env, n, targets[1..], rest),
                  x, mode, role);
    if Records(VariableTarget(env, n, targets[0], value), x, mode, role) {
      body, m := TargetMark(env, n, targets[0], value, x, mode, role);
    } else {
      body, m := TargetsMark(env, n, targets[1..], rest, x, mode, role);
    }
  }

  lemma {:induction false} InitializersMark(env: Env, values: seq<Node>, x: nat, mode: Mode, role: Role)
      returns (i: nat)
    requires Records(Initializers(env, values), x, mode, role)
    ensures mode.Initializer? && i < |values| && values[i].kind == "function_call" && IsIt(env, values[i], x, role)
  {
    var v := values[0];
    RecordsAppend(Lua.Initializer(env, v), Initializers(env, values[1..]), x, mode, role);
    if Records(Lua.Initializer(env, v), x, mode, role) {
      var found := match RequireModule(env, v) case None => [] case Some(mod) => Lua.Import(env, v, mod);
      MarkOrRest(env, v, Mode.Initializer, found, x, mode, role);
      if RequireModule(env, v).Some? {
        NoMarkInImport(env, v, RequireModule(env, v).value, x, mode, role);
      }
      i := 0;
    } else {
      var j := InitializersMark(env, values[1..], x, mode, role);
      i := j + 1;
    }
  }

  // ----- the three ways to stand where a walk comes -----

  predicate IsInitializerOf(m: Node, d: Node) {
    m in InitialValues(d) && m.kind == "function_call"
  }

  /** `m` stands, seen from a node `d` at top level, where a walk in this mode comes to it. */
  ghost predicate StandsBy(env: Env, m: Node, mode: Mode, d: Node) {
    match mode
    case Main => m == d
    case Initializer => IsInitializerOf(m, d)
    case Body => exists body :: IsBodyOf(env, body, d) && InBody(m, body)
  }

  ghost predicate Stands(env: Env, m: Node, mode: Mode, root: Node) {
    exists d :: AtTopLevel(env, d, root) && StandsBy(env, m, mode, d)
  }

  lemma {:induction false} VisitMark(env: Env, n: Node, x: nat, mode: Mode, role: Role) returns (d: Node, m: Node)
    requires Records(Visit(env, n), x, mode, role)
    ensures AtTopLevel(env, d, n) && StandsBy(env, m, mode, d) && IsIt(env, m, x, role)
    decreases Size(n), 5
  {
    if n.kind == "function_call" && RequireModule(env, n).Some? {
      MarkOrRest(env, n, Main, Lua.Import(env, n, RequireModule(env, n).value), x, mode, role);
      NoMarkInImport(env, n, RequireModule(env, n).value, x, mode, role);
      return n, n;
    }
    var first, rest := Initializers(env, InitialValues(n)), Ladder(env, n);
    MarkOrRest(env, n, Main, first + rest, x, mode, role);
    if IsIt(env, n, x, role) && mode.Main? {
      return n, n;
    }
    RecordsAppend(first, rest, x, mode, role);
    if Records(first, x, mode, role) {
      var i := InitializersMark(env, InitialValues(n), x, mode, role);
      return n, InitialValues(n)[i];
    }
    d, m := LadderMark(env, n, x, mode, role);
  }

  lemma {:induction false} LadderMark(env: Env, n: Node, x: nat, mode: Mode, role: Role) returns (d: Node, m: Node)
    requires Records(Ladder(env, n), x, mode, role) && !(n.kind == "function_call" && RequireModule(env, n).Some?)
    ensures AtTopLevel(env, d, n) && StandsBy(env, m, mode, d) && IsIt(env, m, x, role)
    decreases Size(n), 4
  {
    var body;
    if n.kind == "function_declaration" {
      d := n;
      body, m := FunctionMark(env, n, x, mode, role);
    } else if n.kind == "variable_declaration" || n.kind == "assignment_statement" {
      d := n;
      body, m := TargetsMark(env, n, ListOf(AssignmentOf(n), "variable_list"),
                             ListOf(AssignmentOf(n), "expression_list"), x, mode, role);
    } else {
      var rest := VisitAll(env, Named(n.children));
      if n.kind == "function_call" {
        NoMarkInCall(env, n, x, mode, role);
        RecordsAppend(ExtractCall(env.parenConversion, n), rest, x, mode, role);
      } else if env.isLuau && n.kind == "type_definition" {
        NoMarkInAlias(env, n, x, mode, role);
        RecordsAppend(ExtractTypeAlias(env, n), rest, x, mode, role);
      }
      d, m := AllMark(env, Named(n.children), x, mode, role);
    }
  }

  lemma NoMarkInAlias(env: Env, n: Node, x: nat, mode: Mode, role: Role)
    ensures !Records(ExtractTypeAlias(env, n), x, mode, role)
  {
    var d := Decl(TypeAlias, ExtractName(n), n.span, env.docstring(n.index), None, IsExportedOf(env, n), None, n.index);
    RecordsSym(d, [], x, mode, role);
  }

  lemma {:induction false} AllMark(env: Env, nodes: seq<Node>, x: nat, mode: Mode, role: Role)
      returns (d: Node, m: Node)
    requires Records(VisitAll(env, nodes), x, mode, role)
    ensures AnyAtTopLevel(env, d, nodes) && StandsBy(env, m, mode, d) && IsIt(env, m, x, role)
    decreases TotalSize(nodes), 6
  {
    RecordsAppend(Visit(env, nodes[0]), VisitAll(env, nodes[1..]), x, mode, role);
    if Records(Visit(env, nodes[0]), x, mode, role) {
      d, m := VisitMark(env, nodes[0], x, mode, role);
    } else {
      d, m := AllMark(env, nodes[1..], x, mode, role);
    }
  }

  // ----- all of it below the root -----

  lemma {:induction false} NamedIsInside(m: Node, children: seq<Child>, i: nat)
    requires i < |Named(children)| && IsIn(m, Named(children)[i])
    ensures IsInAny(m, children)
  {
    if children[0].named {
      if i > 0 {
        NamedIsInside(m, children[1..], i - 1);
      }
    } else {
      NamedIsInside(m, children[1..], i);
    }
  }

  ghost predicate InsideSome(m: Node, nodes: seq<Node>) {
    exists i :: 0 <= i < |nodes| && IsIn(m, nodes[i])
  }

  lemma NamedAreInside(m: Node, n: Node)
    requires InsideSome(m, Named(n.children))
    ensures IsIn(m, n)
  {
    var i :| 0 <= i < |Named(n.children)| && IsIn(m, Named(n.children)[i]);
    NamedIsInside(m, n.children, i);
  }

  lemma InsideTail(m: Node, nodes: seq<Node>)
    requires nodes != [] && (IsIn(m, nodes[0]) || InsideSome(m, nodes[1..]))
    ensures InsideSome(m, nodes)
  {
    if !IsIn(m, nodes[0]) {
      var i :| 0 <= i < |nodes[1..]| && IsIn(m, nodes[1..][i]);
      assert nodes[i + 1] == nodes[1..][i];
    }
  }

  lemma {:induction false} TopLevelIsInside(env: Env, m: Node, n: Node)
    requires AtTopLevel(env, m, n)
    ensures IsIn(m, n)
    decreases Size(n), 0
  {
    if m != n {
      AnyTopLevelIsInside(env, m, Named(n.children));
      NamedAreInside(m, n);
    }
  }

  lemma {:induction false} AnyTopLevelIsInside(env: Env, m: Node, nodes: seq<Node>)
    requires AnyAtTopLevel(env, m, nodes)
    ensures InsideSome(m, nodes)
    decreases TotalSize(nodes), 1
  {
    if AtTopLevel(env, m, nodes[0]) {
      TopLevelIsInside(env, m, nodes[0]);
    } else {
      AnyTopLevelIsInside(env, m, nodes[1..]);
    }
    InsideTail(m, nodes);
  }

  lemma {:induction false} BodyIsInside(m: Node, n: Node)
    requires InBody(m, n)
    ensures IsIn(m, n)
    decreases Size(n), 0
  {
    if m != n {
      if n.kind == "function_declaration" {
        BodyIsInside(m, ByField(n, "body").value);
        ChildIsInside(m, ByField(n, "body").value, n);
      } else {
        BodiesAreInside(m, Named(n.children));
        NamedAreInside(m, n);
      }
    }
  }

  lemma {:induction false} BodiesAreInside(m: Node, nodes: seq<Node>)
    requires InBodies(m, nodes)
    ensures InsideSome(m, nodes)
    decreases TotalSize(nodes), 1
  {
    if InBody(m, nodes[0]) {
      BodyIsInside(m, nodes[0]);
    } else {
      BodiesAreInside(m, nodes[1..]);
    }
    InsideTail(m, nodes);
  }

  lemma {:induction false} ValueBodyIsInside(env: Env, body: Node, v: Node)
    requires IsBodyIn(env, body, v)
    ensures IsIn(body, v)
    decreases Size(v), 0
  {
    if v.kind == "function_definition" {
      ChildIsInside(body, body, v);
    } else {
      FieldBodiesAreInside(env, body, Named(v.children));
      NamedAreInside(body, v);
    }
  }

  lemma {:induction false} FieldBodiesAreInside(env: Env, body: Node, fields: seq<Node>)
    requires IsBodyAmong(env, body, fields)
    ensures InsideSome(body, fields)
    decreases TotalSize(fields), 2
  {
    if IsBodyOfField(env, body, fields[0]) {
      FieldBodyIsInside(env, body, fields[0]);
    } else {
      FieldBodiesAreInside(env, body, fields[1..]);
    }
    InsideTail(body, fields);
  }

  lemma {:induction false} FieldBodyIsInside(env: Env, body: Node, field: Node)
    requires IsBodyOfField(env, body, field)
    ensures IsIn(body, field)
    decreases Size(field), 1
  {
    var v := ByField(field, "value").value;
    ValueBodyIsInside(env, body, v);
    ChildIsInside(body, v, field);
  }

  lemma {:induction false} AssignedBodyIsInside(env: Env, body: Node, targets: seq<Node>, values: seq<Node>)
    requires IsBodyAssigned(env, body, targets, values)
    ensures InsideSome(body, values)
    decreases |targets|
  {
    if AssignmentTarget(env, targets[0]).Some? && IsBodyIn(env, body, values[0]) {
      ValueBodyIsInside(env, body, values[0]);
    } else {
      AssignedBodyIsInside(env, body, targets[1..], values[1..]);
    }
    InsideTail(body, values);
  }

  lemma {:induction false} FoundIsInside(nodes: seq<Node>, kind: string)
    requires Find(nodes, kind).Some?
    ensures InsideSome(Find(nodes, kind).value, nodes)
  {
    if nodes[0].kind != kind {
      FoundIsInside(nodes[1..], kind);
    }
    InsideTail(Find(nodes, kind).value, nodes);
  }

  lemma ListIsInside(m: Node, n: Node, kind: string)
    requires InsideSome(m, ListOf(n, kind))
    ensures IsIn(m, n)
  {
    var list := FindNamed(n, kind).value;
    NamedAreInside(m, list);
    FoundIsInside(Named(n.children), kind);
    NamedAreInside(list, n);
    InsideInside(m, list, n);
  }

  lemma AssignmentListIsInside(m: Node, d: Node)
    requires InsideSome(m, ListOf(AssignmentOf(d), "expression_list"))
    ensures IsIn(m, d)
  {
    ListIsInside(m, AssignmentOf(d), "expression_list");
    if FindNamed(d, "assignment_statement").Some? {
      FoundIsInside(Named(d.children), "assignment_statement");
      NamedAreInside(AssignmentOf(d), d);
      InsideInside(m, AssignmentOf(d), d);
    }
  }

  lemma StandsInside(env: Env, m: Node, mode: Mode, d: Node)
    requires StandsBy(env, m, mode, d)
    ensures IsIn(m, d)
  {
    match mode
    case Main =>
    case Initializer =>
      var i :| 0 <= i < |InitialValues(d)| && InitialValues(d)[i] == m;
      assert IsIn(m, InitialValues(d)[i]);
      AssignmentListIsInside(m, d);
    case Body =>
      var body :| IsBodyOf(env, body, d) && InBody(m, body);
      BodyIsInside(m, body);
      if d.kind == "function_declaration" {
        ChildIsInside(m, body, d);
      } else {
        AssignedBodyIsInside(env, body, ListOf(AssignmentOf(d), "variable_list"),
                             ListOf(AssignmentOf(d), "expression_list"));
        AssignmentListIsInside(body, d);
        InsideInside(m, body, d);
      }
  }

  // ----- main results -----

  /** The walks come to a node, in whatever way, exactly when it stands there. */
  lemma MetIff(env: Env, root: Node, m: Node, mode: Mode)
    requires Numbered(root) && IsIn(m, root)
    ensures Met(env, Visit(env, root), m, mode) <==> Stands(env, m, mode, root)
  {
    if Met(env, Visit(env, root), m, mode) {
      var d, found := VisitMark(env, root, m.index, mode, RoleOf(env, m));
      StandsInside(env, found, mode, d);
      TopLevelIsInside(env, d, root);
      InsideInside(found, d, root);
      NumbersAreUnique(m, found, root);
    }
    if Stands(env, m, mode, root) {
      var d :| AtTopLevel(env, d, root) && StandsBy(env, m, mode, d);
      StandingIsMet(env, m, mode, d);
      TopLevelKeeps(env, d, root, m, mode);
    }
  }

  lemma StandingIsMet(env: Env, m: Node, mode: Mode, d: Node)
    requires StandsBy(env, m, mode, d)
    ensures Met(env, Visit(env, d), m, mode)
  {
    match mode
    case Main => TopLevelMeetsAll(env, m, d);
    case Initializer =>
      var i :| 0 <= i < |InitialValues(d)| && InitialValues(d)[i] == m;
      InitializerIsMet(env, d, i);
    case Body =>
      var body :| IsBodyOf(env, body, d) && InBody(m, body);
      BodyMeetsAll(env, m, body);
      DeclarationMeets(env, d, body, m);
  }

  /**
   What every call of a tree yields, said of the tree alone.  An import: when it
   resolves to a module and stands at top level or as an initializer there.  A
   calls reference: when it has a callee and stands in a body, or at top level
   without resolving.  And never more than one of the two, once.
   */
  lemma EveryCallYieldsExactly(env: Env, root: Node, call: Node)
    requires Numbered(root) && Spanned(root) && IsIn(call, root) && call.kind == "function_call"
    ensures var items, x := Visit(env, root), call.index;
      var resolves, named := RequireModule(env, call).Some?, CalleeText(env.parenConversion, call).Some?;
      var top, body := Stands(env, call, Main, root), Stands(env, call, Body, root);
      && ImportsOf(items, x) == (if resolves && (top || Stands(env, call, Mode.Initializer, root)) then 1 else 0)
      && CallRefsOf(items, x) == (if named && (body || (top && !resolves)) then 1 else 0)
  {
    var items := Visit(env, root);
    MetIff(env, root, call, Main);
    MetIff(env, root, call, Body);
    MetIff(env, root, call, Mode.Initializer);
    EveryCallIsAccountedFor(env, root, call, Main);
    EveryCallIsAccountedFor(env, root, call, Body);
    EveryCallIsAccountedFor(env, root, call, Mode.Initializer);
    if VisitsOf(items, call.index) > 0 {
      var mode, role := VisitIsRecorded(items, call.index);
      var d, found := VisitMark(env, root, call.index, mode, role);
      StandsInside(env, found, mode, d);
      TopLevelIsInside(env, d, root);
      InsideInside(found, d, root);
      NumbersAreUnique(call, found, root);
      assert Met(env, items, call, mode);
    }
  }

  // ----- calls that are never met -----

  lemma {:induction false} TopLevelInRange(env: Env, d: Node, nodes: seq<Node>, lo: nat, hi: nat, outer: Span)
    requires Listed(nodes, lo, hi, outer) && AnyAtTopLevel(env, d, nodes)
    ensures lo <= d.index && End(d) <= hi
    decreases |nodes|
  {
    if AtTopLevel(env, d, nodes[0]) {
      TopLevelIsInside(env, d, nodes[0]);
      IsInInRange(d, nodes[0]);
    } else {
      TopLevelInRange(env, d, nodes[1..], End(nodes[0]), hi, outer);
    }
  }

  lemma VisitsAppend(xs: seq<Item>, ys: seq<Item>, x: nat)
    ensures VisitsOf(xs + ys, x) == VisitsOf(xs, x) + VisitsOf(ys, x)
  {
    PickedAppend(xs, ys, AllVisits);
    TimesAppend(Picked(xs, AllVisits), Picked(ys, AllVisits), x);
  }

  /** The nodes of a subtree at top level are visited as the visit of the subtree alone visits them. */
  lemma {:induction false} VisitsAreLocal(env: Env, d: Node, n: Node, x: nat)
    requires Numbered(n) && Spanned(n) && AtTopLevel(env, d, n) && d.index <= x < End(d)
    ensures VisitsOf(Visit(env, n), x) == VisitsOf(Visit(env, d), x)
    decreases Size(n), 0
  {
    if d != n {
      var rest := VisitAll(env, Named(n.children));
      var own := if n.kind == "function_call" then ExtractCall(env.parenConversion, n)
                 else if env.isLuau && n.kind == "type_definition" then ExtractTypeAlias(env, n) else [];
      NamedBelow(n);
      TopLevelInRange(env, d, Named(n.children), n.index + 1, End(n), n.span);
      AllVisitsAreLocal(env, d, Named(n.children), x, n.index + 1, End(n), n.span);
      VisitedOnce(n.index, Main, RoleOf(env, n), x);
      NoVisitsOfOwn(env, n, x);
      VisitsAppend(own, rest, x);
      VisitsAppend([Visited(n.index, Main, RoleOf(env, n))], own + rest, x);
      assert [] + (own + rest) == own + rest && [] + rest == rest;
    }
  }

  lemma NoVisitsOfOwn(env: Env, n: Node, x: nat)
    ensures VisitsOf(ExtractCall(env.parenConversion, n), x) == 0 && VisitsOf(ExtractTypeAlias(env, n), x) == 0
  {
    CallPicks(env, n, AllVisits);
    var d := Decl(TypeAlias, ExtractName(n), n.span, env.docstring(n.index), None, IsExportedOf(env, n), None, n.index);
    PickedOne(Sym(d, []), AllVisits);
  }

  lemma {:induction false} AllVisitsAreLocal(env: Env, d: Node, nodes: seq<Node>, x: nat, lo: nat, hi: nat, outer: Span)
    requires Listed(nodes, lo, hi, outer) && lo <= hi && AnyAtTopLevel(env, d, nodes) && d.index <= x < End(d)
    ensures VisitsOf(VisitAll(env, nodes), x) == VisitsOf(Visit(env, d), x)
    decreases TotalSize(nodes), 1
  {
    var mid := End(nodes[0]);
    VisitsAppend(Visit(env, nodes[0]), VisitAll(env, nodes[1..]), x);
    VisitFine(env, nodes[0], x);
    VisitAllFine(env, nodes[1..], x, mid, hi, outer);
    if AtTopLevel(env, d, nodes[0]) {
      TopLevelIsInside(env, d, nodes[0]);
      IsInInRange(d, nodes[0]);
      VisitsAreLocal(env, d, nodes[0], x);
    } else {
      TopLevelInRange(env, d, nodes[1..], mid, hi, outer);
      AllVisitsAreLocal(env, d, nodes[1..], x, mid, hi, outer);
    }
  }

  /** What is dug out of the initializers would be visited there; so the targets leave it alone. */
  lemma TargetsLeaveCalls(env: Env, d: Node, i: nat)
    requires Numbered(d) && Spanned(d) && i < |ListOf(AssignmentOf(d), "expression_list")|
    requires ListOf(AssignmentOf(d), "expression_list")[i].kind == "function_call"
    ensures var targets, values := ListOf(AssignmentOf(d), "variable_list"), ListOf(AssignmentOf(d), "expression_list");
      VisitsOf(VariableTargets(env, d, targets, values), values[i].index) == 0 && d.index < values[i].index < End(d)
  {
    var targets, values := ListOf(AssignmentOf(d), "variable_list"), ListOf(AssignmentOf(d), "expression_list");
    var x := values[i].index;
    VariableListsListed(d, "variable_list");
    VariableListsListed(d, "expression_list");
    VariableTargetsFine(env, d, targets, values, x, d.index + 1, End(d), d.index + 1, End(d), d.span);
    InitializersAreMet(env, values, i);
    RecordedIsPicked(Initializers(env, values), x, Mode.Initializer, RoleOf(env, values[i]), AllVisits);
  }

  /** The visit of an assignment does not come to the calls among its values. */
  lemma ValuesAreNotVisited(env: Env, d: Node, i: nat)
    requires Numbered(d) && Spanned(d) && d.kind == "assignment_statement"
    requires i < |ListOf(AssignmentOf(d), "expression_list")|
    requires ListOf(AssignmentOf(d), "expression_list")[i].kind == "function_call"
    ensures var x := ListOf(AssignmentOf(d), "expression_list")[i].index;
      VisitsOf(Visit(env, d), x) == 0 && d.index < x < End(d)
  {
    var targets, values := ListOf(AssignmentOf(d), "variable_list"), ListOf(AssignmentOf(d), "expression_list");
    var items := VariableTargets(env, d, targets, values);
    TargetsLeaveCalls(env, d, i);
    VisitedOnce(d.index, Main, RoleOf(env, d), values[i].index);
    VisitsAppend([Visited(d.index, Main, RoleOf(env, d))], items, values[i].index);
    VisitOfAssignment(env, d);
  }

  lemma VisitOfAssignment(env: Env, d: Node)
    requires d.kind == "assignment_statement"
    ensures Visit(env, d) == [Visited(d.index, Main, RoleOf(env, d))] +
      VariableTargets(env, d, ListOf(AssignmentOf(d), "variable_list"), ListOf(AssignmentOf(d), "expression_list"))
  {
    var items :=
      VariableTargets(env, d, ListOf(AssignmentOf(d), "variable_list"), ListOf(AssignmentOf(d), "expression_list"));
    assert InitialValues(d) == [] && [] + items == items;
  }

  /**
   A call that stands as a value of a global assignment at top level yields
   nothing: no calls reference, and no import even when it requires a module.
   */
  lemma AssignedCallYieldsNothing(env: Env, root: Node, d: Node, i: nat)
    requires Numbered(root) && Spanned(root) && AtTopLevel(env, d, root) && d.kind == "assignment_statement"
    requires i < |ListOf(AssignmentOf(d), "expression_list")|
    requires ListOf(AssignmentOf(d), "expression_list")[i].kind == "function_call"
    ensures var items, x := Visit(env, root), ListOf(AssignmentOf(d), "expression_list")[i].index;
      ImportsOf(items, x) == 0 && CallRefsOf(items, x) == 0
  {
    var values := ListOf(AssignmentOf(d), "expression_list");
    var call := values[i];
    TopLevelIsInside(env, d, root);
    NumberedInside(d, root);
    ValuesAreNotVisited(env, d, i);
    VisitsAreLocal(env, d, root, call.index);
    EveryCallIsAccountedFor(env, root, call, Main);
  }
}
