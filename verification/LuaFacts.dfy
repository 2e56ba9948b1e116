/** What Lua extraction keeps: rows agree one to one with the visits that must have made them, and spans nest. */
module LuaFacts {
  import opened Buffers
  import opened Bytes
  import opened Options
  import opened Outline
  import opened SyntaxTree
  import opened Texts
  import opened Walking
  import opened Lua

  // ----- lists of nodes in order -----

  /** The nodes stand in order within [lo, hi) and within the lines of `outer`. */
  predicate Listed(nodes: seq<Node>, lo: nat, hi: nat, outer: Span) {
    nodes == [] ||
    (&& lo <= nodes[0].index && End(nodes[0]) <= hi && Good(nodes[0], outer)
     && Listed(nodes[1..], End(nodes[0]), hi, outer))
  }

  predicate Good(n: Node, outer: Span) {
    Numbered(n) && Spanned(n) && Nested(n.span, outer)
  }

  lemma {:induction false} NamedListed(children: seq<Child>, start: nat, outer: Span)
    requires NumberedAll(children, start) && SpannedAll(children, outer)
    ensures Listed(Named(children), start, start + SizeAll(children), outer)
  {
    if children != [] {
      var mid := start + Size(children[0].node);
      NamedListed(children[1..], mid, outer);
      if children[0].named {
        var nodes := Named(children);
        assert nodes[1..] == Named(children[1..]);
      } else {
        var end := start + SizeAll(children);
        ListedWider(Named(children[1..]), mid, end, start, end, outer, outer);
      }
    }
  }

  lemma {:induction false} ListedWider(nodes: seq<Node>, lo: nat, hi: nat, lo': nat, hi': nat, inner: Span, outer: Span)
    requires Listed(nodes, lo, hi, inner) && lo' <= lo && hi <= hi' && Nested(inner, outer)
    ensures Listed(nodes, lo', hi', outer)
  {
    if nodes != [] {
      ListedWider(nodes[1..], End(nodes[0]), hi, End(nodes[0]), hi', inner, outer);
    }
  }

  lemma {:induction false} FindListed(nodes: seq<Node>, kind: string, lo: nat, hi: nat, outer: Span)
    requires Listed(nodes, lo, hi, outer) && Find(nodes, kind).Some?
    ensures var m := Find(nodes, kind).value; Good(m, outer) && lo <= m.index && End(m) <= hi
  {
    if nodes[0].kind != kind {
      FindListed(nodes[1..], kind, End(nodes[0]), hi, outer);
    }
  }

  lemma NamedBelow(n: Node)
    requires Numbered(n) && Spanned(n)
    ensures Listed(Named(n.children), n.index + 1, End(n), n.span)
  {
    NamedListed(n.children, n.index + 1, n.span);
  }

  lemma ListOfListed(assign: Node, kind: string)
    requires Numbered(assign) && Spanned(assign)
    ensures Listed(ListOf(assign, kind), assign.index + 1, End(assign), assign.span)
  {
    if FindNamed(assign, kind).Some? {
      var list := FindNamed(assign, kind).value;
      NamedBelow(assign);
      FindListed(Named(assign.children), kind, assign.index + 1, End(assign), assign.span);
      NamedBelow(list);
      ListedWider(Named(list.children), list.index + 1, End(list), assign.index + 1, End(assign),
                  list.span, assign.span);
    }
  }

  lemma AssignmentBelow(n: Node)
    requires Numbered(n) && Spanned(n)
    ensures var a := AssignmentOf(n); Good(a, n.span) && n.index <= a.index && End(a) <= End(n)
  {
    if FindNamed(n, "assignment_statement").Some? {
      NamedBelow(n);
      FindListed(Named(n.children), "assignment_statement", n.index + 1, End(n), n.span);
    }
  }

  lemma VariableListsListed(n: Node, kind: string)
    requires Numbered(n) && Spanned(n)
    ensures Listed(ListOf(AssignmentOf(n), kind), n.index + 1, End(n), n.span)
  {
    var a := AssignmentOf(n);
    AssignmentBelow(n);
    ListOfListed(a, kind);
    ListedWider(ListOf(a, kind), a.index + 1, End(a), n.index + 1, End(n), a.span, n.span);
  }

  // ----- accounts -----

  /** What to pick from a forest: rows of a kind, or the visits that must have made them. */
  datatype Pick =
    | ImportRows      // import nodes
    | ImportRefs      // imports references
    | OtherRefs       // references of neither kind
    | ImportVisits    // calls that resolve, met at top level or as an initializer
    | CallRows        // calls references
    | CallVisits      // named calls met in a body, or at top level without resolving
    | AllVisits

  function Picked(items: seq<Item>, pick: Pick): seq<nat>
    decreases items, 0
  {
    if items == [] then [] else PickedItem(items[0], pick) + Picked(items[1..], pick)
  }

  function PickedItem(item: Item, pick: Pick): seq<nat>
    decreases item, 1
  {
    match item
    case Sym(d, inside) => (if pick.ImportRows? && d.kind.Import? then [d.at] else []) + Picked(inside, pick)
    case Ref(info) =>
      if (pick.CallRows? && info.kind == EDGE_CALLS)
         || (pick.ImportRefs? && info.kind == EDGE_IMPORTS)
         || (pick.OtherRefs? && info.kind != EDGE_CALLS && info.kind != EDGE_IMPORTS)
      then [info.at] else []
    case Visited(at, mode, role) =>
      if pick.AllVisits?
         || (pick.ImportVisits? && role.Call? && role.resolves && !mode.Body?)
         || (pick.CallVisits? && role.Call? && role.named && (mode.Body? || (mode.Main? && !role.resolves)))
      then [at] else []
  }

  lemma {:induction false} PickedAppend(xs: seq<Item>, ys: seq<Item>, pick: Pick)
    ensures Picked(xs + ys, pick) == Picked(xs, pick) + Picked(ys, pick)
  {
    if xs == [] {
      assert xs + ys == ys;
    } else {
      assert (xs + ys)[1..] == xs[1..] + ys;
      PickedAppend(xs[1..], ys, pick);
    }
  }

  /** Rows and the visits that must have made them agree, one to one and in order. */
  predicate Accounted(items: seq<Item>) {
    && Picked(items, ImportRows) == Picked(items, ImportVisits)
    && Picked(items, ImportRefs) == Picked(items, ImportVisits)
    && Picked(items, CallRows) == Picked(items, CallVisits)
    && Picked(items, OtherRefs) == []
  }

  function Times(s: seq<nat>, x: nat): nat {
    if s == [] then 0 else (if s[0] == x then 1 else 0) + Times(s[1..], x)
  }

  lemma {:induction false} TimesAppend(a: seq<nat>, b: seq<nat>, x: nat)
    ensures Times(a + b, x) == Times(a, x) + Times(b, x)
  {
    if a == [] {
      assert a + b == b;
    } else {
      assert (a + b)[1..] == a[1..] + b;
      TimesAppend(a[1..], b, x);
    }
  }

  function VisitsOf(items: seq<Item>, x: nat): nat {
    Times(Picked(items, AllVisits), x)
  }

  function Within(x: nat, lo: nat, hi: nat): nat {
    if lo <= x < hi then 1 else 0
  }

  /** Calls are accounted for, rows nest in `outer`, and `x` is visited at most once, and only within [lo, hi). */
  predicate Fine(items: seq<Item>, x: nat, lo: nat, hi: nat, outer: Span) {
    Accounted(items) && WellFormed(items, outer) && VisitsOf(items, x) <= Within(x, lo, hi)
  }

  lemma AccountedAppend(xs: seq<Item>, ys: seq<Item>, x: nat, outer: Span)
    requires Accounted(xs) && Accounted(ys) && WellFormed(xs, outer) && WellFormed(ys, outer)
    ensures Accounted(xs + ys) && WellFormed(xs + ys, outer)
    ensures VisitsOf(xs + ys, x) == VisitsOf(xs, x) + VisitsOf(ys, x)
  {
    PickedAppend(xs, ys, ImportRows);
    PickedAppend(xs, ys, ImportRefs);
    PickedAppend(xs, ys, OtherRefs);
    PickedAppend(xs, ys, ImportVisits);
    PickedAppend(xs, ys, CallRows);
    PickedAppend(xs, ys, CallVisits);
    PickedAppend(xs, ys, AllVisits);
    TimesAppend(Picked(xs, AllVisits), Picked(ys, AllVisits), x);
    WellFormedAppend(xs, ys, outer);
  }

  lemma FineConcat(xs: seq<Item>, ys: seq<Item>, x: nat, lo: nat, mid: nat, hi: nat, outer: Span)
    requires Fine(xs, x, lo, mid, outer) && Fine(ys, x, mid, hi, outer) && lo <= mid <= hi
    ensures Fine(xs + ys, x, lo, hi, outer)
  {
    AccountedAppend(xs, ys, x, outer);
  }

  lemma FineInTurn(v: seq<Item>, own: seq<Item>, rest: seq<Item>, x: nat, lo: nat, mid: nat, hi: nat, outer: Span)
    requires Fine(v + own, x, lo, mid, outer) && Fine(rest, x, mid, hi, outer) && lo <= mid <= hi
    ensures Fine(v + (own + rest), x, lo, hi, outer)
  {
    FineConcat(v + own, rest, x, lo, mid, hi, outer);
    Regroup(v, own, rest);
  }

  lemma FineWider(items: seq<Item>, x: nat, lo: nat, hi: nat, lo': nat, hi': nat, inner: Span, outer: Span)
    requires Fine(items, x, lo, hi, inner) && lo' <= lo && hi <= hi' && Nested(inner, outer)
    ensures Fine(items, x, lo', hi', outer)
  {
    WellFormedWider(items, inner, outer);
  }

  lemma FineNothing(x: nat, lo: nat, hi: nat, outer: Span)
    ensures Fine([], x, lo, hi, outer)
  {}

  lemma FineSym(d: Decl, inside: seq<Item>, x: nat, lo: nat, hi: nat, outer: Span)
    requires Fine(inside, x, lo, hi, d.span) && Nested(d.span, outer) && !d.kind.File? && !d.kind.Import?
    ensures Fine(SymUnlessNameless(d, inside), x, lo, hi, outer)
  {
    WellFormedSym(d, inside, outer);
    assert [Sym(d, inside)][1..] == [];
    forall pick: Pick
      ensures Picked([Sym(d, inside)], pick) == Picked(inside, pick)
    {
      assert Picked([Sym(d, inside)], pick) == PickedItem(Sym(d, inside), pick) + [];
    }
  }

  /** One item alone. */
  lemma PickedOne(item: Item, pick: Pick)
    ensures Picked([item], pick) == PickedItem(item, pick)
  {
    assert [item][1..] == [];
  }

  lemma VisitedOnce(at: nat, mode: Mode, role: Role, x: nat)
    ensures VisitsOf([Visited(at, mode, role)], x) == Within(x, at, at + 1)
  {
    var s: seq<nat> := [at];
    PickedOne(Visited(at, mode, role), AllVisits);
    assert Picked([Visited(at, mode, role)], AllVisits) == s;
    assert s[1..] == [];
    assert Times(s, x) == if s[0] == x then 1 else 0;
  }

  /** A visit that must make no row makes none. */
  lemma FineVisit(at: nat, mode: Mode, role: Role, x: nat, outer: Span)
    requires role.Call? ==> mode.Initializer? && !role.resolves
    ensures Fine([Visited(at, mode, role)], x, at, at + 1, outer)
  {
    var v := Visited(at, mode, role);
    forall pick: Pick
      ensures Picked([v], pick) == if pick.AllVisits? then [at] else []
    {
      PickedOne(v, pick);
    }
    VisitedOnce(at, mode, role, x);
    WellFormedLeaf(v, outer);
  }

  /** A visit and what it yields, when nothing in that is a visit. */
  lemma FineVisitAnd(v: Item, items: seq<Item>, x: nat, outer: Span)
    requires v.Visited? && WellFormed(items, outer)
    requires Picked(items, AllVisits) == Picked(items, ImportVisits) == Picked(items, CallVisits) == []
    requires Picked(items, ImportRows) == Picked(items, ImportRefs) == PickedItem(v, ImportVisits)
    requires Picked(items, OtherRefs) == []
    requires Picked(items, CallRows) == PickedItem(v, CallVisits)
    ensures Fine([v] + items, x, v.at, v.at + 1, outer)
  {
    forall pick: Pick
      ensures Picked([v] + items, pick) == PickedItem(v, pick) + Picked(items, pick)
    {
      PickedOne(v, pick);
      PickedAppend([v], items, pick);
    }
    VisitedOnce(v.at, v.mode, v.role, x);
    PickedOne(v, AllVisits);
    WellFormedLeaf(v, outer);
    WellFormedAppend([v], items, outer);
  }

  lemma ImportPicks(env: Env, call: Node, mod: Text, pick: Pick)
    ensures Picked(Lua.Import(env, call, mod), pick) ==
      if pick.ImportRows? || pick.ImportRefs? then [call.index] else []
  {
    var d := ImportDecl(env, call, mod);
    var r := Ref(RefAt(EDGE_IMPORTS, mod, call));
    assert Lua.Import(env, call, mod) == [Sym(d, [])] + [r];
    PickedAppend([Sym(d, [])], [r], pick);
    PickedOne(Sym(d, []), pick);
    PickedOne(r, pick);
  }

  lemma AllImportPicks(env: Env, call: Node, mod: Text)
    ensures var items := Lua.Import(env, call, mod);
      && Picked(items, ImportRows) == Picked(items, ImportRefs) == [call.index]
      && Picked(items, OtherRefs) == Picked(items, CallRows) == []
      && Picked(items, ImportVisits) == Picked(items, CallVisits) == Picked(items, AllVisits) == []
  {
    ImportPicks(env, call, mod, ImportRows);
    ImportPicks(env, call, mod, ImportRefs);
    ImportPicks(env, call, mod, OtherRefs);
    ImportPicks(env, call, mod, ImportVisits);
    ImportPicks(env, call, mod, CallRows);
    ImportPicks(env, call, mod, CallVisits);
    ImportPicks(env, call, mod, AllVisits);
  }

  lemma ImportNests(env: Env, call: Node, mod: Text, outer: Span)
    requires mod != [] && Nested(call.span, outer)
    ensures WellFormed(Lua.Import(env, call, mod), outer)
  {
    var d := ImportDecl(env, call, mod);
    var r := Ref(RefAt(EDGE_IMPORTS, mod, call));
    assert Lua.Import(env, call, mod) == [Sym(d, [])] + [r];
    WellFormedLeaf(r, outer);
    WellFormedSym(d, [], outer);
    WellFormedAppend([Sym(d, [])], [r], outer);
  }

  /** A visited call that resolves makes its import and no calls reference. */
  lemma FineImport(env: Env, call: Node, mode: Mode, x: nat, outer: Span)
    requires call.kind == "function_call" && RequireModule(env, call).Some? && !mode.Body? && Nested(call.span, outer)
    ensures Fine([Visited(call.index, mode, RoleOf(env, call))] + Lua.Import(env, call, RequireModule(env, call).value),
                 x, call.index, call.index + 1, outer)
  {
    FineImportOf(env, call, RequireModule(env, call).value, mode, RoleOf(env, call), x, outer);
  }

  lemma FineImportOf(env: Env, call: Node, mod: Text, mode: Mode, role: Role, x: nat, outer: Span)
    requires role.Call? && role.resolves && !mode.Body? && mod != [] && Nested(call.span, outer)
    ensures Fine([Visited(call.index, mode, role)] + Lua.Import(env, call, mod), x, call.index, call.index + 1, outer)
  {
    AllImportPicks(env, call, mod);
    ImportNests(env, call, mod, outer);
    FineVisitAnd(Visited(call.index, mode, role), Lua.Import(env, call, mod), x, outer);
  }

  lemma CallPicks(env: Env, call: Node, pick: Pick)
    ensures Picked(ExtractCall(env.parenConversion, call), pick) ==
      if pick.CallRows? && CalleeText(env.parenConversion, call).Some? then [call.index] else []
  {
    var refs := ExtractCall(env.parenConversion, call);
    if refs != [] {
      PickedOne(refs[0], pick);
      assert refs == [refs[0]];
    }
  }

  lemma AllCallPicks(env: Env, call: Node)
    ensures var items := ExtractCall(env.parenConversion, call);
      && Picked(items, CallRows) == (if CalleeText(env.parenConversion, call).Some? then [call.index] else [])
      && Picked(items, ImportRows) == Picked(items, ImportRefs) == Picked(items, OtherRefs) == []
      && Picked(items, ImportVisits) == Picked(items, CallVisits) == Picked(items, AllVisits) == []
  {
    CallPicks(env, call, ImportRows);
    CallPicks(env, call, ImportRefs);
    CallPicks(env, call, OtherRefs);
    CallPicks(env, call, CallRows);
    CallPicks(env, call, ImportVisits);
    CallPicks(env, call, CallVisits);
    CallPicks(env, call, AllVisits);
  }

  /** Any other visited call makes one calls reference if it has a callee. */
  lemma FineCall(env: Env, call: Node, mode: Mode, x: nat, outer: Span)
    requires call.kind == "function_call" && (mode.Body? || (mode.Main? && RequireModule(env, call).None?))
    ensures Fine([Visited(call.index, mode, RoleOf(env, call))] + ExtractCall(env.parenConversion, call),
                 x, call.index, call.index + 1, outer)
  {
    FineCallOf(env, call, mode, RoleOf(env, call), x, outer);
  }

  lemma FineCallOf(env: Env, call: Node, mode: Mode, role: Role, x: nat, outer: Span)
    requires role.Call? && (role.named <==> CalleeText(env.parenConversion, call).Some?)
    requires mode.Body? || (mode.Main? && !role.resolves)
    ensures Fine([Visited(call.index, mode, role)] + ExtractCall(env.parenConversion, call),
                 x, call.index, call.index + 1, outer)
  {
    AllCallPicks(env, call);
    WellFormedCall(env.parenConversion, call, outer);
    FineVisitAnd(Visited(call.index, mode, role), ExtractCall(env.parenConversion, call), x, outer);
  }

  // ----- function bodies -----

  lemma {:induction false} VisitBodyFine(env: Env, n: Node, x: nat)
    requires Numbered(n) && Spanned(n)
    ensures Fine(VisitBody(env, n), x, n.index, End(n), n.span)
    decreases Size(n), 5
  {
    var v := [Visited(n.index, Body, RoleOf(env, n))];
    if n.kind == "function_declaration" {
      FineVisit(n.index, Body, Plain, x, n.span);
      ExtractFunctionFine(env, n, x);
      FineConcat(v, ExtractFunction(env, n), x, n.index, n.index + 1, End(n), n.span);
    } else {
      var call := if n.kind == "function_call" then ExtractCall(env.parenConversion, n) else [];
      var rest := VisitBodies(env, Named(n.children));
      if n.kind == "function_call" {
        FineCall(env, n, Body, x, n.span);
      } else {
        FineVisit(n.index, Body, Plain, x, n.span);
        assert v + call == v;
      }
      NamedBelow(n);
      VisitBodiesFine(env, Named(n.children), x, n.index + 1, End(n), n.span);
      FineInTurn(v, call, rest, x, n.index, n.index + 1, End(n), n.span);
    }
  }

  lemma {:induction false} VisitBodiesFine(env: Env, nodes: seq<Node>, x: nat, lo: nat, hi: nat, outer: Span)
    requires Listed(nodes, lo, hi, outer) && lo <= hi
    ensures Fine(VisitBodies(env, nodes), x, lo, hi, outer)
    decreases TotalSize(nodes), 6
  {
    if nodes == [] {
      FineNothing(x, lo, hi, outer);
    } else {
      var mid := End(nodes[0]);
      VisitBodyFine(env, nodes[0], x);
      FineWider(VisitBody(env, nodes[0]), x, nodes[0].index, mid, lo, mid, nodes[0].span, outer);
      VisitBodiesFine(env, nodes[1..], x, mid, hi, outer);
      FineConcat(VisitBody(env, nodes[0]), VisitBodies(env, nodes[1..]), x, lo, mid, hi, outer);
    }
  }

  lemma {:induction false} BodyItemsFine(env: Env, f: Node, x: nat)
    requires Numbered(f) && Spanned(f)
    ensures Fine(BodyItems(env, f), x, f.index + 1, End(f), f.span)
    decreases Size(f), 1
  {
    if ByField(f, "body").Some? {
      var body := ByField(f, "body").value;
      ChildBelow(body, f);
      ChildWithin(body, f);
      VisitBodyFine(env, body, x);
      FineWider(VisitBody(env, body), x, body.index, End(body), f.index + 1, End(f), body.span, f.span);
    } else {
      FineNothing(x, f.index + 1, End(f), f.span);
    }
  }

  lemma {:induction false} WithBodyFine(env: Env, d: Decl, f: Node, x: nat, outer: Span)
    requires Good(f, outer) && d.span == f.span && !d.kind.File? && !d.kind.Import?
    ensures Fine(WithBody(env, d, f), x, f.index + 1, End(f), outer)
    decreases Size(f), 2
  {
    BodyItemsFine(env, f, x);
    FineSym(d, BodyItems(env, f), x, f.index + 1, End(f), outer);
  }

  lemma {:induction false} ExtractFunctionFine(env: Env, n: Node, x: nat)
    requires Numbered(n) && Spanned(n)
    ensures Fine(ExtractFunction(env, n), x, n.index + 1, End(n), n.span)
    decreases Size(n), 3
  {
    if ReceiverType(n).Some? {
      WithBodyFine(env, MethodDecl(env, n, ReceiverType(n).value), n, x, n.span);
    } else if ExtractName(n) == ANONYMOUS {
      BodyItemsFine(env, n, x);
    } else {
      WithBodyFine(env, FunctionDecl(env, n), n, x, n.span);
    }
  }

  // ----- variables -----

  lemma {:induction false} TableFunctionsFine(env: Env, fields: seq<Node>, receiver: Text, x: nat,
                                              lo: nat, hi: nat, outer: Span)
    requires Listed(fields, lo, hi, outer) && lo <= hi
    ensures Fine(TableFunctions(env, fields, receiver), x, lo, hi, outer)
    decreases TotalSize(fields), 3
  {
    if fields == [] {
      FineNothing(x, lo, hi, outer);
    } else {
      var mid := End(fields[0]);
      TableFieldFine(env, fields[0], receiver, x);
      FineWider(TableField(env, fields[0], receiver), x, fields[0].index, mid, lo, mid, fields[0].span, outer);
      TableFunctionsFine(env, fields[1..], receiver, x, mid, hi, outer);
      FineConcat(TableField(env, fields[0], receiver), TableFunctions(env, fields[1..], receiver),
                 x, lo, mid, hi, outer);
    }
  }

  lemma {:induction false} TableFieldFine(env: Env, field: Node, receiver: Text, x: nat)
    requires Numbered(field) && Spanned(field)
    ensures Fine(TableField(env, field, receiver), x, field.index, End(field), field.span)
    decreases Size(field), 2
  {
    var items := TableField(env, field, receiver);
    if items == [] {
      FineNothing(x, field.index, End(field), field.span);
    } else {
      var v := ByField(field, "value").value;
      ChildBelow(v, field);
      ChildWithin(v, field);
      var name := FieldName(env, field);
      if v.kind == "function_definition" {
        WithBodyFine(env, FunctionValueDecl(env, v, name, Some(receiver), None), v, x, field.span);
        FineWider(items, x, v.index + 1, End(v), field.index, End(field), field.span, field.span);
      } else {
        NamedBelow(v);
        TableFunctionsFine(env, Named(v.children), receiver + [DOT] + name, x, v.index + 1, End(v), v.span);
        FineWider(items, x, v.index + 1, End(v), field.index, End(field), v.span, field.span);
      }
    }
  }

  /** What one target and its value yield lies strictly below the value. */
  lemma {:induction false} VariableTargetFine(env: Env, n: Node, t: Node, value: Option<Node>, x: nat, outer: Span)
    requires Good(t, outer) && (value.Some? ==> Good(value.value, outer))
    ensures value.Some? ==>
      Fine(VariableTarget(env, n, t, value), x, value.value.index + 1, End(value.value), outer)
    ensures value.None? || value.value.kind == "function_call" ==>
      Fine(VariableTarget(env, n, t, value), x, 0, 0, outer)
    decreases if value.Some? then Size(value.value) else 0, 4
  {
    if AssignmentTarget(env, t).Some? {
      var target := AssignmentTarget(env, t).value;
      if value.Some? && value.value.kind == "function_definition" {
        WithBodyFine(env, FunctionValueDecl(env, value.value, target.name, target.receiver, env.docstring(n.index)),
                     value.value, x, outer);
      } else {
        var d := VariableDecl(env, n, t, target.name, value);
        var variable := if target.receiver.Some? || n.kind == "assignment_statement" then [] else [Sym(d, [])];
        FineNothing(x, 0, 0, t.span);
        FineSym(d, [], x, 0, 0, outer);
        FineNothing(x, 0, 0, outer);
        assert Fine(variable, x, 0, 0, outer);
        if value.Some? && value.value.kind == "table_constructor" {
          var v := value.value;
          NamedBelow(v);
          TableFunctionsFine(env, Named(v.children), target.fullName, x, v.index + 1, End(v), v.span);
          var inner := TableFunctions(env, Named(v.children), target.fullName);
          FineWider(inner, x, v.index + 1, End(v), v.index + 1, End(v), v.span, outer);
          AccountedAppend(inner, variable, x, outer);
        } else {
          assert [] + variable == variable;
        }
      }
    } else {
      FineNothing(x, 0, 0, outer);
    }
  }

  /** Targets and initializers together visit nothing twice: a called value has nothing walked below it. */
  lemma {:induction false} VariableTargetsFine(env: Env, n: Node, targets: seq<Node>, values: seq<Node>, x: nat,
                                               tlo: nat, thi: nat, lo: nat, hi: nat, outer: Span)
    requires Listed(targets, tlo, thi, outer) && Listed(values, lo, hi, outer) && lo <= hi
    ensures Accounted(VariableTargets(env, n, targets, values)) && Accounted(Initializers(env, values))
    ensures WellFormed(VariableTargets(env, n, targets, values), outer) && WellFormed(Initializers(env, values), outer)
    ensures VisitsOf(VariableTargets(env, n, targets, values), x) + VisitsOf(Initializers(env, values), x)
            <= Within(x, lo, hi)
    decreases |targets| + |values|
  {
    if values == [] {
      if targets != [] {
        VariableTargetFine(env, n, targets[0], None, x, outer);
        VariableTargetsFine(env, n, targets[1..], [], x, End(targets[0]), thi, lo, hi, outer);
        AccountedAppend(VariableTarget(env, n, targets[0], None), VariableTargets(env, n, targets[1..], []), x, outer);
      }
    } else {
      var v := values[0];
      var mid := End(v);
      InitializerFine(env, v, x, outer);
      if targets == [] {
        VariableTargetsFine(env, n, [], values[1..], x, tlo, thi, mid, hi, outer);
      } else {
        VariableTargetFine(env, n, targets[0], Some(v), x, outer);
        VariableTargetsFine(env, n, targets[1..], values[1..], x, End(targets[0]), thi, mid, hi, outer);
        AccountedAppend(VariableTarget(env, n, targets[0], Some(v)),
                        VariableTargets(env, n, targets[1..], values[1..]), x, outer);
      }
      AccountedAppend(Lua.Initializer(env, v), Initializers(env, values[1..]), x, outer);
    }
  }

  lemma InitializerFine(env: Env, v: Node, x: nat, outer: Span)
    requires Good(v, outer)
    ensures Fine(Lua.Initializer(env, v), x, v.index, v.index + 1, outer)
    ensures v.kind != "function_call" ==> Lua.Initializer(env, v) == []
  {
    if v.kind != "function_call" {
      FineNothing(x, v.index, v.index + 1, outer);
    } else if RequireModule(env, v).Some? {
      FineImport(env, v, Mode.Initializer, x, outer);
    } else {
      FineVisit(v.index, Mode.Initializer, RoleOf(env, v), x, outer);
      assert Lua.Initializer(env, v) == [Visited(v.index, Mode.Initializer, RoleOf(env, v))];
    }
  }

  // ----- the top level -----

  lemma {:induction false} VisitFine(env: Env, n: Node, x: nat)
    requires Numbered(n) && Spanned(n)
    ensures Fine(Visit(env, n), x, n.index, End(n), n.span)
    decreases Size(n), 5
  {
    var v := [Visited(n.index, Main, RoleOf(env, n))];
    if n.kind == "function_call" {
      VisitCallFine(env, n, x);
    } else {
      var items := Initializers(env, InitialValues(n)) + Ladder(env, n);
      FineVisit(n.index, Main, Plain, x, n.span);
      if n.kind == "variable_declaration" {
        DeclarationFine(env, n, x);
      } else {
        assert items == Ladder(env, n);
        LadderFine(env, n, x);
      }
      FineConcat(v, items, x, n.index, n.index + 1, End(n), n.span);
    }
  }

  /** A call that does not resolve: the visit, its reference, and what is below. */
  lemma VisitOfCall(env: Env, n: Node)
    requires n.kind == "function_call" && RequireModule(env, n).None?
    ensures Visit(env, n) == [Visited(n.index, Main, RoleOf(env, n))] +
      (ExtractCall(env.parenConversion, n) + VisitAll(env, Named(n.children)))
  {
    var items := ExtractCall(env.parenConversion, n) + VisitAll(env, Named(n.children));
    assert InitialValues(n) == [] && [] + items == items;
  }

  lemma {:induction false} VisitCallFine(env: Env, n: Node, x: nat)
    requires Numbered(n) && Spanned(n) && n.kind == "function_call"
    ensures Fine(Visit(env, n), x, n.index, End(n), n.span)
    decreases Size(n), 4
  {
    var v := [Visited(n.index, Main, RoleOf(env, n))];
    if RequireModule(env, n).Some? {
      FineImport(env, n, Main, x, n.span);
      FineWider(Visit(env, n), x, n.index, n.index + 1, n.index, End(n), n.span, n.span);
    } else {
      var call := ExtractCall(env.parenConversion, n);
      var rest := VisitAll(env, Named(n.children));
      FineCall(env, n, Main, x, n.span);
      NamedBelow(n);
      VisitAllFine(env, Named(n.children), x, n.index + 1, End(n), n.span);
      FineInTurn(v, call, rest, x, n.index, n.index + 1, End(n), n.span);
      VisitOfCall(env, n);
    }
  }

  lemma {:induction false} VisitAllFine(env: Env, nodes: seq<Node>, x: nat, lo: nat, hi: nat, outer: Span)
    requires Listed(nodes, lo, hi, outer) && lo <= hi
    ensures Fine(VisitAll(env, nodes), x, lo, hi, outer)
    decreases TotalSize(nodes), 6
  {
    if nodes == [] {
      FineNothing(x, lo, hi, outer);
    } else {
      var mid := End(nodes[0]);
      VisitFine(env, nodes[0], x);
      FineWider(Visit(env, nodes[0]), x, nodes[0].index, mid, lo, mid, nodes[0].span, outer);
      VisitAllFine(env, nodes[1..], x, mid, hi, outer);
      FineConcat(Visit(env, nodes[0]), VisitAll(env, nodes[1..]), x, lo, mid, hi, outer);
    }
  }

  /** What the ladder makes of a node that is no call and no declaration of variables. */
  lemma {:induction false} LadderFine(env: Env, n: Node, x: nat)
    requires Numbered(n) && Spanned(n) && n.kind != "function_call" && n.kind != "variable_declaration"
    ensures Fine(Ladder(env, n), x, n.index + 1, End(n), n.span)
    decreases Size(n), 4
  {
    if n.kind == "function_declaration" {
      ExtractFunctionFine(env, n, x);
    } else if n.kind == "assignment_statement" {
      VariableListsListed(n, "variable_list");
      VariableListsListed(n, "expression_list");
      VariableTargetsFine(env, n, ListOf(AssignmentOf(n), "variable_list"),
                          ListOf(AssignmentOf(n), "expression_list"), x,
                          n.index + 1, End(n), n.index + 1, End(n), n.span);
    } else {
      NamedBelow(n);
      VisitAllFine(env, Named(n.children), x, n.index + 1, End(n), n.span);
      if env.isLuau && n.kind == "type_definition" {
        var alias := ExtractTypeAlias(env, n);
        var d := Decl(TypeAlias, ExtractName(n), n.span, env.docstring(n.index), None,
                      IsExportedOf(env, n), None, n.index);
        FineNothing(x, 0, 0, n.span);
        FineSym(d, [], x, 0, 0, n.span);
        AccountedAppend(alias, VisitAll(env, Named(n.children)), x, n.span);
      }
    }
  }

  lemma DeclarationFine(env: Env, n: Node, x: nat)
    requires Numbered(n) && Spanned(n) && n.kind == "variable_declaration"
    ensures Fine(Initializers(env, InitialValues(n)) + Ladder(env, n), x, n.index + 1, End(n), n.span)
  {
    var targets, values := ListOf(AssignmentOf(n), "variable_list"), ListOf(AssignmentOf(n), "expression_list");
    VariableListsListed(n, "variable_list");
    VariableListsListed(n, "expression_list");
    VariableTargetsFine(env, n, targets, values, x, n.index + 1, End(n), n.index + 1, End(n), n.span);
    var initial := InitialValues(n);
    assert initial == values || initial == [];
    assert Ladder(env, n) == VariableTargets(env, n, targets, values);
    AccountedAppend(Initializers(env, initial), Ladder(env, n), x, n.span);
  }

  // ----- picks by number -----

  lemma PickedInside(item: Item, pick: Pick)
    requires item.Sym? && !pick.ImportRows?
    ensures PickedItem(item, pick) == Picked(item.inside, pick)
  {}

  lemma {:induction false} TimesOfPicked(items: seq<Item>, pick: Pick, x: nat)
    requires pick.ImportVisits? || pick.CallVisits? || pick.AllVisits?
    ensures Times(Picked(items, pick), x) <= VisitsOf(items, x)
    ensures pick.ImportVisits? ==>
      Times(Picked(items, ImportVisits), x) + Times(Picked(items, CallVisits), x) <= VisitsOf(items, x)
    decreases items
  {
    if items != [] {
      var item := items[0];
      TimesOfPicked(items[1..], pick, x);
      TimesAppend(PickedItem(item, pick), Picked(items[1..], pick), x);
      TimesAppend(PickedItem(item, CallVisits), Picked(items[1..], CallVisits), x);
      TimesAppend(PickedItem(item, AllVisits), Picked(items[1..], AllVisits), x);
      if item.Sym? {
        TimesOfPicked(item.inside, pick, x);
        PickedInside(item, pick);
        PickedInside(item, CallVisits);
        PickedInside(item, AllVisits);
      } else if item.Visited? {
        var s: seq<nat> := [item.at];
        assert s[1..] == [];
      }
    }
  }

  /** The node table of a Lua file is a contains tree, whatever receivers its methods are named after. */
  lemma ExtractionIsContainsTree(env: Env, root: Node, file: Decl, path: Text)
    requires Numbered(root) && Spanned(root) && Nested(root.span, file.span)
    ensures IsContainsTree(Table(file, path, Visit(env, root)))
  {
    VisitFine(env, root, 0);
    WellFormedWider(Visit(env, root), root.span, file.span);
    TableIsContainsTree(file, path, Visit(env, root));
  }
}
