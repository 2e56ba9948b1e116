/** Where the rows of a Lua file come from: linearly many sites, and no node the site of two rows of a sort. */
module LuaSites {
  import opened Buffers
  import opened Bytes
  import opened Options
  import opened Outline
  import opened SyntaxTree
  import opened Walking
  import opened Lua
  import opened LuaFacts

  function SiteCount(items: seq<Item>, what: What): nat {
    |Sites(items, what)|
  }

  lemma SiteCountAppend(xs: seq<Item>, ys: seq<Item>, what: What)
    ensures SiteCount(xs + ys, what) == SiteCount(xs, what) + SiteCount(ys, what)
  {
    SitesAppend(xs, ys, what);
  }

  lemma SiteCountOne(item: Item, what: What)
    ensures SiteCount([item], what) == |ItemSites(item, what)|
  {
    assert [item][1..] == [];
    assert Sites([item], what) == ItemSites(item, what) + [];
  }

  lemma SiteCountSym(d: Decl, inside: seq<Item>, what: What)
    ensures SiteCount(SymUnlessNameless(d, inside), what) <= (if what.Decls? then 1 else 0) + SiteCount(inside, what)
    ensures SiteCount([Sym(d, inside)], what) <= (if what.Decls? then 1 else 0) + SiteCount(inside, what)
  {
    SiteCountOne(Sym(d, inside), what);
  }

  lemma SiteCountLeaf(item: Item, what: What)
    requires !item.Sym?
    ensures SiteCount([item], what) <= 1
    ensures item.Visited? && !what.Visits? ==> SiteCount([item], what) == 0
    ensures item.Ref? && !what.References? ==> SiteCount([item], what) == 0
  {
    SiteCountOne(item, what);
  }

  lemma SiteCountImport(env: Env, call: Node, mod: Text, what: What)
    ensures SiteCount(Lua.Import(env, call, mod), what) <= if what.Visits? then 0 else 1
  {
    var d := ImportDecl(env, call, mod);
    var r := Ref(RefAt(EDGE_IMPORTS, mod, call));
    assert Lua.Import(env, call, mod) == [Sym(d, [])] + [r];
    SiteCountOne(Sym(d, []), what);
    SiteCountOne(r, what);
    SiteCountAppend([Sym(d, [])], [r], what);
  }

  lemma SiteCountCall(env: Env, call: Node, what: What)
    ensures SiteCount(ExtractCall(env.parenConversion, call), what) <= if what.References? then 1 else 0
  {
    var refs := ExtractCall(env.parenConversion, call);
    if refs != [] {
      SiteCountOne(refs[0], what);
      assert refs == [refs[0]];
    }
  }

  lemma {:induction false} BodyIsLinear(env: Env, n: Node, what: What)
    ensures SiteCount(VisitBody(env, n), what) <= Size(n)
    decreases Size(n), 5
  {
    var mark := Visited(n.index, Body, RoleOf(env, n));
    SiteCountLeaf(mark, what);
    if n.kind == "function_declaration" {
      FunctionIsLinear(env, n, what);
      SiteCountAppend([mark], ExtractFunction(env, n), what);
    } else {
      var call := if n.kind == "function_call" then ExtractCall(env.parenConversion, n) else [];
      var rest := VisitBodies(env, Named(n.children));
      SiteCountCall(env, n, what);
      BodiesAreLinear(env, Named(n.children), what);
      SiteCountAppend(call, rest, what);
      SiteCountAppend([mark], call + rest, what);
    }
  }

  lemma {:induction false} BodiesAreLinear(env: Env, nodes: seq<Node>, what: What)
    ensures SiteCount(VisitBodies(env, nodes), what) <= TotalSize(nodes)
    decreases TotalSize(nodes), 6
  {
    if nodes != [] {
      BodyIsLinear(env, nodes[0], what);
      BodiesAreLinear(env, nodes[1..], what);
      SiteCountAppend(VisitBody(env, nodes[0]), VisitBodies(env, nodes[1..]), what);
    }
  }

  /** Apart from its own visit, a function yields no more than it has nodes below it, and its declaration. */
  lemma {:induction false} FunctionIsLinear(env: Env, n: Node, what: What)
    ensures SiteCount(ExtractFunction(env, n), what) + (if what.Visits? then 1 else 0) <= Size(n)
    decreases Size(n), 3
  {
    BodyItemsAreLinear(env, n, what);
    if ReceiverType(n).Some? {
      WithBodyIsLinear(env, MethodDecl(env, n, ReceiverType(n).value), n, what);
    } else if ExtractName(n) != ANONYMOUS {
      WithBodyIsLinear(env, FunctionDecl(env, n), n, what);
    }
  }

  lemma {:induction false} BodyItemsAreLinear(env: Env, f: Node, what: What)
    ensures SiteCount(BodyItems(env, f), what) < Size(f)
    decreases Size(f), 1
  {
    if ByField(f, "body").Some? {
      BodyIsLinear(env, ByField(f, "body").value, what);
    }
  }

  lemma {:induction false} WithBodyIsLinear(env: Env, d: Decl, f: Node, what: What)
    ensures SiteCount(WithBody(env, d, f), what) + (if what.Visits? then 1 else 0) <= Size(f)
    decreases Size(f), 2
  {
    BodyItemsAreLinear(env, f, what);
    SiteCountSym(d, BodyItems(env, f), what);
  }

  lemma {:induction false} TableFunctionsAreLinear(env: Env, fields: seq<Node>, receiver: Text, what: What)
    ensures SiteCount(TableFunctions(env, fields, receiver), what) <= TotalSize(fields)
    decreases TotalSize(fields), 3
  {
    if fields != [] {
      TableFieldIsLinear(env, fields[0], receiver, what);
      TableFunctionsAreLinear(env, fields[1..], receiver, what);
      SiteCountAppend(TableField(env, fields[0], receiver), TableFunctions(env, fields[1..], receiver), what);
    }
  }

  lemma {:induction false} TableFieldIsLinear(env: Env, field: Node, receiver: Text, what: What)
    ensures SiteCount(TableField(env, field, receiver), what) <= Size(field)
    decreases Size(field), 2
  {
    if ByField(field, "value").Some? {
      var v := ByField(field, "value").value;
      var name := FieldName(env, field);
      WithBodyIsLinear(env, FunctionValueDecl(env, v, name, Some(receiver), None), v, what);
      TableFunctionsAreLinear(env, Named(v.children), receiver + [DOT] + name, what);
    }
  }

  lemma VariableTargetIsLinear(env: Env, n: Node, t: Node, value: Option<Node>, what: What)
    ensures SiteCount(VariableTarget(env, n, t, value), what) <= 1 + if value.Some? then Size(value.value) else 0
  {
    if AssignmentTarget(env, t).Some? {
      var target := AssignmentTarget(env, t).value;
      if value.Some? && value.value.kind == "function_definition" {
        WithBodyIsLinear(env, FunctionValueDecl(env, value.value, target.name, target.receiver, env.docstring(n.index)),
                         value.value, what);
      } else {
        var d := VariableDecl(env, n, t, target.name, value);
        var functions := if value.Some? && value.value.kind == "table_constructor"
          then TableFunctions(env, Named(value.value.children), target.fullName) else [];
        var variable := if target.receiver.Some? || n.kind == "assignment_statement" then [] else [Sym(d, [])];
        if value.Some? {
          TableFunctionsAreLinear(env, Named(value.value.children), target.fullName, what);
        }
        SiteCountSym(d, [], what);
        SiteCountAppend(functions, variable, what);
      }
    }
  }

  lemma InitializerIsLinear(env: Env, v: Node, what: What)
    ensures SiteCount(Lua.Initializer(env, v), what) <= 1
    ensures v.kind != "function_call" ==> SiteCount(Lua.Initializer(env, v), what) == 0
  {
    if v.kind == "function_call" {
      var mark := Visited(v.index, Mode.Initializer, RoleOf(env, v));
      SiteCountLeaf(mark, what);
      var found := match RequireModule(env, v) case None => [] case Some(mod) => Lua.Import(env, v, mod);
      if RequireModule(env, v).Some? {
        SiteCountImport(env, v, RequireModule(env, v).value, what);
      }
      SiteCountAppend([mark], found, what);
    }
  }

  lemma FirstTargetCount(env: Env, n: Node, targets: seq<Node>, values: seq<Node>, what: What)
    requires targets != []
    ensures var value, rest := if values == [] then None else Some(values[0]), if values == [] then [] else values[1..];
      SiteCount(VariableTargets(env, n, targets, values), what) ==
      SiteCount(VariableTarget(env, n, targets[0], value), what) +
      SiteCount(VariableTargets(env, n, targets[1..], rest), what)
  {
    var value, rest := if values == [] then None else Some(values[0]), if values == [] then [] else values[1..];
    SiteCountAppend(VariableTarget(env, n, targets[0], value), VariableTargets(env, n, targets[1..], rest), what);
  }

  lemma FirstInitializerCount(env: Env, values: seq<Node>, what: What)
    requires values != []
    ensures SiteCount(Initializers(env, values), what) <= 1 + SiteCount(Initializers(env, values[1..]), what)
    ensures values[0].kind != "function_call" ==>
      SiteCount(Initializers(env, values), what) == SiteCount(Initializers(env, values[1..]), what)
  {
    InitializerIsLinear(env, values[0], what);
    SiteCountAppend(Lua.Initializer(env, values[0]), Initializers(env, values[1..]), what);
  }

  /** The targets and their values, together with what is dug out of the values. */
  lemma {:induction false} TargetsAreLinear(env: Env, n: Node, targets: seq<Node>, values: seq<Node>, what: What)
    ensures SiteCount(VariableTargets(env, n, targets, values), what) + SiteCount(Initializers(env, values), what)
            <= TotalSize(targets) + TotalSize(values)
    decreases |targets| + |values|
  {
    if values != [] {
      FirstInitializerCount(env, values, what);
    }
    if targets != [] {
      FirstTargetCount(env, n, targets, values, what);
      FirstTargetIsLinear(env, n, targets[0], if values == [] then None else Some(values[0]), what);
      TargetsAreLinear(env, n, targets[1..], if values == [] then [] else values[1..], what);
    } else if values != [] {
      TargetsAreLinear(env, n, [], values[1..], what);
    }
  }

  /** A called value yields nothing by its target, so there is room for what its initializer yields. */
  lemma FirstTargetIsLinear(env: Env, n: Node, t: Node, value: Option<Node>, what: What)
    ensures SiteCount(VariableTarget(env, n, t, value), what)
            + (if value.Some? && value.value.kind == "function_call" then 1 else 0)
            <= Size(t) + if value.Some? then Size(value.value) else 0
  {
    VariableTargetIsLinear(env, n, t, value, what);
    if value.Some? && value.value.kind == "function_call" && AssignmentTarget(env, t).Some? {
      var target := AssignmentTarget(env, t).value;
      var variable := [Sym(VariableDecl(env, n, t, target.name, value), [])];
      SiteCountSym(VariableDecl(env, n, t, target.name, value), [], what);
      assert [] + variable == variable;
      assert VariableTarget(env, n, t, value) == variable || VariableTarget(env, n, t, value) == [];
    }
  }

  /** Two lists of an assignment are different children of it. */
  lemma {:induction false} ListsAreApart(nodes: seq<Node>, a: string, b: string)
    requires a != b && Find(nodes, a).Some? && Find(nodes, b).Some?
    ensures Size(Find(nodes, a).value) + Size(Find(nodes, b).value) <= TotalSize(nodes)
  {
    if nodes[0].kind != a && nodes[0].kind != b {
      ListsAreApart(nodes[1..], a, b);
    }
  }

  lemma ListsFit(n: Node)
    ensures TotalSize(ListOf(AssignmentOf(n), "variable_list")) + TotalSize(ListOf(AssignmentOf(n), "expression_list"))
            < Size(n)
  {
    var a := AssignmentOf(n);
    if FindNamed(a, "variable_list").Some? && FindNamed(a, "expression_list").Some? {
      ListsAreApart(Named(a.children), "variable_list", "expression_list");
    }
  }

  lemma DeclarationIsLinear(env: Env, n: Node, what: What)
    requires n.kind == "variable_declaration" || n.kind == "assignment_statement"
    ensures SiteCount(Initializers(env, InitialValues(n)), what) + SiteCount(Ladder(env, n), what) < Size(n)
  {
    var targets, values := ListOf(AssignmentOf(n), "variable_list"), ListOf(AssignmentOf(n), "expression_list");
    TargetsAreLinear(env, n, targets, values, what);
    ListsFit(n);
    assert InitialValues(n) == values || InitialValues(n) == [];
    assert Ladder(env, n) == VariableTargets(env, n, targets, values);
  }

  /** Declarations, references and visits each number at most the nodes of the tree. */
  lemma {:induction false} OutputIsLinear(env: Env, n: Node, what: What)
    ensures SiteCount(Visit(env, n), what) <= Size(n)
    decreases Size(n), 5
  {
    var mark := Visited(n.index, Main, RoleOf(env, n));
    SiteCountLeaf(mark, what);
    if n.kind == "function_call" && RequireModule(env, n).Some? {
      SiteCountImport(env, n, RequireModule(env, n).value, what);
      SiteCountAppend([mark], Lua.Import(env, n, RequireModule(env, n).value), what);
    } else {
      var first, rest := Initializers(env, InitialValues(n)), Ladder(env, n);
      if n.kind == "variable_declaration" || n.kind == "assignment_statement" {
        DeclarationIsLinear(env, n, what);
      } else {
        LadderIsLinear(env, n, what);
      }
      SiteCountAppend(first, rest, what);
      SiteCountAppend([mark], first + rest, what);
    }
  }

  lemma {:induction false} AllAreLinear(env: Env, nodes: seq<Node>, what: What)
    ensures SiteCount(VisitAll(env, nodes), what) <= TotalSize(nodes)
    decreases TotalSize(nodes), 6
  {
    if nodes != [] {
      OutputIsLinear(env, nodes[0], what);
      AllAreLinear(env, nodes[1..], what);
      SiteCountAppend(Visit(env, nodes[0]), VisitAll(env, nodes[1..]), what);
    }
  }

  /** What the ladder makes of any other node, its own visit left out. */
  lemma {:induction false} LadderIsLinear(env: Env, n: Node, what: What)
    requires n.kind != "variable_declaration" && n.kind != "assignment_statement"
    ensures SiteCount(Ladder(env, n), what) + (if what.Visits? then 1 else 0) <= Size(n)
    decreases Size(n), 4
  {
    AllAreLinear(env, Named(n.children), what);
    var rest := VisitAll(env, Named(n.children));
    if n.kind == "function_declaration" {
      FunctionIsLinear(env, n, what);
    } else if n.kind == "function_call" {
      SiteCountCall(env, n, what);
      SiteCountAppend(ExtractCall(env.parenConversion, n), rest, what);
    } else if env.isLuau && n.kind == "type_definition" {
      var d := Decl(TypeAlias, ExtractName(n), n.span, env.docstring(n.index), None,
                    IsExportedOf(env, n), None, n.index);
      SiteCountSym(d, [], what);
      SiteCountAppend(ExtractTypeAlias(env, n), rest, what);
    }
  }

  // ----- no node is the site of two declarations -----

  function DeclsAt(items: seq<Item>, x: nat): nat {
    Times(Sites(items, Decls), x)
  }

  function IsAt(x: nat, at: nat): nat {
    Within(x, at, at + 1)
  }

  lemma DeclsAppend(xs: seq<Item>, ys: seq<Item>, x: nat)
    ensures DeclsAt(xs + ys, x) == DeclsAt(xs, x) + DeclsAt(ys, x)
  {
    SitesAppend(xs, ys, Decls);
    TimesAppend(Sites(xs, Decls), Sites(ys, Decls), x);
  }

  lemma DeclsOfSym(d: Decl, inside: seq<Item>, x: nat)
    ensures DeclsAt([Sym(d, inside)], x) == IsAt(x, d.at) + DeclsAt(inside, x)
  {
    var self: seq<nat> := [d.at];
    assert [Sym(d, inside)][1..] == [] && self[1..] == [];
    assert Sites([Sym(d, inside)], Decls) == self + Sites(inside, Decls);
    assert Times(self, x) == IsAt(x, d.at);
    TimesAppend(self, Sites(inside, Decls), x);
  }

  lemma DeclsOfLeaf(item: Item, x: nat)
    requires !item.Sym?
    ensures DeclsAt([item], x) == 0
  {
    assert [item][1..] == [];
    assert Sites([item], Decls) == [];
  }

  lemma DeclsOfImport(env: Env, call: Node, mod: Text, x: nat)
    ensures DeclsAt(Lua.Import(env, call, mod), x) == IsAt(x, call.index)
  {
    var d := ImportDecl(env, call, mod);
    var r := Ref(RefAt(EDGE_IMPORTS, mod, call));
    assert Lua.Import(env, call, mod) == [Sym(d, [])] + [r];
    DeclsOfSym(d, [], x);
    DeclsOfLeaf(r, x);
    DeclsAppend([Sym(d, [])], [r], x);
  }

  lemma DeclsOfCall(env: Env, call: Node, x: nat)
    ensures DeclsAt(ExtractCall(env.parenConversion, call), x) == 0
  {
    var refs := ExtractCall(env.parenConversion, call);
    if refs != [] {
      DeclsOfLeaf(refs[0], x);
      assert refs == [refs[0]];
    }
  }

  lemma {:induction false} BodyDecls(env: Env, n: Node, x: nat)
    requires Numbered(n) && Spanned(n)
    ensures DeclsAt(VisitBody(env, n), x) <= Within(x, n.index, End(n))
    decreases Size(n), 5
  {
    var mark := Visited(n.index, Body, RoleOf(env, n));
    DeclsOfLeaf(mark, x);
    if n.kind == "function_declaration" {
      FunctionDecls(env, n, x);
      DeclsAppend([mark], ExtractFunction(env, n), x);
    } else {
      var call := if n.kind == "function_call" then ExtractCall(env.parenConversion, n) else [];
      var rest := VisitBodies(env, Named(n.children));
      DeclsOfCall(env, n, x);
      NamedBelow(n);
      BodiesDecls(env, Named(n.children), x, n.index + 1, End(n), n.span);
      DeclsAppend(call, rest, x);
      DeclsAppend([mark], call + rest, x);
    }
  }

  lemma {:induction false} BodiesDecls(env: Env, nodes: seq<Node>, x: nat, lo: nat, hi: nat, outer: Span)
    requires Listed(nodes, lo, hi, outer) && lo <= hi
    ensures DeclsAt(VisitBodies(env, nodes), x) <= Within(x, lo, hi)
    decreases TotalSize(nodes), 6
  {
    if nodes != [] {
      BodyDecls(env, nodes[0], x);
      BodiesDecls(env, nodes[1..], x, End(nodes[0]), hi, outer);
      DeclsAppend(VisitBody(env, nodes[0]), VisitBodies(env, nodes[1..]), x);
    }
  }

  lemma {:induction false} BodyItemsDecls(env: Env, f: Node, x: nat)
    requires Numbered(f) && Spanned(f)
    ensures DeclsAt(BodyItems(env, f), x) <= Within(x, f.index + 1, End(f))
    decreases Size(f), 1
  {
    if ByField(f, "body").Some? {
      var body := ByField(f, "body").value;
      ChildBelow(body, f);
      ChildWithin(body, f);
      BodyDecls(env, body, x);
    }
  }

  lemma {:induction false} WithBodyDecls(env: Env, d: Decl, f: Node, x: nat)
    requires Numbered(f) && Spanned(f) && d.at == f.index
    ensures DeclsAt(WithBody(env, d, f), x) <= Within(x, f.index, End(f))
    decreases Size(f), 2
  {
    BodyItemsDecls(env, f, x);
    DeclsOfSym(d, BodyItems(env, f), x);
  }

  lemma {:induction false} FunctionDecls(env: Env, n: Node, x: nat)
    requires Numbered(n) && Spanned(n)
    ensures DeclsAt(ExtractFunction(env, n), x) <= Within(x, n.index, End(n))
    decreases Size(n), 3
  {
    BodyItemsDecls(env, n, x);
    if ReceiverType(n).Some? {
      WithBodyDecls(env, MethodDecl(env, n, ReceiverType(n).value), n, x);
    } else if ExtractName(n) != ANONYMOUS {
      WithBodyDecls(env, FunctionDecl(env, n), n, x);
    }
  }

  lemma {:induction false} FieldsDecls(env: Env, fields: seq<Node>, receiver: Text, x: nat,
                                       lo: nat, hi: nat, outer: Span)
    requires Listed(fields, lo, hi, outer) && lo <= hi
    ensures DeclsAt(TableFunctions(env, fields, receiver), x) <= Within(x, lo, hi)
    decreases TotalSize(fields), 3
  {
    if fields != [] {
      FieldDecls(env, fields[0], receiver, x);
      FieldsDecls(env, fields[1..], receiver, x, End(fields[0]), hi, outer);
      DeclsAppend(TableField(env, fields[0], receiver), TableFunctions(env, fields[1..], receiver), x);
    }
  }

  lemma {:induction false} FieldDecls(env: Env, field: Node, receiver: Text, x: nat)
    requires Numbered(field) && Spanned(field)
    ensures DeclsAt(TableField(env, field, receiver), x) <= Within(x, field.index, End(field))
    decreases Size(field), 2
  {
    if ByField(field, "value").Some? {
      var v := ByField(field, "value").value;
      var name := FieldName(env, field);
      ChildBelow(v, field);
      ChildWithin(v, field);
      NamedBelow(v);
      WithBodyDecls(env, FunctionValueDecl(env, v, name, Some(receiver), None), v, x);
      FieldsDecls(env, Named(v.children), receiver + [DOT] + name, x, v.index + 1, End(v), v.span);
    }
  }

  /** At most one at the target, and, unless the value is a call, at most one at each node of the value. */
  lemma TargetDecls(env: Env, n: Node, t: Node, value: Option<Node>, x: nat)
    requires value.Some? ==> Numbered(value.value) && Spanned(value.value)
    ensures DeclsAt(VariableTarget(env, n, t, value), x) <= IsAt(x, t.index) +
      if value.Some? && value.value.kind != "function_call" then Within(x, value.value.index, End(value.value)) else 0
  {
    if AssignmentTarget(env, t).Some? {
      var target := AssignmentTarget(env, t).value;
      if value.Some? && value.value.kind == "function_definition" {
        WithBodyDecls(env, FunctionValueDecl(env, value.value, target.name, target.receiver, env.docstring(n.index)),
                      value.value, x);
      } else {
        var d := VariableDecl(env, n, t, target.name, value);
        var functions := if value.Some? && value.value.kind == "table_constructor"
          then TableFunctions(env, Named(value.value.children), target.fullName) else [];
        var variable := if target.receiver.Some? || n.kind == "assignment_statement" then [] else [Sym(d, [])];
        if value.Some? {
          var v := value.value;
          NamedBelow(v);
          FieldsDecls(env, Named(v.children), target.fullName, x, v.index + 1, End(v), v.span);
        }
        DeclsOfSym(d, [], x);
        DeclsAppend(functions, variable, x);
      }
    }
  }

  lemma InitializerDecls(env: Env, v: Node, x: nat)
    ensures DeclsAt(Lua.Initializer(env, v), x) <= if v.kind == "function_call" then IsAt(x, v.index) else 0
  {
    if v.kind == "function_call" {
      var mark := Visited(v.index, Mode.Initializer, RoleOf(env, v));
      DeclsOfLeaf(mark, x);
      if RequireModule(env, v).Some? {
        DeclsOfImport(env, v, RequireModule(env, v).value, x);
        DeclsAppend([mark], Lua.Import(env, v, RequireModule(env, v).value), x);
      } else {
        assert Lua.Initializer(env, v) == [mark];
      }
    }
  }

  lemma {:induction false} TargetsDecls(env: Env, n: Node, targets: seq<Node>, values: seq<Node>, x: nat,
                                        tlo: nat, thi: nat, vlo: nat, vhi: nat, touter: Span, vouter: Span)
    requires Listed(targets, tlo, thi, touter) && tlo <= thi && Listed(values, vlo, vhi, vouter) && vlo <= vhi
    ensures DeclsAt(VariableTargets(env, n, targets, values), x) + DeclsAt(Initializers(env, values), x)
            <= Within(x, tlo, thi) + Within(x, vlo, vhi)
    decreases |targets| + |values|
  {
    if values == [] {
      if targets != [] {
        TargetDecls(env, n, targets[0], None, x);
        TargetsDecls(env, n, targets[1..], [], x, End(targets[0]), thi, vlo, vhi, touter, vouter);
        DeclsAppend(VariableTarget(env, n, targets[0], None), VariableTargets(env, n, targets[1..], []), x);
      }
    } else {
      var v := values[0];
      InitializerDecls(env, v, x);
      DeclsAppend(Lua.Initializer(env, v), Initializers(env, values[1..]), x);
      if targets == [] {
        TargetsDecls(env, n, [], values[1..], x, tlo, thi, End(v), vhi, touter, vouter);
      } else {
        TargetDecls(env, n, targets[0], Some(v), x);
        TargetsDecls(env, n, targets[1..], values[1..], x, End(targets[0]), thi, End(v), vhi, touter, vouter);
        DeclsAppend(VariableTarget(env, n, targets[0], Some(v)), VariableTargets(env, n, targets[1..], values[1..]), x);
      }
    }
  }

  /** Of two lists of an assignment one ends before the other starts. */
  lemma {:induction false} ListsStandApart(nodes: seq<Node>, a: string, b: string, lo: nat, hi: nat, outer: Span)
    requires Listed(nodes, lo, hi, outer) && a != b && Find(nodes, a).Some? && Find(nodes, b).Some?
    ensures var p, q := Find(nodes, a).value, Find(nodes, b).value; End(p) <= q.index || End(q) <= p.index
  {
    if nodes[0].kind == a {
      FindListed(nodes[1..], b, End(nodes[0]), hi, outer);
    } else if nodes[0].kind == b {
      FindListed(nodes[1..], a, End(nodes[0]), hi, outer);
    } else {
      ListsStandApart(nodes[1..], a, b, End(nodes[0]), hi, outer);
    }
  }

  /** Where the nodes of a list stand: within the list, or nowhere. */
  lemma ListStands(a: Node, kind: string) returns (lo: nat, hi: nat, outer: Span)
    requires Numbered(a) && Spanned(a)
    ensures Listed(ListOf(a, kind), lo, hi, outer) && a.index < lo <= hi <= End(a)
    ensures FindNamed(a, kind).Some? ==> lo > FindNamed(a, kind).value.index && hi == End(FindNamed(a, kind).value)
    ensures FindNamed(a, kind).None? ==> lo == hi
  {
    NamedBelow(a);
    if FindNamed(a, kind).Some? {
      var list := FindNamed(a, kind).value;
      FindListed(Named(a.children), kind, a.index + 1, End(a), a.span);
      NamedBelow(list);
      lo, hi, outer := list.index + 1, End(list), list.span;
    } else {
      lo, hi, outer := a.index + 1, a.index + 1, a.span;
    }
  }

  lemma DeclarationDecls(env: Env, n: Node, x: nat)
    requires Numbered(n) && Spanned(n) && (n.kind == "variable_declaration" || n.kind == "assignment_statement")
    ensures DeclsAt(Initializers(env, InitialValues(n)), x) + DeclsAt(Ladder(env, n), x)
            <= Within(x, n.index + 1, End(n))
  {
    var a := AssignmentOf(n);
    var targets, values := ListOf(a, "variable_list"), ListOf(a, "expression_list");
    AssignmentBelow(n);
    var tlo, thi, touter := ListStands(a, "variable_list");
    var vlo, vhi, vouter := ListStands(a, "expression_list");
    if FindNamed(a, "variable_list").Some? && FindNamed(a, "expression_list").Some? {
      NamedBelow(a);
      ListsStandApart(Named(a.children), "variable_list", "expression_list", a.index + 1, End(a), a.span);
    }
    TargetsDecls(env, n, targets, values, x, tlo, thi, vlo, vhi, touter, vouter);
    assert InitialValues(n) == values || InitialValues(n) == [];
    assert Ladder(env, n) == VariableTargets(env, n, targets, values);
  }

  lemma {:induction false} VisitDecls(env: Env, n: Node, x: nat)
    requires Numbered(n) && Spanned(n)
    ensures DeclsAt(Visit(env, n), x) <= Within(x, n.index, End(n))
    decreases Size(n), 5
  {
    var mark := Visited(n.index, Main, RoleOf(env, n));
    DeclsOfLeaf(mark, x);
    if n.kind == "function_call" && RequireModule(env, n).Some? {
      DeclsOfImport(env, n, RequireModule(env, n).value, x);
      DeclsAppend([mark], Lua.Import(env, n, RequireModule(env, n).value), x);
    } else {
      var first, rest := Initializers(env, InitialValues(n)), Ladder(env, n);
      if n.kind == "variable_declaration" || n.kind == "assignment_statement" {
        DeclarationDecls(env, n, x);
      } else {
        LadderDecls(env, n, x);
      }
      DeclsAppend(first, rest, x);
      DeclsAppend([mark], first + rest, x);
    }
  }

  lemma {:induction false} AllDecls(env: Env, nodes: seq<Node>, x: nat, lo: nat, hi: nat, outer: Span)
    requires Listed(nodes, lo, hi, outer) && lo <= hi
    ensures DeclsAt(VisitAll(env, nodes), x) <= Within(x, lo, hi)
    decreases TotalSize(nodes), 6
  {
    if nodes != [] {
      VisitDecls(env, nodes[0], x);
      AllDecls(env, nodes[1..], x, End(nodes[0]), hi, outer);
      DeclsAppend(Visit(env, nodes[0]), VisitAll(env, nodes[1..]), x);
    }
  }

  lemma {:induction false} LadderDecls(env: Env, n: Node, x: nat)
    requires Numbered(n) && Spanned(n) && n.kind != "variable_declaration" && n.kind != "assignment_statement"
    ensures DeclsAt(Ladder(env, n), x) <= Within(x, n.index, End(n))
    decreases Size(n), 4
  {
    if n.kind == "function_declaration" {
      FunctionDecls(env, n, x);
    } else {
      var rest := VisitAll(env, Named(n.children));
      NamedBelow(n);
      AllDecls(env, Named(n.children), x, n.index + 1, End(n), n.span);
      if n.kind == "function_call" {
        DeclsOfCall(env, n, x);
        DeclsAppend(ExtractCall(env.parenConversion, n), rest, x);
      } else if env.isLuau && n.kind == "type_definition" {
        var d := Decl(TypeAlias, ExtractName(n), n.span, env.docstring(n.index), None,
                      IsExportedOf(env, n), None, n.index);
        DeclsOfSym(d, [], x);
        DeclsAppend(ExtractTypeAlias(env, n), rest, x);
      }
    }
  }

  // ----- nor of two references -----

  function RefsAt(items: seq<Item>, x: nat): nat {
    Times(Sites(items, References), x)
  }

  /** Every reference is of calls, of imports, or of neither. */
  lemma {:induction false} RefsByKind(items: seq<Item>, x: nat)
    ensures RefsAt(items, x) ==
      Times(Picked(items, CallRows), x) + Times(Picked(items, ImportRefs), x) + Times(Picked(items, OtherRefs), x)
    decreases items, 0
  {
    if items != [] {
      var item, rest := items[0], items[1..];
      RefsOfItemByKind(item, x);
      RefsByKind(rest, x);
      TimesAppend(ItemSites(item, References), Sites(rest, References), x);
      TimesAppend(PickedItem(item, CallRows), Picked(rest, CallRows), x);
      TimesAppend(PickedItem(item, ImportRefs), Picked(rest, ImportRefs), x);
      TimesAppend(PickedItem(item, OtherRefs), Picked(rest, OtherRefs), x);
    }
  }

  lemma {:induction false} RefsOfItemByKind(item: Item, x: nat)
    ensures Times(ItemSites(item, References), x) ==
      Times(PickedItem(item, CallRows), x) + Times(PickedItem(item, ImportRefs), x)
      + Times(PickedItem(item, OtherRefs), x)
    decreases item, 1
  {
    if item.Sym? {
      RefsByKind(item.inside, x);
      PickedInside(item, CallRows);
      PickedInside(item, ImportRefs);
      PickedInside(item, OtherRefs);
      assert ItemSites(item, References) == Sites(item.inside, References);
    }
  }

  /** No node of a Lua tree is visited twice, or is the site of two declarations or of two references. */
  lemma OneSitePerNode(env: Env, root: Node, x: nat)
    requires Numbered(root) && Spanned(root)
    ensures var items := Visit(env, root);
      VisitsOf(items, x) <= 1 && DeclsAt(items, x) <= 1 && RefsAt(items, x) <= VisitsOf(items, x)
  {
    var items := Visit(env, root);
    VisitDecls(env, root, x);
    VisitFine(env, root, x);
    RefsByKind(items, x);
    TimesOfPicked(items, ImportVisits, x);
  }
}
