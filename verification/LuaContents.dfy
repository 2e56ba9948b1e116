/** What the rows of a Lua file come from, kind by kind, and what a declaration is called. */
module LuaContents {
  import opened Buffers
  import opened Bytes
  import opened Contents
  import opened Options
  import opened Outline
  import opened RowPaths
  import opened SyntaxTree
  import opened Lua
  import LuaFacts
  import LuaSites
  import opened LuaDecls

  // ----- what the outline of a file holds, kind by kind -----

  ghost predicate IsMetByAWalk(env: Env, root: Node, m: Node, mode: Mode, path: seq<Decl>) {
    IsWalk(mode) && IsMet(env, root, m, mode, path)
  }

  lemma ComesFrom(env: Env, root: Node, path: seq<Decl>, e: Entry) returns (m: Node, mode: Mode)
    requires Lies(Visit(env, root), path, e)
    ensures IsMetByAWalk(env, root, m, mode, path) && Yields(env, m, mode, e)
  {
    m, mode := FoundComesFrom(env, root, Main, path, e);
  }

  lemma IsFound(env: Env, root: Node, m: Node, mode: Mode, path: seq<Decl>, e: Entry)
    requires IsMetByAWalk(env, root, m, mode, path) && Yields(env, m, mode, e)
    ensures Lies(Visit(env, root), path, e)
  {
    YieldedIsFound(env, m, mode, e);
    ReachedIsFound(env, root, Main, m, mode, path, e);
  }

  /** `e` is yielded by a node that a walk comes to, inside `path`. */
  ghost predicate Stands(env: Env, root: Node, path: seq<Decl>, e: Entry) {
    exists m, mode :: IsMetByAWalk(env, root, m, mode, path) && Yields(env, m, mode, e)
  }

  /**
   The outline of a file holds what the nodes that the walks come to yield,
   each in the declarations it is met in, and nothing else.
   */
  lemma OutlineHoldsExactly(env: Env, root: Node, path: seq<Decl>, e: Entry)
    ensures Lies(Visit(env, root), path, e) <==> Stands(env, root, path, e)
  {
    if Lies(Visit(env, root), path, e) {
      var m, mode := ComesFrom(env, root, path, e);
    }
    if Stands(env, root, path, e) {
      var m, mode :| IsMetByAWalk(env, root, m, mode, path) && Yields(env, m, mode, e);
      IsFound(env, root, m, mode, path, e);
    }
  }

  /** A require, or one among the values of a local. */
  ghost predicate YieldsImport(env: Env, n: Node, mode: Mode, e: Entry) {
    YieldsRequire(env, n, mode, e) || YieldsInitial(env, n, mode, e)
  }

  /** A declared function, or one assigned at top level, by itself or in a table. */
  ghost predicate YieldsFunctionOrMethod(env: Env, n: Node, mode: Mode, e: Entry) {
    YieldsFunction(env, n, e) || YieldsAssigned(env, n, mode, e)
  }

  /** A local at top level, with a target that has no receiver and no function at its place. */
  ghost predicate YieldsLocal(env: Env, n: Node, mode: Mode, e: Entry) {
    && mode.Main? && n.kind == "variable_declaration" && e.Declared?
    && exists i, t, value :: IsPair(n, i, t, value) && TargetIsVariable(env, n, t, value, e.decl)
  }

  lemma CallYields(env: Env, m: Node, mode: Mode, e: Entry)
    requires IsWalk(mode) && (IsRefOf(e, EDGE_CALLS))
    ensures Yields(env, m, mode, e) <==> YieldsCall(env, m, mode, e)
  {}

  /** The calls references are those of the calls a walk comes to, but for requires that resolve at top level. */
  lemma CallsAreExact(env: Env, root: Node, path: seq<Decl>, e: Entry)
    requires IsRefOf(e, EDGE_CALLS)
    ensures Lies(Visit(env, root), path, e) <==>
      exists m, mode :: IsMetByAWalk(env, root, m, mode, path) && YieldsCall(env, m, mode, e)
  {
    if Lies(Visit(env, root), path, e) {
      var m, mode := ComesFrom(env, root, path, e);
      CallYields(env, m, mode, e);
    }
    if m, mode :| IsMetByAWalk(env, root, m, mode, path) && YieldsCall(env, m, mode, e) {
      CallYields(env, m, mode, e);
      IsFound(env, root, m, mode, path, e);
    }
  }

  lemma ImportYields(env: Env, m: Node, mode: Mode, e: Entry)
    requires IsWalk(mode) && (IsRefOf(e, EDGE_IMPORTS) || IsDeclOf(e, Kind.Import))
    ensures Yields(env, m, mode, e) <==> YieldsImport(env, m, mode, e)
  {}

  /** The imports are those of the requires met at top level, by themselves or as values of a local. */
  lemma ImportsAreExact(env: Env, root: Node, path: seq<Decl>, e: Entry)
    requires IsRefOf(e, EDGE_IMPORTS) || IsDeclOf(e, Kind.Import)
    ensures Lies(Visit(env, root), path, e) <==>
      exists m, mode :: IsMetByAWalk(env, root, m, mode, path) && YieldsImport(env, m, mode, e)
  {
    if Lies(Visit(env, root), path, e) {
      var m, mode := ComesFrom(env, root, path, e);
      ImportYields(env, m, mode, e);
    }
    if m, mode :| IsMetByAWalk(env, root, m, mode, path) && YieldsImport(env, m, mode, e) {
      ImportYields(env, m, mode, e);
      IsFound(env, root, m, mode, path, e);
    }
  }

  lemma VariableYields(env: Env, m: Node, mode: Mode, e: Entry)
    requires IsWalk(mode) && (IsDeclOf(e, Kind.Variable))
    ensures Yields(env, m, mode, e) <==> YieldsLocal(env, m, mode, e)
  {}

  /** The variables are those targets of locals; a global assignment makes none. */
  lemma VariablesAreExact(env: Env, root: Node, path: seq<Decl>, e: Entry)
    requires IsDeclOf(e, Kind.Variable)
    ensures Lies(Visit(env, root), path, e) <==>
      exists m, mode :: IsMetByAWalk(env, root, m, mode, path) && YieldsLocal(env, m, mode, e)
  {
    if Lies(Visit(env, root), path, e) {
      var m, mode := ComesFrom(env, root, path, e);
      VariableYields(env, m, mode, e);
    }
    if m, mode :| IsMetByAWalk(env, root, m, mode, path) && YieldsLocal(env, m, mode, e) {
      VariableYields(env, m, mode, e);
      IsFound(env, root, m, mode, path, e);
    }
  }

  lemma FunctionYields(env: Env, m: Node, mode: Mode, e: Entry)
    requires IsWalk(mode) && (IsDeclOf(e, Kind.Function) || IsDeclOf(e, Kind.Method))
    ensures Yields(env, m, mode, e) <==> YieldsFunctionOrMethod(env, m, mode, e)
  {}

  /** The functions and methods are those. */
  lemma FunctionsAreExact(env: Env, root: Node, path: seq<Decl>, e: Entry)
    requires IsDeclOf(e, Kind.Function) || IsDeclOf(e, Kind.Method)
    ensures Lies(Visit(env, root), path, e) <==>
      exists m, mode :: IsMetByAWalk(env, root, m, mode, path) && YieldsFunctionOrMethod(env, m, mode, e)
  {
    if Lies(Visit(env, root), path, e) {
      var m, mode := ComesFrom(env, root, path, e);
      FunctionYields(env, m, mode, e);
    }
    if m, mode :| IsMetByAWalk(env, root, m, mode, path) && YieldsFunctionOrMethod(env, m, mode, e) {
      FunctionYields(env, m, mode, e);
      IsFound(env, root, m, mode, path, e);
    }
  }

  lemma AliasYields(env: Env, m: Node, mode: Mode, e: Entry)
    requires IsWalk(mode) && (IsDeclOf(e, Kind.TypeAlias))
    ensures Yields(env, m, mode, e) <==> YieldsAlias(env, m, mode, e)
  {}

  /** The type aliases are the named type definitions at top level. */
  lemma AliasesAreExact(env: Env, root: Node, path: seq<Decl>, e: Entry)
    requires IsDeclOf(e, Kind.TypeAlias)
    ensures Lies(Visit(env, root), path, e) <==>
      exists m, mode :: IsMetByAWalk(env, root, m, mode, path) && YieldsAlias(env, m, mode, e)
  {
    if Lies(Visit(env, root), path, e) {
      var m, mode := ComesFrom(env, root, path, e);
      AliasYields(env, m, mode, e);
    }
    if m, mode :| IsMetByAWalk(env, root, m, mode, path) && YieldsAlias(env, m, mode, e) {
      AliasYields(env, m, mode, e);
      IsFound(env, root, m, mode, path, e);
    }
  }

  // ----- one place, one row -----

  lemma {:induction false} NoTimes(s: seq<nat>, x: nat)
    requires LuaFacts.Times(s, x) == 0
    ensures x !in s
  {
    if s != [] {
      NoTimes(s[1..], x);
      assert s == [s[0]] + s[1..];
    }
  }

  lemma {:induction false} OneTime(s: seq<nat>, x: nat)
    requires LuaFacts.Times(s, x) <= 1
    ensures AtMostOnce(s, x)
  {
    if s != [] {
      OneTime(s[1..], x);
      if s[0] == x {
        NoTimes(s[1..], x);
      }
      assert forall i :: 1 <= i < |s| ==> s[1..][i - 1] == s[i];
    }
  }

  /** No two declarations, and no two references, come from one node. */
  lemma EntriesAreApart(env: Env, root: Node, path: seq<Decl>, e: Entry, path': seq<Decl>, e': Entry)
    requires Numbered(root) && Spanned(root)
    requires Lies(Visit(env, root), path, e) && Lies(Visit(env, root), path', e')
    requires WhatOf(e) == WhatOf(e') && SiteOf(e) == SiteOf(e')
    ensures path == path' && e == e'
  {
    LuaSites.OneSitePerNode(env, root, SiteOf(e));
    OneTime(Sites(Visit(env, root), WhatOf(e)), SiteOf(e));
    OneEntryPerSite(Visit(env, root), path, e, path', e');
  }

  /** A function declaration that a walk comes to makes one declaration, if it has a name, in what it is met in. */
  lemma DeclarationYieldsExactly(env: Env, root: Node, n: Node, mode: Mode, outer: seq<Decl>, path: seq<Decl>, d: Decl)
    requires Numbered(root) && Spanned(root) && IsMetByAWalk(env, root, n, mode, outer)
    requires n.kind == "function_declaration" && ExtractName(n) != [] && !IsAnonymous(n) && d.at == n.index
    ensures Lies(Visit(env, root), path, Declared(d)) <==> path == outer && IsDeclaredBy(env, n, d)
  {
    var made := match ReceiverType(n) case Some(owner) => MethodDecl(env, n, owner) case None => FunctionDecl(env, n);
    assert IsDeclaredBy(env, n, made) && (IsDeclaredBy(env, n, d) ==> d == made);
    IsFound(env, root, n, mode, outer, Declared(made));
    if Lies(Visit(env, root), path, Declared(d)) {
      EntriesAreApart(env, root, path, Declared(d), outer, Declared(made));
    }
  }

  /** So does a target with a function at its place, or with one in the table there. */
  lemma AssignedYieldsExactly(env: Env, root: Node, n: Node, outer: seq<Decl>, i: nat, t: Node, value: Option<Node>,
                              f: Node, made: Decl, path: seq<Decl>, d: Decl)
    requires Numbered(root) && Spanned(root) && IsMet(env, root, n, Main, outer) && IsAssignment(n, Main)
    requires IsPair(n, i, t, value) && TargetDeclares(env, n, t, value, f, made) && d.at == f.index
    ensures Lies(Visit(env, root), path, Declared(d)) <==> path == outer && d == made
  {
    assert made.at == f.index;
    assert YieldsAssigned(env, n, Main, Declared(made));
    IsFound(env, root, n, Main, outer, Declared(made));
    if Lies(Visit(env, root), path, Declared(d)) {
      EntriesAreApart(env, root, path, Declared(d), outer, Declared(made));
    }
  }

  /** And a target of a local without a function at its place makes one variable. */
  lemma LocalYieldsExactly(env: Env, root: Node, n: Node, outer: seq<Decl>, i: nat, t: Node, value: Option<Node>,
                           path: seq<Decl>, d: Decl)
    requires Numbered(root) && Spanned(root) && IsMet(env, root, n, Main, outer) && n.kind == "variable_declaration"
    requires IsPair(n, i, t, value) && !IsFunctionValue(value)
    requires AssignmentTarget(env, t).Some? && AssignmentTarget(env, t).value.receiver.None? && d.at == t.index
    ensures Lies(Visit(env, root), path, Declared(d)) <==> path == outer && TargetIsVariable(env, n, t, value, d)
  {
    var made := VariableDecl(env, n, t, AssignmentTarget(env, t).value.name, value);
    assert TargetIsVariable(env, n, t, value, made) && (TargetIsVariable(env, n, t, value, d) ==> d == made);
    assert YieldsVariable(env, n, Main, Declared(made));
    IsFound(env, root, n, Main, outer, Declared(made));
    if Lies(Visit(env, root), path, Declared(d)) {
      EntriesAreApart(env, root, path, Declared(d), outer, Declared(made));
    }
  }

  // ----- the rows -----

  /** The node rows of a file are what the nodes that the walks come to yield, each in the declarations it is met in. */
  lemma NodeRowsAreExact(env: Env, root: Node, file: Decl, filePath: Text, path: seq<Decl>, d: Decl)
    ensures var rows := Table(file, filePath, Visit(env, root));
      && ParentsAreEarlier(rows)
      && ((exists k :: IsRow(rows, k, path, d)) <==> Stands(env, root, path, Declared(d)))
  {
    NodeRowsAreEntries(file, filePath, Visit(env, root), path, d);
    OutlineHoldsExactly(env, root, path, Declared(d));
  }

  /** And so are the reference rows, each from the row of the declaration it is met in. */
  lemma RefRowsAreExact(env: Env, root: Node, file: Decl, filePath: Text, path: seq<Decl>, info: RefInfo)
    ensures var items := Visit(env, root);
      var rows, refs := Table(file, filePath, items), Refs(items, [Scope(0, File, file.name)], 1);
      && ParentsAreEarlier(rows)
      && ((exists k :: IsRefRow(rows, refs, k, path, info)) <==> Stands(env, root, path, Referred(info)))
  {
    RefRowsAreEntries(file, filePath, Visit(env, root), path, info);
    OutlineHoldsExactly(env, root, path, Referred(info));
  }
}
