/** What R extraction keeps: order, linear size, nesting. */
module RLangFacts {
  import opened Bytes
  import opened Options
  import opened Outline
  import opened SyntaxTree
  import opened RLang
  import opened Walking

  /** The sites come in pre-order, within [lo, hi). */
  predicate Ordered(items: seq<Item>, what: What, lo: nat, hi: nat) {
    Ascending(Sites(items, what), lo, hi)
  }

  /** The same for what is made of the node `at`, its visit already counted. */
  predicate OrderedFrom(items: seq<Item>, what: What, at: nat, hi: nat) {
    Ordered(items, what, if what.Visits? then at + 1 else at, hi)
  }

  lemma OrderedConcat(xs: seq<Item>, ys: seq<Item>, what: What, lo: nat, mid: nat, hi: nat)
    requires Ordered(xs, what, lo, mid) && Ordered(ys, what, mid, hi) && lo <= mid <= hi
    ensures Ordered(xs + ys, what, lo, hi)
  {
    SitesAppend(xs, ys, what);
    AscendingConcat(Sites(xs, what), Sites(ys, what), lo, mid, hi);
  }

  /** Items made for a node itself, then items from below it. */
  lemma OrderedFromConcat(xs: seq<Item>, ys: seq<Item>, what: What, at: nat, hi: nat)
    requires OrderedFrom(xs, what, at, at + 1) && Ordered(ys, what, at + 1, hi) && at < hi
    ensures OrderedFrom(xs + ys, what, at, hi)
  {
    OrderedConcat(xs, ys, what, if what.Visits? then at + 1 else at, at + 1, hi);
  }

  lemma OrderedVisit(items: seq<Item>, what: What, at: nat, hi: nat)
    requires OrderedFrom(items, what, at, hi) && at < hi
    ensures Ordered([Visited(at, Main, Plain)] + items, what, at, hi)
  {
    assert [Visited(at, Main, Plain)][1..] == [];
    SitesAppend([Visited(at, Main, Plain)], items, what);
    AscendingConcat(Sites([Visited(at, Main, Plain)], what), Sites(items, what),
                    at, if what.Visits? then at + 1 else at, hi);
  }

  lemma OrderedSym(d: Decl, inside: seq<Item>, what: What, hi: nat)
    requires Ordered(inside, what, d.at + 1, hi) && d.at < hi
    ensures OrderedFrom(SymUnlessNameless(d, inside), what, d.at, hi)
    ensures OrderedFrom([Sym(d, inside)], what, d.at, hi)
  {
    assert [Sym(d, inside)][1..] == [];
    var self := if what.Decls? then [d.at] else [];
    assert Sites([Sym(d, inside)], what) == self + Sites(inside, what);
    assert what.Decls? ==> self[1..] == [];
    AscendingConcat(self, Sites(inside, what), if what.Visits? then d.at + 1 else d.at, d.at + 1, hi);
  }

  lemma OrderedRef(info: RefInfo, what: What)
    ensures OrderedFrom([Ref(info)], what, info.at, info.at + 1)
  {
    assert [Ref(info)][1..] == [];
    assert what.References? ==> Sites([Ref(info)], what) == [info.at] && Sites([Ref(info)], what)[1..] == [];
  }

  lemma OrderedWider(items: seq<Item>, what: What, lo: nat, hi: nat, lo': nat, hi': nat)
    requires Ordered(items, what, lo, hi) && lo' <= lo && hi <= hi'
    ensures Ordered(items, what, lo', hi')
  {
    AscendingWider(Sites(items, what), lo, hi, lo', hi');
  }

  /** A declaration and a reference made for the same node. */
  lemma OrderedImport(d: Decl, info: RefInfo, what: What, hi: nat)
    requires d.at == info.at < hi
    ensures OrderedFrom([Sym(d, [])] + [Ref(info)], what, d.at, hi)
  {
    SitesAppend([Sym(d, [])], [Ref(info)], what);
    OrderedSym(d, [], what, d.at + 1);
    OrderedRef(info, what);
    assert what.Decls? ==> Sites([Ref(info)], what) == [];
    assert what.References? ==> Sites([Sym(d, [])], what) == [];
    assert Sites([Sym(d, [])] + [Ref(info)], what) ==
      if what.Decls? then Sites([Sym(d, [])], what) else Sites([Ref(info)], what);
    OrderedWider([Sym(d, [])] + [Ref(info)], what, if what.Visits? then d.at + 1 else d.at, d.at + 1,
                 if what.Visits? then d.at + 1 else d.at, hi);
  }

  lemma {:induction false} VisitOrdered(env: Env, n: Node, top: bool, what: What)
    requires Numbered(n)
    ensures Ordered(Visit(env, n, top), what, n.index, End(n))
    decreases Size(n), 5
  {
    if Hook(env, n, top).Some? {
      HookOrdered(env, n, top, what);
      OrderedVisit(Hook(env, n, top).value, what, n.index, End(n));
    } else {
      VisitAllOrdered(env, n.children, n.kind == "program", n.index + 1, what);
      var call := if n.kind == "call" then ExtractCall(env.parenConversion, n) else [];
      assert OrderedFrom(call, what, n.index, n.index + 1) by {
        if call != [] {
          OrderedRef(call[0].info, what);
        }
      }
      var all := VisitAll(env, n.children, n.kind == "program");
      OrderedFromConcat(call, all, what, n.index, End(n));
      OrderedVisit(call + all, what, n.index, End(n));
    }
  }

  lemma {:induction false} VisitAllOrdered(env: Env, children: seq<Child>, top: bool, start: nat, what: What)
    requires NumberedAll(children, start)
    ensures Ordered(VisitAll(env, children, top), what, start, start + SizeAll(children))
    decreases SizeAll(children), 6
  {
    if children != [] {
      var first := if children[0].named then Visit(env, children[0].node, top) else [];
      if children[0].named {
        VisitOrdered(env, children[0].node, top, what);
      }
      var mid := start + Size(children[0].node);
      VisitAllOrdered(env, children[1..], top, mid, what);
      OrderedConcat(first, VisitAll(env, children[1..], top), what, start, mid, start + SizeAll(children));
    }
  }

  lemma {:induction false} HookOrdered(env: Env, n: Node, top: bool, what: What)
    requires Numbered(n)
    ensures Hook(env, n, top).Some? ==> OrderedFrom(Hook(env, n, top).value, what, n.index, End(n))
    decreases Size(n), 4
  {
    if n.kind == "call" {
      HookCallOrdered(env, n, what);
    } else if n.kind == "binary_operator" {
      HookBinaryOperatorOrdered(env, n, top, what);
    }
  }

  lemma {:induction false} HookCallOrdered(env: Env, n: Node, what: What)
    requires Numbered(n)
    ensures HookCall(env, n).Some? ==> OrderedFrom(HookCall(env, n).value, what, n.index, End(n))
    decreases Size(n), 3
  {
    if CalleeName(n).Some? && NonEmptyLiteral(FirstArgValue(n)).Some? {
      var name := NonEmptyLiteral(FirstArgValue(n)).value;
      var fname := CalleeName(n).value;
      if IsImportFn(fname) || fname == Ascii("source") {
        var imp := [Sym(DeclAt(Import, name, n, Some(env.importSignature(n.text))), [])];
        var ref := [Ref(RefAt(Buffers.EDGE_IMPORTS, name, n))];
        OrderedImport(imp[0].decl, ref[0].info, what, End(n));
        assert imp + ref == [imp[0], ref[0]];
      } else if IsClassFn(fname) {
        ClassMembersOrdered(env, n, what);
        OrderedSym(DeclAt(Class, name, n, None), ClassMembers(env, n), what, End(n));
      } else if IsGenericFn(fname) {
        if Implementation(n).Some? {
          ImplementationBelow(n);
        }
        FunctionSymOrdered(env, DeclAt(Function, name, n, None), Implementation(n), n, what);
      }
    }
  }

  lemma ImplementationBelow(n: Node)
    requires Numbered(n) && Implementation(n).Some?
    ensures Numbered(Implementation(n).value) && n.index < Implementation(n).value.index
    ensures End(Implementation(n).value) <= End(n)
  {
    var args := ByField(n, "arguments").value;
    assert Implementation(n) == FirstFunction(args.children);
    var i :| 0 <= i < |args.children| && IsArgument(args.children[i]) &&
      ByField(args.children[i].node, "value") == Implementation(n);
    GrandchildBelow(args.children[i].node, args, n);
    ChildBelow(Implementation(n).value, args.children[i].node);
  }

  lemma GrandchildBelow(m: Node, c: Node, n: Node)
    requires Numbered(n) && IsChild(c, n) && IsChild(m, c)
    ensures Numbered(m) && n.index < m.index && End(m) <= End(n)
  {
    ChildBelow(c, n);
    ChildBelow(m, c);
  }

  /** `n`: the node the declaration is for, with the function below it. */
  lemma {:induction false} FunctionSymOrdered(env: Env, d: Decl, f: Option<Node>, n: Node, what: What)
    requires d.at == n.index
    requires f.Some? ==> Numbered(f.value) && n.index < f.value.index && End(f.value) <= End(n)
    ensures OrderedFrom(FunctionSym(env, d, f), what, n.index, End(n))
    decreases if f.Some? then Size(f.value) else 0, 1
  {
    if f.Some? && ByField(f.value, "body").Some? {
      var body := ByField(f.value, "body").value;
      ChildBelow(body, f.value);
      VisitOrdered(env, body, false, what);
      OrderedWider(Visit(env, body, false), what, body.index, End(body), n.index + 1, End(n));
      OrderedSym(d.(signature := TextOf(ByField(f.value, "parameters"))), Visit(env, body, false), what, End(n));
    } else if f.Some? {
      OrderedSym(d.(signature := TextOf(ByField(f.value, "parameters"))), [], what, End(n));
    } else {
      OrderedSym(d, [], what, End(n));
    }
  }

  lemma {:induction false} HookBinaryOperatorOrdered(env: Env, n: Node, top: bool, what: What)
    requires Numbered(n)
    ensures HookBinaryOperator(env, n, top).Some? ==>
      OrderedFrom(HookBinaryOperator(env, n, top).value, what, n.index, End(n))
    decreases Size(n), 3
  {
    if HookBinaryOperator(env, n, top).Some? {
      var lhs, rhs := ByField(n, "lhs").value, ByField(n, "rhs").value;
      var op := ByField(n, "operator").value.text;
      if IsAssignLeft(op) && lhs.kind == "identifier" && rhs.kind == "function_definition" {
        ChildBelow(rhs, n);
        FunctionSymOrdered(env, DeclAt(Function, lhs.text, n, None), Some(rhs), n, what);
      } else if IsAssignLeft(op) && lhs.kind == "identifier" {
        AssignmentOrdered(env, n, lhs.text, rhs, what);
      } else {
        AssignmentOrdered(env, n, rhs.text, lhs, what);
      }
    }
  }

  lemma {:induction false} AssignmentOrdered(env: Env, n: Node, name: Text, value: Node, what: What)
    requires Numbered(n) && IsChild(value, n) && Size(value) < Size(n)
    ensures OrderedFrom(RLang.Variable(name, n) + Visit(env, value, false), what, n.index, End(n))
    ensures OrderedFrom([] + Visit(env, value, false), what, n.index, End(n))
    decreases Size(n), 2
  {
    ChildBelow(value, n);
    VisitOrdered(env, value, false, what);
    OrderedWider(Visit(env, value, false), what, value.index, End(value), n.index + 1, End(n));
    OrderedSym(DeclAt(if IsConstantName(name) then Constant else Outline.Variable, name, n, None), [],
               what, n.index + 1);
    OrderedFromConcat(RLang.Variable(name, n), Visit(env, value, false), what, n.index, End(n));
    OrderedFromConcat([], Visit(env, value, false), what, n.index, End(n));
  }

  lemma {:induction false} ClassMembersOrdered(env: Env, n: Node, what: What)
    requires Numbered(n)
    ensures Ordered(ClassMembers(env, n), what, n.index + 1, End(n))
    decreases Size(n), 2
  {
    if ByField(n, "arguments").Some? {
      var args := ByField(n, "arguments").value;
      ChildBelow(args, n);
      MembersOrdered(env, args.children, 0, args.index + 1, what);
      OrderedWider(ClassMembers(env, n), what, args.index + 1, End(args), n.index + 1, End(n));
    }
  }

  lemma {:induction false} MembersOrdered(env: Env, children: seq<Child>, positional: nat, start: nat, what: What)
    requires NumberedAll(children, start)
    ensures Ordered(Members(env, children, positional), what, start, start + SizeAll(children))
    decreases SizeAll(children), 5
  {
    if children != [] {
      var arg := children[0].node;
      var mid := start + Size(arg);
      if IsArgument(children[0]) {
        var next := if IsUnnamed(arg) then positional + 1 else positional;
        MembersOrdered(env, children[1..], next, mid, what);
        ArgumentOrdered(env, arg, positional, what);
        OrderedConcat(Argument(env, arg, positional), Members(env, children[1..], next), what,
                      start, mid, start + SizeAll(children));
      } else {
        MembersOrdered(env, children[1..], positional, mid, what);
        OrderedWider(Members(env, children[1..], positional), what, mid, mid + SizeAll(children[1..]),
                     start, start + SizeAll(children));
      }
    }
  }

  lemma {:induction false} ArgumentOrdered(env: Env, arg: Node, positional: nat, what: What)
    requires Numbered(arg)
    ensures Ordered(Argument(env, arg, positional), what, arg.index, End(arg))
    decreases Size(arg), 4
  {
    var name := ByField(arg, "name");
    if name.Some? {
      MemberOrdered(env, arg, name.value.text, what);
    } else if positional == 1 && ByField(arg, "value").Some? {
      var v := ByField(arg, "value").value;
      RefBelow(RefAt(Buffers.EDGE_EXTENDS, v.text, v), v, arg, what);
    }
  }

  lemma RefBelow(info: RefInfo, v: Node, n: Node, what: What)
    requires Numbered(n) && IsChild(v, n) && info.at == v.index
    ensures Ordered([Ref(info)], what, n.index, End(n))
  {
    ChildBelow(v, n);
    OrderedRef(info, what);
  }

  lemma {:induction false} MemberOrdered(env: Env, arg: Node, name: Text, what: What)
    requires Numbered(arg)
    ensures Ordered(Member(env, arg, name), what, arg.index, End(arg))
    decreases Size(arg), 3
  {
    if ByField(arg, "value").Some? {
      var v := ByField(arg, "value").value;
      ChildBelow(v, arg);
      if name == Ascii("inherit") || name == Ascii("contains") {
        if NonEmptyLiteral(Some(v)).Some? {
          RefBelow(RefAt(Buffers.EDGE_EXTENDS, NonEmptyLiteral(Some(v)).value, v), v, arg, what);
        }
      } else if v.kind == "function_definition" {
        MethodArgOrdered(env, arg, what);
      } else if v.kind == "call" && CalleeName(v) == Some(Ascii("list")) && ByField(v, "arguments").Some? {
        var entries := ByField(v, "arguments").value;
        ChildBelow(entries, v);
        EntriesOrdered(env, entries, what);
        OrderedWider(MethodArgs(env, entries.children), what, entries.index + 1, End(entries), arg.index, End(arg));
      }
    }
  }

  lemma {:induction false} EntriesOrdered(env: Env, entries: Node, what: What)
    requires Numbered(entries)
    ensures Ordered(MethodArgs(env, entries.children), what, entries.index + 1, End(entries))
    decreases Size(entries), 5
  {
    MethodArgsOrdered(env, entries.children, entries.index + 1, what);
  }

  lemma {:induction false} MethodArgsOrdered(env: Env, children: seq<Child>, start: nat, what: What)
    requires NumberedAll(children, start)
    ensures Ordered(MethodArgs(env, children), what, start, start + SizeAll(children))
    decreases SizeAll(children), 4
  {
    if children != [] {
      var first := if IsArgument(children[0]) then MethodArg(env, children[0].node) else [];
      if IsArgument(children[0]) {
        MethodArgOrdered(env, children[0].node, what);
      }
      var mid := start + Size(children[0].node);
      MethodArgsOrdered(env, children[1..], mid, what);
      OrderedConcat(first, MethodArgs(env, children[1..]), what, start, mid, start + SizeAll(children));
    }
  }

  lemma {:induction false} MethodArgOrdered(env: Env, entry: Node, what: What)
    requires Numbered(entry)
    ensures Ordered(MethodArg(env, entry), what, entry.index, End(entry))
    decreases Size(entry), 2
  {
    if ByField(entry, "name").Some? && ByField(entry, "value").Some? {
      var v := ByField(entry, "value").value;
      ChildBelow(v, entry);
      FunctionSymOrdered(env, DeclAt(Method, ByField(entry, "name").value.text, entry, None), Some(v), entry, what);
    }
  }

  /**
   No syntax node is visited twice, and none is the site of two declarations or
   of two references; so the output is linear in the tree.
   */
  lemma OutputIsLinear(env: Env, root: Node, scopes: seq<Scope>, base: nat)
    requires Numbered(root) && scopes != []
    ensures var items := Visit(env, root, false);
      && (forall what, i, j :: 0 <= i < j < |Sites(items, what)| ==> Sites(items, what)[i] < Sites(items, what)[j])
      && |Sites(items, Visits)| <= Size(root)
      && |Nodes(items, scopes, base)| <= Size(root)
      && |Refs(items, scopes, base)| <= Size(root)
  {
    var items := Visit(env, root, false);
    forall what
      ensures |Sites(items, what)| <= Size(root)
      ensures forall i, j :: 0 <= i < j < |Sites(items, what)| ==> Sites(items, what)[i] < Sites(items, what)[j]
    {
      VisitOrdered(env, root, false, what);
      AscendingMeans(Sites(items, what), root.index, End(root));
    }
    OneSitePerRow(items, scopes, base);
  }

  // ----- completeness -----

  /** `m` is below `n` by named children, through nodes that no hook consumes. */
  predicate IsReached(env: Env, m: Node, n: Node, top: bool)
    decreases Size(n), 0
  {
    m == n || (Hook(env, n, top).None? && AnyIsReached(env, m, n.children, n.kind == "program"))
  }

  predicate AnyIsReached(env: Env, m: Node, children: seq<Child>, top: bool)
    decreases SizeAll(children), 1
  {
    children != [] &&
    ((children[0].named && IsReached(env, m, children[0].node, top)) || AnyIsReached(env, m, children[1..], top))
  }

  /** What is reached is visited. */
  lemma {:induction false} ReachedIsVisited(env: Env, m: Node, n: Node, top: bool)
    requires IsReached(env, m, n, top)
    ensures m.index in Sites(Visit(env, n, top), Visits)
    decreases Size(n), 0
  {
    var mark := [Visited(n.index, Main, Plain)];
    var call := if n.kind == "call" then ExtractCall(env.parenConversion, n) else [];
    var all := VisitAll(env, n.children, n.kind == "program");
    assert mark[1..] == [];
    assert Sites(mark, Visits) == [n.index];
    SitesAppend(mark, if Hook(env, n, top).Some? then Hook(env, n, top).value else call + all, Visits);
    if m != n {
      AnyReachedIsVisited(env, m, n.children, n.kind == "program");
      SitesAppend(call, all, Visits);
    }
  }

  lemma {:induction false} AnyReachedIsVisited(env: Env, m: Node, children: seq<Child>, top: bool)
    requires AnyIsReached(env, m, children, top)
    ensures m.index in Sites(VisitAll(env, children, top), Visits)
    decreases SizeAll(children), 1
  {
    var first := if children[0].named then Visit(env, children[0].node, top) else [];
    SitesAppend(first, VisitAll(env, children[1..], top), Visits);
    if children[0].named && IsReached(env, m, children[0].node, top) {
      ReachedIsVisited(env, m, children[0].node, top);
    } else {
      AnyReachedIsVisited(env, m, children[1..], top);
    }
  }

  // ----- nesting -----

  /** Everything a visit yields lies within the lines of the node visited. */
  lemma {:induction false} VisitNests(env: Env, n: Node, top: bool)
    requires Spanned(n)
    ensures WellFormed(Visit(env, n, top), n.span)
    decreases Size(n), 5
  {
    WellFormedLeaf(Visited(n.index, Main, Plain), n.span);
    if Hook(env, n, top).Some? {
      HookNests(env, n, top);
      WellFormedAppend([Visited(n.index, Main, Plain)], Hook(env, n, top).value, n.span);
    } else {
      var call := if n.kind == "call" then ExtractCall(env.parenConversion, n) else [];
      var all := VisitAll(env, n.children, n.kind == "program");
      WellFormedCall(env.parenConversion, n, n.span);
      VisitAllNests(env, n.children, n.kind == "program", n.span);
      WellFormedAppend(call, all, n.span);
      WellFormedAppend([Visited(n.index, Main, Plain)], call + all, n.span);
    }
  }

  lemma {:induction false} VisitAllNests(env: Env, children: seq<Child>, top: bool, outer: Span)
    requires SpannedAll(children, outer)
    ensures WellFormed(VisitAll(env, children, top), outer)
    decreases SizeAll(children), 6
  {
    if children != [] {
      var n := children[0].node;
      VisitNests(env, n, top);
      WellFormedWider(Visit(env, n, top), n.span, outer);
      VisitAllNests(env, children[1..], top, outer);
      WellFormedAppend(if children[0].named then Visit(env, n, top) else [], VisitAll(env, children[1..], top), outer);
    }
  }

  lemma {:induction false} HookNests(env: Env, n: Node, top: bool)
    requires Spanned(n)
    ensures Hook(env, n, top).Some? ==> WellFormed(Hook(env, n, top).value, n.span)
    decreases Size(n), 4
  {
    if n.kind == "call" {
      HookCallNests(env, n);
    } else if n.kind == "binary_operator" {
      HookBinaryOperatorNests(env, n, top);
    }
  }

  lemma {:induction false} HookCallNests(env: Env, n: Node)
    requires Spanned(n)
    ensures HookCall(env, n).Some? ==> WellFormed(HookCall(env, n).value, n.span)
    decreases Size(n), 3
  {
    if CalleeName(n).Some? && NonEmptyLiteral(FirstArgValue(n)).Some? {
      var name := NonEmptyLiteral(FirstArgValue(n)).value;
      var fname := CalleeName(n).value;
      if IsImportFn(fname) || fname == Ascii("source") {
        var ref := Ref(RefAt(Buffers.EDGE_IMPORTS, name, n));
        var d := DeclAt(Import, name, n, Some(env.importSignature(n.text)));
        WellFormedLeaf(ref, n.span);
        assert [Sym(d, []), ref][1..] == [ref];
      } else if IsClassFn(fname) {
        ClassMembersNest(env, n);
        WellFormedSym(DeclAt(Class, name, n, None), ClassMembers(env, n), n.span);
      } else if IsGenericFn(fname) {
        if Implementation(n).Some? {
          ImplementationWithin(n);
        }
        FunctionSymNests(env, DeclAt(Function, name, n, None), Implementation(n), n.span);
      }
    }
  }

  lemma ImplementationWithin(n: Node)
    requires Spanned(n) && Implementation(n).Some?
    ensures Spanned(Implementation(n).value) && Nested(Implementation(n).value.span, n.span)
  {
    var args := ByField(n, "arguments").value;
    assert Implementation(n) == FirstFunction(args.children);
    var i :| 0 <= i < |args.children| && IsArgument(args.children[i]) &&
      ByField(args.children[i].node, "value") == Implementation(n);
    ChildWithin(args, n);
    ChildWithin(args.children[i].node, args);
    ChildWithin(Implementation(n).value, args.children[i].node);
  }

  lemma {:induction false} FunctionSymNests(env: Env, d: Decl, f: Option<Node>, outer: Span)
    requires !d.kind.File? && Nested(d.span, outer)
    requires f.Some? ==> Spanned(f.value) && Nested(f.value.span, d.span)
    ensures WellFormed(FunctionSym(env, d, f), outer)
    decreases if f.Some? then Size(f.value) else 0, 1
  {
    if f.Some? {
      var d' := d.(signature := TextOf(ByField(f.value, "parameters")));
      if ByField(f.value, "body").Some? {
        var body := ByField(f.value, "body").value;
        ChildWithin(body, f.value);
        VisitNests(env, body, false);
        WellFormedWider(Visit(env, body, false), body.span, d.span);
        WellFormedSym(d', Visit(env, body, false), outer);
      } else {
        WellFormedSym(d', [], outer);
      }
    } else {
      WellFormedSym(d, [], outer);
    }
  }

  lemma {:induction false} HookBinaryOperatorNests(env: Env, n: Node, top: bool)
    requires Spanned(n)
    ensures HookBinaryOperator(env, n, top).Some? ==> WellFormed(HookBinaryOperator(env, n, top).value, n.span)
    decreases Size(n), 3
  {
    if HookBinaryOperator(env, n, top).Some? {
      var lhs, rhs := ByField(n, "lhs").value, ByField(n, "rhs").value;
      var op := ByField(n, "operator").value.text;
      if IsAssignLeft(op) && lhs.kind == "identifier" && rhs.kind == "function_definition" {
        ChildWithin(rhs, n);
        FunctionSymNests(env, DeclAt(Function, lhs.text, n, None), Some(rhs), n.span);
      } else if IsAssignLeft(op) && lhs.kind == "identifier" {
        AssignmentNests(env, n, lhs.text, rhs);
      } else {
        AssignmentNests(env, n, rhs.text, lhs);
      }
    }
  }

  lemma {:induction false} AssignmentNests(env: Env, n: Node, name: Text, value: Node)
    requires Spanned(n) && IsChild(value, n) && Size(value) < Size(n)
    ensures WellFormed(RLang.Variable(name, n) + Visit(env, value, false), n.span)
    ensures WellFormed([] + Visit(env, value, false), n.span)
    decreases Size(n), 2
  {
    ChildWithin(value, n);
    VisitNests(env, value, false);
    WellFormedWider(Visit(env, value, false), value.span, n.span);
    WellFormedSym(DeclAt(if IsConstantName(name) then Constant else Outline.Variable, name, n, None), [], n.span);
    WellFormedAppend(RLang.Variable(name, n), Visit(env, value, false), n.span);
    WellFormedAppend([], Visit(env, value, false), n.span);
  }

  lemma {:induction false} ClassMembersNest(env: Env, n: Node)
    requires Spanned(n)
    ensures WellFormed(ClassMembers(env, n), n.span)
    decreases Size(n), 2
  {
    if ByField(n, "arguments").Some? {
      var args := ByField(n, "arguments").value;
      ChildWithin(args, n);
      MembersNest(env, args.children, 0, args.span);
      WellFormedWider(ClassMembers(env, n), args.span, n.span);
    }
  }

  lemma {:induction false} MembersNest(env: Env, children: seq<Child>, positional: nat, outer: Span)
    requires SpannedAll(children, outer)
    ensures WellFormed(Members(env, children, positional), outer)
    decreases SizeAll(children), 5
  {
    if children != [] {
      var arg := children[0].node;
      if IsArgument(children[0]) {
        var next := if IsUnnamed(arg) then positional + 1 else positional;
        MembersNest(env, children[1..], next, outer);
        ArgumentNests(env, arg, positional);
        WellFormedWider(Argument(env, arg, positional), arg.span, outer);
        WellFormedAppend(Argument(env, arg, positional), Members(env, children[1..], next), outer);
      } else {
        MembersNest(env, children[1..], positional, outer);
      }
    }
  }

  lemma {:induction false} ArgumentNests(env: Env, arg: Node, positional: nat)
    requires Spanned(arg)
    ensures WellFormed(Argument(env, arg, positional), arg.span)
    decreases Size(arg), 4
  {
    var items := Argument(env, arg, positional);
    if ByField(arg, "name").Some? {
      MemberNests(env, arg, ByField(arg, "name").value.text);
    } else if items != [] {
      WellFormedLeaf(items[0], arg.span);
    }
  }

  lemma {:induction false} MemberNests(env: Env, arg: Node, name: Text)
    requires Spanned(arg)
    ensures WellFormed(Member(env, arg, name), arg.span)
    decreases Size(arg), 3
  {
    if ByField(arg, "value").Some? {
      var v := ByField(arg, "value").value;
      ChildWithin(v, arg);
      var items := Member(env, arg, name);
      if name == Ascii("inherit") || name == Ascii("contains") {
        if items != [] {
          WellFormedLeaf(items[0], arg.span);
        }
      } else if v.kind == "function_definition" {
        MethodArgNests(env, arg);
      } else if v.kind == "call" && CalleeName(v) == Some(Ascii("list")) && ByField(v, "arguments").Some? {
        var entries := ByField(v, "arguments").value;
        ChildWithin(entries, v);
        MethodArgsNest(env, entries.children, entries.span);
        WellFormedWider(items, entries.span, arg.span);
      }
    }
  }

  lemma {:induction false} MethodArgsNest(env: Env, children: seq<Child>, outer: Span)
    requires SpannedAll(children, outer)
    ensures WellFormed(MethodArgs(env, children), outer)
    decreases SizeAll(children), 4
  {
    if children != [] {
      var entry := children[0].node;
      MethodArgNests(env, entry);
      WellFormedWider(MethodArg(env, entry), entry.span, outer);
      MethodArgsNest(env, children[1..], outer);
      WellFormedAppend(if IsArgument(children[0]) then MethodArg(env, entry) else [], MethodArgs(env, children[1..]),
                       outer);
    }
  }

  lemma {:induction false} MethodArgNests(env: Env, entry: Node)
    requires Spanned(entry)
    ensures WellFormed(MethodArg(env, entry), entry.span)
    decreases Size(entry), 2
  {
    if ByField(entry, "name").Some? && ByField(entry, "value").Some? {
      var v := ByField(entry, "value").value;
      ChildWithin(v, entry);
      FunctionSymNests(env, DeclAt(Method, ByField(entry, "name").value.text, entry, None), Some(v), entry.span);
    }
  }

  /** The node table of an R file is a contains tree. */
  lemma ExtractionIsContainsTree(env: Env, root: Node, file: Decl, path: Text)
    requires Spanned(root) && Nested(root.span, file.span)
    ensures IsContainsTree(Table(file, path, Visit(env, root, false)))
  {
    VisitNests(env, root, false);
    WellFormedWider(Visit(env, root, false), root.span, file.span);
    TableIsContainsTree(file, path, Visit(env, root, false));
  }
}
