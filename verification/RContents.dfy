/** What the rows of an R file come from, kind by kind, and that a call is told once. */
module RContents {
  import opened Buffers
  import opened Bytes
  import opened Contents
  import opened Options
  import opened Outline
  import opened RowPaths
  import opened SyntaxTree
  import opened Walking
  import opened RLang
  import opened RLangFacts
  import opened RReach

  // ----- what a node yields, kind by kind -----

  /** A call that is neither an import nor makes a class or a generic with a name. */
  ghost predicate IsOrdinaryCall(n: Node) {
    n.kind == "call" && !IsImportCall(n) && !exists name :: IsClassCall(n, name) || IsGenericCall(n, name)
  }

  ghost predicate YieldsCall(env: Env, n: Node, e: Entry) {
    && IsOrdinaryCall(n) && CalleeText(env.parenConversion, n).Some?
    && Refers(e, EDGE_CALLS, CalleeText(env.parenConversion, n).value, n)
  }

  ghost predicate YieldsImport(env: Env, n: Node, e: Entry) {
    IsImportCall(n) && exists name :: Tells(n, name) && NamesImport(env, n, name, e)
  }

  predicate NamesImport(env: Env, n: Node, name: Text, e: Entry) {
    Declares(e, Import, name, n, Some(env.importSignature(n.text))) || Refers(e, EDGE_IMPORTS, name, n)
  }

  /** The function is the one assigned, or the first among a generic's arguments, if there is one. */
  ghost predicate YieldsFunction(n: Node, e: Entry) {
    || (exists name, g :: AssignsFunction(n, name, g) && name != [] && Declares(e, Function, name, n, ParametersOf(g)))
    || (exists name :: IsGenericCall(n, name) && Declares(e, Function, name, n, ImplementationParameters(n)))
  }

  function ImplementationParameters(n: Node): Option<Text> {
    match Implementation(n) case None => None case Some(g) => ParametersOf(g)
  }

  ghost predicate YieldsValue(n: Node, top: bool, e: Entry) {
    exists name, value ::
      AssignsValue(n, top, Some(name), value) && name != [] && Declares(e, ValueKind(name), name, n, None)
  }

  ghost predicate YieldsClass(n: Node, e: Entry) {
    exists name :: IsClassCall(n, name) && Declares(e, Class, name, n, None)
  }

  /** A method or a parent of the class `d` that `n` makes. */
  ghost predicate YieldsMemberOf(n: Node, d: Decl, e: Entry) {
    YieldsClass(n, Declared(d)) && YieldsMember(n, e)
  }

  lemma CallYields(env: Env, n: Node, top: bool, path: seq<Decl>, e: Entry)
    requires IsRefOf(e, EDGE_CALLS)
    ensures YieldsAsMet(env, n, top, path, e) <==> path == [] && YieldsCall(env, n, e)
  {
    if path == [] && YieldsCall(env, n, e) {
      assert IsOfSort(n, top, OtherCall);
    }
  }

  lemma ImportYields(env: Env, n: Node, top: bool, path: seq<Decl>, e: Entry)
    requires IsRefOf(e, EDGE_IMPORTS) || IsDeclOf(e, Import)
    ensures YieldsAsMet(env, n, top, path, e) <==> path == [] && YieldsImport(env, n, e)
  {
    if path == [] && YieldsImport(env, n, e) {
      assert IsOfSort(n, top, ImportCall(NonEmptyLiteral(FirstArgValue(n))));
    }
  }

  lemma FunctionYields(env: Env, n: Node, top: bool, path: seq<Decl>, e: Entry)
    requires IsDeclOf(e, Function)
    ensures YieldsAsMet(env, n, top, path, e) <==> path == [] && YieldsFunction(n, e)
  {
    if path == [] && YieldsFunction(n, e) {
      if name, g :| AssignsFunction(n, name, g) && name != [] && Declares(e, Function, name, n, ParametersOf(g)) {
        assert IsOfSort(n, top, FunctionAssigned(name, g));
      } else {
        var name :| IsGenericCall(n, name) && Declares(e, Function, name, n, ImplementationParameters(n));
        assert IsOfSort(n, top, GenericCall(name, Implementation(n)));
      }
    }
  }

  lemma ValueYields(env: Env, n: Node, top: bool, path: seq<Decl>, e: Entry)
    requires IsDeclOf(e, Constant) || IsDeclOf(e, Outline.Variable)
    ensures YieldsAsMet(env, n, top, path, e) <==> path == [] && YieldsValue(n, top, e)
  {
    if path == [] && YieldsValue(n, top, e) {
      var name, value :| AssignsValue(n, top, Some(name), value) && name != []
        && Declares(e, ValueKind(name), name, n, None);
      assert IsOfSort(n, top, ValueAssigned(Some(name), value));
    }
  }

  lemma ClassYieldsItself(env: Env, n: Node, top: bool, path: seq<Decl>, e: Entry)
    requires IsDeclOf(e, Class)
    ensures YieldsAsMet(env, n, top, path, e) <==> path == [] && YieldsClass(n, e)
  {
    if path == [] && YieldsClass(n, e) {
      var name :| IsClassCall(n, name) && Declares(e, Class, name, n, None);
      assert IsOfSort(n, top, ClassCall(name));
    }
  }

  lemma ClassYieldsMembers(env: Env, n: Node, top: bool, path: seq<Decl>, e: Entry)
    requires IsDeclOf(e, Method) || IsRefOf(e, EDGE_EXTENDS)
    ensures YieldsAsMet(env, n, top, path, e) <==> |path| == 1 && YieldsMemberOf(n, path[0], e)
  {
    if |path| == 1 && YieldsMemberOf(n, path[0], e) {
      var name :| IsClassCall(n, name) && Declares(Declared(path[0]), Class, name, n, None);
      assert IsOfSort(n, top, ClassCall(name));
    }
  }

  // ----- what the outline of a file holds, kind by kind -----

  /** The walk of the file comes to `m`, inside the declarations `outer`. */
  ghost predicate IsMet(root: Node, m: Node, outer: seq<Decl>) {
    exists top :: Reaches(root, false, m, top, outer)
  }

  lemma FoundHere(env: Env, root: Node, m: Node, top: bool, path: seq<Decl>, e: Entry)
    requires Reaches(root, false, m, top, path) && YieldsAsMet(env, m, top, [], e)
    ensures Lies(Visit(env, root, false), path, e)
  {
    YieldedWhereReached(env, root, m, top, path, [], e);
    assert path + [] == path;
  }

  /** The calls references are those of the ordinary calls the walk comes to. */
  lemma CallsAreExact(env: Env, root: Node, path: seq<Decl>, e: Entry)
    requires IsRefOf(e, EDGE_CALLS)
    ensures Lies(Visit(env, root, false), path, e) <==> exists m :: IsMet(root, m, path) && YieldsCall(env, m, e)
  {
    if Lies(Visit(env, root, false), path, e) {
      var m, top, outer, own := FoundComesFrom(env, root, false, path, e);
      CallYields(env, m, top, own, e);
      assert outer + [] == outer;
    }
    if m :| IsMet(root, m, path) && YieldsCall(env, m, e) {
      var top :| Reaches(root, false, m, top, path);
      CallYields(env, m, top, [], e);
      FoundHere(env, root, m, top, path, e);
    }
  }

  /** The imports, nodes and references, are those of the import calls whose first argument tells a module. */
  lemma ImportsAreExact(env: Env, root: Node, path: seq<Decl>, e: Entry)
    requires IsRefOf(e, EDGE_IMPORTS) || IsDeclOf(e, Import)
    ensures Lies(Visit(env, root, false), path, e) <==> exists m :: IsMet(root, m, path) && YieldsImport(env, m, e)
  {
    if Lies(Visit(env, root, false), path, e) {
      var m, top, outer, own := FoundComesFrom(env, root, false, path, e);
      ImportYields(env, m, top, own, e);
      assert outer + [] == outer;
    }
    if m :| IsMet(root, m, path) && YieldsImport(env, m, e) {
      var top :| Reaches(root, false, m, top, path);
      ImportYields(env, m, top, [], e);
      FoundHere(env, root, m, top, path, e);
    }
  }

  /** The functions are those assigned to a name and the generics. */
  lemma FunctionsAreExact(env: Env, root: Node, path: seq<Decl>, e: Entry)
    requires IsDeclOf(e, Function)
    ensures Lies(Visit(env, root, false), path, e) <==> exists m :: IsMet(root, m, path) && YieldsFunction(m, e)
  {
    if Lies(Visit(env, root, false), path, e) {
      var m, top, outer, own := FoundComesFrom(env, root, false, path, e);
      FunctionYields(env, m, top, own, e);
      assert outer + [] == outer;
    }
    if m :| IsMet(root, m, path) && YieldsFunction(m, e) {
      var top :| Reaches(root, false, m, top, path);
      FunctionYields(env, m, top, [], e);
      FoundHere(env, root, m, top, path, e);
    }
  }

  /** The classes are the class calls whose first argument tells a name. */
  lemma ClassesAreExact(env: Env, root: Node, path: seq<Decl>, e: Entry)
    requires IsDeclOf(e, Class)
    ensures Lies(Visit(env, root, false), path, e) <==> exists m :: IsMet(root, m, path) && YieldsClass(m, e)
  {
    if Lies(Visit(env, root, false), path, e) {
      var m, top, outer, own := FoundComesFrom(env, root, false, path, e);
      ClassYieldsItself(env, m, top, own, e);
      assert outer + [] == outer;
    }
    if m :| IsMet(root, m, path) && YieldsClass(m, e) {
      var top :| Reaches(root, false, m, top, path);
      ClassYieldsItself(env, m, top, [], e);
      FoundHere(env, root, m, top, path, e);
    }
  }

  /** The variables and constants are the values assigned at top level. */
  lemma ValuesAreExact(env: Env, root: Node, path: seq<Decl>, e: Entry)
    requires IsDeclOf(e, Constant) || IsDeclOf(e, Outline.Variable)
    ensures Lies(Visit(env, root, false), path, e) <==> 
      exists m, top :: Reaches(root, false, m, top, path) && YieldsValue(m, top, e)
  {
    if Lies(Visit(env, root, false), path, e) {
      var m, top, outer, own := FoundComesFrom(env, root, false, path, e);
      ValueYields(env, m, top, own, e);
      assert outer + [] == outer;
    }
    if m, top :| Reaches(root, false, m, top, path) && YieldsValue(m, top, e) {
      ValueYields(env, m, top, [], e);
      FoundHere(env, root, m, top, path, e);
    }
  }

  /** The methods and parents are those among the arguments of class calls, within their class. */
  lemma MembersAreExact(env: Env, root: Node, outer: seq<Decl>, d: Decl, e: Entry)
    requires IsDeclOf(e, Method) || IsRefOf(e, EDGE_EXTENDS)
    ensures Lies(Visit(env, root, false), outer + [d], e) <==>
      exists m :: IsMet(root, m, outer) && YieldsMemberOf(m, d, e)
  {
    if Lies(Visit(env, root, false), outer + [d], e) {
      MemberComesFrom(env, root, outer, d, e);
    }
    if m :| IsMet(root, m, outer) && YieldsMemberOf(m, d, e) {
      var top :| Reaches(root, false, m, top, outer);
      ClassYieldsMembers(env, m, top, [d], e);
      YieldedWhereReached(env, root, m, top, outer, [d], e);
    }
  }

  lemma MemberComesFrom(env: Env, root: Node, outer: seq<Decl>, d: Decl, e: Entry)
    requires (IsDeclOf(e, Method) || IsRefOf(e, EDGE_EXTENDS)) && Lies(Visit(env, root, false), outer + [d], e)
    ensures exists m :: IsMet(root, m, outer) && YieldsMemberOf(m, d, e)
  {
    var m, outer', d' := ClassOfMember(env, root, outer + [d], e);
    SameEnds(outer, d, outer', d');
  }

  lemma ClassOfMember(env: Env, root: Node, path: seq<Decl>, e: Entry) returns (m: Node, outer: seq<Decl>, d: Decl)
    requires (IsDeclOf(e, Method) || IsRefOf(e, EDGE_EXTENDS)) && Lies(Visit(env, root, false), path, e)
    ensures path == outer + [d] && IsMet(root, m, outer) && YieldsMemberOf(m, d, e)
  {
    var top, own;
    m, top, outer, own := FoundComesFrom(env, root, false, path, e);
    d := ClassAround(env, m, top, own, e);
  }

  lemma ClassAround(env: Env, n: Node, top: bool, own: seq<Decl>, e: Entry) returns (d: Decl)
    requires (IsDeclOf(e, Method) || IsRefOf(e, EDGE_EXTENDS)) && YieldsAsMet(env, n, top, own, e)
    ensures own == [d] && YieldsMemberOf(n, d, e)
  {
    ClassYieldsMembers(env, n, top, own, e);
    d := own[0];
  }

  lemma NoMemberOutsideClass(env: Env, root: Node, e: Entry)
    requires IsDeclOf(e, Method) || IsRefOf(e, EDGE_EXTENDS)
    ensures !Lies(Visit(env, root, false), [], e)
  {
    if Lies(Visit(env, root, false), [], e) {
      var m, top, outer, own := FoundComesFrom(env, root, false, [], e);
      ClassYieldsMembers(env, m, top, own, e);
    }
  }

  // ----- one call, one reference -----

  lemma NamedChildIsInside(c: Node, n: Node)
    requires IsChild(c, n)
    ensures IsIn(c, n)
  {
    ChildIsInside(c, c, n);
  }

  lemma ArgumentIsInside(call: Node, arg: Node)
    requires IsArgumentOf(call, arg)
    ensures IsIn(arg, call)
  {
    var args := ByField(call, "arguments").value;
    NamedChildIsInside(arg, args);
    ChildIsInside(arg, args, call);
  }

  lemma FieldIsInside(n: Node, field: string)
    requires ByField(n, field).Some?
    ensures IsIn(ByField(n, field).value, n)
  {
    NamedChildIsInside(ByField(n, field).value, n);
  }

  lemma MethodIsInside(call: Node, entry: Node, name: Text, g: Node)
    requires IsMethodOf(call, entry, name, g)
    ensures IsIn(g, call)
  {
    var arg :| IsArgumentOf(call, arg) && IsMethodIn(arg, entry, name, g);
    ArgumentIsInside(call, arg);
    FieldIsInside(arg, "value");
    FieldIsInside(entry, "value");
    if entry != arg {
      var list := ByField(arg, "value").value;
      ArgumentIsInside(list, entry);
      InsideInside(entry, list, arg);
    }
    InsideInside(g, entry, arg);
    InsideInside(g, arg, call);
  }

  lemma BodyIsInside(g: Node, body: Node, n: Node)
    requires IsIn(g, n) && ByField(g, "body") == Some(body)
    ensures IsIn(body, n)
  {
    FieldIsInside(g, "body");
    InsideInside(body, g, n);
  }

  lemma ImplementationIsInside(n: Node)
    requires Implementation(n).Some?
    ensures IsIn(Implementation(n).value, n)
  {
    var args := ByField(n, "arguments").value;
    var i :| 0 <= i < |args.children| && IsArgument(args.children[i])
      && ByField(args.children[i].node, "value") == Implementation(n);
    var arg := args.children[i].node;
    FieldIsInside(arg, "value");
    ChildIsInside(Implementation(n).value, arg, args);
    ChildIsInside(Implementation(n).value, args, n);
  }

  lemma LedIsInside(n: Node, top: bool, c: Node, top': bool, under: seq<Decl>)
    requires Leads(n, top, c, top', under)
    ensures IsIn(c, n)
  {
    var sort :| IsOfSort(n, top, sort) && GoesTo(n, sort, c, top', under);
    if sort.ClassCall? {
      var entry, name, g :| IsMethodOf(n, entry, name, g)
        && Declares(Declared(under[1]), Method, name, entry, ParametersOf(g)) && ByField(g, "body") == Some(c);
      MethodIsInside(n, entry, name, g);
      BodyIsInside(g, c, n);
    } else if sort.GenericCall? {
      ImplementationIsInside(n);
      BodyIsInside(sort.f.value, c, n);
    } else if sort.FunctionAssigned? {
      FieldIsInside(n, "rhs");
      BodyIsInside(sort.g, c, n);
    } else {
      NamedChildIsInside(c, n);
    }
  }

  lemma {:induction false} ReachedIsInside(n: Node, top: bool, m: Node, top': bool, outer: seq<Decl>)
    requires Reaches(n, top, m, top', outer)
    ensures IsIn(m, n)
    decreases Size(n)
  {
    if m != n || top' != top || outer != [] {
      var c, top'', under :|
        Leads(n, top, c, top'', under) && under <= outer && Reaches(c, top'', m, top', outer[|under|..]);
      LedIsInside(n, top, c, top'', under);
      ReachedIsInside(c, top'', m, top', outer[|under|..]);
      InsideInside(m, c, n);
    }
  }

  /**
   A call the walk comes to yields one calls reference, named after what it
   calls, if it is ordinary and has a callee to name; else it yields none.
   */
  lemma CallYieldsExactly(env: Env, root: Node, call: Node, outer: seq<Decl>, path: seq<Decl>, e: Entry)
    requires Numbered(root) && IsMet(root, call, outer)
    requires IsRefOf(e, EDGE_CALLS) && e.info.at == call.index
    ensures Lies(Visit(env, root, false), path, e) <==> path == outer && YieldsCall(env, call, e)
  {
    CallsAreExact(env, root, outer, e);
    if Lies(Visit(env, root, false), path, e) {
      CallsAreExact(env, root, path, e);
      var m :| IsMet(root, m, path) && YieldsCall(env, m, e);
      MetNodesAreInside(root, m, path);
      MetNodesAreInside(root, call, outer);
      NumbersAreUnique(m, call, root);
      ReferenceIsToldOnce(env, root, path, e, outer);
    }
  }

  lemma MetNodesAreInside(root: Node, m: Node, outer: seq<Decl>)
    requires IsMet(root, m, outer)
    ensures IsIn(m, root)
  {
    var top :| Reaches(root, false, m, top, outer);
    ReachedIsInside(root, false, m, top, outer);
  }

  lemma ReferenceIsToldOnce(env: Env, root: Node, path: seq<Decl>, e: Entry, path': seq<Decl>)
    requires Numbered(root) && e.Referred?
    requires Lies(Visit(env, root, false), path, e) && Lies(Visit(env, root, false), path', e)
    ensures path == path'
  {
    VisitOrdered(env, root, false, References);
    AscendingMeans(Sites(Visit(env, root, false), References), root.index, End(root));
    OneEntryPerSite(Visit(env, root, false), path, e, path', e);
  }

  // ----- the rows -----

  /** The node rows of a file are what the nodes the walk comes to yield, each in the declarations it is met in. */
  lemma NodeRowsAreExact(env: Env, root: Node, file: Decl, filePath: Text, path: seq<Decl>, d: Decl)
    ensures var rows := Table(file, filePath, Visit(env, root, false));
      && ParentsAreEarlier(rows)
      && ((exists k :: IsRow(rows, k, path, d)) <==> RReach.Stands(env, root, false, path, Declared(d)))
  {
    NodeRowsAreEntries(file, filePath, Visit(env, root, false), path, d);
    OutlineHoldsExactly(env, root, path, Declared(d));
  }

  /** And so are the reference rows, each from the row of the declaration it is met in. */
  lemma RefRowsAreExact(env: Env, root: Node, file: Decl, filePath: Text, path: seq<Decl>, info: RefInfo)
    ensures var items := Visit(env, root, false);
      var rows, refs := Table(file, filePath, items), Refs(items, [Scope(0, File, file.name)], 1);
      && ParentsAreEarlier(rows)
      && ((exists k :: IsRefRow(rows, refs, k, path, info)) <==> RReach.Stands(env, root, false, path, Referred(info)))
  {
    RefRowsAreEntries(file, filePath, Visit(env, root, false), path, info);
    OutlineHoldsExactly(env, root, path, Referred(info));
  }
}
