/**
 What a walk over a syntax tree yields: a forest of declarations, each with
 what was found inside it, and of references.  Laid out in pre-order it is the
 kernel's node, edge and reference tables (codegraph-kernel/src/walker.rs,
 `create_node` in rlang.rs and lua.rs).
 */
module Outline {
  import opened Bytes
  import opened Options
  import opened Texts

  datatype Span = Span(startLine: U32, startColumn: U32, endLine: U32, endColumn: U32)

  datatype Kind = File | Class | Function | Method | Variable | Constant | TypeAlias | Import

  /** A declaration; `at` identifies the syntax node it was made for. */
  datatype Decl = Decl(
    kind: Kind, name: Text, span: Span, docstring: Option<Text>, signature: Option<Text>,
    exported: Option<bool>, qualifiedOverride: Option<Text>, at: nat)

  datatype RefInfo = RefInfo(kind: Byte, name: Text, line: U32, column: U32, at: nat)

  /** How a walk came to a node: R has one walk, Lua two, and a look at initializers. */
  datatype Mode = Main | Body | Initializer

  /** What the node is: a call may resolve to a required module, and may have a callee to name. */
  datatype Role = Plain | Call(resolves: bool, named: bool)

  /** `Visited` stands for no row: it records that a walk came to a syntax node. */
  datatype Item =
    | Sym(decl: Decl, inside: seq<Item>)
    | Ref(info: RefInfo)
    | Visited(at: nat, mode: Mode, role: Role)

  /** An entry of the walker's stack. */
  datatype Scope = Scope(row: nat, kind: Kind, name: Text)

  /** A row of the node table, with the row its `contains` edge comes from. */
  datatype NodeInfo = NodeInfo(decl: Decl, parent: nat, qualified: Text)

  datatype RefTo = RefTo(info: RefInfo, from: nat)

  const SEPARATOR: Text := [58, 58]

  // ----- names -----

  /** The names of the scopes that are no file, joined with `::`. */
  function ScopePath(scopes: seq<Scope>): Text {
    if scopes == [] then []
    else Extend(ScopePath(scopes[..|scopes| - 1]), scopes[|scopes| - 1])
  }

  function Extend(path: Text, scope: Scope): Text {
    if scope.kind.File? then path else Qualify(path, scope.name)
  }

  function Qualify(path: Text, name: Text): Text {
    if path == [] then name else path + SEPARATOR + name
  }

  function QualifiedName(scopes: seq<Scope>, d: Decl): Text {
    if d.qualifiedOverride.Some? then d.qualifiedOverride.value else Qualify(ScopePath(scopes), d.name)
  }

  // ----- the tables of a forest -----

  function Top(scopes: seq<Scope>): Scope
    requires scopes != []
  {
    scopes[|scopes| - 1]
  }

  function Inside(scopes: seq<Scope>, d: Decl, row: nat): (inner: seq<Scope>)
    ensures inner != []
  {
    scopes + [Scope(row, d.kind, d.name)]
  }

  function Count(items: seq<Item>): nat
    decreases items, 0
  {
    if items == [] then 0 else CountItem(items[0]) + Count(items[1..])
  }

  function CountItem(item: Item): nat
    decreases item, 1
  {
    match item
    case Sym(_, inside) => 1 + Count(inside)
    case _ => 0
  }

  /** The node rows, numbered from `base`, of `items` found inside `scopes`. */
  function Nodes(items: seq<Item>, scopes: seq<Scope>, base: nat): (rows: seq<NodeInfo>)
    requires scopes != []
    ensures |rows| == Count(items)
    decreases items, 0
  {
    if items == [] then []
    else ItemNodes(items[0], scopes, base) + Nodes(items[1..], scopes, base + CountItem(items[0]))
  }

  function ItemNodes(item: Item, scopes: seq<Scope>, base: nat): (rows: seq<NodeInfo>)
    requires scopes != []
    ensures |rows| == CountItem(item)
    decreases item, 1
  {
    match item
    case Sym(d, inside) =>
      [NodeInfo(d, Top(scopes).row, QualifiedName(scopes, d))] + Nodes(inside, Inside(scopes, d, base), base + 1)
    case _ => []
  }

  /** The reference rows, in order. */
  function Refs(items: seq<Item>, scopes: seq<Scope>, base: nat): seq<RefTo>
    requires scopes != []
    decreases items, 0
  {
    if items == [] then []
    else ItemRefs(items[0], scopes, base) + Refs(items[1..], scopes, base + CountItem(items[0]))
  }

  function ItemRefs(item: Item, scopes: seq<Scope>, base: nat): seq<RefTo>
    requires scopes != []
    decreases item, 1
  {
    match item
    case Sym(d, inside) => Refs(inside, Inside(scopes, d, base), base + 1)
    case Ref(info) => [RefTo(info, Top(scopes).row)]
    case Visited(_, _, _) => []
  }

  /** What to look for in a forest. */
  datatype What = Decls | References | Visits

  /** The syntax nodes that `items` come from, in order. */
  function Sites(items: seq<Item>, what: What): seq<nat>
    decreases items, 0
  {
    if items == [] then [] else ItemSites(items[0], what) + Sites(items[1..], what)
  }

  function ItemSites(item: Item, what: What): seq<nat>
    decreases item, 1
  {
    match item
    case Sym(d, inside) => (if what.Decls? then [d.at] else []) + Sites(inside, what)
    case Ref(info) => if what.References? then [info.at] else []
    case Visited(at, _, _) => if what.Visits? then [at] else []
  }

  lemma {:induction false} CountAppend(xs: seq<Item>, ys: seq<Item>)
    ensures Count(xs + ys) == Count(xs) + Count(ys)
  {
    if xs == [] {
      assert xs + ys == ys;
    } else {
      assert (xs + ys)[1..] == xs[1..] + ys;
      CountAppend(xs[1..], ys);
    }
  }

  lemma {:induction false} SitesAppend(xs: seq<Item>, ys: seq<Item>, what: What)
    ensures Sites(xs + ys, what) == Sites(xs, what) + Sites(ys, what)
  {
    if xs == [] {
      assert xs + ys == ys;
    } else {
      assert (xs + ys)[1..] == xs[1..] + ys;
      SitesAppend(xs[1..], ys, what);
    }
  }

  /** There is one declaration site per node row, and one reference site per reference row. */
  lemma {:induction false} OneSitePerRow(items: seq<Item>, scopes: seq<Scope>, base: nat)
    requires scopes != []
    ensures |Sites(items, Decls)| == Count(items)
    ensures |Sites(items, References)| == |Refs(items, scopes, base)|
    decreases items, 0
  {
    if items != [] {
      if items[0].Sym? {
        OneSitePerRow(items[0].inside, Inside(scopes, items[0].decl, base), base + 1);
      }
      OneSitePerRow(items[1..], scopes, base + CountItem(items[0]));
    }
  }

  // ----- laying out a forest step by step -----

  /** What a walk has produced so far. */
  datatype Snapshot = Snapshot(infos: seq<NodeInfo>, refs: seq<RefTo>, log: seq<nat>)

  /** Further on by `items`, found inside `scopes`: row by row, as a walk appends them. */
  function After(s: Snapshot, scopes: seq<Scope>, items: seq<Item>): (t: Snapshot)
    requires scopes != []
    ensures |t.infos| == |s.infos| + Count(items)
    decreases items, 0
  {
    if items == [] then s else After(AfterItem(s, scopes, items[0]), scopes, items[1..])
  }

  /** A declaration is its row, and then what is inside it with the scope pushed. */
  function AfterItem(s: Snapshot, scopes: seq<Scope>, item: Item): (t: Snapshot)
    requires scopes != []
    ensures |t.infos| == |s.infos| + CountItem(item)
    decreases item, 1
  {
    match item
    case Sym(d, inside) => After(AfterRow(s, scopes, d), Inside(scopes, d, |s.infos|), inside)
    case Ref(info) => s.(refs := s.refs + [RefTo(info, Top(scopes).row)])
    case Visited(at, _, _) => s.(log := s.log + [at])
  }

  function AfterRow(s: Snapshot, scopes: seq<Scope>, d: Decl): Snapshot
    requires scopes != []
  {
    s.(infos := s.infos + [NodeInfo(d, Top(scopes).row, QualifiedName(scopes, d))])
  }

  lemma AfterNothing(s: Snapshot, scopes: seq<Scope>)
    requires scopes != []
    ensures After(s, scopes, []) == s
  {}

  lemma {:induction false} AfterAppend(s: Snapshot, scopes: seq<Scope>, xs: seq<Item>, ys: seq<Item>)
    requires scopes != []
    ensures After(After(s, scopes, xs), scopes, ys) == After(s, scopes, xs + ys)
    decreases |xs|
  {
    if xs == [] {
      assert xs + ys == ys;
    } else {
      TailOfConcat(xs, ys);
      AfterAppend(AfterItem(s, scopes, xs[0]), scopes, xs[1..], ys);
    }
  }

  /** Laying out two forests is laying out one and then the other. */
  lemma InTurn(s: Snapshot, scopes: seq<Scope>, xs: seq<Item>, ys: seq<Item>)
    requires scopes != []
    ensures Count(xs + ys) == Count(xs) + Count(ys)
    ensures After(s, scopes, xs + ys) == After(After(s, scopes, xs), scopes, ys)
    ensures After(s, scopes, []) == s
  {
    CountAppend(xs, ys);
    AfterAppend(s, scopes, xs, ys);
  }

  lemma AfterOne(s: Snapshot, scopes: seq<Scope>, item: Item)
    requires scopes != []
    ensures After(s, scopes, [item]) == AfterItem(s, scopes, item)
    ensures Count([item]) == CountItem(item)
  {
    assert [item][1..] == [];
  }

  lemma AfterSym(s: Snapshot, scopes: seq<Scope>, d: Decl, inside: seq<Item>)
    requires scopes != []
    ensures After(s, scopes, [Sym(d, inside)]) == After(AfterRow(s, scopes, d), Inside(scopes, d, |s.infos|), inside)
    ensures Count([Sym(d, inside)]) == 1 + Count(inside)
  {
    AfterOne(s, scopes, Sym(d, inside));
  }

  lemma AfterRef(s: Snapshot, scopes: seq<Scope>, info: RefInfo)
    requires scopes != []
    ensures After(s, scopes, [Ref(info)]) == s.(refs := s.refs + [RefTo(info, Top(scopes).row)])
  {
    AfterOne(s, scopes, Ref(info));
  }

  lemma AfterVisited(s: Snapshot, scopes: seq<Scope>, at: nat, mode: Mode, role: Role)
    requires scopes != []
    ensures After(s, scopes, [Visited(at, mode, role)]) == s.(log := s.log + [at])
  {
    AfterOne(s, scopes, Visited(at, mode, role));
  }

  lemma CountSym(d: Decl, inside: seq<Item>)
    ensures Count([Sym(d, inside)]) == 1 + Count(inside)
  {
    assert [Sym(d, inside)][1..] == [];
  }

  /** A snapshot with more rows. */
  function Extended(s: Snapshot, infos: seq<NodeInfo>, refs: seq<RefTo>, log: seq<nat>): Snapshot {
    Snapshot(s.infos + infos, s.refs + refs, s.log + log)
  }

  lemma ExtendedTwice(s: Snapshot, i: seq<NodeInfo>, r: seq<RefTo>, l: seq<nat>,
                      i': seq<NodeInfo>, r': seq<RefTo>, l': seq<nat>)
    ensures Extended(Extended(s, i, r, l), i', r', l') == Extended(s, i + i', r + r', l + l')
  {
    Regroup(s.infos, i, i');
    Regroup(s.refs, r, r');
    Regroup(s.log, l, l');
  }

  /**
   Appending row by row, with a stack of scopes, yields the tables in
   pre-order: the rows of a forest depend on the scopes it is found in and on
   the number of its first row, and on nothing else.
   */
  lemma {:induction false} AfterIsLayout(s: Snapshot, scopes: seq<Scope>, items: seq<Item>)
    requires scopes != []
    ensures After(s, scopes, items) ==
      Extended(s, Nodes(items, scopes, |s.infos|), Refs(items, scopes, |s.infos|), Sites(items, Visits))
    decreases items, 0
  {
    var n := |s.infos|;
    if items != [] {
      var item, rest := items[0], items[1..];
      AfterItemIsLayout(s, scopes, item);
      AfterIsLayout(AfterItem(s, scopes, item), scopes, rest);
      ExtendedTwice(s, ItemNodes(item, scopes, n), ItemRefs(item, scopes, n), ItemSites(item, Visits),
                    Nodes(rest, scopes, n + CountItem(item)), Refs(rest, scopes, n + CountItem(item)),
                    Sites(rest, Visits));
    }
  }

  lemma {:induction false} AfterItemIsLayout(s: Snapshot, scopes: seq<Scope>, item: Item)
    requires scopes != []
    ensures AfterItem(s, scopes, item) ==
      Extended(s, ItemNodes(item, scopes, |s.infos|), ItemRefs(item, scopes, |s.infos|), ItemSites(item, Visits))
    decreases item, 1
  {
    if item.Sym? {
      var d, n := item.decl, |s.infos|;
      var row := [NodeInfo(d, Top(scopes).row, QualifiedName(scopes, d))];
      AfterIsLayout(AfterRow(s, scopes, d), Inside(scopes, d, n), item.inside);
      Regroup(s.infos, row, Nodes(item.inside, Inside(scopes, d, n), n + 1));
    }
  }

  // ----- what holds of every table -----

  /** Line spans nest. */
  predicate Nested(inner: Span, outer: Span) {
    outer.startLine <= inner.startLine && inner.endLine <= outer.endLine
  }

  predicate WellFormed(items: seq<Item>, outer: Span)
    decreases items, 0
  {
    items == [] || (WellFormedItem(items[0], outer) && WellFormed(items[1..], outer))
  }

  /** Declarations have names and lie within what they were found in. */
  predicate WellFormedItem(item: Item, outer: Span)
    decreases item, 1
  {
    match item
    case Sym(d, inside) => d.name != [] && !d.kind.File? && Nested(d.span, outer) && WellFormed(inside, d.span)
    case _ => true
  }

  predicate ParentsAreEarlier(rows: seq<NodeInfo>) {
    forall i :: 1 <= i < |rows| ==> rows[i].parent < i
  }

  /** The names along the `contains` edges from the file (row 0) down to row `i`. */
  function NamePath(rows: seq<NodeInfo>, i: nat): Text
    requires ParentsAreEarlier(rows) && i < |rows|
    decreases i
  {
    if i == 0 then [] else Qualify(NamePath(rows, rows[i].parent), rows[i].decl.name)
  }

  predicate QualifiedRow(rows: seq<NodeInfo>, i: nat)
    requires ParentsAreEarlier(rows) && 1 <= i < |rows|
  {
    rows[i].qualified ==
      if rows[i].decl.qualifiedOverride.Some? then rows[i].decl.qualifiedOverride.value else NamePath(rows, i)
  }

  /**
   Row 0 is the root; every other row hangs under exactly one earlier row, is
   named after the path to it, and lies within the lines of its parent.
   */
  ghost predicate IsContainsTree(rows: seq<NodeInfo>) {
    && ParentsAreEarlier(rows)
    && (forall i :: 1 <= i < |rows| ==> QualifiedRow(rows, i))
    && (forall i :: 1 <= i < |rows| ==> Nested(rows[i].decl.span, rows[rows[i].parent].decl.span))
  }

  /** The stack's top is a row whose path the stack spells. */
  predicate StackFits(rows: seq<NodeInfo>, scopes: seq<Scope>)
    requires ParentsAreEarlier(rows)
  {
    scopes != [] && Top(scopes).row < |rows| && ScopePath(scopes) == NamePath(rows, Top(scopes).row)
  }

  lemma {:induction false} NamePathStays(rows: seq<NodeInfo>, more: seq<NodeInfo>, i: nat)
    requires ParentsAreEarlier(rows + more) && i < |rows|
    ensures ParentsAreEarlier(rows)
    ensures NamePath(rows + more, i) == NamePath(rows, i)
    decreases i
  {
    assert forall j :: 0 <= j < |rows| ==> (rows + more)[j] == rows[j];
    if i > 0 {
      NamePathStays(rows, more, rows[i].parent);
    }
  }

  lemma RowAppended(rows: seq<NodeInfo>, scopes: seq<Scope>, d: Decl)
    requires IsContainsTree(rows) && StackFits(rows, scopes)
    requires d.name != [] && !d.kind.File? && Nested(d.span, rows[Top(scopes).row].decl.span)
    ensures var rows' := rows + [NodeInfo(d, Top(scopes).row, QualifiedName(scopes, d))];
      IsContainsTree(rows') && StackFits(rows', Inside(scopes, d, |rows|))
  {
    var rows' := rows + [NodeInfo(d, Top(scopes).row, QualifiedName(scopes, d))];
    forall i | 0 <= i < |rows|
      ensures NamePath(rows', i) == NamePath(rows, i)
    {
      NamePathStays(rows, [rows'[|rows|]], i);
    }
    assert Inside(scopes, d, |rows|)[..|scopes|] == scopes;
    forall i | 1 <= i < |rows'|
      ensures QualifiedRow(rows', i)
    {
      assert i < |rows| ==> QualifiedRow(rows, i) && rows'[i] == rows[i];
    }
  }

  lemma StackStillFits(rows: seq<NodeInfo>, more: seq<NodeInfo>, scopes: seq<Scope>)
    requires ParentsAreEarlier(rows) && StackFits(rows, scopes)
    requires ParentsAreEarlier(rows + more)
    ensures StackFits(rows + more, scopes)
  {
    NamePathStays(rows, more, Top(scopes).row);
  }

  lemma FirstThenRest(rows: seq<NodeInfo>, items: seq<Item>, scopes: seq<Scope>, first: seq<NodeInfo>)
    requires scopes != [] && items != [] && first == ItemNodes(items[0], scopes, |rows|)
    ensures rows + Nodes(items, scopes, |rows|) == (rows + first) + Nodes(items[1..], scopes, |rows + first|)
  {
    Regroup(rows, first, Nodes(items[1..], scopes, |rows + first|));
  }

  lemma SelfThenInside(rows: seq<NodeInfo>, d: Decl, inside: seq<Item>, scopes: seq<Scope>)
    requires scopes != []
    ensures var rows' := rows + [NodeInfo(d, Top(scopes).row, QualifiedName(scopes, d))];
      rows + ItemNodes(Sym(d, inside), scopes, |rows|) ==
      rows' + Nodes(inside, Inside(scopes, d, |rows|), |rows'|)
  {}

  /** The stack still fits a longer tree, and its top is the row it was. */
  lemma StackFitsLonger(rows: seq<NodeInfo>, more: seq<NodeInfo>, scopes: seq<Scope>)
    requires IsContainsTree(rows) && StackFits(rows, scopes) && IsContainsTree(rows + more)
    ensures StackFits(rows + more, scopes)
    ensures (rows + more)[Top(scopes).row] == rows[Top(scopes).row]
  {
    StackStillFits(rows, more, scopes);
  }

  lemma {:induction false} ForestIsTree(rows: seq<NodeInfo>, items: seq<Item>, scopes: seq<Scope>)
    requires IsContainsTree(rows) && StackFits(rows, scopes)
    requires WellFormed(items, rows[Top(scopes).row].decl.span)
    ensures IsContainsTree(rows + Nodes(items, scopes, |rows|))
    decreases items, 0
  {
    if items == [] {
      assert rows + [] == rows;
    } else {
      ItemIsTree(rows, items[0], scopes);
      var first := ItemNodes(items[0], scopes, |rows|);
      StackFitsLonger(rows, first, scopes);
      ForestIsTree(rows + first, items[1..], scopes);
      FirstThenRest(rows, items, scopes, first);
    }
  }

  lemma {:induction false} ItemIsTree(rows: seq<NodeInfo>, item: Item, scopes: seq<Scope>)
    requires IsContainsTree(rows) && StackFits(rows, scopes)
    requires WellFormedItem(item, rows[Top(scopes).row].decl.span)
    ensures IsContainsTree(rows + ItemNodes(item, scopes, |rows|))
    decreases item, 1
  {
    match item
    case Ref(_) =>
      assert rows + [] == rows;
    case Visited(_, _, _) =>
      assert rows + [] == rows;
    case Sym(d, inside) =>
      RowAppended(rows, scopes, d);
      SelfThenInside(rows, d, inside, scopes);
      var rows' := rows + [NodeInfo(d, Top(scopes).row, QualifiedName(scopes, d))];
      ForestIsTree(rows', inside, Inside(scopes, d, |rows|));
  }

  /** The whole node table of one file. */
  function Table(file: Decl, path: Text, items: seq<Item>): seq<NodeInfo> {
    [NodeInfo(file, 0, path)] + Nodes(items, [Scope(0, File, file.name)], 1)
  }

  /** Every extraction yields a contains tree rooted at row 0. */
  lemma TableIsContainsTree(file: Decl, path: Text, items: seq<Item>)
    requires WellFormed(items, file.span)
    ensures IsContainsTree(Table(file, path, items))
  {
    var root := [NodeInfo(file, 0, path)];
    var scopes := [Scope(0, File, file.name)];
    assert scopes[..0] == [];
    ForestIsTree(root, items, scopes);
  }

  lemma {:induction false} WellFormedAppend(xs: seq<Item>, ys: seq<Item>, outer: Span)
    ensures WellFormed(xs + ys, outer) <==> WellFormed(xs, outer) && WellFormed(ys, outer)
  {
    if xs == [] {
      assert xs + ys == ys;
    } else {
      assert (xs + ys)[1..] == xs[1..] + ys;
      WellFormedAppend(xs[1..], ys, outer);
    }
  }

  lemma {:induction false} WellFormedWider(items: seq<Item>, inner: Span, outer: Span)
    requires WellFormed(items, inner) && Nested(inner, outer)
    ensures WellFormed(items, outer)
  {
    if items != [] {
      WellFormedWider(items[1..], inner, outer);
    }
  }
}
