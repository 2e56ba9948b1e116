/** The rows of a table and the entries of the outline it lays out: the same, under the same declarations. */
module RowPaths {
  import opened Bytes
  import opened Contents
  import opened Outline
  import opened Texts

  /** The declarations along the `contains` edges from row 0 down to row `i`, without row 0. */
  function DeclPath(rows: seq<NodeInfo>, i: nat): seq<Decl>
    requires ParentsAreEarlier(rows) && i < |rows|
    decreases i
  {
    if i == 0 then [] else DeclPath(rows, rows[i].parent) + [rows[i].decl]
  }

  lemma {:induction false} DeclPathStays(rows: seq<NodeInfo>, more: seq<NodeInfo>, i: nat)
    requires ParentsAreEarlier(rows + more) && i < |rows|
    ensures ParentsAreEarlier(rows) && DeclPath(rows + more, i) == DeclPath(rows, i)
    decreases i
  {
    assert forall j :: 0 <= j < |rows| ==> (rows + more)[j] == rows[j];
    if i > 0 {
      DeclPathStays(rows, more, rows[i].parent);
    }
  }

  /** The rows so far, and those of a forest after them. */
  function Laid(rows: seq<NodeInfo>, items: seq<Item>, scopes: seq<Scope>): seq<NodeInfo>
    requires scopes != []
  {
    rows + Nodes(items, scopes, |rows|)
  }

  predicate Fits(rows: seq<NodeInfo>, scopes: seq<Scope>) {
    scopes != [] && ParentsAreEarlier(rows) && Top(scopes).row < |rows|
  }

  function WithRow(rows: seq<NodeInfo>, d: Decl, scopes: seq<Scope>): seq<NodeInfo>
    requires scopes != []
  {
    rows + [NodeInfo(d, Top(scopes).row, QualifiedName(scopes, d))]
  }

  lemma RowFits(rows: seq<NodeInfo>, d: Decl, scopes: seq<Scope>)
    requires Fits(rows, scopes)
    ensures var rows' := WithRow(rows, d, scopes);
      && Fits(rows', Inside(scopes, d, |rows|)) && Fits(rows', scopes)
      && DeclPath(rows', |rows|) == DeclPath(rows, Top(scopes).row) + [d]
  {
    var rows' := WithRow(rows, d, scopes);
    forall i | 1 <= i < |rows'|
      ensures rows'[i].parent < i
    {
      assert i < |rows| ==> rows'[i] == rows[i];
    }
    DeclPathStays(rows, [rows'[|rows|]], Top(scopes).row);
  }

  lemma LaidOne(rows: seq<NodeInfo>, item: Item, scopes: seq<Scope>)
    requires scopes != []
    ensures Laid(rows, [item], scopes) == rows + ItemNodes(item, scopes, |rows|)
  {
    assert [item][1..] == [];
    assert Nodes([item], scopes, |rows|) == ItemNodes(item, scopes, |rows|) + [];
  }

  /** Item by item: the first one's rows, and then those of the rest. */
  lemma LaidInTurn(rows: seq<NodeInfo>, items: seq<Item>, scopes: seq<Scope>)
    requires scopes != [] && items != []
    ensures Laid(rows, items, scopes) == Laid(Laid(rows, [items[0]], scopes), items[1..], scopes)
    ensures Laid(rows, [items[0]], scopes) == rows + ItemNodes(items[0], scopes, |rows|)
    ensures Refs(items, scopes, |rows|) ==
      ItemRefs(items[0], scopes, |rows|) + Refs(items[1..], scopes, |Laid(rows, [items[0]], scopes)|)
  {
    LaidOne(rows, items[0], scopes);
    FirstThenRest(rows, items, scopes, ItemNodes(items[0], scopes, |rows|));
  }

  lemma LaidInside(rows: seq<NodeInfo>, d: Decl, inside: seq<Item>, scopes: seq<Scope>)
    requires scopes != []
    ensures Laid(rows, [Sym(d, inside)], scopes) ==
      Laid(WithRow(rows, d, scopes), inside, Inside(scopes, d, |rows|))
  {
    assert [Sym(d, inside)][1..] == [];
    SelfThenInside(rows, d, inside, scopes);
  }

  lemma {:induction false} LaidFits(rows: seq<NodeInfo>, items: seq<Item>, scopes: seq<Scope>)
    requires Fits(rows, scopes)
    ensures Fits(Laid(rows, items, scopes), scopes)
    ensures forall i :: 0 <= i < |rows| ==> DeclPath(Laid(rows, items, scopes), i) == DeclPath(rows, i)
    decreases items
  {
    if items != [] {
      LaidInTurn(rows, items, scopes);
      var first := Laid(rows, [items[0]], scopes);
      if items[0].Sym? {
        var d, inside := items[0].decl, items[0].inside;
        LaidInside(rows, d, inside, scopes);
        RowFits(rows, d, scopes);
        LaidFits(WithRow(rows, d, scopes), inside, Inside(scopes, d, |rows|));
      }
      LaidFits(first, items[1..], scopes);
    }
    forall i | 0 <= i < |rows|
      ensures DeclPath(Laid(rows, items, scopes), i) == DeclPath(rows, i)
    {
      DeclPathStays(rows, Nodes(items, scopes, |rows|), i);
    }
  }

  /** Where the declarations found now hang. */
  function Outer(rows: seq<NodeInfo>, scopes: seq<Scope>): seq<Decl>
    requires Fits(rows, scopes)
  {
    DeclPath(rows, Top(scopes).row)
  }

  /** Row `k` is `d`, under the declarations `path`. */
  predicate IsRow(rows: seq<NodeInfo>, k: nat, path: seq<Decl>, d: Decl)
    requires ParentsAreEarlier(rows)
  {
    1 <= k < |rows| && DeclPath(rows, k) == path + [d]
  }

  /** Reference `k` is `info`, made from the row at the end of `path`. */
  predicate IsRefRow(rows: seq<NodeInfo>, refs: seq<RefTo>, k: nat, path: seq<Decl>, info: RefInfo)
    requires ParentsAreEarlier(rows)
  {
    k < |refs| && refs[k].info == info && refs[k].from < |rows| && DeclPath(rows, refs[k].from) == path
  }

  lemma {:induction false} EntryHasRow(rows: seq<NodeInfo>, items: seq<Item>, scopes: seq<Scope>,
                                       path: seq<Decl>, d: Decl) returns (k: nat)
    requires Fits(rows, scopes) && Lies(items, path, Declared(d))
    ensures Fits(Laid(rows, items, scopes), scopes)
    ensures |rows| <= k && IsRow(Laid(rows, items, scopes), k, Outer(rows, scopes) + path, d)
    decreases items
  {
    var item, rest := items[0], items[1..];
    var first := Laid(rows, [item], scopes);
    LaidInTurn(rows, items, scopes);
    LaidFits(rows, [item], scopes);
    LaidFits(first, rest, scopes);
    if LiesIn(item, path, Declared(d)) {
      RowFits(rows, item.decl, scopes);
      LaidInside(rows, item.decl, item.inside, scopes);
      var scopes', rows' := Inside(scopes, item.decl, |rows|), WithRow(rows, item.decl, scopes);
      if path == [] {
        LaidFits(rows', item.inside, scopes');
        k := |rows|;
        assert Outer(rows, scopes) + [] == Outer(rows, scopes);
      } else {
        k := EntryHasRow(rows', item.inside, scopes', path[1..], d);
        HeadOfPath(Outer(rows, scopes), path);
      }
    } else {
      k := EntryHasRow(first, rest, scopes, path, d);
    }
  }

  lemma HeadOfPath(outer: seq<Decl>, path: seq<Decl>)
    requires path != []
    ensures (outer + [path[0]]) + path[1..] == outer + path
  {}

  lemma RefRowStays(rows: seq<NodeInfo>, more: seq<NodeInfo>, a: seq<RefTo>, b: seq<RefTo>, k: nat,
                    path: seq<Decl>, info: RefInfo)
    requires ParentsAreEarlier(rows + more) && ParentsAreEarlier(rows) && IsRefRow(rows, a, k, path, info)
    ensures IsRefRow(rows + more, a + b, k, path, info)
  {
    DeclPathStays(rows, more, a[k].from);
  }

  lemma RefRowFurther(rows: seq<NodeInfo>, a: seq<RefTo>, b: seq<RefTo>, k: nat, path: seq<Decl>, info: RefInfo)
    requires ParentsAreEarlier(rows) && IsRefRow(rows, b, k, path, info)
    ensures IsRefRow(rows, a + b, |a| + k, path, info)
  {}

  /** A reference row of the first item, and one of the rest, are rows of all. */
  lemma FirstItemRef(rows: seq<NodeInfo>, items: seq<Item>, scopes: seq<Scope>, k: nat, path: seq<Decl>, info: RefInfo)
    requires items != [] && Fits(rows, scopes) && Fits(Laid(rows, [items[0]], scopes), scopes)
    requires IsRefRow(Laid(rows, [items[0]], scopes), ItemRefs(items[0], scopes, |rows|), k, path, info)
    ensures Fits(Laid(rows, items, scopes), scopes)
    ensures IsRefRow(Laid(rows, items, scopes), Refs(items, scopes, |rows|), k, path, info)
  {
    var first := Laid(rows, [items[0]], scopes);
    LaidInTurn(rows, items, scopes);
    LaidFits(first, items[1..], scopes);
    RefRowStays(first, Nodes(items[1..], scopes, |first|), ItemRefs(items[0], scopes, |rows|),
                Refs(items[1..], scopes, |first|), k, path, info);
  }

  lemma FurtherItemRef(rows: seq<NodeInfo>, items: seq<Item>, scopes: seq<Scope>, k: nat,
                       path: seq<Decl>, info: RefInfo)
    requires items != [] && Fits(rows, scopes)
    requires var first := Laid(rows, [items[0]], scopes);
      && Fits(Laid(first, items[1..], scopes), scopes)
      && IsRefRow(Laid(first, items[1..], scopes), Refs(items[1..], scopes, |first|), k, path, info)
    ensures Fits(Laid(rows, items, scopes), scopes)
    ensures var k' := |ItemRefs(items[0], scopes, |rows|)| + k;
      IsRefRow(Laid(rows, items, scopes), Refs(items, scopes, |rows|), k', path, info)
  {
    var first := Laid(rows, [items[0]], scopes);
    LaidInTurn(rows, items, scopes);
    var a, b := ItemRefs(items[0], scopes, |rows|), Refs(items[1..], scopes, |first|);
    RefRowFurther(Laid(first, items[1..], scopes), a, b, k, path, info);
    SameRefRow(Laid(first, items[1..], scopes), a + b, Laid(rows, items, scopes), Refs(items, scopes, |rows|),
               |a| + k, path, info);
  }

  lemma SameRefRow(rows: seq<NodeInfo>, refs: seq<RefTo>, rows': seq<NodeInfo>, refs': seq<RefTo>, k: nat,
                   path: seq<Decl>, info: RefInfo)
    requires ParentsAreEarlier(rows) && IsRefRow(rows, refs, k, path, info)
    requires rows == rows' && refs == refs'
    ensures IsRefRow(rows', refs', k, path, info)
  {}

  lemma {:induction false} EntryHasRef(rows: seq<NodeInfo>, items: seq<Item>, scopes: seq<Scope>,
                                       path: seq<Decl>, info: RefInfo) returns (k: nat)
    requires Fits(rows, scopes) && Lies(items, path, Referred(info))
    ensures Fits(Laid(rows, items, scopes), scopes)
    ensures IsRefRow(Laid(rows, items, scopes), Refs(items, scopes, |rows|), k, Outer(rows, scopes) + path, info)
    decreases items, 0
  {
    var item, rest := items[0], items[1..];
    var first := Laid(rows, [item], scopes);
    LaidFits(rows, [item], scopes);
    if LiesIn(item, path, Referred(info)) {
      k := EntryHasItemRef(rows, item, scopes, path, info);
      FirstItemRef(rows, items, scopes, k, Outer(rows, scopes) + path, info);
    } else {
      var j := EntryHasRef(first, rest, scopes, path, info);
      FurtherItemRef(rows, items, scopes, j, Outer(rows, scopes) + path, info);
      k := |ItemRefs(item, scopes, |rows|)| + j;
    }
  }

  lemma {:induction false} EntryHasItemRef(rows: seq<NodeInfo>, item: Item, scopes: seq<Scope>,
                                           path: seq<Decl>, info: RefInfo) returns (k: nat)
    requires Fits(rows, scopes) && LiesIn(item, path, Referred(info))
    ensures Fits(Laid(rows, [item], scopes), scopes)
    ensures IsRefRow(Laid(rows, [item], scopes), ItemRefs(item, scopes, |rows|), k, Outer(rows, scopes) + path, info)
    decreases item, 1
  {
    LaidFits(rows, [item], scopes);
    if item.Sym? {
      RowFits(rows, item.decl, scopes);
      LaidInside(rows, item.decl, item.inside, scopes);
      k := EntryHasRef(WithRow(rows, item.decl, scopes), item.inside, Inside(scopes, item.decl, |rows|),
                       path[1..], info);
      HeadOfPath(Outer(rows, scopes), path);
    } else {
      k := 0;
      assert Outer(rows, scopes) + [] == Outer(rows, scopes);
    }
  }

  lemma {:induction false} RowIsEntry(rows: seq<NodeInfo>, items: seq<Item>, scopes: seq<Scope>, k: nat)
      returns (path: seq<Decl>, d: Decl)
    requires Fits(rows, scopes) && |rows| <= k < |Laid(rows, items, scopes)|
    ensures Fits(Laid(rows, items, scopes), scopes)
    ensures Lies(items, path, Declared(d)) && IsRow(Laid(rows, items, scopes), k, Outer(rows, scopes) + path, d)
    decreases items
  {
    var item, rest := items[0], items[1..];
    var first := Laid(rows, [item], scopes);
    LaidInTurn(rows, items, scopes);
    LaidFits(rows, [item], scopes);
    LaidFits(first, rest, scopes);
    if k < |first| {
      d := item.decl;
      RowFits(rows, d, scopes);
      LaidInside(rows, d, item.inside, scopes);
      var scopes', rows' := Inside(scopes, d, |rows|), WithRow(rows, d, scopes);
      LaidFits(rows', item.inside, scopes');
      if k == |rows| {
        path := [];
        assert Outer(rows, scopes) + [] == Outer(rows, scopes);
      } else {
        var inner;
        inner, d := RowIsEntry(rows', item.inside, scopes', k);
        path := [item.decl] + inner;
        HeadOfPath(Outer(rows, scopes), path);
      }
    } else {
      path, d := RowIsEntry(first, rest, scopes, k);
    }
  }

  lemma {:induction false} RefIsEntry(rows: seq<NodeInfo>, items: seq<Item>, scopes: seq<Scope>, k: nat)
      returns (path: seq<Decl>, info: RefInfo)
    requires Fits(rows, scopes) && k < |Refs(items, scopes, |rows|)|
    ensures Fits(Laid(rows, items, scopes), scopes) && Lies(items, path, Referred(info))
    ensures IsRefRow(Laid(rows, items, scopes), Refs(items, scopes, |rows|), k, Outer(rows, scopes) + path, info)
    decreases items, 0
  {
    var item, rest := items[0], items[1..];
    var first := Laid(rows, [item], scopes);
    LaidInTurn(rows, items, scopes);
    LaidFits(rows, [item], scopes);
    LaidFits(first, rest, scopes);
    var own := |ItemRefs(item, scopes, |rows|)|;
    if k < own {
      path, info := ItemRefIsEntry(rows, item, scopes, k);
      FirstItemRef(rows, items, scopes, k, Outer(rows, scopes) + path, info);
    } else {
      path, info := RefIsEntry(first, rest, scopes, k - own);
      FurtherItemRef(rows, items, scopes, k - own, Outer(rows, scopes) + path, info);
    }
  }

  lemma {:induction false} ItemRefIsEntry(rows: seq<NodeInfo>, item: Item, scopes: seq<Scope>, k: nat)
      returns (path: seq<Decl>, info: RefInfo)
    requires Fits(rows, scopes) && k < |ItemRefs(item, scopes, |rows|)|
    ensures Fits(Laid(rows, [item], scopes), scopes) && LiesIn(item, path, Referred(info))
    ensures IsRefRow(Laid(rows, [item], scopes), ItemRefs(item, scopes, |rows|), k, Outer(rows, scopes) + path, info)
    decreases item, 1
  {
    LaidFits(rows, [item], scopes);
    if item.Sym? {
      RowFits(rows, item.decl, scopes);
      LaidInside(rows, item.decl, item.inside, scopes);
      var inner;
      inner, info := RefIsEntry(WithRow(rows, item.decl, scopes), item.inside, Inside(scopes, item.decl, |rows|), k);
      path := [item.decl] + inner;
      HeadOfPath(Outer(rows, scopes), path);
    } else {
      path, info := [], item.info;
      assert Outer(rows, scopes) + [] == Outer(rows, scopes);
    }
  }

  // ----- the tables of a file -----

  lemma TableIsLaid(file: Decl, path: Text, items: seq<Item>)
    ensures var rows, scopes := [NodeInfo(file, 0, path)], [Scope(0, File, file.name)];
      && Fits(rows, scopes) && Outer(rows, scopes) == []
      && Table(file, path, items) == Laid(rows, items, scopes) && ParentsAreEarlier(Table(file, path, items))
  {
    LaidFits([NodeInfo(file, 0, path)], items, [Scope(0, File, file.name)]);
  }

  /** A declaration of the outline is a row under the same declarations, and every row but the file's is one. */
  lemma NodeRowsAreEntries(file: Decl, filePath: Text, items: seq<Item>, path: seq<Decl>, d: Decl)
    ensures ParentsAreEarlier(Table(file, filePath, items))
    ensures Lies(items, path, Declared(d)) <==> exists k :: IsRow(Table(file, filePath, items), k, path, d)
  {
    var rows, scopes := [NodeInfo(file, 0, filePath)], [Scope(0, File, file.name)];
    TableIsLaid(file, filePath, items);
    assert [] + path == path;
    if Lies(items, path, Declared(d)) {
      var k := EntryHasRow(rows, items, scopes, path, d);
    }
    if k :| IsRow(Table(file, filePath, items), k, path, d) {
      var path', d' := RowIsEntry(rows, items, scopes, k);
      assert [] + path' == path';
      SameEnds(path, d, path', d');
    }
  }

  lemma SameEnds(path: seq<Decl>, d: Decl, path': seq<Decl>, d': Decl)
    requires path + [d] == path' + [d']
    ensures path == path' && d == d'
  {
    assert (path + [d])[..|path|] == path && (path' + [d'])[..|path'|] == path';
    assert (path + [d])[|path|] == d;
  }

  /** And a reference is a row made from the declaration around it. */
  lemma RefRowsAreEntries(file: Decl, filePath: Text, items: seq<Item>, path: seq<Decl>, info: RefInfo)
    ensures ParentsAreEarlier(Table(file, filePath, items))
    ensures Lies(items, path, Referred(info)) <==>
      exists k :: IsRefRow(Table(file, filePath, items), Refs(items, [Scope(0, File, file.name)], 1), k, path, info)
  {
    var rows, scopes := [NodeInfo(file, 0, filePath)], [Scope(0, File, file.name)];
    TableIsLaid(file, filePath, items);
    assert [] + path == path;
    if Lies(items, path, Referred(info)) {
      var k := EntryHasRef(rows, items, scopes, path, info);
    }
    if k :| IsRefRow(Table(file, filePath, items), Refs(items, scopes, 1), k, path, info) {
      var path', info' := RefIsEntry(rows, items, scopes, k);
      assert [] + path' == path';
    }
  }

  // ----- names -----

  /** The names of `path`, with `::` between them. */
  function Spelled(path: seq<Decl>): Text {
    if path == [] then []
    else if |path| == 1 then path[0].name
    else path[0].name + SEPARATOR + Spelled(path[1..])
  }

  predicate AllNamed(path: seq<Decl>) {
    forall i :: 0 <= i < |path| ==> path[i].name != []
  }

  lemma {:induction false} SpelledSnoc(path: seq<Decl>, d: Decl)
    requires AllNamed(path)
    ensures Spelled(path + [d]) == Qualify(Spelled(path), d.name)
  {
    if path != [] {
      assert (path + [d])[1..] == path[1..] + [d];
      SpelledSnoc(path[1..], d);
      if |path| > 1 {
        Regroup(path[0].name + SEPARATOR, Spelled(path[1..]), SEPARATOR + d.name);
      }
      assert Spelled(path) != [];
    }
  }

  /** A row's qualified name spells the declarations down to it, unless it has one of its own. */
  lemma {:induction false} NamePathIsSpelled(rows: seq<NodeInfo>, i: nat)
    requires ParentsAreEarlier(rows) && i < |rows| && AllNamed(DeclPath(rows, i))
    ensures NamePath(rows, i) == Spelled(DeclPath(rows, i))
    decreases i
  {
    if i > 0 {
      var path := DeclPath(rows, rows[i].parent);
      assert AllNamed(path) by {
        forall j | 0 <= j < |path| ensures path[j].name != [] {
          assert (path + [rows[i].decl])[j] == path[j];
        }
      }
      NamePathIsSpelled(rows, rows[i].parent);
      SpelledSnoc(path, rows[i].decl);
    }
  }

  lemma {:induction false} EntriesAreNamed(items: seq<Item>, outer: Span, path: seq<Decl>, d: Decl)
    requires WellFormed(items, outer) && Lies(items, path, Declared(d))
    ensures AllNamed(path + [d])
    decreases items
  {
    if LiesIn(items[0], path, Declared(d)) {
      if path != [] {
        EntriesAreNamed(items[0].inside, items[0].decl.span, path[1..], d);
        HeadAndRest([path[0]], path + [d]);
        assert (path + [d])[1..] == path[1..] + [d];
      }
    } else {
      EntriesAreNamed(items[1..], outer, path, d);
    }
  }

  /** In every file's table a row is qualified by the names down to it, unless it has a qualified name of its own. */
  lemma RowIsQualified(file: Decl, filePath: Text, items: seq<Item>, k: nat, path: seq<Decl>, d: Decl)
    requires WellFormed(items, file.span)
    requires ParentsAreEarlier(Table(file, filePath, items)) && IsRow(Table(file, filePath, items), k, path, d)
    ensures Table(file, filePath, items)[k].qualified ==
      if d.qualifiedOverride.Some? then d.qualifiedOverride.value else Spelled(path + [d])
  {
    var rows := Table(file, filePath, items);
    TableIsContainsTree(file, filePath, items);
    assert QualifiedRow(rows, k);
    SameEnds(DeclPath(rows, rows[k].parent), rows[k].decl, path, d);
    NodeRowsAreEntries(file, filePath, items, path, d);
    EntriesAreNamed(items, file.span, path, d);
    NamePathIsSpelled(rows, k);
  }
}
