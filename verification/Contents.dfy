/** What is in an outline: declarations and references, each under the declarations around it. */
module Contents {
  import opened Bytes
  import opened Outline
  import opened SyntaxTree

  datatype Entry = Declared(decl: Decl) | Referred(info: RefInfo)

  /** `e` is among `items`, with `path` the declarations around it from the outside in. */
  predicate Lies(items: seq<Item>, path: seq<Decl>, e: Entry)
    decreases items, 0
  {
    items != [] && (LiesIn(items[0], path, e) || Lies(items[1..], path, e))
  }

  predicate LiesIn(item: Item, path: seq<Decl>, e: Entry)
    decreases item, 1
  {
    match item
    case Sym(d, inside) =>
      (path == [] && e == Declared(d)) || (path != [] && path[0] == d && Lies(inside, path[1..], e))
    case Ref(info) => path == [] && e == Referred(info)
    case Visited(_, _, _) => false
  }

  lemma {:induction false} LiesAppend(xs: seq<Item>, ys: seq<Item>, path: seq<Decl>, e: Entry)
    ensures Lies(xs + ys, path, e) <==> Lies(xs, path, e) || Lies(ys, path, e)
    decreases |xs|
  {
    if xs == [] {
      assert xs + ys == ys;
    } else {
      assert (xs + ys)[1..] == xs[1..] + ys;
      LiesAppend(xs[1..], ys, path, e);
    }
  }

  lemma LiesInOne(item: Item, path: seq<Decl>, e: Entry)
    ensures Lies([item], path, e) <==> LiesIn(item, path, e)
  {
    assert [item][1..] == [];
  }

  /** A mark that a walk came by holds nothing. */
  lemma LiesPastMark(at: nat, mode: Mode, role: Role, rest: seq<Item>, path: seq<Decl>, e: Entry)
    ensures Lies([Visited(at, mode, role)] + rest, path, e) <==> Lies(rest, path, e)
  {
    LiesAppend([Visited(at, mode, role)], rest, path, e);
    LiesInOne(Visited(at, mode, role), path, e);
  }

  /** `e` refers to `name` from where `n` stands. */
  predicate Refers(e: Entry, kind: Byte, name: Text, n: Node) {
    && e.Referred? && e.info.kind == kind && e.info.name == name && e.info.at == n.index
    && e.info.line == n.span.startLine && e.info.column == n.span.startColumn
  }

  predicate IsRefOf(e: Entry, kind: Byte) {
    e.Referred? && e.info.kind == kind
  }

  predicate IsDeclOf(e: Entry, kind: Kind) {
    e.Declared? && e.decl.kind == kind
  }

  // ----- entries and their sites -----

  function WhatOf(e: Entry): What {
    if e.Declared? then Decls else References
  }

  function SiteOf(e: Entry): nat {
    if e.Declared? then e.decl.at else e.info.at
  }

  lemma {:induction false} EntryHasSite(items: seq<Item>, path: seq<Decl>, e: Entry)
    requires Lies(items, path, e)
    ensures SiteOf(e) in Sites(items, WhatOf(e))
    decreases items
  {
    if LiesIn(items[0], path, e) {
      if path != [] {
        EntryHasSite(items[0].inside, path[1..], e);
      }
    } else {
      EntryHasSite(items[1..], path, e);
    }
  }

  /** `x` is at most once in `s`. */
  predicate AtMostOnce(s: seq<nat>, x: nat) {
    forall i, j :: 0 <= i < |s| && 0 <= j < |s| && s[i] == x && s[j] == x ==> i == j
  }

  lemma OnceInParts(a: seq<nat>, b: seq<nat>, x: nat)
    requires AtMostOnce(a + b, x)
    ensures AtMostOnce(a, x) && AtMostOnce(b, x) && !(x in a && x in b)
  {
    var s := a + b;
    assert forall i :: 0 <= i < |a| ==> s[i] == a[i];
    assert forall i :: 0 <= i < |b| ==> s[|a| + i] == b[i];
  }

  /** A site of one row is the site of one entry. */
  lemma {:induction false} OneEntryPerSite(items: seq<Item>, path: seq<Decl>, e: Entry, path': seq<Decl>, e': Entry)
    requires Lies(items, path, e) && Lies(items, path', e')
    requires WhatOf(e) == WhatOf(e') && SiteOf(e) == SiteOf(e')
    requires AtMostOnce(Sites(items, WhatOf(e)), SiteOf(e))
    ensures path == path' && e == e'
    decreases items
  {
    var what := WhatOf(e);
    var item, rest := items[0], items[1..];
    OnceInParts(ItemSites(item, what), Sites(rest, what), SiteOf(e));
    if LiesIn(item, path, e) {
      ItemHasSite(item, path, e);
    } else {
      EntryHasSite(rest, path, e);
    }
    if LiesIn(item, path', e') {
      ItemHasSite(item, path', e');
    } else {
      EntryHasSite(rest, path', e');
    }
    if LiesIn(item, path, e) {
      if item.Sym? {
        OneEntryInside(item, path, e, path', e');
      }
    } else {
      OneEntryPerSite(rest, path, e, path', e');
    }
  }

  lemma ItemHasSite(item: Item, path: seq<Decl>, e: Entry)
    requires LiesIn(item, path, e)
    ensures SiteOf(e) in ItemSites(item, WhatOf(e))
  {
    if path != [] {
      EntryHasSite(item.inside, path[1..], e);
    }
  }

  lemma {:induction false} OneEntryInside(item: Item, path: seq<Decl>, e: Entry, path': seq<Decl>, e': Entry)
    requires item.Sym? && LiesIn(item, path, e) && LiesIn(item, path', e')
    requires WhatOf(e) == WhatOf(e') && SiteOf(e) == SiteOf(e')
    requires AtMostOnce(ItemSites(item, WhatOf(e)), SiteOf(e))
    ensures path == path' && e == e'
    decreases item
  {
    var what := WhatOf(e);
    var self: seq<nat> := if what.Decls? then [item.decl.at] else [];
    OnceInParts(self, Sites(item.inside, what), SiteOf(e));
    if path != [] {
      EntryHasSite(item.inside, path[1..], e);
    }
    if path' != [] {
      EntryHasSite(item.inside, path'[1..], e');
    }
    if path != [] && path' != [] {
      OneEntryPerSite(item.inside, path[1..], e, path'[1..], e');
      assert path == [path[0]] + path[1..] && path' == [path'[0]] + path'[1..];
    }
  }
}
