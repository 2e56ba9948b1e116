/**
 Finding indexed projects, src/directory.ts: below a directory
 (`findIndexedSubprojectRoots`) and above one (`findNearestCodeGraphRoot`).
 */
module Directory {
  import opened Options

  /** Path segments from the file system's root. */
  type Path = seq<string>

  /** A directory as it can be read: `indexed` when it holds an initialized index. */
  datatype Dir = Dir(indexed: bool, readable: bool, entries: seq<Entry>)

  datatype Entry = Folder(name: string, dir: Dir) | Leaf(name: string)

  const SKIPPED := {
    "node_modules", ".git", ".svn", ".hg", "dist", "build", "out", "target",
    "vendor", "bin", "obj", ".next", ".nuxt", ".svelte-kit", ".cache", "coverage",
    ".venv", "venv", "__pycache__", ".turbo", ".idea", ".vscode", "tmp", "temp" }

  predicate IsEligible(name: string) {
    !("." <= name) && name !in SKIPPED
  }

  /** How deep to look, and into which directories. */
  datatype Limits = Limits(maxDepth: nat, eligible: string -> bool)

  // ----- the unbounded listing -----

  /** The first indexed directories on every branch, in pre-order. */
  function Listing(dir: Dir, path: Path, depth: nat, limits: Limits): seq<Path>
    decreases dir, 1
  {
    if depth > limits.maxDepth || !dir.readable then [] else ListingOf(dir.entries, path, depth, limits)
  }

  function ListingOf(entries: seq<Entry>, path: Path, depth: nat, limits: Limits): seq<Path>
    decreases entries, 0
  {
    if entries == [] then []
    else ListingAt(entries[0], path, depth, limits) + ListingOf(entries[1..], path, depth, limits)
  }

  function ListingAt(e: Entry, path: Path, depth: nat, limits: Limits): seq<Path>
    decreases e, 2
  {
    if !e.Folder? || !limits.eligible(e.name) then []
    else if e.dir.indexed then [path + [e.name]]
    else Listing(e.dir, path + [e.name], depth + 1, limits)
  }

  function Take(s: seq<Path>, max: nat): seq<Path> {
    if |s| <= max then s else s[..max]
  }

  lemma TakeInTwo(a: seq<Path>, b: seq<Path>, c: seq<Path>, max: nat)
    ensures Take(Take(a + b, max) + c, max) == Take(a + (b + c), max)
    ensures |a| == max ==> Take(a + b, max) == a
  {
    assert a + (b + c) == (a + b) + c;
  }

  // ----- the bounded scan as it runs -----

  class Scan {
    const max: nat
    const limits: Limits
    var out: seq<Path>

    constructor (max: nat, limits: Limits)
      ensures this.max == max && this.limits == limits && out == []
    {
      this.max, this.limits, out := max, limits, [];
    }

    method Walk(dir: Dir, path: Path, depth: nat)
      requires |out| <= max
      modifies this`out
      ensures |out| <= max && out == Take(old(out) + Listing(dir, path, depth, limits), max)
      decreases dir
    {
      TakeInTwo(out, Listing(dir, path, depth, limits), [], max);
      if |out| >= max || depth > limits.maxDepth || !dir.readable {
        assert out + [] == out;
        return;
      }
      var entries := dir.entries;
      ghost var goal := Take(out + Listing(dir, path, depth, limits), max);
      assert entries[0..] == entries;
      for i := 0 to |entries|
        invariant |out| <= max && Take(out + ListingOf(entries[i..], path, depth, limits), max) == goal
      {
        var e := entries[i];
        ghost var rest := ListingOf(entries[i + 1..], path, depth, limits);
        assert entries[i..][1..] == entries[i + 1..];
        TakeInTwo(out, ListingAt(e, path, depth, limits), rest, max);
        TakeInTwo(out, ListingOf(entries[i..], path, depth, limits), [], max);
        assert out + [] == out && [] + rest == rest;
        if |out| >= max {
          return;
        }
        if !e.Folder? || !limits.eligible(e.name) {
          continue;
        }
        var child := path + [e.name];
        if e.dir.indexed {
          out := out + [child];
          continue;
        }
        Walk(e.dir, child, depth + 1);
      }
      assert out + [] == out;
    }
  }

  /** At most `max` roots beneath a directory; none at all beneath one that is not safe to scan. */
  method FindIndexedSubprojectRoots(root: Dir, path: Path, unsafe: bool, maxDepth: nat, max: nat)
      returns (found: seq<Path>)
    ensures var all := Listing(root, path, 1, Limits(maxDepth, IsEligible));
      && found == (if unsafe then [] else Take(all, max))
      && (!unsafe && |found| < max ==> found == all)
  {
    var limits := Limits(maxDepth, IsEligible);
    if unsafe {
      return [];
    }
    var scan := new Scan(max, limits);
    scan.Walk(root, path, 1);
    assert [] + Listing(root, path, 1, limits) == Listing(root, path, 1, limits);
    return scan.out;
  }

  // ----- what the listing holds -----

  /** Following `way` down from `dir` leads through eligible, readable, unindexed directories to an indexed one. */
  predicate LeadsToRoot(dir: Dir, way: Path, depth: nat, limits: Limits)
    decreases |way|
  {
    && way != [] && depth <= limits.maxDepth && dir.readable
    && exists i :: 0 <= i < |dir.entries| && StepsToRoot(dir.entries[i], way, depth, limits)
  }

  predicate StepsToRoot(e: Entry, way: Path, depth: nat, limits: Limits)
    requires way != []
    decreases |way|, 0
  {
    && e.Folder? && e.name == way[0] && limits.eligible(e.name)
    && if e.dir.indexed then |way| == 1 else LeadsToRoot(e.dir, way[1..], depth + 1, limits)
  }

  /** The listing holds exactly the ways that lead to a root. */
  lemma {:induction false} ListedIffLeadsToRoot(dir: Dir, path: Path, depth: nat, limits: Limits, p: Path)
    ensures p in Listing(dir, path, depth, limits) <==>
      path <= p && LeadsToRoot(dir, p[|path|..], depth, limits)
    decreases dir, 1
  {
    if depth <= limits.maxDepth && dir.readable {
      ListedOfIff(dir.entries, path, depth, limits, p);
    }
  }

  lemma {:induction false} ListedOfIff(entries: seq<Entry>, path: Path, depth: nat, limits: Limits, p: Path)
    ensures p in ListingOf(entries, path, depth, limits) <==>
      path < p && exists i :: 0 <= i < |entries| && StepsToRoot(entries[i], p[|path|..], depth, limits)
    decreases entries, 0
  {
    if entries != [] {
      var rest := entries[1..];
      ListedAtIff(entries[0], path, depth, limits, p);
      ListedOfIff(rest, path, depth, limits, p);
      if p in ListingOf(rest, path, depth, limits) {
        var i :| 0 <= i < |rest| && StepsToRoot(rest[i], p[|path|..], depth, limits);
        assert entries[i + 1] == rest[i];
      }
      if path < p && exists i :: 0 < i < |entries| && StepsToRoot(entries[i], p[|path|..], depth, limits) {
        var i :| 0 < i < |entries| && StepsToRoot(entries[i], p[|path|..], depth, limits);
        assert rest[i - 1] == entries[i];
      }
    }
  }

  lemma {:induction false} ListedAtIff(e: Entry, path: Path, depth: nat, limits: Limits, p: Path)
    ensures p in ListingAt(e, path, depth, limits) <==>
      path < p && StepsToRoot(e, p[|path|..], depth, limits)
    decreases e, 2
  {
    if e.Folder? && limits.eligible(e.name) {
      var child := path + [e.name];
      if path < p && p[|path|] == e.name {
        assert p == path + p[|path|..];
        assert child <= p && p[|child|..] == p[|path|..][1..];
        assert |p| == |child| ==> p == child;
      }
      if child <= p {
        assert p[|path|] == child[|path|];
      }
      if !e.dir.indexed {
        ListedIffLeadsToRoot(e.dir, child, depth + 1, limits, p);
      }
    }
  }

  // ----- no result lies beneath another -----

  /** Names tell the entries of a directory apart, all the way down. */
  predicate WellNamed(dir: Dir)
    decreases dir, 1
  {
    WellNamedAll(dir.entries)
  }

  predicate WellNamedAll(entries: seq<Entry>)
    decreases entries, 0
  {
    entries == [] ||
    (&& (entries[0].Folder? ==> WellNamed(entries[0].dir))
     && (forall i :: 1 <= i < |entries| ==> entries[i].name != entries[0].name)
     && WellNamedAll(entries[1..]))
  }

  predicate Apart(p: Path, q: Path) {
    !(p <= q) && !(q <= p)
  }

  predicate AllApart(s: seq<Path>) {
    forall i, j :: 0 <= i < j < |s| ==> Apart(s[i], s[j])
  }

  lemma AllApartAppend(a: seq<Path>, b: seq<Path>)
    requires AllApart(a) && AllApart(b) && forall p, q :: p in a && q in b ==> Apart(p, q)
    ensures AllApart(a + b)
  {
    var s := a + b;
    forall i, j | 0 <= i < j < |s|
      ensures Apart(s[i], s[j])
    {
      if i < |a| <= j {
        assert s[i] == a[i] && s[j] == b[j - |a|];
      } else if i < |a| {
        assert s[i] == a[i] && s[j] == a[j];
      } else {
        assert s[i] == b[i - |a|] && s[j] == b[j - |a|];
      }
    }
  }

  lemma {:induction false} NoneLiesBeneathAnother(dir: Dir, path: Path, depth: nat, limits: Limits)
    requires WellNamed(dir)
    ensures AllApart(Listing(dir, path, depth, limits))
    decreases dir, 1
  {
    if depth <= limits.maxDepth && dir.readable {
      NoneBeneathOf(dir.entries, path, depth, limits);
    }
  }

  lemma {:induction false} NoneBeneathOf(entries: seq<Entry>, path: Path, depth: nat, limits: Limits)
    requires WellNamedAll(entries)
    ensures AllApart(ListingOf(entries, path, depth, limits))
    decreases entries, 0
  {
    if entries != [] {
      var e := entries[0];
      var first, rest := ListingAt(e, path, depth, limits), ListingOf(entries[1..], path, depth, limits);
      if e.Folder? {
        NoneLiesBeneathAnother(e.dir, path + [e.name], depth + 1, limits);
      }
      NoneBeneathOf(entries[1..], path, depth, limits);
      forall p, q | p in first && q in rest
        ensures Apart(p, q)
      {
        ListedAtIff(e, path, depth, limits, p);
        ListedOfIff(entries[1..], path, depth, limits, q);
        var i :| 0 <= i < |entries[1..]| && StepsToRoot(entries[1..][i], q[|path|..], depth, limits);
        assert entries[1..][i] == entries[i + 1];
        assert p[|path|] == e.name && q[|path|] == entries[i + 1].name;
      }
      AllApartAppend(first, rest);
    }
  }

  /** So no root that is found lies beneath another, and every one is where it is said to be. */
  lemma FoundRootsAreApart(root: Dir, path: Path, limits: Limits, max: nat)
    requires WellNamed(root)
    ensures var found := Take(Listing(root, path, 1, limits), max);
      && AllApart(found)
      && (forall p :: p in found ==> path <= p && LeadsToRoot(root, p[|path|..], 1, limits))
  {
    var all := Listing(root, path, 1, limits);
    NoneLiesBeneathAnother(root, path, 1, limits);
    forall p | p in Take(all, max)
      ensures path <= p && LeadsToRoot(root, p[|path|..], 1, limits)
    {
      ListedIffLeadsToRoot(root, path, 1, limits, p);
    }
  }

  // ----- breadth first or not -----

  /** Shallower first, as in a breadth-first scan; within a level both scans follow the entries. */
  predicate ShallowerFirst(s: seq<Path>) {
    forall i, j :: 0 <= i < j < |s| ==> |s[i]| <= |s[j]|
  }

  predicate NoneLonger(a: seq<Path>, b: seq<Path>) {
    forall p, q :: p in a && q in b ==> |p| <= |q|
  }

  lemma ShallowerFirstAppend(a: seq<Path>, b: seq<Path>)
    ensures ShallowerFirst(a + b) <==> ShallowerFirst(a) && ShallowerFirst(b) && NoneLonger(a, b)
  {
    var s := a + b;
    if ShallowerFirst(s) {
      assert forall i :: 0 <= i < |a| ==> s[i] == a[i];
      assert forall i :: 0 <= i < |b| ==> s[|a| + i] == b[i];
      assert NoneLonger(a, b);
    }
  }

  /** No way to a root through one entry is longer than one through the other. */
  ghost predicate WaysInOrder(e: Entry, later: Entry, depth: nat, limits: Limits) {
    forall v, w | v != [] && w != [] ::
      StepsToRoot(e, v, depth, limits) && StepsToRoot(later, w, depth, limits) ==> |v| <= |w|
  }

  ghost predicate AllLater(e: Entry, rest: seq<Entry>, depth: nat, limits: Limits) {
    forall j :: 0 <= j < |rest| ==> WaysInOrder(e, rest[j], depth, limits)
  }

  /** At every directory that is walked, earlier entries lead to shallower roots. */
  ghost predicate LevelsInOrder(dir: Dir, depth: nat, limits: Limits)
    decreases dir, 1
  {
    depth <= limits.maxDepth && dir.readable ==> EntriesInOrder(dir.entries, depth, limits)
  }

  ghost predicate EntriesInOrder(entries: seq<Entry>, depth: nat, limits: Limits)
    decreases entries, 0
  {
    entries == [] ||
    (&& EntryInOrder(entries[0], depth, limits)
     && AllLater(entries[0], entries[1..], depth, limits)
     && EntriesInOrder(entries[1..], depth, limits))
  }

  ghost predicate EntryInOrder(e: Entry, depth: nat, limits: Limits)
    decreases e, 2
  {
    e.Folder? && limits.eligible(e.name) && !e.dir.indexed ==> LevelsInOrder(e.dir, depth + 1, limits)
  }

  lemma WayIsListed(e: Entry, path: Path, depth: nat, limits: Limits, way: Path)
    requires way != []
    ensures path + way in ListingAt(e, path, depth, limits) <==> StepsToRoot(e, way, depth, limits)
  {
    assert (path + way)[|path|..] == way;
    ListedAtIff(e, path, depth, limits, path + way);
  }

  lemma WayIsListedOf(entries: seq<Entry>, path: Path, depth: nat, limits: Limits, i: nat, way: Path)
    requires i < |entries| && way != [] && StepsToRoot(entries[i], way, depth, limits)
    ensures path + way in ListingOf(entries, path, depth, limits)
  {
    assert (path + way)[|path|..] == way;
    ListedOfIff(entries, path, depth, limits, path + way);
  }

  lemma WaysAsListed(e: Entry, rest: seq<Entry>, path: Path, depth: nat, limits: Limits, j: nat, v: Path, w: Path)
    requires NoneLonger(ListingAt(e, path, depth, limits), ListingOf(rest, path, depth, limits))
    requires j < |rest| && v != [] && w != []
    requires StepsToRoot(e, v, depth, limits) && StepsToRoot(rest[j], w, depth, limits)
    ensures |v| <= |w|
  {
    WayIsListed(e, path, depth, limits, v);
    WayIsListedOf(rest, path, depth, limits, j, w);
    NotLonger(ListingAt(e, path, depth, limits), ListingOf(rest, path, depth, limits), path, v, w);
  }

  lemma NotLonger(first: seq<Path>, later: seq<Path>, path: Path, v: Path, w: Path)
    requires NoneLonger(first, later) && path + v in first && path + w in later
    ensures |v| <= |w|
  {
    assert |path + v| <= |path + w|;
  }

  lemma ListedAsWays(e: Entry, rest: seq<Entry>, path: Path, depth: nat, limits: Limits, p: Path, q: Path)
    requires AllLater(e, rest, depth, limits)
    requires p in ListingAt(e, path, depth, limits) && q in ListingOf(rest, path, depth, limits)
    ensures |p| <= |q|
  {
    ListedAtIff(e, path, depth, limits, p);
    var j := EntryOf(rest, path, depth, limits, q);
    LaterWay(e, rest[j], depth, limits, p[|path|..], q[|path|..]);
  }

  lemma EntryOf(entries: seq<Entry>, path: Path, depth: nat, limits: Limits, p: Path) returns (i: nat)
    requires p in ListingOf(entries, path, depth, limits)
    ensures i < |entries| && path < p && StepsToRoot(entries[i], p[|path|..], depth, limits)
  {
    ListedOfIff(entries, path, depth, limits, p);
    i :| 0 <= i < |entries| && StepsToRoot(entries[i], p[|path|..], depth, limits);
  }

  lemma LaterWay(e: Entry, later: Entry, depth: nat, limits: Limits, v: Path, w: Path)
    requires WaysInOrder(e, later, depth, limits) && v != [] && w != []
    requires StepsToRoot(e, v, depth, limits) && StepsToRoot(later, w, depth, limits)
    ensures |v| <= |w|
  {}

  lemma NoneLongerIff(e: Entry, rest: seq<Entry>, path: Path, depth: nat, limits: Limits)
    ensures NoneLonger(ListingAt(e, path, depth, limits), ListingOf(rest, path, depth, limits)) <==>
      AllLater(e, rest, depth, limits)
  {
    var first, later := ListingAt(e, path, depth, limits), ListingOf(rest, path, depth, limits);
    if NoneLonger(first, later) {
      forall j, v, w | 0 <= j < |rest| && v != [] && w != []
          && StepsToRoot(e, v, depth, limits) && StepsToRoot(rest[j], w, depth, limits)
        ensures |v| <= |w|
      {
        WaysAsListed(e, rest, path, depth, limits, j, v, w);
      }
    }
    if AllLater(e, rest, depth, limits) {
      forall p, q | p in first && q in later
        ensures |p| <= |q|
      {
        ListedAsWays(e, rest, path, depth, limits, p, q);
      }
    }
  }

  /**
   The scan is depth first although it is described as breadth first: it lists
   shallower roots first exactly when, at every directory it walks, no way to a
   root through an entry is longer than one through a later entry.
   */
  lemma {:induction false} BreadthFirstIff(dir: Dir, path: Path, depth: nat, limits: Limits)
    ensures ShallowerFirst(Listing(dir, path, depth, limits)) <==> LevelsInOrder(dir, depth, limits)
    decreases dir, 1
  {
    if depth <= limits.maxDepth && dir.readable {
      BreadthFirstOfIff(dir.entries, path, depth, limits);
    }
  }

  lemma {:induction false} BreadthFirstOfIff(entries: seq<Entry>, path: Path, depth: nat, limits: Limits)
    ensures ShallowerFirst(ListingOf(entries, path, depth, limits)) <==> EntriesInOrder(entries, depth, limits)
    decreases entries, 0
  {
    if entries != [] {
      var e, rest := entries[0], entries[1..];
      BreadthFirstAtIff(e, path, depth, limits);
      BreadthFirstOfIff(rest, path, depth, limits);
      ShallowerFirstAppend(ListingAt(e, path, depth, limits), ListingOf(rest, path, depth, limits));
      NoneLongerIff(e, rest, path, depth, limits);
    }
  }

  lemma {:induction false} BreadthFirstAtIff(e: Entry, path: Path, depth: nat, limits: Limits)
    ensures ShallowerFirst(ListingAt(e, path, depth, limits)) <==> EntryInOrder(e, depth, limits)
    decreases e, 2
  {
    if e.Folder? && limits.eligible(e.name) && !e.dir.indexed {
      BreadthFirstIff(e.dir, path + [e.name], depth + 1, limits);
    }
  }

  /** An index two levels down, and beside it a later one a single level down. */
  function TwoRoots(): Dir {
    var leaf := Dir(true, true, []);
    Dir(false, true, [Folder("a", Dir(false, true, [Folder("x", leaf)])), Folder("b", leaf)])
  }

  /** The deeper comes first, and is all that is found when one root is asked for. */
  lemma DeeperRootMayComeFirst(limits: Limits)
    requires limits.maxDepth >= 2 && limits.eligible("a") && limits.eligible("b") && limits.eligible("x")
    ensures !LevelsInOrder(TwoRoots(), 1, limits)
    ensures Listing(TwoRoots(), [], 1, limits) == [["a", "x"], ["b"]]
    ensures Take(Listing(TwoRoots(), [], 1, limits), 1) == [["a", "x"]]
  {
    var leaf := Dir(true, true, []);
    var x := Folder("x", leaf);
    var deep := Dir(false, true, [x]);
    var a, b := Folder("a", deep), Folder("b", leaf);
    assert [x][1..] == [] && [b][1..] == [] && [a, b][1..] == [b];
    var inA: Path := ["a"];
    assert inA + ["x"] == ["a", "x"];
    assert ListingAt(x, inA, 2, limits) == [["a", "x"]];
    assert ListingOf([x], inA, 2, limits) == [["a", "x"]] + [];
    assert [] + ["a"] == inA && [] + ["b"] == ["b"];
    assert ListingAt(a, [], 1, limits) == Listing(deep, inA, 2, limits) == [["a", "x"]];
    assert ListingOf([b], [], 1, limits) == [["b"]] + [];
    var all := Listing(TwoRoots(), [], 1, limits);
    assert all == ListingOf([a, b], [], 1, limits) == [["a", "x"]] + [["b"]];
    assert |all[0]| == 2 && |all[1]| == 1;
    BreadthFirstIff(TwoRoots(), [], 1, limits);
  }

  lemma ScanMayStartDeep()
    ensures Take(Listing(TwoRoots(), [], 1, Limits(4, IsEligible)), 1) == [["a", "x"]]
  {
    assert "a"[0] != '.' && "b"[0] != '.' && "x"[0] != '.';
    assert |"a"| == 1 && |"b"| == 1 && |"x"| == 1;
    assert IsEligible("a") && IsEligible("b") && IsEligible("x");
    DeeperRootMayComeFirst(Limits(4, IsEligible));
  }

  // ----- the nearest root above -----

  /** The initialized directory closest above a path, itself included; the file system's root is looked at too. */
  method FindNearestCodeGraphRoot(start: Path, isInitialized: Path -> bool) returns (nearest: Option<Path>)
    ensures nearest.Some? ==> nearest.value <= start && isInitialized(nearest.value)
    ensures nearest.Some? ==> forall k :: |nearest.value| < k <= |start| ==> !isInitialized(start[..k])
    ensures nearest.None? <==> forall k :: 0 <= k <= |start| ==> !isInitialized(start[..k])
  {
    var current := start;
    assert start[..|start|] == start;
    while current != []
      invariant current == start[..|current|] && |current| <= |start|
      invariant forall k :: |current| < k <= |start| ==> !isInitialized(start[..k])
      decreases |current|
    {
      if isInitialized(current) {
        return Some(current);
      }
      current := current[..|current| - 1];
    }
    assert start[..0] == [];
    if isInitialized(current) {
      return Some(current);
    }
    return None;
  }
}
