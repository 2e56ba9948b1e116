/** A tree-sitter syntax tree, as the walkers see it. */
module SyntaxTree {
  import opened Bytes
  import opened Options
  import opened Outline

  /** `index` is the node's place in pre-order; it stands for the node's identity. */
  datatype Node = Node(kind: string, text: Text, span: Span, children: seq<Child>, index: nat)

  /** A child, the field it fills ("" for none), and whether it is a named node. */
  datatype Child = Child(field: string, named: bool, node: Node)

  /** child_by_field_name: the first child that fills `field`. */
  function ByField(n: Node, field: string): (r: Option<Node>)
    ensures r.Some? ==> IsChild(r.value, n) && Size(r.value) < Size(n)
  {
    FindField(n.children, field)
  }

  function FindField(children: seq<Child>, field: string): (r: Option<Node>)
    ensures r.Some? ==> exists i :: 0 <= i < |children| && children[i].node == r.value
    ensures r.Some? ==> Size(r.value) <= SizeAll(children)
  {
    if children == [] then None
    else if children[0].field == field then
      assert children[0].node == children[0].node;
      Some(children[0].node)
    else
      var r := FindField(children[1..], field);
      assert r.Some? ==> exists i :: 0 <= i < |children| && children[i].node == r.value by {
        if r.Some? {
          var i :| 0 <= i < |children[1..]| && children[1..][i].node == r.value;
          assert children[i + 1].node == r.value;
        }
      }
      r
  }

  predicate IsChild(c: Node, n: Node) {
    exists i :: 0 <= i < |n.children| && n.children[i].node == c
  }

  /** named_child(0). */
  function FirstNamed(children: seq<Child>): Option<Node> {
    if children == [] then None else if children[0].named then Some(children[0].node) else FirstNamed(children[1..])
  }

  /** The field's node is that of the first child that fills it. */
  lemma {:induction false} FindFieldIff(children: seq<Child>, field: string, c: Node)
    ensures FindField(children, field) == Some(c) <==>
      exists i :: 0 <= i < |children| && children[i].field == field && children[i].node == c
        && forall j :: 0 <= j < i ==> children[j].field != field
  {
    if children != [] && children[0].field != field {
      FindFieldIff(children[1..], field, c);
      assert forall i :: 1 <= i < |children| ==> children[1..][i - 1] == children[i];
    }
  }

  lemma {:induction false} FirstNamedIff(children: seq<Child>, c: Node)
    ensures FirstNamed(children) == Some(c) <==>
      exists i :: 0 <= i < |children| && children[i].named && children[i].node == c
        && forall j :: 0 <= j < i ==> !children[j].named
  {
    if children != [] && !children[0].named {
      FirstNamedIff(children[1..], c);
      assert forall i :: 1 <= i < |children| ==> children[1..][i - 1] == children[i];
    }
  }

  // ----- well-formed trees -----

  function Size(n: Node): (s: nat)
    ensures s > 0
    decreases n, 1
  {
    1 + SizeAll(n.children)
  }

  function SizeAll(children: seq<Child>): nat
    decreases children, 0
  {
    if children == [] then 0 else Size(children[0].node) + SizeAll(children[1..])
  }

  /** Indices count the nodes in pre-order. */
  predicate Numbered(n: Node)
    decreases n, 1
  {
    NumberedAll(n.children, n.index + 1)
  }

  predicate NumberedAll(children: seq<Child>, start: nat)
    decreases children, 0
  {
    children == [] ||
    (&& children[0].node.index == start
     && Numbered(children[0].node)
     && NumberedAll(children[1..], start + Size(children[0].node)))
  }

  /** A child lies within the lines of its parent. */
  predicate Spanned(n: Node)
    decreases n, 1
  {
    SpannedAll(n.children, n.span)
  }

  predicate SpannedAll(children: seq<Child>, outer: Span)
    decreases children, 0
  {
    children == [] ||
    (Nested(children[0].node.span, outer) && Spanned(children[0].node) && SpannedAll(children[1..], outer))
  }

  function End(n: Node): nat {
    n.index + Size(n)
  }

  lemma {:induction false} ChildInRange(children: seq<Child>, start: nat, i: nat)
    requires NumberedAll(children, start) && i < |children|
    ensures Numbered(children[i].node)
    ensures start <= children[i].node.index && End(children[i].node) <= start + SizeAll(children)
  {
    if i > 0 {
      ChildInRange(children[1..], start + Size(children[0].node), i - 1);
    }
  }

  lemma {:induction false} ChildInSpan(children: seq<Child>, outer: Span, i: nat)
    requires SpannedAll(children, outer) && i < |children|
    ensures Spanned(children[i].node) && Nested(children[i].node.span, outer)
  {
    if i > 0 {
      ChildInSpan(children[1..], outer, i - 1);
    }
  }

  lemma {:induction false} ChildIsSmaller(children: seq<Child>, i: nat)
    requires i < |children|
    ensures Size(children[i].node) <= SizeAll(children)
  {
    if i > 0 {
      ChildIsSmaller(children[1..], i - 1);
    }
  }

  /** A child's nodes are among those strictly below its parent. */
  lemma ChildBelow(c: Node, n: Node)
    requires IsChild(c, n) && Numbered(n)
    ensures Numbered(c) && n.index < c.index && End(c) <= End(n)
  {
    var i :| 0 <= i < |n.children| && n.children[i].node == c;
    ChildInRange(n.children, n.index + 1, i);
  }

  lemma ChildWithin(c: Node, n: Node)
    requires IsChild(c, n) && Spanned(n)
    ensures Spanned(c) && Nested(c.span, n.span)
  {
    var i :| 0 <= i < |n.children| && n.children[i].node == c;
    ChildInSpan(n.children, n.span, i);
  }

  // ----- nodes and their numbers -----

  /** `m` is `n` or below it. */
  predicate IsIn(m: Node, n: Node)
    decreases n, 1
  {
    m == n || IsInAny(m, n.children)
  }

  predicate IsInAny(m: Node, children: seq<Child>)
    decreases children, 0
  {
    children != [] && (IsIn(m, children[0].node) || IsInAny(m, children[1..]))
  }

  lemma {:induction false} InsideChild(m: Node, children: seq<Child>, i: nat)
    requires i < |children| && IsIn(m, children[i].node)
    ensures IsInAny(m, children)
  {
    if i > 0 {
      InsideChild(m, children[1..], i - 1);
    }
  }

  lemma ChildIsInside(m: Node, c: Node, n: Node)
    requires IsChild(c, n) && IsIn(m, c)
    ensures IsIn(m, n)
  {
    var i :| 0 <= i < |n.children| && n.children[i].node == c;
    InsideChild(m, n.children, i);
  }

  lemma {:induction false} InsideInside(a: Node, b: Node, c: Node)
    requires IsIn(a, b) && IsIn(b, c)
    ensures IsIn(a, c)
    decreases c, 1
  {
    if b != c {
      InsideInsideAny(a, b, c.children);
    }
  }

  lemma {:induction false} InsideInsideAny(a: Node, b: Node, children: seq<Child>)
    requires IsIn(a, b) && IsInAny(b, children)
    ensures IsInAny(a, children)
    decreases children, 0
  {
    if IsIn(b, children[0].node) {
      InsideInside(a, b, children[0].node);
    } else {
      InsideInsideAny(a, b, children[1..]);
    }
  }

  lemma {:induction false} IsInInRange(m: Node, n: Node)
    requires Numbered(n) && IsIn(m, n)
    ensures n.index <= m.index && End(m) <= End(n)
    decreases n, 1
  {
    if m != n {
      IsInAnyInRange(m, n.children, n.index + 1);
    }
  }

  lemma {:induction false} IsInAnyInRange(m: Node, children: seq<Child>, start: nat)
    requires NumberedAll(children, start) && IsInAny(m, children)
    ensures start <= m.index && End(m) <= start + SizeAll(children)
    decreases children, 0
  {
    if IsIn(m, children[0].node) {
      IsInInRange(m, children[0].node);
    } else {
      IsInAnyInRange(m, children[1..], start + Size(children[0].node));
    }
  }

  /** What is claimed of a tree holds of the trees in it. */
  lemma {:induction false} NumberedInside(m: Node, n: Node)
    requires Numbered(n) && Spanned(n) && IsIn(m, n)
    ensures Numbered(m) && Spanned(m)
    decreases n, 1
  {
    if m != n {
      NumberedInsideAny(m, n.children, n.index + 1, n.span);
    }
  }

  lemma {:induction false} NumberedInsideAny(m: Node, children: seq<Child>, start: nat, outer: Span)
    requires NumberedAll(children, start) && SpannedAll(children, outer) && IsInAny(m, children)
    ensures Numbered(m) && Spanned(m)
    decreases children, 0
  {
    if IsIn(m, children[0].node) {
      NumberedInside(m, children[0].node);
    } else {
      NumberedInsideAny(m, children[1..], start + Size(children[0].node), outer);
    }
  }

  /** A number is one node's. */
  lemma {:induction false} NumbersAreUnique(a: Node, b: Node, n: Node)
    requires Numbered(n) && IsIn(a, n) && IsIn(b, n) && a.index == b.index
    ensures a == b
    decreases n, 1
  {
    if a != n {
      IsInAnyInRange(a, n.children, n.index + 1);
    }
    if b != n {
      IsInAnyInRange(b, n.children, n.index + 1);
    }
    if a != n && b != n {
      NumbersAreUniqueAmong(a, b, n.children, n.index + 1);
    }
  }

  lemma {:induction false} NumbersAreUniqueAmong(a: Node, b: Node, children: seq<Child>, start: nat)
    requires NumberedAll(children, start) && IsInAny(a, children) && IsInAny(b, children) && a.index == b.index
    ensures a == b
    decreases children, 0
  {
    var first := children[0].node;
    var next := start + Size(first);
    if IsIn(a, first) {
      IsInInRange(a, first);
    } else {
      IsInAnyInRange(a, children[1..], next);
    }
    if IsIn(b, first) {
      IsInInRange(b, first);
    } else {
      IsInAnyInRange(b, children[1..], next);
    }
    if IsIn(a, first) && IsIn(b, first) {
      NumbersAreUnique(a, b, first);
    } else {
      NumbersAreUniqueAmong(a, b, children[1..], next);
    }
  }

  // ----- sites in order -----

  /** Strictly increasing, within [lo, hi). */
  predicate Ascending(s: seq<nat>, lo: nat, hi: nat) {
    s == [] || (lo <= s[0] < hi && Ascending(s[1..], s[0] + 1, hi))
  }

  lemma {:induction false} AscendingWider(s: seq<nat>, lo: nat, hi: nat, lo': nat, hi': nat)
    requires Ascending(s, lo, hi) && lo' <= lo && hi <= hi'
    ensures Ascending(s, lo', hi')
  {
    if s != [] {
      AscendingWider(s[1..], s[0] + 1, hi, s[0] + 1, hi');
    }
  }

  lemma {:induction false} AscendingConcat(a: seq<nat>, b: seq<nat>, lo: nat, mid: nat, hi: nat)
    requires Ascending(a, lo, mid) && Ascending(b, mid, hi) && lo <= mid <= hi
    ensures Ascending(a + b, lo, hi)
  {
    if a == [] {
      assert a + b == b;
      AscendingWider(b, mid, hi, lo, hi);
    } else {
      assert (a + b)[1..] == a[1..] + b;
      AscendingConcat(a[1..], b, a[0] + 1, mid, hi);
    }
  }

  /** So no element comes twice, and there are at most as many as fit. */
  lemma {:induction false} AscendingMeans(s: seq<nat>, lo: nat, hi: nat)
    requires Ascending(s, lo, hi) && lo <= hi
    ensures |s| <= hi - lo
    ensures forall i, j :: 0 <= i < j < |s| ==> s[i] < s[j]
    ensures forall i :: 0 <= i < |s| ==> lo <= s[i] < hi
  {
    if s != [] {
      AscendingMeans(s[1..], s[0] + 1, hi);
    }
  }
}
