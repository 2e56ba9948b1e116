/**
 Docstrings, codegraph-kernel/src/docstring.rs: stripping a pattern from line
 starts as `str.replace(/^pat/gm, "")` does, and choosing the comments that
 document a declaration.
 */
module Docstring {
  import opened Options
  import opened Texts

  // ----- js_multiline_strip -----

  /** How much of a text a pattern matches from a position on, if it matches there. */
  type Matcher = nat -> Option<nat>

  predicate Fits(s: string, pat: Matcher, pos: nat) {
    pos <= |s| && pat(pos).Some? ==> pos + pat(pos).value <= |s|
  }

  ghost predicate IsMatcher(s: string, pat: Matcher) {
    forall pos: nat :: Fits(s, pat, pos)
  }

  /** LineTerminator, section 12.3 of ECMA-262. */
  predicate IsLineTerminator(c: char) {
    c == '\n' || c == '\r' || c == '\U{2028}' || c == '\U{2029}'
  }

  /** Where `^` matches in multiline mode. */
  predicate IsLineStart(s: string, pos: nat)
    requires pos <= |s|
  {
    pos == 0 || IsLineTerminator(s[pos - 1])
  }

  datatype Match = Match(at: nat, length: nat)

  /** RegExpBuiltinExec of /^pat/m: the leftmost match from `from` on, an empty one counts. */
  function Exec(s: string, pat: Matcher, from: nat): (r: Option<Match>)
    requires IsMatcher(s, pat)
    ensures r.Some? ==> from <= r.value.at && r.value.at + r.value.length <= |s|
    ensures r.Some? ==> IsLineStart(s, r.value.at) && pat(r.value.at) == Some(r.value.length)
    decreases |s| - from
  {
    if from > |s| then None
    else
      assert Fits(s, pat, from);
      if IsLineStart(s, from) && pat(from).Some? then Some(Match(from, pat(from).value))
      else if from == |s| then None
      else Exec(s, pat, from + 1)
  }

  /** The matches a global replace collects; after an empty one it advances by one. */
  function Matches(s: string, pat: Matcher, lastIndex: nat): seq<Match>
    requires IsMatcher(s, pat)
    decreases |s| + 1 - lastIndex
  {
    match Exec(s, pat, lastIndex)
    case None => []
    case Some(m) => [m] + Matches(s, pat, if m.length == 0 then m.at + 1 else m.at + m.length)
  }

  /** In order and not overlapping. */
  predicate Ordered(s: string, ms: seq<Match>, next: nat) {
    if ms == [] then next <= |s|
    else next <= ms[0].at && ms[0].at + ms[0].length <= |s| && Ordered(s, ms[1..], ms[0].at + ms[0].length)
  }

  /** The text without the matches. */
  function Cut(s: string, ms: seq<Match>, next: nat): string
    requires Ordered(s, ms, next)
  {
    if ms == [] then s[next..] else s[next..ms[0].at] + Cut(s, ms[1..], ms[0].at + ms[0].length)
  }

  lemma {:induction false} MatchesAreOrdered(s: string, pat: Matcher, lastIndex: nat, next: nat)
    requires IsMatcher(s, pat) && next <= lastIndex && next <= |s|
    ensures Ordered(s, Matches(s, pat, lastIndex), next)
    decreases |s| + 1 - lastIndex
  {
    var found := Exec(s, pat, lastIndex);
    if found.Some? {
      var m := found.value;
      var rest := Matches(s, pat, if m.length == 0 then m.at + 1 else m.at + m.length);
      MatchesAreOrdered(s, pat, if m.length == 0 then m.at + 1 else m.at + m.length, m.at + m.length);
      assert ([m] + rest)[1..] == rest;
    }
  }

  /** String.prototype.replace(/^pat/gm, ""), section 22.2.6.11 of ECMA-262. */
  function JsReplace(s: string, pat: Matcher): string
    requires IsMatcher(s, pat)
  {
    MatchesAreOrdered(s, pat, 0, 0);
    Cut(s, Matches(s, pat, 0), 0)
  }

  /** What is left to write with the cursor at `pos` and everything before `last` written or deleted. */
  ghost function Ahead(s: string, pat: Matcher, last: nat, pos: nat): string
    requires IsMatcher(s, pat) && last <= pos && last <= |s|
  {
    MatchesAreOrdered(s, pat, pos, last);
    Cut(s, Matches(s, pat, pos), last)
  }

  lemma CutEarlier(s: string, ms: seq<Match>, a: nat, b: nat)
    requires a <= b && Ordered(s, ms, b)
    ensures b <= |s| && Ordered(s, ms, a) && s[a..b] + Cut(s, ms, b) == Cut(s, ms, a)
  {
    if ms == [] {
      assert s[a..b] + s[b..] == s[a..];
    } else {
      OneSlice(s, a, b, ms[0].at, Cut(s, ms[1..], ms[0].at + ms[0].length));
    }
  }

  lemma OneSlice(s: string, a: nat, b: nat, c: nat, rest: string)
    requires a <= b <= c <= |s|
    ensures s[a..b] + (s[b..c] + rest) == s[a..c] + rest
  {
    assert s[a..b] + s[b..c] == s[a..c];
  }

  lemma NothingMatchesHere(s: string, pat: Matcher, last: nat, pos: nat)
    requires IsMatcher(s, pat) && last <= pos < |s| && MatchLength(s, pat, pos) == 0
    ensures Ahead(s, pat, last, pos) == Ahead(s, pat, last, pos + 1)
  {
    if IsLineStart(s, pos) && pat(pos).Some? {
      EmptyMatchHere(s, pat, last, pos);
    } else {
      NoMatchHere(s, pat, last, pos);
    }
  }

  lemma NoMatchHere(s: string, pat: Matcher, last: nat, pos: nat)
    requires IsMatcher(s, pat) && last <= pos < |s| && !(IsLineStart(s, pos) && pat(pos).Some?)
    ensures Ahead(s, pat, last, pos) == Ahead(s, pat, last, pos + 1)
  {
    assert Exec(s, pat, pos) == Exec(s, pat, pos + 1);
  }

  lemma EmptyMatchHere(s: string, pat: Matcher, last: nat, pos: nat)
    requires IsMatcher(s, pat) && last <= pos <= |s| && IsLineStart(s, pos) && pat(pos) == Some(0)
    ensures Ahead(s, pat, last, pos) == Ahead(s, pat, last, pos + 1)
  {
    var ms := Matches(s, pat, pos + 1);
    MatchesAreOrdered(s, pat, pos + 1, pos);
    assert Matches(s, pat, pos) == [Match(pos, 0)] + ms;
    assert ([Match(pos, 0)] + ms)[1..] == ms;
    CutEarlier(s, ms, last, pos);
  }

  lemma MatchHere(s: string, pat: Matcher, last: nat, pos: nat, length: nat)
    requires IsMatcher(s, pat) && last <= pos <= |s| && IsLineStart(s, pos) && pat(pos) == Some(length) && length > 0
    ensures pos + length <= |s|
    ensures Ahead(s, pat, last, pos) == s[last..pos] + Ahead(s, pat, pos + length, pos + length)
  {
    assert Fits(s, pat, pos);
    var ms := Matches(s, pat, pos + length);
    MatchesAreOrdered(s, pat, pos + length, pos + length);
    assert Matches(s, pat, pos) == [Match(pos, length)] + ms;
    assert ([Match(pos, length)] + ms)[1..] == ms;
  }

  /** At the end of the text no match is left that deletes anything. */
  lemma NothingAhead(s: string, pat: Matcher, last: nat)
    requires IsMatcher(s, pat) && last <= |s|
    ensures Ahead(s, pat, last, |s|) == s[last..]
  {
    if IsLineStart(s, |s|) && pat(|s|).Some? {
      assert Fits(s, pat, |s|);
      EmptyMatchHere(s, pat, last, |s|);
    }
    assert Exec(s, pat, |s| + 1) == None;
  }

  function MatchLength(s: string, pat: Matcher, pos: nat): (n: nat)
    requires IsMatcher(s, pat) && pos <= |s|
    ensures pos + n <= |s|
  {
    assert Fits(s, pat, pos);
    if IsLineStart(s, pos) && pat(pos).Some? then pat(pos).value else 0
  }

  /** What a cursor at `pos` still writes, when everything before `last` is written or deleted. */
  function Stripped(s: string, pat: Matcher, last: nat, pos: nat): string
    requires IsMatcher(s, pat) && last <= pos <= |s|
    decreases |s| - pos
  {
    var n := MatchLength(s, pat, pos);
    if n > 0 then s[last..pos] + Stripped(s, pat, pos + n, pos + n)
    else if pos == |s| then s[last..]
    else Stripped(s, pat, last, pos + 1)
  }

  /** The cursor deletes just what a global replace collects. */
  lemma {:induction false} StrippedIsReplaced(s: string, pat: Matcher, last: nat, pos: nat)
    requires IsMatcher(s, pat) && last <= pos <= |s|
    ensures Stripped(s, pat, last, pos) == Ahead(s, pat, last, pos)
    decreases |s| - pos
  {
    var n := MatchLength(s, pat, pos);
    if n > 0 {
      MatchHere(s, pat, last, pos, n);
      StrippedIsReplaced(s, pat, pos + n, pos + n);
    } else if pos == |s| {
      NothingAhead(s, pat, last);
    } else {
      NothingMatchesHere(s, pat, last, pos);
      StrippedIsReplaced(s, pat, last, pos + 1);
    }
  }

  /** Deletes each non-empty match at a line start, left to right, in one pass. */
  method JsMultilineStrip(s: string, pat: Matcher) returns (r: string)
    requires IsMatcher(s, pat)
    ensures r == JsReplace(s, pat)
  {
    StrippedIsReplaced(s, pat, 0, 0);
    var out := [];
    var last: nat, pos: nat := 0, 0;
    while pos <= |s|
      invariant last <= pos <= |s|
      invariant out + Stripped(s, pat, last, pos) == Stripped(s, pat, 0, 0)
      decreases |s| - pos
    {
      var length := MatchLength(s, pat, pos);
      if length > 0 {
        Regroup(out, s[last..pos], Stripped(s, pat, pos + length, pos + length));
        out := out + s[last..pos];
        last := pos + length;
        pos := last;
        continue;
      }
      if pos == |s| {
        break;
      }
      pos := pos + 1;
    }
    r := out + s[last..];
  }

  // ----- which comments document a declaration -----

  /** A comment's rows, and whether it follows code on its line. */
  datatype Comment = Comment(startRow: nat, endRow: nat, followsCode: bool)

  /** What stands before a declaration: a comment, a kind that is stepped over, or anything else. */
  datatype Sibling = Note(comment: Comment) | SteppedOver | Other

  function Comments(siblings: seq<Sibling>): seq<Comment> {
    if siblings == [] then []
    else (if siblings[0].Note? then [siblings[0].comment] else []) + Comments(siblings[1..])
  }

  /** `comments` are the comments at the places `at`, in order, and there are no more from `from` on. */
  predicate AreNotes(siblings: seq<Sibling>, from: nat, comments: seq<Comment>, at: seq<nat>) {
    && |at| == |comments|
    && (forall k :: 0 <= k < |at| ==> from <= at[k] < |siblings| && siblings[at[k]] == Note(comments[k]))
    && (forall k, m :: 0 <= k < m < |at| ==> at[k] < at[m])
    && (forall i :: from <= i < |siblings| && siblings[i].Note? ==> i in at)
  }

  lemma NotesFurther(siblings: seq<Sibling>, from: nat, comments: seq<Comment>, at: seq<nat>)
    requires from < |siblings| && AreNotes(siblings, from + 1, comments, at)
    ensures siblings[from].Note? ==> AreNotes(siblings, from, [siblings[from].comment] + comments, [from] + at)
    ensures !siblings[from].Note? ==> AreNotes(siblings, from, comments, at)
  {
    var more := [from] + at;
    assert forall k :: 1 <= k < |more| ==> more[k] == at[k - 1];
    assert forall i :: i in at ==> i in more;
  }

  lemma {:induction false} NotesFrom(siblings: seq<Sibling>, from: nat) returns (at: seq<nat>)
    requires from <= |siblings|
    ensures AreNotes(siblings, from, Comments(siblings[from..]), at)
    decreases |siblings| - from
  {
    if from == |siblings| {
      return [];
    }
    var later := NotesFrom(siblings, from + 1);
    TailOfSlice(siblings, from);
    NotesFurther(siblings, from, Comments(siblings[from + 1..]), later);
    assert [] + Comments(siblings[from + 1..]) == Comments(siblings[from + 1..]);
    at := if siblings[from].Note? then [from] + later else later;
  }

  /** They are all the comments there are, in the order of the siblings. */
  lemma CommentsInOrder(siblings: seq<Sibling>)
    ensures exists at :: AreNotes(siblings, 0, Comments(siblings), at)
  {
    var at := NotesFrom(siblings, 0);
    assert siblings[0..] == siblings;
  }

  /** Where the siblings after the last one that is neither a comment nor stepped over start. */
  function RunStart(siblings: seq<Sibling>): (start: nat)
    ensures start <= |siblings| && (start > 0 ==> siblings[start - 1].Other?)
    ensures forall i :: start <= i < |siblings| ==> !siblings[i].Other?
  {
    if siblings == [] || siblings[|siblings| - 1].Other? then |siblings| else RunStart(siblings[..|siblings| - 1])
  }

  /** Walks back over the siblings, nearest first; the comments it ends with are in source order. */
  method CollectComments(siblings: seq<Sibling>) returns (comments: seq<Comment>)
    ensures comments == Comments(siblings[RunStart(siblings)..])
  {
    var nearestFirst: seq<Comment> := [];
    var i := |siblings|;
    assert siblings[..i] == siblings;
    while i > 0 && !siblings[i - 1].Other?
      invariant 0 <= i <= |siblings| && RunStart(siblings) == RunStart(siblings[..i])
      invariant Reversed(nearestFirst) == Comments(siblings[i..])
    {
      i := i - 1;
      TailOfSlice(siblings, i);
      assert siblings[..i + 1][..i] == siblings[..i];
      if siblings[i].Note? {
        ReversedSnoc(nearestFirst, siblings[i].comment);
        nearestFirst := nearestFirst + [siblings[i].comment];
      } else {
        assert [] + Comments(siblings[i + 1..]) == Comments(siblings[i + 1..]);
      }
    }
    comments := Reversed(nearestFirst);
  }

  function Reversed<T>(s: seq<T>): seq<T> {
    if s == [] then [] else Reversed(s[1..]) + [s[0]]
  }

  lemma {:induction false} ReversedSnoc<T>(s: seq<T>, x: T)
    ensures Reversed(s + [x]) == [x] + Reversed(s)
  {
    if s == [] {
      assert s + [x] == [x] && [x][1..] == [];
    } else {
      assert (s + [x])[1..] == s[1..] + [x];
      ReversedSnoc(s[1..], x);
    }
  }

  /** Comment `i` belongs to the line above: the first follows code, and each begins where the one before ends. */
  predicate Trails(cs: seq<Comment>, i: nat)
    requires i < |cs|
  {
    cs[0].followsCode && forall k :: 0 < k <= i ==> cs[k].startRow == cs[k - 1].endRow
  }

  /** Comment `i` is joined to the declaration: no row is left free from it on. */
  predicate Attached(cs: seq<Comment>, i: nat, declaration: nat)
    requires i < |cs|
  {
    && cs[|cs| - 1].endRow + 1 == declaration
    && forall k :: i < k < |cs| ==> cs[k - 1].endRow + 1 >= cs[k].startRow
  }

  /** Whether comment `i` is among those chosen. */
  predicate Chosen(cs: seq<Comment>, i: nat, declaration: nat, skipTrailing: bool, skipDetached: bool)
    requires i < |cs|
  {
    !(skipTrailing && Trails(cs, i)) && (skipDetached ==> Attached(cs, i, declaration))
  }

  method FirstChosen(cs: seq<Comment>, declaration: nat, skipTrailing: bool, skipDetached: bool) returns (first: nat)
    ensures first <= |cs|
    ensures forall i :: 0 <= i < |cs| ==> (first <= i <==> Chosen(cs, i, declaration, skipTrailing, skipDetached))
  {
    first := 0;
    if skipTrailing {
      first := SkipTrailing(cs);
    }
    if skipDetached {
      first := SkipDetached(cs, first, declaration);
    }
  }

  method SkipTrailing(cs: seq<Comment>) returns (first: nat)
    ensures first <= |cs|
    ensures forall i :: 0 <= i < |cs| ==> (i < first <==> Trails(cs, i))
  {
    first := 0;
    var endRow := 0;
    while first < |cs|
      invariant first <= |cs|
      invariant first > 0 ==> Trails(cs, first - 1) && endRow == cs[first - 1].endRow
    {
      var trails := if first == 0 then cs[first].followsCode else cs[first].startRow == endRow;
      if !trails {
        break;
      }
      endRow := cs[first].endRow;
      first := first + 1;
    }
  }

  method SkipDetached(cs: seq<Comment>, first: nat, declaration: nat) returns (start: nat)
    requires first <= |cs|
    ensures first <= start <= |cs|
    ensures forall i :: 0 <= i < |cs| ==> (start <= i <==> first <= i && Attached(cs, i, declaration))
  {
    start := |cs|;
    if start > first && cs[start - 1].endRow + 1 == declaration {
      start := start - 1;
      while start > first && cs[start - 1].endRow + 1 >= cs[start].startRow
        invariant first <= start < |cs| && Attached(cs, start, declaration)
      {
        start := start - 1;
      }
    }
  }

  /** Comments in source order. */
  predicate InOrder(cs: seq<Comment>) {
    && (forall i :: 0 <= i < |cs| ==> cs[i].startRow <= cs[i].endRow)
    && (forall i, j :: 0 <= i < j < |cs| ==> cs[i].endRow <= cs[j].startRow)
  }

  /** There is no blank line inside: from a kept comment to the declaration every row is part of one. */
  lemma {:induction false} NoBlankLineInside(cs: seq<Comment>, i: nat, declaration: nat, row: nat)
      returns (k: nat)
    requires i < |cs| && InOrder(cs) && Attached(cs, i, declaration)
    requires cs[i].startRow <= row < declaration
    ensures i <= k < |cs| && cs[k].startRow <= row <= cs[k].endRow
    decreases |cs| - i
  {
    if row <= cs[i].endRow {
      k := i;
    } else {
      k := NoBlankLineInside(cs, i + 1, declaration, row);
    }
  }
}
