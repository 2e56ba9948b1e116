/**
 Markdown path references, codegraph-kernel/src/markdown.rs: percent decoding,
 `posix_normalize`, and which references name a document of the repository.
 */
module Markdown {
  import opened Bytes
  import opened Options
  import opened Texts

  const SLASH: Byte := 47
  const CURRENT: Text := [46]
  const PARENT: Text := [46, 46]

  predicate IsAbsolute(p: Text) {
    p != [] && p[0] == SLASH
  }

  function Last(segs: seq<Text>): Text
    requires segs != []
  {
    segs[|segs| - 1]
  }

  // ----- posix_normalize -----

  /** One segment onto what there is so far. */
  function Push(out: seq<Text>, seg: Text, absolute: bool): seq<Text> {
    if seg == [] || seg == CURRENT then out
    else if seg == PARENT && out != [] && Last(out) != PARENT then out[..|out| - 1]
    else if seg == PARENT && absolute then out
    else out + [seg]
  }

  function PushAll(out: seq<Text>, segs: seq<Text>, absolute: bool): seq<Text>
    decreases |segs|
  {
    if segs == [] then out else PushAll(Push(out, segs[0], absolute), segs[1..], absolute)
  }

  function Rendered(segs: seq<Text>, absolute: bool): Text {
    if absolute then [SLASH] + Join(segs, SLASH)
    else if Join(segs, SLASH) == [] then CURRENT
    else Join(segs, SLASH)
  }

  function Segments(p: Text): seq<Text> {
    PushAll([], Split(p, SLASH), IsAbsolute(p))
  }

  function Normalized(p: Text): Text {
    Rendered(Segments(p), IsAbsolute(p))
  }

  method PosixNormalize(p: Text) returns (r: Text)
    ensures r == Normalized(p)
  {
    var absolute := p != [] && p[0] == SLASH;
    var out: seq<Text> := [];
    var segs := Split(p, SLASH);
    assert segs[0..] == segs;
    for i := 0 to |segs|
      invariant PushAll(out, segs[i..], absolute) == Segments(p)
    {
      assert segs[i..][1..] == segs[i + 1..];
      var seg := segs[i];
      if seg == [] || seg == CURRENT {
      } else if seg == PARENT {
        if out != [] && Last(out) != PARENT {
          out := out[..|out| - 1];
        } else if !absolute {
          out := out + [PARENT];
        }
      } else {
        out := out + [seg];
      }
    }
    var joined := Join(out, SLASH);
    if absolute {
      return [SLASH] + joined;
    }
    if joined == [] {
      return CURRENT;
    }
    return joined;
  }

  // ----- canonical form -----

  /** No empty or `.` segment; `..` only as a leading run, and never in an absolute path. */
  predicate Canonical(segs: seq<Text>, absolute: bool) {
    && (forall i :: 0 <= i < |segs| ==> segs[i] != [] && segs[i] != CURRENT && Free(segs[i], SLASH))
    && (forall i :: 0 < i < |segs| && segs[i] == PARENT ==> segs[i - 1] == PARENT)
    && (absolute ==> PARENT !in segs)
  }

  lemma PushKeepsCanonical(out: seq<Text>, seg: Text, absolute: bool)
    requires Canonical(out, absolute) && Free(seg, SLASH)
    ensures Canonical(Push(out, seg, absolute), absolute)
  {}

  lemma {:induction false} PushAllIsCanonical(out: seq<Text>, segs: seq<Text>, absolute: bool)
    requires Canonical(out, absolute) && AllFree(segs, SLASH)
    ensures Canonical(PushAll(out, segs, absolute), absolute)
    decreases |segs|
  {
    if segs != [] {
      PushKeepsCanonical(out, segs[0], absolute);
      PushAllIsCanonical(Push(out, segs[0], absolute), segs[1..], absolute);
    }
  }

  lemma {:induction false} PushAllAppend(out: seq<Text>, a: seq<Text>, b: seq<Text>, absolute: bool)
    ensures PushAll(out, a + b, absolute) == PushAll(PushAll(out, a, absolute), b, absolute)
    decreases |a|
  {
    if a == [] {
      assert a + b == b;
    } else {
      assert (a + b)[1..] == a[1..] + b;
      PushAllAppend(Push(out, a[0], absolute), a[1..], b, absolute);
    }
  }

  /** What is canonical stays as it is. */
  lemma {:induction false} PushAllOfCanonical(out: seq<Text>, segs: seq<Text>, absolute: bool)
    requires Canonical(out + segs, absolute)
    ensures PushAll(out, segs, absolute) == out + segs
    decreases |segs|
  {
    if segs == [] {
      assert out + segs == out;
    } else {
      assert (out + segs)[|out|] == segs[0];
      assert out != [] ==> (out + segs)[|out| - 1] == Last(out);
      assert Push(out, segs[0], absolute) == out + [segs[0]];
      assert (out + [segs[0]]) + segs[1..] == out + segs;
      PushAllOfCanonical(out + [segs[0]], segs[1..], absolute);
    }
  }

  lemma EmptyReadsBack(absolute: bool)
    ensures IsAbsolute(Rendered([], absolute)) == absolute && Segments(Rendered([], absolute)) == []
  {
    SplitFree<Byte>([], SLASH);
    SplitFree<Byte>(CURRENT, SLASH);
    SplitConcat<Byte>([], SLASH, []);
    assert [] + [SLASH] + [] == [SLASH];
    var nothing: Text := [];
    assert Push([], nothing, true) == [] && Push([], CURRENT, false) == [];
    assert [nothing, nothing][1..] == [nothing] && [nothing][1..] == [];
    assert PushAll([], [nothing, nothing], true) == PushAll([], [nothing], true) == [];
    assert [CURRENT][1..] == [];
    assert PushAll([], [CURRENT], false) == [];
  }

  lemma JoinedStart(segs: seq<Text>, absolute: bool)
    requires Canonical(segs, absolute) && segs != []
    ensures Join(segs, SLASH) != [] && Join(segs, SLASH)[0] != SLASH
  {
    assert Join(segs, SLASH)[0] == segs[0][0] && segs[0][0] in segs[0];
  }

  /** A rendered path reads back as the segments it was rendered from. */
  lemma RenderedReadsBack(segs: seq<Text>, absolute: bool)
    requires Canonical(segs, absolute)
    ensures IsAbsolute(Rendered(segs, absolute)) == absolute && Segments(Rendered(segs, absolute)) == segs
  {
    if segs == [] {
      EmptyReadsBack(absolute);
    } else {
      var joined := Join(segs, SLASH);
      JoinedStart(segs, absolute);
      SplitJoin(segs, SLASH);
      assert [] + segs == segs;
      PushAllOfCanonical([], segs, absolute);
      if absolute {
        SplitFree<Byte>([], SLASH);
        SplitConcat<Byte>([], SLASH, joined);
        assert [] + [SLASH] + joined == [SLASH] + joined;
        assert ([[]] + segs)[1..] == segs;
      }
    }
  }

  lemma SegmentsAreCanonical(p: Text)
    ensures Canonical(Segments(p), IsAbsolute(p))
  {
    PushAllIsCanonical([], Split(p, SLASH), IsAbsolute(p));
  }

  /** Normalizing yields a path in canonical form, and nothing changes when it is done again. */
  lemma NormalizedIsCanonical(p: Text)
    ensures IsAbsolute(Normalized(p)) == IsAbsolute(p)
    ensures Segments(Normalized(p)) == Segments(p) && Canonical(Segments(p), IsAbsolute(p))
    ensures Normalized(Normalized(p)) == Normalized(p)
    ensures Segments(p) != [] ==> Normalized(p) == (if IsAbsolute(p) then [SLASH] else []) + Join(Segments(p), SLASH)
  {
    SegmentsAreCanonical(p);
    RenderedReadsBack(Segments(p), IsAbsolute(p));
    if Segments(p) != [] {
      assert Join(Segments(p), SLASH)[0] == Segments(p)[0][0];
      assert [] + Join(Segments(p), SLASH) == Join(Segments(p), SLASH);
    }
  }

  function Under(a: Text, b: Text): Text {
    a + [SLASH] + b
  }

  lemma SegmentsUnder(a: Text, b: Text)
    requires a != []
    ensures IsAbsolute(Under(a, b)) == IsAbsolute(a)
    ensures Segments(Under(a, b)) == PushAll(Segments(a), Split(b, SLASH), IsAbsolute(a))
  {
    SplitConcat(a, SLASH, b);
    PushAllAppend([], Split(a, SLASH), Split(b, SLASH), IsAbsolute(a));
  }

  /** The directory may be normalized first, unless it is the empty text: then the result turns relative. */
  lemma DirectoryMayBeNormalizedFirst(a: Text, b: Text)
    ensures Normalized(Under(a, b)) == Normalized(Under(Normalized(a), b)) <==> a != []
  {
    NormalizedIsCanonical(a);
    NormalizedIsCanonical(Under(a, b));
    NormalizedIsCanonical(Under(Normalized(a), b));
    assert Normalized(a) != [];
    SegmentsUnder(Normalized(a), b);
    if a == [] {
      SplitFree<Byte>([], SLASH);
      assert Under(a, b)[0] == SLASH && !IsAbsolute(Normalized(a));
    } else {
      SegmentsUnder(a, b);
    }
  }

  // ----- what a path means -----

  function Up(dir: seq<Text>): seq<Text> {
    if dir == [] then [] else dir[..|dir| - 1]
  }

  /** One move in a tree of directories; above the root is the root. */
  function Move(dir: seq<Text>, seg: Text): seq<Text> {
    if seg == [] || seg == CURRENT then dir else if seg == PARENT then Up(dir) else dir + [seg]
  }

  function Walk(dir: seq<Text>, segs: seq<Text>): seq<Text>
    decreases |segs|
  {
    if segs == [] then dir else Walk(Move(dir, segs[0]), segs[1..])
  }

  /** The place a path leads to, seen from a directory. */
  function Meaning(p: Text, dir: seq<Text>): seq<Text> {
    Walk(if IsAbsolute(p) then [] else dir, Split(p, SLASH))
  }

  lemma {:induction false} WalkSnoc(dir: seq<Text>, segs: seq<Text>, seg: Text)
    ensures Walk(dir, segs + [seg]) == Move(Walk(dir, segs), seg)
    decreases |segs|
  {
    if segs == [] {
      assert segs + [seg] == [seg] && [seg][1..] == [];
    } else {
      assert (segs + [seg])[1..] == segs[1..] + [seg];
      WalkSnoc(Move(dir, segs[0]), segs[1..], seg);
    }
  }

  lemma PushKeepsMeaning(dir: seq<Text>, out: seq<Text>, seg: Text, absolute: bool)
    requires Canonical(out, absolute) && (absolute ==> dir == [])
    ensures Walk(dir, Push(out, seg, absolute)) == Move(Walk(dir, out), seg)
  {
    WalkSnoc(dir, out, seg);
    if out != [] {
      var front := out[..|out| - 1];
      assert front + [Last(out)] == out;
      WalkSnoc(dir, front, Last(out));
    }
  }

  lemma {:induction false} PushAllKeepsMeaning(dir: seq<Text>, out: seq<Text>, segs: seq<Text>, absolute: bool)
    requires Canonical(out, absolute) && AllFree(segs, SLASH) && (absolute ==> dir == [])
    ensures Walk(dir, PushAll(out, segs, absolute)) == Walk(Walk(dir, out), segs)
    decreases |segs|
  {
    if segs != [] {
      PushKeepsMeaning(dir, out, segs[0], absolute);
      PushKeepsCanonical(out, segs[0], absolute);
      PushAllKeepsMeaning(dir, Push(out, segs[0], absolute), segs[1..], absolute);
    }
  }

  /** From every directory a normalized path leads where the path does. */
  lemma NormalizingKeepsMeaning(p: Text, dir: seq<Text>)
    ensures Meaning(Normalized(p), dir) == Meaning(p, dir) == Walk(if IsAbsolute(p) then [] else dir, Segments(p))
  {
    var from := if IsAbsolute(p) then [] else dir;
    NormalizedIsCanonical(p);
    PushAllKeepsMeaning(from, [], Split(p, SLASH), IsAbsolute(p));
    PushAllKeepsMeaning(from, [], Split(Normalized(p), SLASH), IsAbsolute(p));
  }

  /** How many `..` lead a canonical path. */
  function Ups(segs: seq<Text>): (k: nat)
    ensures k <= |segs|
    ensures forall i :: 0 <= i < k ==> segs[i] == PARENT
    ensures k < |segs| ==> segs[k] != PARENT
  {
    if segs == [] || segs[0] != PARENT then 0
    else
      assert forall i :: 1 <= i < |segs| ==> segs[i] == segs[1..][i - 1];
      1 + Ups(segs[1..])
  }

  /** Canonical paths without names go up, and so far. */
  lemma {:induction false} WalkUp(dir: seq<Text>, segs: seq<Text>)
    requires Ups(segs) == |segs| <= |dir|
    ensures Walk(dir, segs) == dir[..|dir| - |segs|]
    decreases |segs|
  {
    if segs != [] {
      WalkUp(Up(dir), segs[1..]);
      assert Up(dir)[..|dir| - |segs|] == dir[..|dir| - |segs|];
    }
  }

  predicate AreNames(names: seq<Text>) {
    forall i :: 0 <= i < |names| ==> names[i] != [] && names[i] != CURRENT && names[i] != PARENT
  }

  /** Names go down. */
  lemma {:induction false} WalkDown(dir: seq<Text>, names: seq<Text>)
    requires AreNames(names)
    ensures Walk(dir, names) == dir + names
    decreases |names|
  {
    if names != [] {
      WalkDown(dir + [names[0]], names[1..]);
      assert (dir + [names[0]]) + names[1..] == dir + names;
    }
  }

  lemma {:induction false} WalkAppend(dir: seq<Text>, a: seq<Text>, b: seq<Text>)
    ensures Walk(dir, a + b) == Walk(Walk(dir, a), b)
    decreases |a|
  {
    if a == [] {
      assert a + b == b;
    } else {
      assert (a + b)[1..] == a[1..] + b;
      WalkAppend(Move(dir, a[0]), a[1..], b);
    }
  }

  /** Beyond the leading run there is no `..` left. */
  lemma {:induction false} NamesAfterUps(segs: seq<Text>, absolute: bool, i: nat)
    requires Canonical(segs, absolute) && Ups(segs) <= i < |segs|
    ensures segs[i] != [] && segs[i] != CURRENT && segs[i] != PARENT
    decreases i
  {
    if i > Ups(segs) {
      NamesAfterUps(segs, absolute, i - 1);
    }
  }

  /** A canonical path goes so many levels up, and then down by name. */
  lemma CanonicalWalk(dir: seq<Text>, segs: seq<Text>, absolute: bool)
    requires Canonical(segs, absolute) && Ups(segs) <= |dir|
    ensures Walk(dir, segs) == dir[..|dir| - Ups(segs)] + segs[Ups(segs)..]
  {
    var k := Ups(segs);
    UpsThenNames(segs, absolute);
    WalkAppend(dir, segs[..k], segs[k..]);
    WalkUp(dir, segs[..k]);
    WalkDown(dir[..|dir| - k], segs[k..]);
  }

  lemma UpsThenNames(segs: seq<Text>, absolute: bool)
    requires Canonical(segs, absolute)
    ensures segs == segs[..Ups(segs)] + segs[Ups(segs)..]
    ensures Ups(segs[..Ups(segs)]) == Ups(segs)
    ensures AreNames(segs[Ups(segs)..])
  {
    var k := Ups(segs);
    var names := segs[k..];
    forall i | 0 <= i < |names|
      ensures names[i] != [] && names[i] != CURRENT && names[i] != PARENT
    {
      NamesAfterUps(segs, absolute, k + i);
    }
  }

  lemma NoUpsInAbsolute(segs: seq<Text>, absolute: bool)
    requires Canonical(segs, absolute)
    ensures absolute ==> Ups(segs) == 0
  {
    if Ups(segs) > 0 {
      assert segs[0] in segs;
    }
  }

  lemma UpsAndNamesAreAll(a: seq<Text>, b: seq<Text>)
    requires Ups(a) == Ups(b) && a[Ups(a)..] == b[Ups(b)..]
    ensures a == b
  {
    var m := Ups(a);
    assert a[..m] == b[..m];
    assert a == a[..m] + a[m..] && b == b[..m] + b[m..];
  }

  /** Two different canonical paths part ways from some directory. */
  lemma CanonicalPathsDiffer(a: seq<Text>, b: seq<Text>, absolute: bool) returns (dir: seq<Text>)
    requires Canonical(a, absolute) && Canonical(b, absolute) && a != b && Ups(a) <= Ups(b)
    ensures Walk(dir, a) != Walk(dir, b)
    ensures absolute ==> dir == []
  {
    var m, n := Ups(a), Ups(b);
    NoUpsInAbsolute(b, absolute);
    var other: Text := if n < |b| then b[n] + [97] else [97];
    dir := seq(n, _ => other);
    CanonicalWalk(dir, a, absolute);
    CanonicalWalk(dir, b, absolute);
    var toA, toB := dir[..n - m] + a[m..], b[n..];
    assert dir[..0] + b[n..] == toB;
    if m < n {
      assert toA[0] == other;
    } else {
      assert toA == a[m..];
      if toA == toB {
        UpsAndNamesAreAll(a, b);
      }
    }
  }

  /**
   Normal forms are complete: two paths have the same one exactly when they
   are of the same sort and lead to the same place from every directory.
   */
  lemma SameNormalFormIffSameMeaning(p: Text, q: Text)
    ensures Normalized(p) == Normalized(q) <==>
      IsAbsolute(p) == IsAbsolute(q) && forall dir :: Meaning(p, dir) == Meaning(q, dir)
  {
    NormalizedIsCanonical(p);
    NormalizedIsCanonical(q);
    forall dir
      ensures Meaning(p, dir) == Meaning(Normalized(p), dir)
      ensures Meaning(q, dir) == Meaning(Normalized(q), dir)
    {
      NormalizingKeepsMeaning(p, dir);
      NormalizingKeepsMeaning(q, dir);
    }
    if IsAbsolute(p) == IsAbsolute(q) && Segments(p) != Segments(q) {
      var dir;
      if Ups(Segments(p)) <= Ups(Segments(q)) {
        dir := CanonicalPathsDiffer(Segments(p), Segments(q), IsAbsolute(p));
      } else {
        dir := CanonicalPathsDiffer(Segments(q), Segments(p), IsAbsolute(p));
      }
      NormalizingKeepsMeaning(p, dir);
      NormalizingKeepsMeaning(q, dir);
      assert Meaning(p, dir) != Meaning(q, dir);
    }
  }

  // ----- percent decoding -----

  const PERCENT: Byte := 37
  const PLUS: Byte := 43

  function HexDigit(b: Byte): Option<nat> {
    if 48 <= b <= 57 then Some(b - 48)
    else if 65 <= b <= 70 then Some(b - 55)
    else if 97 <= b <= 102 then Some(b - 87)
    else None
  }

  /** Two hexadecimal digits. */
  function TwoDigits(a: Byte, b: Byte): Option<Byte> {
    if HexDigit(a).Some? && HexDigit(b).Some? then Some(16 * HexDigit(a).value + HexDigit(b).value) else None
  }

  /** What `u8::from_str_radix` takes: also a plus and one digit. */
  function SignedDigits(a: Byte, b: Byte): Option<Byte> {
    if a == PLUS && HexDigit(b).Some? then Some(HexDigit(b).value) else TwoDigits(a, b)
  }

  /** Every escape replaced, each read by `digits`; nothing when one cannot be read. */
  function Unescaped(v: Text, digits: (Byte, Byte) -> Option<Byte>): Option<Text>
    decreases |v|
  {
    if v == [] then Some([])
    else if v[0] != PERCENT then Prefixed(v[0], Unescaped(v[1..], digits))
    else if |v| < 3 || digits(v[1], v[2]).None? then None
    else Prefixed(digits(v[1], v[2]).value, Unescaped(v[3..], digits))
  }

  function Prefixed(b: Byte, rest: Option<Text>): Option<Text> {
    match rest case None => None case Some(t) => Some([b] + t)
  }

  /** The unescaped text, or the text itself when that is not possible or no UTF-8. */
  function Decoded(v: Text, utf8: Text -> bool, digits: (Byte, Byte) -> Option<Byte>): Text {
    match Unescaped(v, digits) case None => v case Some(t) => if utf8(t) then t else v
  }

  method DecodePath(value: Text, utf8: Text -> bool) returns (r: Text)
    ensures r == Decoded(value, utf8, SignedDigits)
  {
    var out: Text := [];
    var i := 0;
    assert value[0..] == value;
    PrefixedNothing(Unescaped(value, SignedDigits));
    while i < |value|
      invariant 0 <= i <= |value|
      invariant Unescaped(value, SignedDigits) == PrefixedAll(out, Unescaped(value[i..], SignedDigits))
    {
      var rest := value[i..];
      if value[i] == PERCENT {
        if i + 2 >= |value| {
          return value;
        }
        var b := SignedDigits(value[i + 1], value[i + 2]);
        if b.None? {
          return value;
        }
        assert rest[3..] == value[i + 3..];
        PrefixedOneMore(out, b.value, Unescaped(value[i + 3..], SignedDigits));
        out := out + [b.value];
        i := i + 3;
      } else {
        assert rest[1..] == value[i + 1..];
        PrefixedOneMore(out, value[i], Unescaped(value[i + 1..], SignedDigits));
        out := out + [value[i]];
        i := i + 1;
      }
    }
    assert out + [] == out;
    return if utf8(out) then out else value;
  }

  ghost function PrefixedAll(a: Text, rest: Option<Text>): Option<Text> {
    match rest case None => None case Some(t) => Some(a + t)
  }

  lemma PrefixedNothing(rest: Option<Text>)
    ensures PrefixedAll([], rest) == rest
  {
    if rest.Some? {
      assert [] + rest.value == rest.value;
    }
  }

  lemma PrefixedOneMore(a: Text, b: Byte, rest: Option<Text>)
    ensures PrefixedAll(a, Prefixed(b, rest)) == PrefixedAll(a + [b], rest)
  {
    if rest.Some? {
      assert a + ([b] + rest.value) == (a + [b]) + rest.value;
    }
  }

  /** Every percent sign starts an escape of two hexadecimal digits, or of a plus and one. */
  predicate OnlyReadableEscapes(v: Text)
    decreases |v|
  {
    v == [] ||
    if v[0] != PERCENT then OnlyReadableEscapes(v[1..])
    else
      && |v| >= 3 && (v[1] == PLUS || HexDigit(v[1]).Some?) && HexDigit(v[2]).Some?
      && OnlyReadableEscapes(v[3..])
  }

  /** One of them has a plus. */
  predicate HasPlusEscape(v: Text)
    requires OnlyReadableEscapes(v)
    decreases |v|
  {
    v != [] && if v[0] != PERCENT then HasPlusEscape(v[1..]) else v[1] == PLUS || HasPlusEscape(v[3..])
  }

  /** The bytes such a text stands for. */
  function BytesOf(v: Text): Text
    requires OnlyReadableEscapes(v)
    decreases |v|
  {
    if v == [] then []
    else if v[0] != PERCENT then [v[0]] + BytesOf(v[1..])
    else [(if v[1] == PLUS then 0 else 16 * HexDigit(v[1]).value) + HexDigit(v[2]).value] + BytesOf(v[3..])
  }

  lemma {:induction false} UnescapedIff(v: Text)
    ensures Unescaped(v, SignedDigits) == if OnlyReadableEscapes(v) then Some(BytesOf(v)) else None
    ensures Unescaped(v, TwoDigits) ==
      if OnlyReadableEscapes(v) && !HasPlusEscape(v) then Some(BytesOf(v)) else None
    ensures OnlyReadableEscapes(v) ==> |BytesOf(v)| <= |v| && (HasPlusEscape(v) ==> |BytesOf(v)| < |v|)
    decreases |v|
  {
    if v != [] {
      if v[0] != PERCENT {
        UnescapedIff(v[1..]);
      } else if |v| >= 3 {
        UnescapedIff(v[3..]);
      }
    }
  }

  /**
   Decoding is that of decodeURIComponent, falling back to the text where it
   would throw, except exactly when all escapes can be read, one of them only
   as a plus and a digit, and the bytes they stand for are UTF-8.
   */
  lemma DecodesAsUriComponentIff(v: Text, utf8: Text -> bool)
    ensures Decoded(v, utf8, SignedDigits) == Decoded(v, utf8, TwoDigits) <==>
      !(OnlyReadableEscapes(v) && HasPlusEscape(v) && utf8(BytesOf(v)))
  {
    UnescapedIff(v);
  }

  /** For one, `%+5` is decoded to the byte 5. */
  lemma PlusEscapeIsDecoded(utf8: Text -> bool)
    requires utf8([5])
    ensures var v: Text := [PERCENT, PLUS, 53];
      Decoded(v, utf8, SignedDigits) == [5] && Decoded(v, utf8, TwoDigits) == v
  {
    var v: Text := [PERCENT, PLUS, 53];
    assert v[3..] == [];
    assert BytesOf(v) == [5];
    UnescapedIff(v);
  }

  lemma {:induction false} NothingToDecode(v: Text, utf8: Text -> bool)
    requires PERCENT !in v
    ensures Unescaped(v, SignedDigits) == Some(v) == Unescaped(v, TwoDigits)
    ensures Decoded(v, utf8, SignedDigits) == v == Decoded(v, utf8, TwoDigits)
  {
    if v != [] {
      NothingToDecode(v[1..], utf8);
      assert [v[0]] + v[1..] == v;
    }
  }

  // ----- which references are taken -----

  /** Trimming, the scheme pattern, and the UTF-8 check. */
  datatype Env = Env(trim: Text -> Text, hasScheme: Text -> bool, utf8: Text -> bool)

  const BACKSLASH: Byte := 92
  const HASH: Byte := 35
  const QUESTION: Byte := 63

  function Slashed(t: Text): Text {
    seq(|t|, i requires 0 <= i < |t| => if t[i] == BACKSLASH then SLASH else t[i])
  }

  function Before(t: Text, b: Byte): (r: Text)
    ensures r <= t && Free(r, b) && (r != t ==> t[|r|] == b)
  {
    if t == [] || t[0] == b then [] else [t[0]] + Before(t[1..], b)
  }

  function LowerByte(b: Byte): Byte {
    if 65 <= b <= 90 then b + 32 else b
  }

  function Lower(t: Text): Text {
    seq(|t|, i requires 0 <= i < |t| => LowerByte(t[i]))
  }

  predicate EndsIn(t: Text, suffix: Text) {
    |suffix| <= |t| && Lower(t[|t| - |suffix|..]) == suffix
  }

  predicate EndsWithMd(t: Text) {
    EndsIn(t, Ascii(".md")) || EndsIn(t, Ascii(".mdx")) || EndsIn(t, Ascii(".markdown"))
  }

  function Directory(file: Text): Text
    decreases |file|
  {
    if file == [] then CURRENT
    else if file[|file| - 1] != SLASH then Directory(file[..|file| - 1])
    else if |file| == 1 then file
    else file[..|file| - 1]
  }

  function WithoutSlashes(t: Text): Text {
    if t != [] && t[0] == SLASH then WithoutSlashes(t[1..]) else t
  }

  predicate StartsWith(t: Text, prefix: Text) {
    prefix <= t
  }

  /** What a path in a file points to, before it is normalized. */
  function Target(clean: Text, file: Text): Text {
    var base := Directory(Slashed(file));
    if IsAbsolute(clean) then WithoutSlashes(clean[1..])
    else if !StartsWith(clean, CURRENT + [SLASH]) && !StartsWith(clean, PARENT + [SLASH]) then clean
    else if base == CURRENT then clean
    else Under(base, clean)
  }

  function CleanPath(env: Env, trimmed: Text): Text {
    Decoded(Before(Before(trimmed, HASH), QUESTION), env.utf8, SignedDigits)
  }

  /**
   The candidate pattern lets no percent sign into a path, before a query or an
   anchor; so the references that callers pass are taken as they stand.
   */
  lemma CandidatesAreNotDecoded(env: Env, trimmed: Text)
    requires PERCENT !in Before(Before(trimmed, HASH), QUESTION)
    ensures CleanPath(env, trimmed) == Before(Before(trimmed, HASH), QUESTION)
  {
    NothingToDecode(Before(Before(trimmed, HASH), QUESTION), env.utf8);
  }

  /** Names a place above where it starts, or the start itself. */
  predicate LeadsOut(p: Text) {
    p == [] || p == CURRENT || p == PARENT || StartsWith(p, PARENT + [SLASH])
  }

  function Normalize(env: Env, reference: Text, file: Text): Option<Text> {
    var trimmed := Slashed(env.trim(reference));
    if trimmed == [] || env.hasScheme(trimmed) then None
    else
      var clean := CleanPath(env, trimmed);
      if !EndsWithMd(clean) then None
      else
        var p := Normalized(Target(clean, file));
        if LeadsOut(p) then None else Some(p + trimmed[|Before(trimmed, HASH)|..])
  }

  // ----- where a reference starts from -----

  /** The segments of a file's path but the last: its directory. */
  function DirectorySegments(file: Text): seq<Text> {
    var segs := Split(file, SLASH);
    segs[..|segs| - 1]
  }

  lemma {:induction false} DirectoryMeans(file: Text)
    ensures Walk([], Split(Directory(file), SLASH)) == Walk([], DirectorySegments(file))
    decreases |file|
  {
    SplitFree(CURRENT, SLASH);
    SplitFree<Byte>([], SLASH);
    if file != [] {
      var front, last := file[..|file| - 1], file[|file| - 1];
      assert file == front + [last];
      if last != SLASH {
        SplitSnoc(front, last, SLASH);
        DirectoryMeans(front);
      } else {
        assert file == front + [SLASH] + [];
        SplitConcat(front, SLASH, []);
        assert DirectorySegments(file) == Split(front, SLASH);
        if front == [] {
          RootMeans();
        }
      }
    } else {
      assert Walk([], [CURRENT]) == Walk(Move([], CURRENT), [CURRENT][1..]) == [];
    }
  }

  lemma RootMeans()
    ensures Split([SLASH], SLASH) == [[], []] && Walk([], [[], []]) == [] == Walk([], [[]])
  {
    var nothing: Text := [];
    SplitFree<Byte>([], SLASH);
    SplitConcat<Byte>([], SLASH, []);
    assert [] + [SLASH] + [] == [SLASH];
    assert [nothing, nothing][1..] == [nothing] && [nothing][1..] == [];
    assert Walk([], [nothing]) == Walk(Move([], nothing), []) == [];
  }

  lemma {:induction false} LeadingSlashesMeanNothing(t: Text)
    ensures Walk([], Split(WithoutSlashes(t), SLASH)) == Walk([], Split(t, SLASH))
  {
    if t != [] && t[0] == SLASH {
      LeadingSlashesMeanNothing(t[1..]);
      assert Split(t, SLASH) == [[]] + Split(t[1..], SLASH);
      assert ([[]] + Split(t[1..], SLASH))[1..] == Split(t[1..], SLASH);
    }
  }

  predicate IsDotted(clean: Text) {
    (|clean| >= 2 && clean[..2] == [46, SLASH]) || (|clean| >= 3 && clean[..3] == [46, 46, SLASH])
  }

  /**
   Seen from the root of the repository, a reference that starts with `./` or
   `../` leads where its segments lead from the directory of the file, and any
   other where they lead from the root.
   */
  lemma TargetMeans(clean: Text, file: Text)
    ensures Meaning(Target(clean, file), []) ==
      Walk(if IsDotted(clean) then Walk([], DirectorySegments(Slashed(file))) else [], Split(clean, SLASH))
  {
    TargetIs(clean, file);
    if IsAbsolute(clean) {
      LeadingSlashesMeanNothing(clean);
    } else if IsDotted(clean) {
      DottedTargetMeans(clean, Slashed(file));
    }
  }

  lemma TargetIs(clean: Text, file: Text)
    ensures IsAbsolute(clean) ==> !IsDotted(clean) && Target(clean, file) == WithoutSlashes(clean)
    ensures !IsAbsolute(clean) ==>
      var base := Directory(Slashed(file));
      Target(clean, file) == if IsDotted(clean) && base != CURRENT then Under(base, clean) else clean
  {
    assert CURRENT + [SLASH] == [46, SLASH] && PARENT + [SLASH] == [46, 46, SLASH];
  }

  lemma DottedTargetMeans(clean: Text, file: Text)
    requires IsDotted(clean)
    ensures var base := Directory(file);
      Meaning(if base == CURRENT then clean else Under(base, clean), []) ==
        Walk(Walk([], DirectorySegments(file)), Split(clean, SLASH))
  {
    var base := Directory(file);
    DirectoryMeans(file);
    SplitFree(CURRENT, SLASH);
    if base == CURRENT {
      assert Walk([], [CURRENT]) == Walk(Move([], CURRENT), [CURRENT][1..]) == [];
    } else {
      SplitConcat(base, SLASH, clean);
      WalkAppend([], Split(base, SLASH), Split(clean, SLASH));
    }
  }

  lemma EndsInTail(t: Text, suffix: Text)
    requires EndsIn(t, suffix) && |t| > |suffix|
    ensures EndsIn(t[1..], suffix)
  {
    assert t[1..][|t| - 1 - |suffix|..] == t[|t| - |suffix|..];
  }

  lemma EndsInHead(t: Text, suffix: Text)
    requires EndsIn(t, suffix) && |t| == |suffix| > 0
    ensures LowerByte(t[0]) == suffix[0]
  {
    assert t[0..] == t;
    assert Lower(t)[0] == suffix[0];
  }

  lemma EndsInMore(front: Text, t: Text, suffix: Text)
    requires EndsIn(t, suffix)
    ensures EndsIn(front + t, suffix)
  {
    assert (front + t)[|front + t| - |suffix|..] == t[|t| - |suffix|..];
  }

  /** The last segment ends as the path does. */
  lemma {:induction false} LastSegmentEnds(t: Text, suffix: Text)
    requires EndsIn(t, suffix) && suffix != [] && Free(suffix, SLASH)
    ensures EndsIn(Last(Split(t, SLASH)), suffix)
    decreases |t|
  {
    if |t| == |suffix| {
      forall i | 0 <= i < |t|
        ensures t[i] != SLASH
      {
        assert t[0..] == t;
        assert Lower(t)[i] == suffix[i] && suffix[i] in suffix;
      }
      SplitFree(t, SLASH);
    } else {
      EndsInTail(t, suffix);
      LastSegmentEnds(t[1..], suffix);
      var rest := Split(t[1..], SLASH);
      if t[0] != SLASH && |rest| == 1 {
        EndsInMore([t[0]], rest[0], suffix);
      }
    }
  }

  lemma {:induction false} WithoutSlashesEnds(t: Text, suffix: Text)
    requires EndsIn(t, suffix) && suffix != [] && Free(suffix, SLASH)
    ensures EndsIn(WithoutSlashes(t), suffix)
    decreases |t|
  {
    if t[0] == SLASH {
      if |t| == |suffix| {
        EndsInHead(t, suffix);
        assert false;
      } else {
        EndsInTail(t, suffix);
        WithoutSlashesEnds(t[1..], suffix);
      }
    }
  }

  lemma TargetEnds(clean: Text, file: Text, suffix: Text)
    requires EndsIn(clean, suffix) && suffix != [] && Free(suffix, SLASH)
    ensures EndsIn(Target(clean, file), suffix)
  {
    if IsAbsolute(clean) {
      WithoutSlashesEnds(clean, suffix);
    } else {
      EndsInMore(Directory(Slashed(file)) + [SLASH], clean, suffix);
    }
  }

  lemma {:induction false} JoinEnds(segs: seq<Text>, suffix: Text)
    requires segs != [] && EndsIn(Last(segs), suffix)
    ensures EndsIn(Join(segs, SLASH), suffix)
  {
    if |segs| > 1 {
      JoinEnds(segs[1..], suffix);
      EndsInMore(segs[0] + [SLASH], Join(segs[1..], SLASH), suffix);
    }
  }

  /** A path that ends in a name has that name as its last segment. */
  lemma LastNameStays(p: Text, suffix: Text)
    requires EndsIn(p, suffix) && |suffix| >= 3 && Free(suffix, SLASH)
    ensures Segments(p) != [] && Last(Segments(p)) == Last(Split(p, SLASH)) && EndsIn(Last(Segments(p)), suffix)
  {
    var segs := Split(p, SLASH);
    LastSegmentEnds(p, suffix);
    var front := segs[..|segs| - 1];
    assert segs == front + [Last(segs)];
    PushAllAppend([], front, [Last(segs)], IsAbsolute(p));
    assert [Last(segs)][1..] == [];
  }

  /** A canonical path that ends in a name leads out exactly when it starts with `..`. */
  lemma LeadsOutIff(segs: seq<Text>, absolute: bool)
    requires Canonical(segs, absolute) && segs != []
    ensures LeadsOut(Rendered(segs, absolute)) <==> segs[0] == PARENT
  {
    var p := Join(segs, SLASH);
    JoinedStart(segs, absolute);
    SplitJoin(segs, SLASH);
    if absolute {
      NoUpsInAbsolute(segs, absolute);
      assert Rendered(segs, absolute)[0] == SLASH;
    } else {
      SplitFree(CURRENT, SLASH);
      SplitFree(PARENT, SLASH);
      if StartsWith(p, PARENT + [SLASH]) {
        assert p == PARENT + [SLASH] + p[3..];
        SplitConcat(PARENT, SLASH, p[3..]);
      }
      if segs[0] == PARENT && |segs| > 1 {
        assert p == PARENT + [SLASH] + Join(segs[1..], SLASH);
      }
    }
  }

  /**
   A reference is taken exactly when it is a scheme-less reference to a
   markdown file whose target does not climb above its start; what is taken is
   then canonical, has no `..` segment, and still ends as a markdown file does.
   */
  lemma TakenIffInside(env: Env, reference: Text, file: Text)
    ensures
      var trimmed := Slashed(env.trim(reference));
      var clean := CleanPath(env, trimmed);
      var target := Target(clean, file);
      && (Normalize(env, reference, file).Some? <==>
            trimmed != [] && !env.hasScheme(trimmed) && EndsWithMd(clean) && Ups(Segments(target)) == 0)
      && (Normalize(env, reference, file).Some? ==>
            && Normalize(env, reference, file).value == Normalized(target) + trimmed[|Before(trimmed, HASH)|..]
            && PARENT !in Segments(Normalized(target))
            && EndsWithMd(Normalized(target)))
  {
    var clean := CleanPath(env, Slashed(env.trim(reference)));
    if EndsWithMd(clean) {
      MdTarget(clean, file);
    }
  }

  lemma MdTarget(clean: Text, file: Text)
    requires EndsWithMd(clean)
    ensures var target := Target(clean, file);
      && (LeadsOut(Normalized(target)) <==> Ups(Segments(target)) > 0)
      && (Ups(Segments(target)) == 0 ==> PARENT !in Segments(Normalized(target)))
      && EndsWithMd(Normalized(target))
  {
    var md, mdx, markdown := Ascii(".md"), Ascii(".mdx"), Ascii(".markdown");
    SuffixesAreFree();
    if EndsIn(clean, md) {
      DocumentTarget(clean, file, md);
    } else if EndsIn(clean, mdx) {
      DocumentTarget(clean, file, mdx);
    } else {
      DocumentTarget(clean, file, markdown);
    }
  }

  lemma SuffixesAreFree()
    ensures Free(Ascii(".md"), SLASH) && Free(Ascii(".mdx"), SLASH) && Free(Ascii(".markdown"), SLASH)
  {
    assert forall i :: 0 <= i < |".md"| ==> ".md"[i] != '/';
    assert forall i :: 0 <= i < |".mdx"| ==> ".mdx"[i] != '/';
    assert forall i :: 0 <= i < |".markdown"| ==> ".markdown"[i] != '/';
  }

  lemma DocumentTarget(clean: Text, file: Text, suffix: Text)
    requires EndsIn(clean, suffix) && |suffix| >= 3 && Free(suffix, SLASH)
    ensures var target := Target(clean, file);
      && (LeadsOut(Normalized(target)) <==> Ups(Segments(target)) > 0)
      && (Ups(Segments(target)) == 0 ==> PARENT !in Segments(Normalized(target)))
      && EndsIn(Normalized(target), suffix)
  {
    var target := Target(clean, file);
    var segs := Segments(target);
    TargetEnds(clean, file, suffix);
    LastNameStays(target, suffix);
    NormalizedIsCanonical(target);
    LeadsOutIff(segs, IsAbsolute(target));
    JoinEnds(segs, suffix);
    EndsInMore(if IsAbsolute(target) then [SLASH] else [], Join(segs, SLASH), suffix);
    assert [] + Join(segs, SLASH) == Join(segs, SLASH);
    if Ups(segs) == 0 && PARENT in segs {
      var i :| 0 <= i < |segs| && segs[i] == PARENT;
      NamesAfterUps(segs, IsAbsolute(target), i);
    }
  }
}
