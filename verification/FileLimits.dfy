/**
 Reading a source file that may change while it is read, and what is hashed
 for it, src/file-limits.ts.
 */
module FileLimits {
  import opened Bytes
  import opened Ids
  import opened Options

  const MAX_SOURCE_FILE_SIZE_BYTES: nat := 1024 * 1024
  const READ_CHUNK_BYTES: nat := 64 * 1024

  /** What a path or a descriptor leads to at one moment. */
  datatype File = File(regular: bool, content: seq<Byte>)

  /** The file at each system call in turn, and how much more than one byte a read is granted then. */
  datatype World = World(at: nat -> File, grant: nat -> nat)

  datatype BoundedSource = NotRegular | Source(size: nat, bytes: Option<seq<Byte>>)

  function Min(a: nat, b: nat): nat {
    if a <= b then a else b
  }

  function Max(a: nat, b: nat): nat {
    if a >= b then a else b
  }

  /** A read may be short, but is empty only at or after the end of the file, or when nothing is wanted. */
  function Read(w: World, t: nat, want: nat, offset: nat): (r: seq<Byte>)
    ensures |r| <= want && (r == [] <==> want == 0 || |w.at(t).content| <= offset)
  {
    var c := w.at(t).content;
    if |c| <= offset then []
    else
      var n := Min(Min(want, |c| - offset), 1 + w.grant(t));
      c[offset..offset + n]
  }

  /** Byte `i` stood at its place in the file at some call before `until`. */
  predicate WasThere(w: World, bytes: seq<Byte>, i: nat, until: nat)
    requires i < |bytes|
  {
    exists t :: 0 <= t < until && i < |w.at(t).content| && w.at(t).content[i] == bytes[i]
  }

  ghost predicate AllWereThere(w: World, bytes: seq<Byte>, until: nat) {
    forall i: nat | i < |bytes| :: WasThere(w, bytes, i, until)
  }

  /** The file is the same at every call. */
  ghost predicate Unchanged(w: World, f: File) {
    forall t: nat :: w.at(t) == f
  }

  /**
   Whatever happens to the file between two calls: what is held of it never
   exceeds the limit by more than a byte, what is returned is within the limit
   and was in the file, and what is called oversize is reported as such.
   */
  method ReadBoundedSource(w: World) returns (r: BoundedSource, held: nat)
    ensures held <= MAX_SOURCE_FILE_SIZE_BYTES + 1
    ensures r.Source? && r.bytes.Some? ==>
      && |r.bytes.value| <= MAX_SOURCE_FILE_SIZE_BYTES && r.size <= MAX_SOURCE_FILE_SIZE_BYTES
      && exists until: nat :: AllWereThere(w, r.bytes.value, until)
    ensures r.Source? && r.bytes.None? ==> r.size > MAX_SOURCE_FILE_SIZE_BYTES
    ensures forall f :: Unchanged(w, f) ==> r == BoundedSourceOf(f)
  {
    held := 0;
    var initial := w.at(0);
    if !initial.regular {
      return NotRegular, held;
    }
    if |initial.content| > MAX_SOURCE_FILE_SIZE_BYTES {
      return Source(|initial.content|, None), held;
    }
    var stats := w.at(1);
    if !stats.regular {
      return NotRegular, held;
    }
    if |stats.content| > MAX_SOURCE_FILE_SIZE_BYTES {
      return Source(|stats.content|, None), held;
    }
    var t, bytes;
    t, bytes, held := ReadChunks(w, 2);
    stats := w.at(t);
    if |bytes| > MAX_SOURCE_FILE_SIZE_BYTES || |stats.content| > MAX_SOURCE_FILE_SIZE_BYTES {
      return Source(Max(|bytes|, |stats.content|), None), held;
    }
    assert initial.content[..|initial.content|] == initial.content;
    return Source(|stats.content|, Some(bytes)), held;
  }

  /** For a file that does not change: all of it within the limit, nothing of it above. */
  function BoundedSourceOf(f: File): BoundedSource {
    if !f.regular then NotRegular
    else Source(|f.content|, if |f.content| <= MAX_SOURCE_FILE_SIZE_BYTES then Some(f.content) else None)
  }

  /** The loop of positioned reads; `held` is the most content and read space there was at once. */
  method ReadChunks(w: World, start: nat) returns (t: nat, bytes: seq<Byte>, held: nat)
    ensures |bytes| <= held <= MAX_SOURCE_FILE_SIZE_BYTES + 1
    ensures AllWereThere(w, bytes, t)
    ensures forall f :: Unchanged(w, f) ==> bytes == f.content[..Min(|f.content|, MAX_SOURCE_FILE_SIZE_BYTES + 1)]
  {
    t, bytes, held := start, [], 0;
    while |bytes| <= MAX_SOURCE_FILE_SIZE_BYTES
      invariant |bytes| <= held <= MAX_SOURCE_FILE_SIZE_BYTES + 1
      invariant AllWereThere(w, bytes, t)
      invariant forall f :: Unchanged(w, f) ==> bytes <= f.content
      decreases MAX_SOURCE_FILE_SIZE_BYTES + 1 - |bytes|
    {
      var want := Min(READ_CHUNK_BYTES, MAX_SOURCE_FILE_SIZE_BYTES + 1 - |bytes|);
      held := Max(held, |bytes| + want);
      var chunk := Read(w, t, want, |bytes|);
      ReadWasThere(w, t, want, bytes, chunk);
      t := t + 1;
      if chunk == [] {
        assert bytes + chunk == bytes;
        break;
      }
      bytes := bytes + chunk;
    }
  }

  /** What is read joins on to what was there, and in an unchanged file to its prefix. */
  lemma ReadWasThere(w: World, t: nat, want: nat, bytes: seq<Byte>, chunk: seq<Byte>)
    requires chunk == Read(w, t, want, |bytes|)
    requires AllWereThere(w, bytes, t)
    ensures AllWereThere(w, bytes + chunk, t + 1)
    ensures forall f :: Unchanged(w, f) && bytes <= f.content ==> bytes + chunk <= f.content
  {
    var c := w.at(t).content;
    var all, t' := bytes + chunk, t + 1;
    forall i: nat | i < |all|
      ensures WasThere(w, all, i, t')
    {
      if i < |bytes| {
        assert WasThere(w, bytes, i, t) && all[i] == bytes[i];
      } else {
        assert c[i] == all[i];
      }
    }
  }

  // ----- what is hashed -----

  function OversizeStamp(size: nat): Text {
    Ascii("codegraph:oversize:") + Decimal(size)
  }

  /** The text whose hash stands for a file: its content, or above the limit a stamp of its size. */
  function IndexedHashInput(content: Text): Text {
    if |content| > MAX_SOURCE_FILE_SIZE_BYTES then OversizeStamp(|content|) else content
  }

  lemma StampsTellSizesApart(m: nat, n: nat)
    ensures OversizeStamp(m) == OversizeStamp(n) <==> m == n
  {
    DecimalReadsBack(m);
    DecimalReadsBack(n);
    var p := Ascii("codegraph:oversize:");
    assert OversizeStamp(m)[|p|..] == Decimal(m) && OversizeStamp(n)[|p|..] == Decimal(n);
  }

  predicate IsOversize(content: Text) {
    |content| > MAX_SOURCE_FILE_SIZE_BYTES
  }

  /**
   A rewrite goes unnoticed exactly when the content is the same, when both are
   over the limit and of one size, or when one is over the limit and the other
   happens to be the text of its stamp.
   */
  lemma RewriteIsUnnoticedIff(a: Text, b: Text)
    ensures IndexedHashInput(a) == IndexedHashInput(b) <==>
      || a == b
      || (IsOversize(a) && IsOversize(b) && |a| == |b|)
      || (IsOversize(a) && !IsOversize(b) && b == OversizeStamp(|a|))
      || (!IsOversize(a) && IsOversize(b) && a == OversizeStamp(|b|))
  {
    StampsTellSizesApart(|a|, |b|);
  }

  /**
   So crossing the limit is not always a change: a file whose size has at most
   `digits` digits, 20 being enough for 64 bits, can be cut down to its own stamp.
   */
  lemma CrossingTheLimitMayGoUnnoticed(big: Text, digits: nat)
    requires IsOversize(big) && |big| < Pow10(digits) && digits + 19 <= MAX_SOURCE_FILE_SIZE_BYTES
    ensures var small := OversizeStamp(|big|);
      !IsOversize(small) && IndexedHashInput(big) == IndexedHashInput(small)
  {
    DecimalIsShort(|big|, digits);
  }

  lemma {:induction false} DecimalIsShort(n: nat, digits: nat)
    requires 0 < n < Pow10(digits)
    ensures |Decimal(n)| <= digits
    decreases digits
  {
    if n >= 10 {
      DecimalIsShort(n / 10, digits - 1);
    }
  }
}
