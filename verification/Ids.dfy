/** Node ids: codegraph-kernel/src/ids.rs. */
module Ids {
  import opened Bytes
  import opened Texts

  const COLON: Byte := 58
  const ZERO: Byte := 48

  /** The first 16 bytes of a SHA-256 digest; which function that is does not matter here. */
  type Digest16 = s: seq<Byte> | |s| == 16 witness [0, 0, 0, 0, 0, 0, 0, 0, 0, 0, 0, 0, 0, 0, 0, 0]
  type Hash = Text -> Digest16

  // ----- decimal numbers -----

  function Pow10(n: nat): (p: nat)
    ensures p > 0
  {
    if n == 0 then 1 else 10 * Pow10(n - 1)
  }

  function Decimal(n: nat): (s: Text)
    ensures s != []
  {
    (if n < 10 then [] else Decimal(n / 10)) + [ZERO + n % 10]
  }

  function Value(s: Text): int {
    if s == [] then 0 else 10 * Value(s[..|s| - 1]) + (s[|s| - 1] as int) - ZERO
  }

  lemma {:induction false} DecimalReadsBack(n: nat)
    ensures Value(Decimal(n)) == n
    ensures Free(Decimal(n), COLON)
  {
    if n >= 10 {
      DecimalReadsBack(n / 10);
      assert Decimal(n)[..|Decimal(n)| - 1] == Decimal(n / 10);
    }
  }

  /** The digit loop of `node_id`: ten bytes are room enough for every u32. */
  method WriteDecimal(line: U32) returns (digits: array<Byte>, i: nat)
    ensures digits.Length == 10 && i < 10
    ensures digits[i..] == Decimal(line)
  {
    digits := new Byte[10](_ => 0);
    i := digits.Length;
    var n: nat := line;
    assert Pow10(10) > line by {
      assert Pow10(4) == 10000;
      assert Pow10(8) == 10000 * Pow10(4);
    }
    while true
      invariant 0 < i <= digits.Length && n < Pow10(i)
      invariant Decimal(line) == Decimal(n) + digits[i..]
      decreases i
    {
      i := i - 1;
      digits[i] := ZERO + n % 10;
      assert digits[i..] == [ZERO + n % 10] + digits[i + 1..];
      n := n / 10;
      if n == 0 {
        break;
      }
    }
  }

  // ----- base ids -----

  function HexDigit(d: Byte): Byte
    requires d < 16
  {
    if d < 10 then ZERO + d else 97 + d - 10
  }

  function Hex(bytes: seq<Byte>): (s: Text)
    ensures |s| == 2 * |bytes| && Free(s, COLON)
  {
    if bytes == [] then [] else [HexDigit(bytes[0] / 16), HexDigit(bytes[0] % 16)] + Hex(bytes[1..])
  }

  /** What identifies a symbol before columns are looked at: `path:kind:name:line`. */
  function HashInput(filePath: Text, kind: Text, name: Text, line: nat): Text {
    filePath + [COLON] + kind + [COLON] + name + [COLON] + Decimal(line)
  }

  function NodeId(hash: Hash, filePath: Text, kind: Text, name: Text, line: nat): Text {
    kind + [COLON] + Hex(hash(HashInput(filePath, kind, name, line)))
  }

  function FileNodeId(filePath: Text): Text {
    Ascii("file:") + filePath
  }

  /** A base id has the form `kind:hex`, with no further colon. */
  predicate WellFormed(base: Text) {
    |Split(base, COLON)| == 2
  }

  lemma NodeIdsAreWellFormed(hash: Hash, filePath: Text, kind: Text, name: Text, line: nat)
    requires Free(kind, COLON)
    ensures WellFormed(NodeId(hash, filePath, kind, name, line))
  {
    NodeIdReadsBack(hash, filePath, kind, name, line);
  }

  /** Read back: a hexadecimal digit, in lower case. */
  function HexValue(b: Byte): int {
    if 48 <= b <= 57 then b - 48 else if 97 <= b <= 102 then b - 87 else -1
  }

  function FromHex(s: Text): seq<int> {
    if |s| < 2 then [] else [16 * HexValue(s[0]) + HexValue(s[1])] + FromHex(s[2..])
  }

  /** The digits are lower-case hexadecimal and read back to the bytes, high nibble first. */
  lemma {:induction false} HexReadsBack(bytes: seq<Byte>)
    ensures FromHex(Hex(bytes)) == bytes
    ensures forall i :: 0 <= i < |Hex(bytes)| ==> 0 <= HexValue(Hex(bytes)[i]) < 16
  {
    if bytes != [] {
      HexReadsBack(bytes[1..]);
      assert Hex(bytes)[2..] == Hex(bytes[1..]);
      assert [bytes[0]] + bytes[1..] == bytes;
    }
  }

  /** A base id is the kind, a colon, and the digest of what identifies the symbol. */
  lemma NodeIdReadsBack(hash: Hash, filePath: Text, kind: Text, name: Text, line: nat)
    requires Free(kind, COLON)
    ensures Split(NodeId(hash, filePath, kind, name, line), COLON) ==
      [kind, Hex(hash(HashInput(filePath, kind, name, line)))]
  {
    var hex := Hex(hash(HashInput(filePath, kind, name, line)));
    SplitConcat(kind, COLON, hex);
    SplitFree(kind, COLON);
    SplitFree(hex, COLON);
  }

  /** Split at colons the hashed text reads back as path, kind, name and line, when the first three hold none. */
  lemma HashInputReadsBack(filePath: Text, kind: Text, name: Text, line: nat)
    requires Free(filePath, COLON) && Free(kind, COLON) && Free(name, COLON)
    ensures Split(HashInput(filePath, kind, name, line), COLON) == [filePath, kind, name, Decimal(line)]
  {
    var a, b := filePath + [COLON] + kind, filePath + [COLON] + kind + [COLON] + name;
    DecimalReadsBack(line);
    SplitFree(filePath, COLON);
    SplitFree(kind, COLON);
    SplitFree(name, COLON);
    SplitFree(Decimal(line), COLON);
    SplitConcat(filePath, COLON, kind);
    SplitConcat(a, COLON, name);
    SplitConcat(b, COLON, Decimal(line));
  }

  /** Where the last colon is; -1 for none. */
  function LastColon(s: Text): int {
    if s == [] then -1 else if s[|s| - 1] == COLON then |s| - 1 else LastColon(s[..|s| - 1])
  }

  lemma {:induction false} LastColonIs(a: Text, b: Text)
    requires Free(b, COLON)
    ensures LastColon(a + [COLON] + b) == |a|
    decreases |b|
  {
    var s := a + [COLON] + b;
    if b == [] {
      assert s[|s| - 1] == COLON;
    } else {
      assert s[|s| - 1] == b[|b| - 1] && b[|b| - 1] in b;
      assert s[..|s| - 1] == a + [COLON] + b[..|b| - 1];
      LastColonIs(a, b[..|b| - 1]);
    }
  }

  /** What stands before and after the last colon. */
  lemma LastColonSplits(a: Text, b: Text, a': Text, b': Text)
    requires a + [COLON] + b == a' + [COLON] + b' && Free(b, COLON) && Free(b', COLON)
    ensures a == a' && b == b'
  {
    var s := a + [COLON] + b;
    LastColonIs(a, b);
    LastColonIs(a', b');
    assert s[..|a|] == a && s[..|a'|] == a';
    assert s[|a| + 1..] == b && s[|a'| + 1..] == b';
  }

  /** For a given file and kind the hashed text determines name and line, whatever is in them. */
  lemma HashInputIsInjective(filePath: Text, kind: Text, name: Text, line: nat, name': Text, line': nat)
    requires HashInput(filePath, kind, name, line) == HashInput(filePath, kind, name', line')
    ensures name == name' && line == line'
  {
    var prefix := filePath + [COLON] + kind + [COLON];
    DecimalReadsBack(line);
    DecimalReadsBack(line');
    assert HashInput(filePath, kind, name, line) == (prefix + name) + [COLON] + Decimal(line);
    assert HashInput(filePath, kind, name', line') == (prefix + name') + [COLON] + Decimal(line');
    LastColonSplits(prefix + name, Decimal(line), prefix + name', Decimal(line'));
    assert (prefix + name)[|prefix|..] == name && (prefix + name')[|prefix|..] == name';
  }

  // ----- the allocator -----

  /** One call of `generate`, past the hashing. */
  datatype Request = Request(base: Text, column: U32)

  /** Where `base` was first asked for; the length of the history if it never was. */
  function FirstIndex(history: seq<Request>, base: Text): (i: nat)
    ensures i <= |history|
    ensures i < |history| ==> history[i].base == base
    ensures forall j :: 0 <= j < i ==> history[j].base != base
  {
    if history == [] || history[0].base == base then 0 else 1 + FirstIndex(history[1..], base)
  }

  /** The id of `r`: bare for the column that asked first, otherwise with the column appended. */
  function IdOf(history: seq<Request>, r: Request): Text {
    var i := FirstIndex(history, r.base);
    if i < |history| && history[i].column == r.column then r.base else Suffixed(r)
  }

  function Suffixed(r: Request): Text {
    r.base + [COLON] + Decimal(r.column)
  }

  class NodeIdAllocator {
    var firstColumns: map<Text, U32>
    ghost var history: seq<Request>

    ghost predicate Valid()
      reads this
    {
      forall base ::
        && (base in firstColumns <==> FirstIndex(history, base) < |history|)
        && (base in firstColumns ==> firstColumns[base] == history[FirstIndex(history, base)].column)
    }

    constructor ()
      ensures Valid() && history == []
    {
      firstColumns, history := map[], [];
    }

    method Generate(hash: Hash, filePath: Text, kind: Text, name: Text, line: U32, column: U32) returns (id: Text)
      requires Valid()
      modifies this
      ensures Valid()
      ensures history == old(history) + [Request(NodeId(hash, filePath, kind, name, line), column)]
      ensures id == IdOf(history, history[|history| - 1])
    {
      var base := NodeId(hash, filePath, kind, name, line);
      ghost var r := Request(base, column);
      forall b {
        FirstIndexAppend(history, r, b);
      }
      if base !in firstColumns {
        firstColumns := firstColumns[base := column];
      }
      history := history + [r];
      if firstColumns[base] == column {
        id := base;
      } else {
        id := base + [COLON] + Decimal(column);
      }
    }
  }

  lemma FirstIndexAppend(history: seq<Request>, r: Request, base: Text)
    ensures var i := FirstIndex(history, base);
      FirstIndex(history + [r], base) == if i < |history| || r.base == base then i else i + 1
  {
    var i := FirstIndex(history, base);
    var k := FirstIndex(history + [r], base);
    assert i < |history| ==> (history + [r])[i] == history[i];
    assert (history + [r])[|history|] == r;
    assert forall j :: 0 <= j < i ==> (history + [r])[j] == history[j];
  }

  /** An id, once given, is the one the whole history gives: later calls change nothing. */
  lemma IdsAreStable(history: seq<Request>, i: nat)
    requires i < |history|
    ensures IdOf(history[..i + 1], history[i]) == IdOf(history, history[i])
  {
    var base := history[i].base;
    var k := FirstIndex(history, base);
    var k' := FirstIndex(history[..i + 1], base);
    assert history[..i + 1][i] == history[i];
    assert forall j :: 0 <= j <= i ==> history[..i + 1][j] == history[j];
    assert k == k';
  }

  /** Suffixed ids tell base and column apart, and none is a base id. */
  lemma SuffixedIdsAreExact(a: Request, b: Request)
    requires WellFormed(a.base) && WellFormed(b.base)
    ensures Suffixed(a) == Suffixed(b) ==> a == b
    ensures Suffixed(a) != b.base
  {
    SuffixedId(a);
    SuffixedId(b);
    if Suffixed(a) == Suffixed(b) {
      assert Split(Suffixed(a), COLON)[2] == Split(Suffixed(b), COLON)[2];
      assert Suffixed(a)[..|a.base|] == a.base && Suffixed(b)[..|b.base|] == b.base;
    }
  }

  lemma SuffixedId(r: Request)
    requires WellFormed(r.base)
    ensures Split(Suffixed(r), COLON) == Split(r.base, COLON) + [Decimal(r.column)]
    ensures Value(Decimal(r.column)) == r.column
  {
    DecimalReadsBack(r.column);
    SplitConcat(r.base, COLON, Decimal(r.column));
    SplitFree(Decimal(r.column), COLON);
  }

  predicate AllWellFormed(history: seq<Request>) {
    forall k :: 0 <= k < |history| ==> WellFormed(history[k].base)
  }

  /**
   Over any call history the same id means the same base id and column, and the
   column that came first for a base has the bare one.
   */
  lemma IdsAreExact(history: seq<Request>, i: nat, j: nat)
    requires i < |history| && j < |history| && AllWellFormed(history)
    ensures IdOf(history, history[i]) == IdOf(history, history[j]) <==> history[i] == history[j]
    ensures FirstIndex(history, history[i].base) == i ==> IdOf(history, history[i]) == history[i].base
  {
    SuffixedIdsAreExact(history[i], history[j]);
    SuffixedIdsAreExact(history[j], history[i]);
  }
}
