/** Little-endian integers, rows of four-byte cells, and tables of fixed-width rows. */
module Bytes {

  type Byte = b: int | 0 <= b < 0x100
  type U16 = x: int | 0 <= x < 0x1_0000
  type U32 = x: int | 0 <= x < 0x1_0000_0000

  /** A Rust `str`: its UTF-8 bytes. */
  type Text = seq<Byte>

  function Ascii(s: string): (t: Text)
    ensures |t| == |s|
  {
    seq(|s|, i requires 0 <= i < |s| => if s[i] < 128 as char then s[i] as int else 63)
  }

  /** u32 arithmetic wraps around. */
  function Wrap32(x: nat): U32 {
    x % 0x1_0000_0000
  }

  /** A wrapping count stays in step. */
  lemma WrapNext(x: nat)
    ensures Wrap32(Wrap32(x) + 1) == Wrap32(x + 1)
  {}

  lemma WrapSmall(x: nat)
    requires x < 0x1_0000_0000
    ensures Wrap32(x) == x
  {}

  function LE16(x: U16): (s: seq<Byte>)
    ensures |s| == 2
  {
    [x % 0x100, x / 0x100]
  }

  function LE32(x: U32): (s: seq<Byte>)
    ensures |s| == 4
  {
    [x % 0x100, x / 0x100 % 0x100, x / 0x1_0000 % 0x100, x / 0x100_0000]
  }

  function U16At(s: seq<Byte>, i: nat): U16
    requires i + 2 <= |s|
  {
    (s[i] as int) + 0x100 * (s[i + 1] as int)
  }

  function U32At(s: seq<Byte>, i: nat): U32
    requires i + 4 <= |s|
  {
    (s[i] as int) + 0x100 * (s[i + 1] as int) + 0x1_0000 * (s[i + 2] as int) + 0x100_0000 * (s[i + 3] as int)
  }

  lemma LittleEndianRoundTrip(x: U32, y: U16)
    ensures U32At(LE32(x), 0) == x && U16At(LE16(y), 0) == y
  {}

  // ----- rows of cells -----

  type Cell = c: seq<Byte> | |c| == 4 witness [0, 0, 0, 0]

  function Flat(cells: seq<Cell>): (s: seq<Byte>)
    ensures |s| == 4 * |cells|
  {
    if cells == [] then [] else Flat(cells[..|cells| - 1]) + cells[|cells| - 1]
  }

  lemma FlatSnoc(cells: seq<Cell>, cell: Cell)
    ensures Flat(cells + [cell]) == Flat(cells) + cell
  {
    assert (cells + [cell])[..|cells|] == cells;
  }

  lemma {:induction false} FlatAt(cells: seq<Cell>, i: nat)
    requires i < |cells|
    ensures Flat(cells)[4 * i..4 * i + 4] == cells[i]
  {
    var last := |cells| - 1;
    if i < last {
      FlatAt(cells[..last], i);
      assert Flat(cells)[4 * i..4 * i + 4] == Flat(cells[..last])[4 * i..4 * i + 4];
    }
  }

  /** A word cell reads back, wherever it stands in its row. */
  lemma FlatWord(cells: seq<Cell>, i: nat, x: U32)
    requires i < |cells| && cells[i] == LE32(x)
    ensures U32At(Flat(cells), 4 * i) == x
  {
    FlatAt(cells, i);
    var cell := Flat(cells)[4 * i..4 * i + 4];
    assert forall k :: 0 <= k < 4 ==> Flat(cells)[4 * i + k] == cell[k];
    LittleEndianRoundTrip(x, 0);
  }

  // ----- tables of rows -----

  /** The complete rows of a table, `width` bytes each; a shorter rest is ignored. */
  function Chunks(bytes: seq<Byte>, width: nat): (rows: seq<seq<Byte>>)
    requires width > 0
    ensures forall i :: 0 <= i < |rows| ==> |rows[i]| == width
    decreases |bytes|
  {
    if |bytes| < width then [] else [bytes[..width]] + Chunks(bytes[width..], width)
  }

  /** There is no shorter rest. */
  predicate Whole(bytes: seq<Byte>, width: nat)
    requires width > 0
    decreases |bytes|
  {
    bytes == [] || (|bytes| >= width && Whole(bytes[width..], width))
  }

  lemma {:induction false} ChunksAppend(bytes: seq<Byte>, row: seq<Byte>, width: nat)
    requires width > 0 && Whole(bytes, width) && |row| == width
    ensures Whole(bytes + row, width)
    ensures Chunks(bytes + row, width) == Chunks(bytes, width) + [row]
    decreases |bytes|
  {
    if bytes == [] {
      assert bytes + row == row;
      assert row[width..] == [];
      assert row[..width] == row;
    } else {
      assert (bytes + row)[width..] == bytes[width..] + row;
      assert (bytes + row)[..width] == bytes[..width];
      ChunksAppend(bytes[width..], row, width);
    }
  }

  lemma {:induction false} ChunkCount(bytes: seq<Byte>, width: nat)
    requires width > 0
    ensures |Chunks(bytes, width)| * width <= |bytes| < |Chunks(bytes, width)| * width + width
    ensures Whole(bytes, width) <==> |bytes| == |Chunks(bytes, width)| * width
    decreases |bytes|
  {
    if |bytes| >= width {
      ChunkCount(bytes[width..], width);
      var n := |Chunks(bytes[width..], width)|;
      assert (n + 1) * width == n * width + width;
    }
  }

  lemma {:induction false} ChunkAt(bytes: seq<Byte>, width: nat, i: nat)
    requires width > 0 && i < |Chunks(bytes, width)|
    ensures i * width + width <= |bytes|
    ensures Chunks(bytes, width)[i] == bytes[i * width..i * width + width]
    decreases i
  {
    if i > 0 {
      ChunkAt(bytes[width..], width, i - 1);
      var off := (i - 1) * width;
      assert off + width == i * width;
      assert bytes[width..][off..off + width] == bytes[width + off..width + off + width];
    }
  }

  /** Replacing one row in place replaces that row and nothing else. */
  lemma {:induction false} ChunkUpdate(bytes: seq<Byte>, width: nat, i: nat, row: seq<Byte>)
    requires width > 0 && i < |Chunks(bytes, width)| && |row| == width
    requires i * width + width <= |bytes|
    ensures Chunks(bytes[..i * width] + row + bytes[i * width + width..], width) == Chunks(bytes, width)[i := row]
    decreases i
  {
    var off := i * width;
    var new' := bytes[..off] + row + bytes[off + width..];
    if i == 0 {
      assert off == 0;
      assert new'[..width] == row;
      assert new'[width..] == bytes[width..];
    } else {
      var rest := bytes[width..];
      var off' := (i - 1) * width;
      assert off' + width == off;
      ChunkUpdate(rest, width, i - 1, row);
      assert new'[..width] == bytes[..width];
      assert new'[width..] == rest[..off'] + row + rest[off' + width..];
    }
  }
}
