/**
 The flat buffers of codegraph-kernel/src/buffers.rs: an arena of strings, four
 tables of fixed-width rows and a meta block.  Encoding appends bytes in the
 order the code does; decoding reads the offsets of the documented layout.
 */
module Buffers {
  import opened Bytes
  import opened Options
  import opened Texts

  const KERNEL_ABI_VERSION: Byte := 3
  const NONE: U32 := 0xFFFF_FFFF

  const META_SIZE: nat := 40
  const NODE_ROW_SIZE: nat := 96
  const EDGE_ROW_SIZE: nat := 44
  const REF_ROW_SIZE: nat := 40
  const BINDING_ROW_SIZE: nat := 64

  const EDGE_CONTAINS: Byte := 0
  const EDGE_CALLS: Byte := 1
  const EDGE_IMPORTS: Byte := 2
  const EDGE_EXTENDS: Byte := 4

  const META_PARSED_CLEAN: Byte := 1

  /** Where a string stands in the arena; NONE_STR for a field without one. */
  datatype StrRef = StrRef(offset: U32, len: U32)
  const NONE_STR := StrRef(NONE, 0)

  datatype NodeRow = NodeRow(
    kind: Byte, visibility: Byte, flags: U16,
    startLine: U32, endLine: U32, startColumn: U32, endColumn: U32,
    name: StrRef, qualifiedName: StrRef, id: StrRef, docstring: StrRef, signature: StrRef,
    decorators: StrRef, typeParameters: StrRef, returnType: StrRef, extraJson: StrRef)

  datatype EdgeRow = EdgeRow(
    source: U32, target: U32, kind: Byte, provenance: Byte, line: U32, column: U32,
    metadataJson: StrRef, sourceIdStr: StrRef, targetIdStr: StrRef)

  datatype RefRow = RefRow(
    from: U32, kind: Byte, flags: Byte, line: U32, column: U32,
    referenceName: StrRef, candidates: StrRef, fromIdStr: StrRef)

  datatype BindingRow = BindingRow(
    kind: Byte, exportForm: Byte, node: U32, scopeStart: U32, scopeEnd: U32,
    name: StrRef, targetSpec: StrRef, targetName: StrRef, exportedAs: StrRef, storage: StrRef, line: U32)

  datatype Meta = Meta(
    version: Byte, flags: Byte, nodes: U32, edges: U32, refs: U32, arena: U32,
    errors: StrRef, duration: seq<Byte>, bindings: U32)   // duration: an f64, bit for bit

  // ----- decoding, by the documented offsets -----

  function StrRefAt(s: seq<Byte>, i: nat): StrRef
    requires i + 8 <= |s|
  {
    StrRef(U32At(s, i), U32At(s, i + 4))
  }

  function DecodeNode(s: seq<Byte>): NodeRow
    requires |s| == NODE_ROW_SIZE
  {
    NodeRow(s[0], s[1], U16At(s, 2), U32At(s, 4), U32At(s, 8), U32At(s, 12), U32At(s, 16),
            StrRefAt(s, 20), StrRefAt(s, 28), StrRefAt(s, 36), StrRefAt(s, 44), StrRefAt(s, 52),
            StrRefAt(s, 60), StrRefAt(s, 68), StrRefAt(s, 76), StrRefAt(s, 84))
  }

  function DecodeEdge(s: seq<Byte>): EdgeRow
    requires |s| == EDGE_ROW_SIZE
  {
    EdgeRow(U32At(s, 0), U32At(s, 4), s[8], s[9], U32At(s, 12), U32At(s, 16),
            StrRefAt(s, 20), StrRefAt(s, 28), StrRefAt(s, 36))
  }

  function DecodeRef(s: seq<Byte>): RefRow
    requires |s| == REF_ROW_SIZE
  {
    RefRow(U32At(s, 0), s[4], s[5], U32At(s, 8), U32At(s, 12), StrRefAt(s, 16), StrRefAt(s, 24), StrRefAt(s, 32))
  }

  function DecodeBinding(s: seq<Byte>): BindingRow
    requires |s| == BINDING_ROW_SIZE
  {
    BindingRow(s[0], s[1], U32At(s, 4), U32At(s, 8), U32At(s, 12),
               StrRefAt(s, 16), StrRefAt(s, 24), StrRefAt(s, 32), StrRefAt(s, 40), StrRefAt(s, 48), U32At(s, 56))
  }

  function DecodeMeta(s: seq<Byte>): Meta
    requires |s| == META_SIZE
  {
    Meta(s[0], s[1], U32At(s, 4), U32At(s, 8), U32At(s, 12), U32At(s, 16),
         StrRefAt(s, 20), s[28..36], U32At(s, 36))
  }

  // ----- rows as cells, in the order the code appends them -----

  function Cell2(a: Byte, b: Byte, c: U16): Cell {
    [a, b] + LE16(c)
  }

  function NodeCells(r: NodeRow): seq<Cell> {
    [Cell2(r.kind, r.visibility, r.flags),
     LE32(r.startLine), LE32(r.endLine), LE32(r.startColumn), LE32(r.endColumn),
     LE32(r.name.offset), LE32(r.name.len),
     LE32(r.qualifiedName.offset), LE32(r.qualifiedName.len),
     LE32(r.id.offset), LE32(r.id.len),
     LE32(r.docstring.offset), LE32(r.docstring.len),
     LE32(r.signature.offset), LE32(r.signature.len),
     LE32(r.decorators.offset), LE32(r.decorators.len),
     LE32(r.typeParameters.offset), LE32(r.typeParameters.len),
     LE32(r.returnType.offset), LE32(r.returnType.len),
     LE32(r.extraJson.offset), LE32(r.extraJson.len),
     LE32(0)]
  }

  function EdgeCells(r: EdgeRow): seq<Cell> {
    [LE32(r.source), LE32(r.target), Cell2(r.kind, r.provenance, 0), LE32(r.line), LE32(r.column),
     LE32(r.metadataJson.offset), LE32(r.metadataJson.len),
     LE32(r.sourceIdStr.offset), LE32(r.sourceIdStr.len),
     LE32(r.targetIdStr.offset), LE32(r.targetIdStr.len)]
  }

  function RefCells(r: RefRow): seq<Cell> {
    [LE32(r.from), Cell2(r.kind, r.flags, 0), LE32(r.line), LE32(r.column),
     LE32(r.referenceName.offset), LE32(r.referenceName.len),
     LE32(r.candidates.offset), LE32(r.candidates.len),
     LE32(r.fromIdStr.offset), LE32(r.fromIdStr.len)]
  }

  function BindingCells(r: BindingRow): seq<Cell> {
    [Cell2(r.kind, r.exportForm, 0), LE32(r.node), LE32(r.scopeStart), LE32(r.scopeEnd),
     LE32(r.name.offset), LE32(r.name.len),
     LE32(r.targetSpec.offset), LE32(r.targetSpec.len),
     LE32(r.targetName.offset), LE32(r.targetName.len),
     LE32(r.exportedAs.offset), LE32(r.exportedAs.len),
     LE32(r.storage.offset), LE32(r.storage.len),
     LE32(r.line), LE32(0)]
  }

  lemma StrRefReads(cells: seq<Cell>, i: nat, r: StrRef)
    requires i + 1 < |cells| && cells[i] == LE32(r.offset) && cells[i + 1] == LE32(r.len)
    ensures StrRefAt(Flat(cells), 4 * i) == r
  {
    FlatWord(cells, i, r.offset);
    FlatWord(cells, i + 1, r.len);
  }

  lemma HeadReads(cells: seq<Cell>, i: nat, a: Byte, b: Byte, c: U16)
    requires i < |cells| && cells[i] == Cell2(a, b, c)
    ensures Flat(cells)[4 * i] == a && Flat(cells)[4 * i + 1] == b && U16At(Flat(cells), 4 * i + 2) == c
  {
    FlatAt(cells, i);
    var cell := Flat(cells)[4 * i..4 * i + 4];
    assert forall k :: 0 <= k < 4 ==> Flat(cells)[4 * i + k] == cell[k];
  }

  predicate AreNodeCells(all: seq<Cell>, r: NodeRow) {
    |all| == 24
    && all[0] == Cell2(r.kind, r.visibility, r.flags)
    && all[1] == LE32(r.startLine)
    && all[2] == LE32(r.endLine)
    && all[3] == LE32(r.startColumn)
    && all[4] == LE32(r.endColumn)
    && all[5] == LE32(r.name.offset)
    && all[6] == LE32(r.name.len)
    && all[7] == LE32(r.qualifiedName.offset)
    && all[8] == LE32(r.qualifiedName.len)
    && all[9] == LE32(r.id.offset)
    && all[10] == LE32(r.id.len)
    && all[11] == LE32(r.docstring.offset)
    && all[12] == LE32(r.docstring.len)
    && all[13] == LE32(r.signature.offset)
    && all[14] == LE32(r.signature.len)
    && all[15] == LE32(r.decorators.offset)
    && all[16] == LE32(r.decorators.len)
    && all[17] == LE32(r.typeParameters.offset)
    && all[18] == LE32(r.typeParameters.len)
    && all[19] == LE32(r.returnType.offset)
    && all[20] == LE32(r.returnType.len)
    && all[21] == LE32(r.extraJson.offset)
    && all[22] == LE32(r.extraJson.len)
    && all[23] == LE32(0)
  }

  lemma NodeCellsAre(r: NodeRow)
    ensures AreNodeCells(NodeCells(r), r)
  {}

  lemma NodeHeadReads(cells: seq<Cell>, r: NodeRow)
    requires AreNodeCells(cells, r)
    ensures var s := Flat(cells);
      && s[0] == r.kind && s[1] == r.visibility && U16At(s, 2) == r.flags
      && U32At(s, 4) == r.startLine && U32At(s, 8) == r.endLine
      && U32At(s, 12) == r.startColumn && U32At(s, 16) == r.endColumn
  {
    HeadReads(cells, 0, r.kind, r.visibility, r.flags);
    FlatWord(cells, 1, r.startLine);
    FlatWord(cells, 2, r.endLine);
    FlatWord(cells, 3, r.startColumn);
    FlatWord(cells, 4, r.endColumn);
  }

  lemma NodeNamesRead(cells: seq<Cell>, r: NodeRow)
    requires AreNodeCells(cells, r)
    ensures var s := Flat(cells);
      && StrRefAt(s, 20) == r.name && StrRefAt(s, 28) == r.qualifiedName && StrRefAt(s, 36) == r.id
      && StrRefAt(s, 44) == r.docstring && StrRefAt(s, 52) == r.signature
  {
    StrRefReads(cells, 5, r.name);
    StrRefReads(cells, 7, r.qualifiedName);
    StrRefReads(cells, 9, r.id);
    StrRefReads(cells, 11, r.docstring);
    StrRefReads(cells, 13, r.signature);
  }

  lemma NodeExtrasRead(cells: seq<Cell>, r: NodeRow)
    requires AreNodeCells(cells, r)
    ensures var s := Flat(cells);
      && StrRefAt(s, 60) == r.decorators && StrRefAt(s, 68) == r.typeParameters
      && StrRefAt(s, 76) == r.returnType && StrRefAt(s, 84) == r.extraJson
  {
    StrRefReads(cells, 15, r.decorators);
    StrRefReads(cells, 17, r.typeParameters);
    StrRefReads(cells, 19, r.returnType);
    StrRefReads(cells, 21, r.extraJson);
  }

  lemma NodeRoundTrip(r: NodeRow)
    ensures DecodeNode(Flat(NodeCells(r))) == r
  {
    NodeCellsAre(r);
    NodeHeadReads(NodeCells(r), r);
    NodeNamesRead(NodeCells(r), r);
    NodeExtrasRead(NodeCells(r), r);
  }

  predicate AreEdgeCells(all: seq<Cell>, r: EdgeRow) {
    |all| == 11
    && all[0] == LE32(r.source)
    && all[1] == LE32(r.target)
    && all[2] == Cell2(r.kind, r.provenance, 0)
    && all[3] == LE32(r.line)
    && all[4] == LE32(r.column)
    && all[5] == LE32(r.metadataJson.offset)
    && all[6] == LE32(r.metadataJson.len)
    && all[7] == LE32(r.sourceIdStr.offset)
    && all[8] == LE32(r.sourceIdStr.len)
    && all[9] == LE32(r.targetIdStr.offset)
    && all[10] == LE32(r.targetIdStr.len)
  }

  lemma EdgeCellsAre(r: EdgeRow)
    ensures AreEdgeCells(EdgeCells(r), r)
  {}

  lemma EdgeReads(cells: seq<Cell>, r: EdgeRow)
    requires AreEdgeCells(cells, r)
    ensures DecodeEdge(Flat(cells)) == r
  {
    FlatWord(cells, 0, r.source);
    FlatWord(cells, 1, r.target);
    HeadReads(cells, 2, r.kind, r.provenance, 0);
    FlatWord(cells, 3, r.line);
    FlatWord(cells, 4, r.column);
    StrRefReads(cells, 5, r.metadataJson);
    StrRefReads(cells, 7, r.sourceIdStr);
    StrRefReads(cells, 9, r.targetIdStr);
  }

  lemma EdgeRoundTrip(r: EdgeRow)
    ensures DecodeEdge(Flat(EdgeCells(r))) == r
  {
    EdgeCellsAre(r);
    EdgeReads(EdgeCells(r), r);
  }

  lemma RefRoundTrip(r: RefRow)
    ensures DecodeRef(Flat(RefCells(r))) == r
  {
    var cells := RefCells(r);
    FlatWord(cells, 0, r.from);
    HeadReads(cells, 1, r.kind, r.flags, 0);
    FlatWord(cells, 2, r.line);
    FlatWord(cells, 3, r.column);
    StrRefReads(cells, 4, r.referenceName);
    StrRefReads(cells, 6, r.candidates);
    StrRefReads(cells, 8, r.fromIdStr);
  }

  predicate AreBindingCells(all: seq<Cell>, r: BindingRow) {
    |all| == 16
    && all[0] == Cell2(r.kind, r.exportForm, 0)
    && all[1] == LE32(r.node)
    && all[2] == LE32(r.scopeStart)
    && all[3] == LE32(r.scopeEnd)
    && all[4] == LE32(r.name.offset)
    && all[5] == LE32(r.name.len)
    && all[6] == LE32(r.targetSpec.offset)
    && all[7] == LE32(r.targetSpec.len)
    && all[8] == LE32(r.targetName.offset)
    && all[9] == LE32(r.targetName.len)
    && all[10] == LE32(r.exportedAs.offset)
    && all[11] == LE32(r.exportedAs.len)
    && all[12] == LE32(r.storage.offset)
    && all[13] == LE32(r.storage.len)
    && all[14] == LE32(r.line)
    && all[15] == LE32(0)
  }

  lemma BindingCellsAre(r: BindingRow)
    ensures AreBindingCells(BindingCells(r), r)
  {}

  lemma BindingReads(cells: seq<Cell>, r: BindingRow)
    requires AreBindingCells(cells, r)
    ensures DecodeBinding(Flat(cells)) == r
  {
    HeadReads(cells, 0, r.kind, r.exportForm, 0);
    FlatWord(cells, 1, r.node);
    FlatWord(cells, 2, r.scopeStart);
    FlatWord(cells, 3, r.scopeEnd);
    StrRefReads(cells, 4, r.name);
    StrRefReads(cells, 6, r.targetSpec);
    StrRefReads(cells, 8, r.targetName);
    StrRefReads(cells, 10, r.exportedAs);
    StrRefReads(cells, 12, r.storage);
    FlatWord(cells, 14, r.line);
  }

  lemma BindingRoundTrip(r: BindingRow)
    ensures DecodeBinding(Flat(BindingCells(r))) == r
  {
    BindingCellsAre(r);
    BindingReads(BindingCells(r), r);
  }

  // ----- the string arena -----

  function Lookup(arena: Text, r: StrRef): Option<Text> {
    if r.offset == NONE || r.offset + r.len > |arena| then None else Some(arena[r.offset..r.offset + r.len])
  }

  function PutRef(arena: Text, s: Text): StrRef {
    StrRef(Wrap32(|arena|), Wrap32(|s|))
  }

  predicate StandsAt(arena: Text, s: Text, offset: nat) {
    offset + |s| <= |arena| && arena[offset..offset + |s|] == s
  }

  /**
   After any later puts a reference denotes the string put there exactly when
   the string's length fits a u32 and the arena's length before the put,
   wrapped to a u32, is not the marker for an absent field and happens to be a
   place where the string stands.
   */
  lemma PutReadsBackIff(arena: Text, s: Text, later: Text)
    ensures Lookup(arena + s + later, PutRef(arena, s)) == Some(s) <==>
      |s| <= NONE && Wrap32(|arena|) != NONE && StandsAt(arena + s + later, s, Wrap32(|arena|))
  {}

  /** So up to 2^32-2 bytes before the put are enough, and one more is too many. */
  lemma PutReadsBack(arena: Text, s: Text, later: Text)
    requires |arena| <= NONE && |s| <= NONE
    ensures Lookup(arena + s + later, PutRef(arena, s)) == Some(s) <==> |arena| < NONE
  {
    PutReadsBackIff(arena, s, later);
    PutStandsThere(arena, s, later);
    WrapSmall(|arena|);
  }

  lemma PutStandsThere(arena: Text, s: Text, later: Text)
    ensures StandsAt(arena + s + later, s, |arena|)
  {}

  lemma LaterPutsDisturbNothing(arena: Text, later: Text, r: StrRef)
    requires Lookup(arena, r).Some?
    ensures Lookup(arena + later, r) == Lookup(arena, r)
  {
    assert (arena + later)[r.offset..r.offset + r.len] == arena[r.offset..r.offset + r.len];
  }

  /** What a NUL-joined list field reads back as. */
  function LookupList(arena: Text, r: StrRef): Option<seq<Text>> {
    match Lookup(arena, r)
    case None => if r == NONE_STR then Some([]) else None
    case Some(joined) => Some(Split(joined, 0))
  }

  lemma ListReadsBack(arena: Text, items: seq<Text>, later: Text)
    requires AllFree(items, 0) && items != []
    requires |arena| < NONE && |Join(items, 0)| <= NONE
    ensures LookupList(arena + Join(items, 0) + later, PutRef(arena, Join(items, 0))) == Some(items)
  {
    PutReadsBack(arena, Join(items, 0), later);
    SplitJoin(items, 0);
  }

  class Arena {
    var buf: Text

    constructor ()
      ensures buf == []
    {
      buf := [];
    }

    method Put(s: Text) returns (r: StrRef)
      modifies this
      ensures buf == old(buf) + s
      ensures r == PutRef(old(buf), s)
      ensures |buf| < NONE ==> Lookup(buf, r) == Some(s)
    {
      r := StrRef(Wrap32(|buf|), Wrap32(|s|));
      buf := buf + s;
      if |buf| < NONE {
        PutReadsBack(old(buf), s, []);
        assert buf == old(buf) + s + [];
      }
    }

    method PutOpt(s: Option<Text>) returns (r: StrRef)
      modifies this
      ensures buf == match s case None => old(buf) case Some(t) => old(buf) + t
      ensures |buf| < NONE ==> Lookup(buf, r) == s
      ensures s.None? ==> r == NONE_STR
    {
      match s
      case None => r := NONE_STR;
      case Some(t) => r := Put(t);
    }

    method PutList(items: seq<Text>) returns (r: StrRef)
      modifies this
      ensures buf == old(buf) + Join(items, 0)
      ensures items == [] ==> r == NONE_STR
      ensures |buf| < NONE && AllFree(items, 0) ==> LookupList(buf, r) == Some(items)
    {
      if items == [] {
        return NONE_STR;
      }
      r := Put(Join(items, 0));
      if |buf| < NONE && AllFree(items, 0) {
        ListReadsBack(old(buf), items, []);
        assert buf == old(buf) + Join(items, 0) + [];
      }
    }
  }

  // ----- the tables -----

  function NodeRows(bytes: seq<Byte>): seq<NodeRow> {
    var rows := Chunks(bytes, NODE_ROW_SIZE);
    seq(|rows|, i requires 0 <= i < |rows| => DecodeNode(rows[i]))
  }

  function EdgeRows(bytes: seq<Byte>): seq<EdgeRow> {
    var rows := Chunks(bytes, EDGE_ROW_SIZE);
    seq(|rows|, i requires 0 <= i < |rows| => DecodeEdge(rows[i]))
  }

  function RefRows(bytes: seq<Byte>): seq<RefRow> {
    var rows := Chunks(bytes, REF_ROW_SIZE);
    seq(|rows|, i requires 0 <= i < |rows| => DecodeRef(rows[i]))
  }

  function BindingRows(bytes: seq<Byte>): seq<BindingRow> {
    var rows := Chunks(bytes, BINDING_ROW_SIZE);
    seq(|rows|, i requires 0 <= i < |rows| => DecodeBinding(rows[i]))
  }

  /** Rows are appended cell by cell; `all` are the cells of the whole row, `n` of them done. */
  method AppendCell(bytes: seq<Byte>, cell: Cell, ghost before: seq<Byte>, ghost all: seq<Cell>, ghost n: nat)
      returns (longer: seq<Byte>)
    requires n < |all| && all[n] == cell
    requires bytes == before + Flat(all[..n])
    ensures longer == before + Flat(all[..n + 1])
  {
    longer := bytes + cell;
    FlatSnoc(all[..n], cell);
    assert all[..n + 1] == all[..n] + [cell];
  }

  method PushStrRef(bytes: seq<Byte>, r: StrRef, ghost before: seq<Byte>, ghost all: seq<Cell>, ghost n: nat)
      returns (longer: seq<Byte>)
    requires n + 1 < |all| && all[n] == LE32(r.offset) && all[n + 1] == LE32(r.len)
    requires bytes == before + Flat(all[..n])
    ensures longer == before + Flat(all[..n + 2])
  {
    longer := AppendCell(bytes, LE32(r.offset), before, all, n);
    longer := AppendCell(longer, LE32(r.len), before, all, n + 1);
  }

  /** Three fields in a row. */
  method PushStrRefs(bytes: seq<Byte>, rs: seq<StrRef>, ghost before: seq<Byte>, ghost all: seq<Cell>, ghost n: nat)
      returns (longer: seq<Byte>)
    requires |rs| == 3 && n + 6 <= |all|
    requires all[n] == LE32(rs[0].offset) && all[n + 1] == LE32(rs[0].len)
    requires all[n + 2] == LE32(rs[1].offset) && all[n + 3] == LE32(rs[1].len)
    requires all[n + 4] == LE32(rs[2].offset) && all[n + 5] == LE32(rs[2].len)
    requires bytes == before + Flat(all[..n])
    ensures longer == before + Flat(all[..n + 6])
  {
    longer := PushStrRef(bytes, rs[0], before, all, n);
    longer := PushStrRef(longer, rs[1], before, all, n + 2);
    longer := PushStrRef(longer, rs[2], before, all, n + 4);
  }

  method AppendNode(bytes: seq<Byte>, r: NodeRow, ghost all: seq<Cell>) returns (bytes': seq<Byte>)
    requires AreNodeCells(all, r)
    ensures bytes' == bytes + Flat(all)
  {
    bytes' := AppendCell(bytes, Cell2(r.kind, r.visibility, r.flags), bytes, all, 0);
    bytes' := AppendCell(bytes', LE32(r.startLine), bytes, all, 1);
    bytes' := AppendCell(bytes', LE32(r.endLine), bytes, all, 2);
    bytes' := AppendCell(bytes', LE32(r.startColumn), bytes, all, 3);
    bytes' := AppendCell(bytes', LE32(r.endColumn), bytes, all, 4);
    bytes' := PushStrRefs(bytes', [r.name, r.qualifiedName, r.id], bytes, all, 5);
    bytes' := PushStrRefs(bytes', [r.docstring, r.signature, r.decorators], bytes, all, 11);
    bytes' := PushStrRefs(bytes', [r.typeParameters, r.returnType, r.extraJson], bytes, all, 17);
    bytes' := AppendCell(bytes', LE32(0), bytes, all, 23);   // metrics slot
    assert all[..24] == all;
  }

  method AppendEdge(bytes: seq<Byte>, r: EdgeRow, ghost all: seq<Cell>) returns (bytes': seq<Byte>)
    requires AreEdgeCells(all, r)
    ensures bytes' == bytes + Flat(all)
  {
    bytes' := AppendCell(bytes, LE32(r.source), bytes, all, 0);
    bytes' := AppendCell(bytes', LE32(r.target), bytes, all, 1);
    bytes' := AppendCell(bytes', Cell2(r.kind, r.provenance, 0), bytes, all, 2);
    bytes' := AppendCell(bytes', LE32(r.line), bytes, all, 3);
    bytes' := AppendCell(bytes', LE32(r.column), bytes, all, 4);
    bytes' := PushStrRef(bytes', r.metadataJson, bytes, all, 5);
    bytes' := PushStrRef(bytes', r.sourceIdStr, bytes, all, 7);
    bytes' := PushStrRef(bytes', r.targetIdStr, bytes, all, 9);
    assert all[..11] == all;
  }

  method AppendRef(bytes: seq<Byte>, r: RefRow) returns (bytes': seq<Byte>)
    ensures bytes' == bytes + Flat(RefCells(r))
  {
    ghost var all := RefCells(r);
    bytes' := AppendCell(bytes, LE32(r.from), bytes, all, 0);
    bytes' := AppendCell(bytes', Cell2(r.kind, r.flags, 0), bytes, all, 1);
    bytes' := AppendCell(bytes', LE32(r.line), bytes, all, 2);
    bytes' := AppendCell(bytes', LE32(r.column), bytes, all, 3);
    bytes' := PushStrRef(bytes', r.referenceName, bytes, all, 4);
    bytes' := PushStrRef(bytes', r.candidates, bytes, all, 6);
    bytes' := PushStrRef(bytes', r.fromIdStr, bytes, all, 8);
    assert all[..10] == all;
  }

  method AppendBinding(bytes: seq<Byte>, r: BindingRow, ghost all: seq<Cell>) returns (bytes': seq<Byte>)
    requires AreBindingCells(all, r)
    ensures bytes' == bytes + Flat(all)
  {
    bytes' := AppendCell(bytes, Cell2(r.kind, r.exportForm, 0), bytes, all, 0);
    bytes' := AppendCell(bytes', LE32(r.node), bytes, all, 1);
    bytes' := AppendCell(bytes', LE32(r.scopeStart), bytes, all, 2);
    bytes' := AppendCell(bytes', LE32(r.scopeEnd), bytes, all, 3);
    bytes' := PushStrRefs(bytes', [r.name, r.targetSpec, r.targetName], bytes, all, 4);
    bytes' := PushStrRef(bytes', r.exportedAs, bytes, all, 10);
    bytes' := PushStrRef(bytes', r.storage, bytes, all, 12);
    bytes' := AppendCell(bytes', LE32(r.line), bytes, all, 14);
    bytes' := AppendCell(bytes', LE32(0), bytes, all, 15);
    assert all[..16] == all;
  }

  /** A pushed node is the new last row; the rows before it read as they did. */
  lemma NodeAppended(bytes: seq<Byte>, count: U32, row: seq<Byte>, r: NodeRow)
    requires Whole(bytes, NODE_ROW_SIZE) && count == Wrap32(|NodeRows(bytes)|)
    requires |row| == NODE_ROW_SIZE && DecodeNode(row) == r
    ensures Whole(bytes + row, NODE_ROW_SIZE)
    ensures NodeRows(bytes + row) == NodeRows(bytes) + [r]
    ensures Wrap32(count + 1) == Wrap32(|NodeRows(bytes + row)|)
  {
    ChunksAppend(bytes, row, NODE_ROW_SIZE);
    WrapNext(|NodeRows(bytes)|);
  }

  /** A pushed edge is the new last row; the rows before it read as they did. */
  lemma EdgeAppended(bytes: seq<Byte>, count: U32, row: seq<Byte>, r: EdgeRow)
    requires Whole(bytes, EDGE_ROW_SIZE) && count == Wrap32(|EdgeRows(bytes)|)
    requires |row| == EDGE_ROW_SIZE && DecodeEdge(row) == r
    ensures Whole(bytes + row, EDGE_ROW_SIZE)
    ensures EdgeRows(bytes + row) == EdgeRows(bytes) + [r]
    ensures Wrap32(count + 1) == Wrap32(|EdgeRows(bytes + row)|)
  {
    ChunksAppend(bytes, row, EDGE_ROW_SIZE);
    WrapNext(|EdgeRows(bytes)|);
  }

  /** A pushed ref is the new last row; the rows before it read as they did. */
  lemma RefAppended(bytes: seq<Byte>, count: U32, row: seq<Byte>, r: RefRow)
    requires Whole(bytes, REF_ROW_SIZE) && count == Wrap32(|RefRows(bytes)|)
    requires |row| == REF_ROW_SIZE && DecodeRef(row) == r
    ensures Whole(bytes + row, REF_ROW_SIZE)
    ensures RefRows(bytes + row) == RefRows(bytes) + [r]
    ensures Wrap32(count + 1) == Wrap32(|RefRows(bytes + row)|)
  {
    ChunksAppend(bytes, row, REF_ROW_SIZE);
    WrapNext(|RefRows(bytes)|);
  }

  /** A pushed binding is the new last row; the rows before it read as they did. */
  lemma BindingAppended(bytes: seq<Byte>, count: U32, row: seq<Byte>, r: BindingRow)
    requires Whole(bytes, BINDING_ROW_SIZE) && count == Wrap32(|BindingRows(bytes)|)
    requires |row| == BINDING_ROW_SIZE && DecodeBinding(row) == r
    ensures Whole(bytes + row, BINDING_ROW_SIZE)
    ensures BindingRows(bytes + row) == BindingRows(bytes) + [r]
    ensures Wrap32(count + 1) == Wrap32(|BindingRows(bytes + row)|)
  {
    ChunksAppend(bytes, row, BINDING_ROW_SIZE);
    WrapNext(|BindingRows(bytes)|);
  }

  method EncodeNode(bytes: seq<Byte>, r: NodeRow) returns (bytes': seq<Byte>)
    ensures bytes <= bytes' && |bytes'| == |bytes| + NODE_ROW_SIZE && DecodeNode(bytes'[|bytes|..]) == r
  {
    NodeRoundTrip(r);
    NodeCellsAre(r);
    bytes' := AppendNode(bytes, r, NodeCells(r));
    assert bytes'[|bytes|..] == Flat(NodeCells(r));
  }

  method EncodeEdge(bytes: seq<Byte>, r: EdgeRow) returns (bytes': seq<Byte>)
    ensures bytes <= bytes' && |bytes'| == |bytes| + EDGE_ROW_SIZE && DecodeEdge(bytes'[|bytes|..]) == r
  {
    EdgeRoundTrip(r);
    EdgeCellsAre(r);
    bytes' := AppendEdge(bytes, r, EdgeCells(r));
    assert bytes'[|bytes|..] == Flat(EdgeCells(r));
  }

  method EncodeRef(bytes: seq<Byte>, r: RefRow) returns (bytes': seq<Byte>)
    ensures bytes <= bytes' && |bytes'| == |bytes| + REF_ROW_SIZE && DecodeRef(bytes'[|bytes|..]) == r
  {
    RefRoundTrip(r);
    bytes' := AppendRef(bytes, r);
    assert bytes'[|bytes|..] == Flat(RefCells(r));
  }

  method EncodeBinding(bytes: seq<Byte>, r: BindingRow) returns (bytes': seq<Byte>)
    ensures bytes <= bytes' && |bytes'| == |bytes| + BINDING_ROW_SIZE && DecodeBinding(bytes'[|bytes|..]) == r
  {
    BindingRoundTrip(r);
    BindingCellsAre(r);
    bytes' := AppendBinding(bytes, r, BindingCells(r));
    assert bytes'[|bytes|..] == Flat(BindingCells(r));
  }

  class Tables {
    var nodes: seq<Byte>
    var edges: seq<Byte>
    var refs: seq<Byte>
    var bindings: seq<Byte>
    var nodeCount: U32
    var edgeCount: U32
    var refCount: U32
    var bindingCount: U32
    var reexportImports: U32

    ghost predicate Valid()
      reads this
    {
      && Whole(nodes, NODE_ROW_SIZE) && nodeCount == Wrap32(|NodeRows(nodes)|)
      && Whole(edges, EDGE_ROW_SIZE) && edgeCount == Wrap32(|EdgeRows(edges)|)
      && Whole(refs, REF_ROW_SIZE) && refCount == Wrap32(|RefRows(refs)|)
      && Whole(bindings, BINDING_ROW_SIZE) && bindingCount == Wrap32(|BindingRows(bindings)|)
    }

    constructor ()
      ensures Valid()
      ensures nodes == edges == refs == bindings == [] && reexportImports == 0
    {
      nodes, edges, refs, bindings := [], [], [], [];
      nodeCount, edgeCount, refCount, bindingCount, reexportImports := 0, 0, 0, 0, 0;
    }

    method PushNode(r: NodeRow) returns (idx: U32)
      requires Valid()
      modifies this`nodes, this`nodeCount
      ensures Valid()
      ensures NodeRows(nodes) == NodeRows(old(nodes)) + [r]
      ensures idx == Wrap32(|NodeRows(old(nodes))|)
    {
      nodes := EncodeNode(nodes, r);
      HeadAndRest(old(nodes), nodes);
      NodeAppended(old(nodes), nodeCount, nodes[|old(nodes)|..], r);
      idx := nodeCount;
      nodeCount := Wrap32(nodeCount + 1);
    }

    /** A structural edge: no position, metadata or provenance. */
    method PushContains(parent: U32, child: U32)
      requires Valid()
      modifies this`edges, this`edgeCount
      ensures Valid()
      ensures EdgeRows(edges) == EdgeRows(old(edges)) + [ContainsRow(parent, child)]
    {
      PushEdge(ContainsRow(parent, child));
    }

    method PushEdge(r: EdgeRow)
      requires Valid()
      modifies this`edges, this`edgeCount
      ensures Valid()
      ensures EdgeRows(edges) == EdgeRows(old(edges)) + [r]
    {
      edges := EncodeEdge(edges, r);
      HeadAndRest(old(edges), edges);
      EdgeAppended(old(edges), edgeCount, edges[|old(edges)|..], r);
      edgeCount := Wrap32(edgeCount + 1);
    }

    method PushRef(r: RefRow)
      requires Valid()
      modifies this`refs, this`refCount
      ensures Valid()
      ensures RefRows(refs) == RefRows(old(refs)) + [r.(flags := 0)]
    {
      PushRefFlagged(r, 0);
    }

    method PushRefFlagged(r: RefRow, flags: Byte)
      requires Valid()
      modifies this`refs, this`refCount
      ensures Valid()
      ensures RefRows(refs) == RefRows(old(refs)) + [r.(flags := flags)]
    {
      refs := EncodeRef(refs, r.(flags := flags));
      HeadAndRest(old(refs), refs);
      RefAppended(old(refs), refCount, refs[|old(refs)|..], r.(flags := flags));
      refCount := Wrap32(refCount + 1);
    }

    method PushBinding(r: BindingRow)
      requires Valid()
      modifies this`bindings, this`bindingCount
      ensures Valid()
      ensures BindingRows(bindings) == BindingRows(old(bindings)) + [r]
    {
      bindings := EncodeBinding(bindings, r);
      HeadAndRest(old(bindings), bindings);
      BindingAppended(old(bindings), bindingCount, bindings[|old(bindings)|..], r);
      bindingCount := Wrap32(bindingCount + 1);
    }

    /** The first and last line of a row that has been pushed. */
    method NodeLines(row: U32) returns (startLine: U32, endLine: U32)
      requires Valid() && row < |NodeRows(nodes)|
      ensures startLine == NodeRows(nodes)[row].startLine && endLine == NodeRows(nodes)[row].endLine
    {
      ChunkAt(nodes, NODE_ROW_SIZE, row);
      var off := row * NODE_ROW_SIZE;
      ghost var s := nodes[off..off + NODE_ROW_SIZE];
      assert forall k :: 0 <= k < NODE_ROW_SIZE ==> s[k] == nodes[off + k];
      startLine, endLine := U32At(nodes, off + 4), U32At(nodes, off + 8);
    }

    /** Gives a pushed row another end; nothing else changes. */
    method SetNodeEnd(row: U32, endLine: U32, endColumn: U32)
      requires Valid() && row < |NodeRows(nodes)|
      modifies this`nodes
      ensures Valid()
      ensures NodeRows(nodes) ==
        NodeRows(old(nodes))[row := NodeRows(old(nodes))[row].(endLine := endLine, endColumn := endColumn)]
    {
      var off := row * NODE_ROW_SIZE;
      EndMoved(nodes, row, endLine, endColumn);
      nodes := nodes[..off + 8] + LE32(endLine) + nodes[off + 12..];
      nodes := nodes[..off + 16] + LE32(endColumn) + nodes[off + 20..];
    }
  }

  function ContainsRow(parent: U32, child: U32): EdgeRow {
    EdgeRow(parent, child, EDGE_CONTAINS, 0, NONE, NONE, NONE_STR, NONE_STR, NONE_STR)
  }

  function WithEnd(s: seq<Byte>, endLine: U32, endColumn: U32): (s': seq<Byte>)
    requires |s| == NODE_ROW_SIZE
    ensures |s'| == NODE_ROW_SIZE
  {
    s[..8] + LE32(endLine) + s[12..16] + LE32(endColumn) + s[20..]
  }

  lemma TwoSplices(bytes: seq<Byte>, off: nat, endLine: U32, endColumn: U32)
    requires off + NODE_ROW_SIZE <= |bytes|
    ensures var once := bytes[..off + 8] + LE32(endLine) + bytes[off + 12..];
      once[..off + 16] + LE32(endColumn) + once[off + 20..] ==
      bytes[..off] + WithEnd(bytes[off..off + NODE_ROW_SIZE], endLine, endColumn) + bytes[off + NODE_ROW_SIZE..]
  {
    var once := bytes[..off + 8] + LE32(endLine) + bytes[off + 12..];
    var s := bytes[off..off + NODE_ROW_SIZE];
    assert forall k :: 0 <= k < NODE_ROW_SIZE ==> s[k] == bytes[off + k];
    assert once[..off + 16] == bytes[..off] + (s[..8] + LE32(endLine) + s[12..16]);
    assert once[off + 20..] == s[20..] + bytes[off + NODE_ROW_SIZE..];
  }

  lemma WithEndDecodes(s: seq<Byte>, endLine: U32, endColumn: U32)
    requires |s| == NODE_ROW_SIZE
    ensures DecodeNode(WithEnd(s, endLine, endColumn)) == DecodeNode(s).(endLine := endLine, endColumn := endColumn)
  {
    var s' := WithEnd(s, endLine, endColumn);
    assert forall k :: 0 <= k < 8 || 12 <= k < 16 || 20 <= k < NODE_ROW_SIZE ==> s'[k] == s[k];
    assert forall k :: 0 <= k < 4 ==> s'[8 + k] == LE32(endLine)[k] && s'[16 + k] == LE32(endColumn)[k];
    LittleEndianRoundTrip(endLine, 0);
    LittleEndianRoundTrip(endColumn, 0);
  }

  /** The two writes of SetNodeEnd move the end of one row and change nothing else. */
  lemma EndMoved(bytes: seq<Byte>, row: nat, endLine: U32, endColumn: U32)
    requires Whole(bytes, NODE_ROW_SIZE) && row < |NodeRows(bytes)|
    ensures row * NODE_ROW_SIZE + NODE_ROW_SIZE <= |bytes|
    ensures var off := row * NODE_ROW_SIZE;
      var once := bytes[..off + 8] + LE32(endLine) + bytes[off + 12..];
      var twice := once[..off + 16] + LE32(endColumn) + once[off + 20..];
      && Whole(twice, NODE_ROW_SIZE)
      && NodeRows(twice) == NodeRows(bytes)[row := NodeRows(bytes)[row].(endLine := endLine, endColumn := endColumn)]
  {
    var off := row * NODE_ROW_SIZE;
    ChunkAt(bytes, NODE_ROW_SIZE, row);
    var s := bytes[off..off + NODE_ROW_SIZE];
    var s' := WithEnd(s, endLine, endColumn);
    TwoSplices(bytes, off, endLine, endColumn);
    ChunkUpdate(bytes, NODE_ROW_SIZE, row, s');
    WithEndDecodes(s, endLine, endColumn);
    ChunkCount(bytes, NODE_ROW_SIZE);
    ChunkCount(bytes[..off] + s' + bytes[off + NODE_ROW_SIZE..], NODE_ROW_SIZE);
  }

  // ----- one file's encoded tables -----

  datatype EmitOut = EmitOut(
    meta: seq<Byte>, nodes: seq<Byte>, edges: seq<Byte>, refs: seq<Byte>, bindings: seq<Byte>, arena: Text)

  function BuildMeta(m: Meta): (bytes: seq<Byte>)
    requires |m.duration| == 8
    ensures |bytes| == META_SIZE
  {
    Flat(MetaCells(m))
  }

  function MetaCells(m: Meta): seq<Cell>
    requires |m.duration| == 8
  {
    [Cell2(m.version, m.flags, 0), LE32(m.nodes), LE32(m.edges), LE32(m.refs), LE32(m.arena),
     LE32(m.errors.offset), LE32(m.errors.len), m.duration[..4], m.duration[4..], LE32(m.bindings)]
  }

  lemma MetaRoundTrip(m: Meta)
    requires |m.duration| == 8
    ensures DecodeMeta(BuildMeta(m)) == m
  {
    var cells := MetaCells(m);
    HeadReads(cells, 0, m.version, m.flags, 0);
    FlatWord(cells, 1, m.nodes);
    FlatWord(cells, 2, m.edges);
    FlatWord(cells, 3, m.refs);
    FlatWord(cells, 4, m.arena);
    StrRefReads(cells, 5, m.errors);
    FlatAt(cells, 7);
    FlatAt(cells, 8);
    FlatWord(cells, 9, m.bindings);
    assert Flat(cells)[28..36] == Flat(cells)[28..32] + Flat(cells)[32..36];
  }

  function Clear(row: seq<Byte>): (row': seq<Byte>)
    requires |row| == BINDING_ROW_SIZE
    ensures |row'| == BINDING_ROW_SIZE
    ensures DecodeBinding(row') == DecodeBinding(row).(node := NONE)
  {
    var row' := row[..4] + LE32(NONE) + row[8..];
    assert forall k :: 0 <= k < 4 || 8 <= k < BINDING_ROW_SIZE ==> row'[k] == row[k];
    assert forall k :: 0 <= k < 4 ==> row'[4 + k] == LE32(NONE)[k];
    row'
  }

  function ClearAll(bytes: seq<Byte>): (bytes': seq<Byte>)
    ensures |bytes'| == |bytes|
    decreases |bytes|
  {
    if |bytes| < BINDING_ROW_SIZE then bytes
    else Clear(bytes[..BINDING_ROW_SIZE]) + ClearAll(bytes[BINDING_ROW_SIZE..])
  }

  lemma {:induction false} ClearAllDecodes(bytes: seq<Byte>)
    ensures |BindingRows(ClearAll(bytes))| == |BindingRows(bytes)|
    ensures forall i :: 0 <= i < |BindingRows(bytes)| ==>
      BindingRows(ClearAll(bytes))[i] == BindingRows(bytes)[i].(node := NONE)
    decreases |bytes|
  {
    if |bytes| >= BINDING_ROW_SIZE {
      ClearAllDecodes(bytes[BINDING_ROW_SIZE..]);
      ClearAllFirst(bytes);
      var rows, rest := BindingRows(bytes), BindingRows(bytes[BINDING_ROW_SIZE..]);
      assert forall i :: 1 <= i < |rows| ==> rows[i] == rest[i - 1];
    }
  }

  lemma ClearAllFirst(bytes: seq<Byte>)
    requires |bytes| >= BINDING_ROW_SIZE
    ensures var first, rest := bytes[..BINDING_ROW_SIZE], bytes[BINDING_ROW_SIZE..];
      && BindingRows(bytes) == [DecodeBinding(first)] + BindingRows(rest)
      && BindingRows(ClearAll(bytes)) == [DecodeBinding(first).(node := NONE)] + BindingRows(ClearAll(rest))
  {
    var first, rest := bytes[..BINDING_ROW_SIZE], bytes[BINDING_ROW_SIZE..];
    assert bytes == first + rest;
    FirstBinding(first, rest);
    FirstBinding(Clear(first), ClearAll(rest));
  }

  lemma FirstBinding(first: seq<Byte>, rest: seq<Byte>)
    requires |first| == BINDING_ROW_SIZE
    ensures BindingRows(first + rest) == [DecodeBinding(first)] + BindingRows(rest)
  {
    assert (first + rest)[..BINDING_ROW_SIZE] == first && (first + rest)[BINDING_ROW_SIZE..] == rest;
    assert Chunks(first + rest, BINDING_ROW_SIZE) == [first] + Chunks(rest, BINDING_ROW_SIZE);
  }

  /** The binding rows alone, each with its node index cleared; the arena keeps its strings. */
  method BindingsOnly(out: EmitOut) returns (r: EmitOut)
    requires |out.meta| == META_SIZE
    ensures |BindingRows(r.bindings)| == |BindingRows(out.bindings)|
    ensures forall i :: 0 <= i < |BindingRows(out.bindings)| ==>
      BindingRows(r.bindings)[i] == BindingRows(out.bindings)[i].(node := NONE)
    ensures r.nodes == r.edges == r.refs == [] && r.arena == out.arena
    ensures |r.meta| == META_SIZE
    ensures DecodeMeta(r.meta) ==
      Meta(KERNEL_ABI_VERSION, 0, 0, 0, 0, Wrap32(|r.arena|), NONE_STR,
           out.meta[28..36], Wrap32(|BindingRows(r.bindings)|))
  {
    var bindings := out.bindings;
    var i := 0;
    while i + BINDING_ROW_SIZE <= |bindings|
      invariant i <= |bindings| == |out.bindings|
      invariant ClearAll(out.bindings) == bindings[..i] + ClearAll(bindings[i..])
    {
      ClearOne(bindings, i);
      bindings := bindings[..i + 4] + LE32(NONE) + bindings[i + 8..];
      i := i + BINDING_ROW_SIZE;
    }
    assert bindings[..i] + bindings[i..] == bindings;
    var count := Wrap32(|bindings| / BINDING_ROW_SIZE);
    var meta := BindingsMeta(out, count);
    r := EmitOut(BuildMeta(meta), [], [], [], bindings, out.arena);
    assert bindings[i..] == ClearAll(bindings[i..]);
    BindingsOnlyReads(out, r);
  }

  function BindingsMeta(out: EmitOut, count: U32): Meta
    requires |out.meta| == META_SIZE
  {
    Meta(KERNEL_ABI_VERSION, 0, 0, 0, 0, Wrap32(|out.arena|), NONE_STR, out.meta[28..36], count)
  }

  lemma BindingCount(bytes: seq<Byte>)
    ensures |bytes| / BINDING_ROW_SIZE == |BindingRows(bytes)|
  {
    ChunkCount(bytes, BINDING_ROW_SIZE);
  }

  lemma BindingsOnlyReads(out: EmitOut, r: EmitOut)
    requires |out.meta| == META_SIZE
    requires r.bindings == ClearAll(out.bindings)
    requires r.meta == BuildMeta(BindingsMeta(out, Wrap32(|r.bindings| / BINDING_ROW_SIZE)))
    ensures |BindingRows(r.bindings)| == |BindingRows(out.bindings)|
    ensures forall i :: 0 <= i < |BindingRows(out.bindings)| ==>
      BindingRows(r.bindings)[i] == BindingRows(out.bindings)[i].(node := NONE)
    ensures DecodeMeta(r.meta) == BindingsMeta(out, Wrap32(|BindingRows(r.bindings)|))
  {
    ClearAllDecodes(out.bindings);
    BindingCount(r.bindings);
    MetaRoundTrip(BindingsMeta(out, Wrap32(|BindingRows(r.bindings)|)));
  }

  lemma ClearOne(bytes: seq<Byte>, i: nat)
    requires i + BINDING_ROW_SIZE <= |bytes|
    ensures var bytes' := bytes[..i + 4] + LE32(NONE) + bytes[i + 8..];
      var next := i + BINDING_ROW_SIZE;
      bytes[..i] + ClearAll(bytes[i..]) == bytes'[..next] + ClearAll(bytes'[next..])
  {
    var bytes' := bytes[..i + 4] + LE32(NONE) + bytes[i + 8..];
    var next := i + BINDING_ROW_SIZE;
    var row := bytes[i..next];
    assert bytes[i..][..BINDING_ROW_SIZE] == row;
    assert bytes[i..][BINDING_ROW_SIZE..] == bytes[next..] == bytes'[next..];
    assert Clear(row) == row[..4] + LE32(NONE) + row[8..];
    assert bytes'[..next] == bytes[..i] + Clear(row);
  }
}
