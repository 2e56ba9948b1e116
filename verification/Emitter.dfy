/**
 What the language walkers share: the scope stack, the tables and the arena
 they append to (codegraph-kernel/src/rlang.rs and lua.rs `create_node`, `push_ref_at`;
 buffers.rs `push_file_node`, `finish`).
 */
module Emitter {
  import opened Bytes
  import opened Buffers
  import opened Ids
  import opened Options
  import opened Outline
  import opened SyntaxTree
  import opened Texts
  import opened Walking

  // ----- wire codes -----

  /** Index in NODE_KINDS. */
  function KindIndex(kind: Kind): Byte {
    match kind
    case File => 0
    case Class => 2
    case Function => 7
    case Method => 8
    case Variable => 11
    case Constant => 12
    case TypeAlias => 15
    case Import => 18
  }

  function KindName(kind: Kind): Text {
    Ascii(match kind
      case File => "file"
      case Class => "class"
      case Function => "function"
      case Method => "method"
      case Variable => "variable"
      case Constant => "constant"
      case TypeAlias => "type_alias"
      case Import => "import")
  }

  /** The (present, value) bit pair of isExported, which is pair 0. */
  function Flags(exported: Option<bool>): U16 {
    match exported
    case None => 0
    case Some(value) => if value then 3 else 1
  }

  // ----- what the bytes must say -----

  /** A string field denotes `expected`, and will after any later puts. */
  predicate Reads(arena: Text, r: StrRef, expected: Option<Text>) {
    Lookup(arena, r) == expected && (expected.None? ==> r == NONE_STR)
  }

  predicate NodeReads(arena: Text, r: NodeRow, info: NodeInfo, id: Text) {
    var d := info.decl;
    && r.kind == KindIndex(d.kind) && r.visibility == 0 && r.flags == Flags(d.exported)
    && Span(r.startLine, r.startColumn, r.endLine, r.endColumn) == d.span
    && Reads(arena, r.name, Some(d.name))
    && Reads(arena, r.qualifiedName, Some(info.qualified))
    && Reads(arena, r.id, Some(id))
    && Reads(arena, r.docstring, d.docstring)
    && Reads(arena, r.signature, d.signature)
    && r.decorators == r.typeParameters == r.returnType == r.extraJson == NONE_STR
  }

  predicate RefReads(arena: Text, r: RefRow, to: RefTo) {
    && r.from == to.from && r.kind == to.info.kind && r.flags == 0
    && r.line == to.info.line && r.column == to.info.column
    && Reads(arena, r.referenceName, Some(to.info.name))
    && r.candidates == r.fromIdStr == NONE_STR
  }

  /** The id requests behind the rows after the file's. */
  function Requests(hash: Hash, path: Text, infos: seq<NodeInfo>): (r: seq<Request>)
    requires infos != []
    ensures |r| == |infos| - 1
  {
    if |infos| == 1 then []
    else Requests(hash, path, infos[..|infos| - 1]) + [RequestFor(hash, path, infos[|infos| - 1].decl)]
  }

  function RequestFor(hash: Hash, path: Text, d: Decl): Request {
    Request(NodeId(hash, path, KindName(d.kind), d.name, d.span.startLine), d.span.startColumn)
  }

  /** The id of row `i`. */
  function IdAt(hash: Hash, path: Text, infos: seq<NodeInfo>, i: nat): Text
    requires i < |infos|
  {
    if i == 0 then FileNodeId(path) else IdOf(Requests(hash, path, infos), Requests(hash, path, infos)[i - 1])
  }

  /** One `contains` edge into every row but the file's. */
  function ContainsEdges(infos: seq<NodeInfo>): (r: seq<EdgeRow>)
    requires 0 < |infos| <= NONE
    requires forall i :: 0 <= i < |infos| ==> infos[i].parent < NONE
    ensures |r| == |infos| - 1
  {
    if |infos| == 1 then []
    else ContainsEdges(infos[..|infos| - 1]) + [ContainsRow(infos[|infos| - 1].parent, |infos| - 1)]
  }

  ghost predicate NodesRead(hash: Hash, path: Text, arena: Text, rows: seq<NodeRow>, infos: seq<NodeInfo>) {
    && |rows| == |infos|
    && forall i :: 0 <= i < |rows| ==> NodeReads(arena, rows[i], infos[i], IdAt(hash, path, infos, i))
  }

  ghost predicate RefsRead(arena: Text, rows: seq<RefRow>, refs: seq<RefTo>) {
    |rows| == |refs| && forall i :: 0 <= i < |rows| ==> RefReads(arena, rows[i], refs[i])
  }

  lemma ReadsStays(arena: Text, longer: Text, r: StrRef, expected: Option<Text>)
    requires Reads(arena, r, expected) && arena <= longer
    ensures Reads(longer, r, expected)
  {
    if expected.Some? {
      assert longer == arena + longer[|arena|..];
      LaterPutsDisturbNothing(arena, longer[|arena|..], r);
    }
  }

  lemma NodeReadsStays(arena: Text, longer: Text, r: NodeRow, info: NodeInfo, id: Text)
    requires NodeReads(arena, r, info, id) && arena <= longer
    ensures NodeReads(longer, r, info, id)
  {
    ReadsStays(arena, longer, r.name, Some(info.decl.name));
    ReadsStays(arena, longer, r.qualifiedName, Some(info.qualified));
    ReadsStays(arena, longer, r.id, Some(id));
    ReadsStays(arena, longer, r.docstring, info.decl.docstring);
    ReadsStays(arena, longer, r.signature, info.decl.signature);
  }

  lemma IdAtStays(hash: Hash, path: Text, infos: seq<NodeInfo>, info: NodeInfo, i: nat)
    requires i < |infos|
    ensures IdAt(hash, path, infos + [info], i) == IdAt(hash, path, infos, i)
    ensures Requests(hash, path, infos + [info]) == Requests(hash, path, infos) + [RequestFor(hash, path, info.decl)]
  {
    var before := Requests(hash, path, infos);
    var after := Requests(hash, path, infos + [info]);
    assert (infos + [info])[..|infos|] == infos;
    if i > 0 {
      var base := before[i - 1].base;
      FirstIndexAppend(before, RequestFor(hash, path, info.decl), base);
      assert FirstIndex(before, base) <= i - 1;
      assert after[FirstIndex(before, base)] == before[FirstIndex(before, base)];
    }
  }

  lemma NewestId(hash: Hash, path: Text, infos: seq<NodeInfo>, info: NodeInfo)
    requires infos != []
    ensures var r := RequestFor(hash, path, info.decl);
      var history := Requests(hash, path, infos) + [r];
      Requests(hash, path, infos + [info]) == history && IdAt(hash, path, infos + [info], |infos|) == IdOf(history, r)
  {
    IdAtStays(hash, path, infos, info, 0);
  }

  lemma {:induction false} RequestsAt(hash: Hash, path: Text, infos: seq<NodeInfo>, i: nat)
    requires 1 <= i < |infos|
    ensures Requests(hash, path, infos)[i - 1] == RequestFor(hash, path, infos[i].decl)
    decreases |infos|
  {
    if i < |infos| - 1 {
      RequestsAt(hash, path, infos[..|infos| - 1], i);
    }
  }

  lemma KindNamesAreFree(kind: Kind)
    ensures Free(KindName(kind), COLON)
  {
    match kind
    case File => assert forall i :: 0 <= i < |"file"| ==> "file"[i] != ':';
    case Class => assert forall i :: 0 <= i < |"class"| ==> "class"[i] != ':';
    case Function => assert forall i :: 0 <= i < |"function"| ==> "function"[i] != ':';
    case Method => assert forall i :: 0 <= i < |"method"| ==> "method"[i] != ':';
    case Variable => assert forall i :: 0 <= i < |"variable"| ==> "variable"[i] != ':';
    case Constant => assert forall i :: 0 <= i < |"constant"| ==> "constant"[i] != ':';
    case TypeAlias => assert forall i :: 0 <= i < |"type_alias"| ==> "type_alias"[i] != ':';
    case Import => assert forall i :: 0 <= i < |"import"| ==> "import"[i] != ':';
  }

  /** In every node table two rows after the file's have one id exactly when their base ids and columns agree. */
  lemma RowIdsAreExact(hash: Hash, path: Text, infos: seq<NodeInfo>, i: nat, j: nat)
    requires 1 <= i < |infos| && 1 <= j < |infos|
    ensures IdAt(hash, path, infos, i) == IdAt(hash, path, infos, j) <==>
      RequestFor(hash, path, infos[i].decl) == RequestFor(hash, path, infos[j].decl)
  {
    RequestsAreWellFormed(hash, path, infos);
    RequestIdsAreExact(hash, path, infos, i, j);
    RequestsAt(hash, path, infos, i);
    RequestsAt(hash, path, infos, j);
  }

  lemma RequestIdsAreExact(hash: Hash, path: Text, infos: seq<NodeInfo>, i: nat, j: nat)
    requires 1 <= i < |infos| && 1 <= j < |infos| && AllWellFormed(Requests(hash, path, infos))
    ensures var history := Requests(hash, path, infos);
      IdAt(hash, path, infos, i) == IdAt(hash, path, infos, j) <==> history[i - 1] == history[j - 1]
  {
    var history := Requests(hash, path, infos);
    IdAtIs(hash, path, infos, i);
    IdAtIs(hash, path, infos, j);
    SameIds(history, i - 1, j - 1, IdAt(hash, path, infos, i), IdAt(hash, path, infos, j));
  }

  lemma IdAtIs(hash: Hash, path: Text, infos: seq<NodeInfo>, i: nat)
    requires 1 <= i < |infos|
    ensures var history := Requests(hash, path, infos);
      IdAt(hash, path, infos, i) == IdOf(history, history[i - 1])
  {}

  lemma SameIds(history: seq<Request>, i: nat, j: nat, a: Text, b: Text)
    requires i < |history| && j < |history| && AllWellFormed(history)
    requires a == IdOf(history, history[i]) && b == IdOf(history, history[j])
    ensures a == b <==> history[i] == history[j]
  {
    IdsAreExact(history, i, j);
  }

  /**
   So, unless the digest maps two different texts of the file to one, two rows
   have one id exactly when they are of one kind and name and start in one place.
   */
  lemma RowIdsTellRowsApart(hash: Hash, path: Text, infos: seq<NodeInfo>, i: nat, j: nat)
    requires 1 <= i < |infos| && 1 <= j < |infos|
    requires hash(TextHashed(path, infos[i].decl)) == hash(TextHashed(path, infos[j].decl)) ==>
      TextHashed(path, infos[i].decl) == TextHashed(path, infos[j].decl)
    ensures IdAt(hash, path, infos, i) == IdAt(hash, path, infos, j) <==>
      var d, e := infos[i].decl, infos[j].decl;
      d.kind == e.kind && d.name == e.name
      && d.span.startLine == e.span.startLine && d.span.startColumn == e.span.startColumn
  {
    var d, e := infos[i].decl, infos[j].decl;
    RowIdsAreExact(hash, path, infos, i, j);
    KindNamesAreFree(d.kind);
    KindNamesAreFree(e.kind);
    NodeIdReadsBack(hash, path, KindName(d.kind), d.name, d.span.startLine);
    NodeIdReadsBack(hash, path, KindName(e.kind), e.name, e.span.startLine);
    if RequestFor(hash, path, d) == RequestFor(hash, path, e) {
      SameDigest(hash, path, d, e);
      KindsHaveNames(d.kind, e.kind);
      HashInputIsInjective(path, KindName(d.kind), d.name, d.span.startLine, e.name, e.span.startLine);
    }
  }

  function TextHashed(path: Text, d: Decl): Text {
    HashInput(path, KindName(d.kind), d.name, d.span.startLine)
  }

  lemma SameDigest(hash: Hash, path: Text, d: Decl, e: Decl)
    requires RequestFor(hash, path, d) == RequestFor(hash, path, e)
    ensures KindName(d.kind) == KindName(e.kind) && hash(TextHashed(path, d)) == hash(TextHashed(path, e))
  {
    var p := Split(NodeId(hash, path, KindName(d.kind), d.name, d.span.startLine), COLON);
    KindNamesAreFree(d.kind);
    KindNamesAreFree(e.kind);
    NodeIdReadsBack(hash, path, KindName(d.kind), d.name, d.span.startLine);
    NodeIdReadsBack(hash, path, KindName(e.kind), e.name, e.span.startLine);
    assert p[0] == KindName(d.kind) == KindName(e.kind);
    assert p[1] == Hex(hash(TextHashed(path, d))) == Hex(hash(TextHashed(path, e)));
    HexReadsBack(hash(TextHashed(path, d)));
    HexReadsBack(hash(TextHashed(path, e)));
  }

  /** The kinds by their numbers on the wire. */
  const NODE_KINDS: seq<string> := [
    "file", "module", "class", "struct", "interface", "trait", "protocol", "function", "method", "property", "field",
    "variable", "constant", "enum", "enum_member", "type_alias", "namespace", "parameter", "import", "export",
    "route", "component", "union", "endpoint"]

  const EDGE_KINDS: seq<string> := [
    "contains", "calls", "imports", "exports", "extends", "implements", "references", "type_of", "returns",
    "instantiates", "overrides", "decorates", "navigates"]

  /** The codes and names used here are those of the two lists. */
  lemma CodesAreListed(kind: Kind)
    ensures KindIndex(kind) < |NODE_KINDS| && KindName(kind) == Ascii(NODE_KINDS[KindIndex(kind)])
    ensures EDGE_KINDS[EDGE_CONTAINS] == "contains" && EDGE_KINDS[EDGE_CALLS] == "calls"
    ensures EDGE_KINDS[EDGE_IMPORTS] == "imports" && EDGE_KINDS[EDGE_EXTENDS] == "extends"
  {
  }

  lemma KindNameStarts(kind: Kind)
    ensures |KindName(kind)| ==
      match kind
      case File => 4
      case Class => 5
      case Method => 6
      case Import => 6
      case TypeAlias => 10
      case _ => 8
    ensures KindName(kind)[0] ==
      match kind
      case File => 102
      case Class => 99
      case Method => 109
      case Import => 105
      case TypeAlias => 116
      case Function => 102
      case Variable => 118
      case Constant => 99
  {
    assert "file"[0] == 'f' && "class"[0] == 'c' && "method"[0] == 'm' && "import"[0] == 'i';
    assert "type_alias"[0] == 't' && "function"[0] == 'f' && "variable"[0] == 'v' && "constant"[0] == 'c';
  }

  lemma KindsHaveNames(a: Kind, b: Kind)
    requires KindName(a) == KindName(b)
    ensures a == b
  {
    KindNameStarts(a);
    KindNameStarts(b);
  }

  /** The flags say in bit 0 whether exportedness is known, in bit 1 what it is. */
  lemma FlagsReadBack(exported: Option<bool>)
    ensures Flags(exported) % 2 == (if exported.Some? then 1 else 0)
    ensures Flags(exported) / 2 == (if exported == Some(true) then 1 else 0)
  {}

  lemma {:induction false} RequestsAreWellFormed(hash: Hash, path: Text, infos: seq<NodeInfo>)
    requires infos != []
    ensures AllWellFormed(Requests(hash, path, infos))
    decreases |infos|
  {
    if |infos| > 1 {
      var d := infos[|infos| - 1].decl;
      RequestsAreWellFormed(hash, path, infos[..|infos| - 1]);
      KindNamesAreFree(d.kind);
      NodeIdsAreWellFormed(hash, path, KindName(d.kind), d.name, d.span.startLine);
    }
  }

  /** Later puts and a further row leave every row reading as it did. */
  lemma NodesReadStays(hash: Hash, path: Text, arena: Text, longer: Text, rows: seq<NodeRow>, infos: seq<NodeInfo>)
    requires NodesRead(hash, path, arena, rows, infos) && arena <= longer
    ensures NodesRead(hash, path, longer, rows, infos)
  {
    forall i | 0 <= i < |rows|
      ensures NodeReads(longer, rows[i], infos[i], IdAt(hash, path, infos, i))
    {
      NodeReadsStays(arena, longer, rows[i], infos[i], IdAt(hash, path, infos, i));
    }
  }

  lemma NodesReadSnoc(hash: Hash, path: Text, arena: Text,
                      rows: seq<NodeRow>, infos: seq<NodeInfo>, row: NodeRow, info: NodeInfo)
    requires NodesRead(hash, path, arena, rows, infos) && infos != []
    requires NodeReads(arena, row, info, IdAt(hash, path, infos + [info], |infos|))
    ensures NodesRead(hash, path, arena, rows + [row], infos + [info])
  {
    forall i | 0 <= i < |rows|
      ensures IdAt(hash, path, infos + [info], i) == IdAt(hash, path, infos, i)
    {
      IdAtStays(hash, path, infos, info, i);
    }
  }

  lemma RefsReadStays(arena: Text, longer: Text, rows: seq<RefRow>, refs: seq<RefTo>)
    requires RefsRead(arena, rows, refs) && arena <= longer
    ensures RefsRead(longer, rows, refs)
  {
    forall i | 0 <= i < |rows|
      ensures RefReads(longer, rows[i], refs[i])
    {
      ReadsStays(arena, longer, rows[i].referenceName, Some(refs[i].info.name));
    }
  }

  /** The three tables, with the arena while it is small enough, say what `infos` and `refs` list. */
  ghost predicate Says(hash: Hash, path: Text, arena: Text,
                       nodes: seq<NodeRow>, edges: seq<EdgeRow>, refRows: seq<RefRow>,
                       infos: seq<NodeInfo>, refs: seq<RefTo>)
  {
    && 0 < |infos| < NONE
    && (forall i :: 0 <= i < |infos| ==> infos[i].parent < |infos|)
    && |nodes| == |infos|
    && |refRows| == |refs|
    && edges == ContainsEdges(infos)
    && (|arena| < NONE ==> NodesRead(hash, path, arena, nodes, infos) && RefsRead(arena, refRows, refs))
  }

  /** The same of a finished extraction. */
  ghost predicate EmitSays(o: EmitOut, hash: Hash, path: Text, infos: seq<NodeInfo>, refs: seq<RefTo>) {
    Says(hash, path, o.arena, NodeRows(o.nodes), EdgeRows(o.edges), RefRows(o.refs), infos, refs)
  }

  /** How many rows are symbols of the file rather than the file. */
  function Symbols(rows: seq<NodeRow>): nat {
    if rows == [] then 0
    else Symbols(rows[..|rows| - 1]) + if rows[|rows| - 1].kind != KindIndex(File) then 1 else 0
  }

  lemma SaysOneNodeMore(hash: Hash, path: Text, arena: Text, longer: Text,
                        nodes: seq<NodeRow>, edges: seq<EdgeRow>, refRows: seq<RefRow>,
                        infos: seq<NodeInfo>, refs: seq<RefTo>, r: NodeRow, info: NodeInfo)
    requires Says(hash, path, arena, nodes, edges, refRows, infos, refs)
    requires arena <= longer && |infos| + 1 < NONE && info.parent < |infos|
    requires |longer| < NONE ==> NodeReads(longer, r, info, IdAt(hash, path, infos + [info], |infos|))
    ensures Says(hash, path, longer, nodes + [r], edges + [ContainsRow(info.parent, |infos|)], refRows,
                 infos + [info], refs)
  {
    EdgesOneMore(infos, info);
    if |longer| < NONE {
      NodesReadStays(hash, path, arena, longer, nodes, infos);
      NodesReadSnoc(hash, path, longer, nodes, infos, r, info);
      RefsReadStays(arena, longer, refRows, refs);
    }
  }

  lemma EdgesOneMore(infos: seq<NodeInfo>, info: NodeInfo)
    requires 0 < |infos| && |infos| + 1 < NONE && info.parent < |infos|
    requires forall i :: 0 <= i < |infos| ==> infos[i].parent < |infos|
    ensures forall i :: 0 <= i < |infos + [info]| ==> (infos + [info])[i].parent < |infos + [info]|
    ensures ContainsEdges(infos + [info]) == ContainsEdges(infos) + [ContainsRow(info.parent, |infos|)]
  {
    assert (infos + [info])[..|infos|] == infos;
  }

  lemma SaysOneRefMore(hash: Hash, path: Text, arena: Text, longer: Text,
                       nodes: seq<NodeRow>, edges: seq<EdgeRow>, refRows: seq<RefRow>,
                       infos: seq<NodeInfo>, refs: seq<RefTo>, r: RefRow, to: RefTo)
    requires Says(hash, path, arena, nodes, edges, refRows, infos, refs)
    requires arena <= longer
    requires |longer| < NONE ==> RefReads(longer, r, to)
    ensures Says(hash, path, longer, nodes, edges, refRows + [r], infos, refs + [to])
  {
    if |longer| < NONE {
      NodesReadStays(hash, path, arena, longer, nodes, infos);
      RefsReadStays(arena, longer, refRows, refs);
    }
  }

  function BaseName(path: Text): Text {
    if path == [] || path[|path| - 1] == 47 || path[|path| - 1] == 92 then []
    else BaseName(path[..|path| - 1]) + [path[|path| - 1]]
  }

  /** It is what follows the last slash or backslash. */
  lemma {:induction false} BaseNameMeans(path: Text) returns (front: Text)
    ensures path == front + BaseName(path) && 47 !in BaseName(path) && 92 !in BaseName(path)
    ensures front != [] ==> front[|front| - 1] == 47 || front[|front| - 1] == 92
    decreases |path|
  {
    if path == [] || path[|path| - 1] == 47 || path[|path| - 1] == 92 {
      front := path;
    } else {
      front := BaseNameMeans(path[..|path| - 1]);
      assert path == path[..|path| - 1] + [path[|path| - 1]];
    }
  }

  /** The file's own declaration: its base name, lines 1 to `lineCount`, not exported. */
  function FileDecl(path: Text, lineCount: U32): Decl {
    Decl(File, BaseName(path), Span(1, 0, lineCount, 0), None, None, Some(false), Some(path), 0)
  }

  function WarningFor(rootHasError: bool, nodes: seq<Byte>, warning: Text): Option<Text> {
    if rootHasError && Symbols(NodeRows(nodes)) == 0 then Some(warning) else None
  }

  method CountSymbols(nodes: seq<Byte>) returns (symbols: nat)
    ensures symbols == Symbols(NodeRows(nodes))
  {
    var rows := Chunks(nodes, NODE_ROW_SIZE);
    symbols := 0;
    for i := 0 to |rows|
      invariant symbols == Symbols(NodeRows(nodes)[..i])
    {
      assert NodeRows(nodes)[..i + 1][..i] == NodeRows(nodes)[..i];
      if rows[i][0] != KindIndex(File) {
        symbols := symbols + 1;
      }
    }
    assert NodeRows(nodes)[..|rows|] == NodeRows(nodes);
  }

  class Emitter {
    const hash: Hash
    const filePath: Text
    const arena: Arena
    const tables: Tables
    const nodeIdAllocator: NodeIdAllocator
    var stack: seq<Scope>
    ghost var infos: seq<NodeInfo>   // what the node rows say
    ghost var refs: seq<RefTo>       // what the reference rows say
    ghost var log: seq<nat>          // the syntax nodes visited

    ghost function Snap(): Snapshot
      reads this
    {
      Snapshot(infos, refs, log)
    }

    ghost predicate Valid()
      reads this, arena, tables, nodeIdAllocator
    {
      && tables.Valid() && nodeIdAllocator.Valid()
      && tables.reexportImports == 0   // neither walker makes any
      && stack != [] && (forall i :: 0 <= i < |stack| ==> stack[i].row < |infos|)
      && Says(hash, filePath, arena.buf, NodeRows(tables.nodes), EdgeRows(tables.edges), RefRows(tables.refs),
              infos, refs)
      && nodeIdAllocator.history == Requests(hash, filePath, infos)
    }

    /** The three strings of a node, in the arena order the golden output has, and the optional two. */
    method PutStrings(first: Text, second: Text, third: Text, docstring: Option<Text>, signature: Option<Text>)
        returns (a: StrRef, b: StrRef, c: StrRef, doc: StrRef, sig: StrRef)
      modifies arena
      ensures old(arena.buf) <= arena.buf
      ensures |arena.buf| < NONE ==>
        && Reads(arena.buf, a, Some(first)) && Reads(arena.buf, b, Some(second)) && Reads(arena.buf, c, Some(third))
        && Reads(arena.buf, doc, docstring) && Reads(arena.buf, sig, signature)
    {
      a := arena.Put(first);
      ghost var s1 := arena.buf;
      b := arena.Put(second);
      ghost var s2 := arena.buf;
      c := arena.Put(third);
      ghost var s3 := arena.buf;
      doc := arena.PutOpt(docstring);
      ghost var s4 := arena.buf;
      sig := arena.PutOpt(signature);
      if |arena.buf| < NONE {
        ReadsStays(s1, arena.buf, a, Some(first));
        ReadsStays(s2, arena.buf, b, Some(second));
        ReadsStays(s3, arena.buf, c, Some(third));
        ReadsStays(s4, arena.buf, doc, docstring);
      }
    }

    /** The row of a declaration, its strings put into the arena. */
    method NodeRowFor(d: Decl, qualified: Text, id: Text) returns (r: NodeRow)
      modifies arena
      ensures old(arena.buf) <= arena.buf
      ensures |arena.buf| < NONE ==> forall parent :: NodeReads(arena.buf, r, NodeInfo(d, parent, qualified), id)
    {
      var name, qn, idRef, doc, sig := PutStrings(d.name, qualified, id, d.docstring, d.signature);
      r := NodeRow(KindIndex(d.kind), 0, Flags(d.exported),
                   d.span.startLine, d.span.endLine, d.span.startColumn, d.span.endColumn,
                   name, qn, idRef, doc, sig, NONE_STR, NONE_STR, NONE_STR, NONE_STR);
    }

    /** Appends a node row and its `contains` edge from the scope on top; a nameless node is not made. */
    method CreateNode(d: Decl) returns (row: Option<nat>)
      requires Valid() && (d.name != [] ==> |infos| + 1 < NONE)
      modifies this`infos, arena, tables, nodeIdAllocator
      ensures Valid()
      ensures d.name == [] ==> row == None && infos == old(infos)
      ensures d.name != [] ==> row == Some(|old(infos)|)
      ensures d.name != [] ==> infos == old(infos) + [NodeInfo(d, Top(stack).row, QualifiedName(stack, d))]
    {
      if d.name == [] {
        return None;
      }
      var idx := AddRow(d, Top(stack).row, QualifiedName(stack, d));
      row := Some(idx);
    }

    method AddRow(d: Decl, parent: nat, qualified: Text) returns (idx: nat)
      requires Valid() && |infos| + 1 < NONE && parent < |infos|
      modifies this`infos, arena, tables, nodeIdAllocator
      ensures Valid()
      ensures idx == |old(infos)| && infos == old(infos) + [NodeInfo(d, parent, qualified)]
    {
      ghost var info := NodeInfo(d, parent, qualified);
      NewestId(hash, filePath, infos, info);
      WrapSmall(|infos|);
      ghost var r;
      idx, r := AppendRow(d, parent, qualified);
      SaysOneNodeMore(hash, filePath, old(arena.buf), arena.buf, NodeRows(old(tables.nodes)),
                      EdgeRows(old(tables.edges)), RefRows(tables.refs), infos, refs, r, info);
      infos := infos + [info];
    }

    /** The bytes of a new row, its id and its edge. */
    method AppendRow(d: Decl, parent: nat, qualified: Text) returns (idx: nat, ghost row: NodeRow)
      requires tables.Valid() && nodeIdAllocator.Valid() && parent < NONE
      requires |NodeRows(tables.nodes)| < NONE
      modifies arena, tables, nodeIdAllocator
      ensures tables.Valid() && nodeIdAllocator.Valid()
      ensures idx == Wrap32(|NodeRows(old(tables.nodes))|)
      ensures NodeRows(tables.nodes) == NodeRows(old(tables.nodes)) + [row]
      ensures EdgeRows(tables.edges) == EdgeRows(old(tables.edges)) + [ContainsRow(parent, idx)]
      ensures tables.refs == old(tables.refs) && tables.reexportImports == old(tables.reexportImports)
      ensures nodeIdAllocator.history == old(nodeIdAllocator.history) + [RequestFor(hash, filePath, d)]
      ensures old(arena.buf) <= arena.buf
      ensures |arena.buf| < NONE ==>
        NodeReads(arena.buf, row, NodeInfo(d, parent, qualified),
                  IdOf(nodeIdAllocator.history, RequestFor(hash, filePath, d)))
    {
      var id := nodeIdAllocator.Generate(hash, filePath, KindName(d.kind), d.name,
                                         d.span.startLine, d.span.startColumn);
      var r := NodeRowFor(d, qualified, id);
      idx := tables.PushNode(r);
      tables.PushContains(parent, idx);
      row := r;
    }

    /** Appends a reference row. */
    method PushRefAt(from: nat, info: RefInfo)
      requires Valid() && from < |infos|
      modifies this`refs, arena, tables
      ensures Valid()
      ensures refs == old(refs) + [RefTo(info, from)]
    {
      ghost var rows := RefRows(tables.refs);
      var name := arena.Put(info.name);
      var r := RefRow(from, info.kind, 0, info.line, info.column, name, NONE_STR, NONE_STR);
      tables.PushRef(r);
      SaysOneRefMore(hash, filePath, old(arena.buf), arena.buf, NodeRows(tables.nodes), EdgeRows(tables.edges), rows,
                     infos, refs, r, RefTo(info, from));
      refs := refs + [RefTo(info, from)];
    }

    /** Records that a walk has come to a syntax node. */
    ghost method Note(at: nat)
      requires Valid()
      modifies this`log
      ensures Valid()
      ensures log == old(log) + [at]
    {
      log := log + [at];
    }

    method Push(scope: Scope)
      requires Valid() && scope.row < |infos|
      modifies this`stack
      ensures Valid()
      ensures stack == old(stack) + [scope] && Snap() == old(Snap())
    {
      stack := stack + [scope];
    }

    method Pop()
      requires Valid() && |stack| > 1
      modifies this`stack
      ensures Valid()
      ensures stack == old(stack)[..|old(stack)| - 1] && Snap() == old(Snap())
    {
      stack := stack[..|stack| - 1];
    }

    /** A warning for a tree with errors from which no symbol came. */
    method ParseCollapseWarning(rootHasError: bool, warning: Text) returns (errors: StrRef)
      requires Valid()
      modifies arena
      ensures Valid()
      ensures |arena.buf| < NONE ==> Lookup(arena.buf, errors) == WarningFor(rootHasError, tables.nodes, warning)
    {
      errors := NONE_STR;
      if !rootHasError {
        return;
      }
      var symbols := CountSymbols(tables.nodes);
      if symbols > tables.reexportImports {
        return;
      }
      errors := arena.Put(warning);
      if |arena.buf| < NONE {
        NodesReadStays(hash, filePath, old(arena.buf), arena.buf, NodeRows(tables.nodes), infos);
        RefsReadStays(old(arena.buf), arena.buf, RefRows(tables.refs), refs);
      }
    }

    /** The finished extraction: the meta block and the five buffers. */
    method Finish(rootHasError: bool, warning: Text, duration: seq<Byte>) returns (o: EmitOut)
      requires Valid() && |duration| == 8
      modifies arena
      ensures EmitSays(o, hash, filePath, infos, refs)
      ensures |o.meta| == META_SIZE
      ensures var m := DecodeMeta(o.meta);
        && m.nodes == |infos| && m.edges == |infos| - 1 && m.refs == Wrap32(|refs|)
        && m.arena == Wrap32(|o.arena|) && m.duration == duration
        && m.flags == (if rootHasError then 0 else META_PARSED_CLEAN)
        && (|o.arena| < NONE ==> Lookup(o.arena, m.errors) == WarningFor(rootHasError, o.nodes, warning))
    {
      var errors := ParseCollapseWarning(rootHasError, warning);
      var flags := if rootHasError then 0 else META_PARSED_CLEAN;
      var m := Meta(KERNEL_ABI_VERSION, flags, tables.nodeCount, tables.edgeCount, tables.refCount,
                    Wrap32(|arena.buf|), errors, duration, tables.bindingCount);
      MetaRoundTrip(m);
      WrapSmall(|infos|);
      WrapSmall(|infos| - 1);
      o := EmitOut(BuildMeta(m), tables.nodes, tables.edges, tables.refs, tables.bindings, arena.buf);
    }

    /** A walker starts with the file's node and the file on its stack. */
    constructor (hash: Hash, filePath: Text, lineCount: U32)
      ensures Valid() && fresh(arena) && fresh(tables) && fresh(nodeIdAllocator)
      ensures this.hash == hash && this.filePath == filePath
      ensures infos == [NodeInfo(FileDecl(filePath, lineCount), 0, filePath)] && refs == [] && log == []
      ensures stack == [Scope(0, File, BaseName(filePath))]
    {
      this.hash, this.filePath := hash, filePath;
      arena := new Arena();
      tables := new Tables();
      nodeIdAllocator := new NodeIdAllocator();
      stack := [Scope(0, File, BaseName(filePath))];
      infos, refs, log := [NodeInfo(FileDecl(filePath, lineCount), 0, filePath)], [], [];
      new;
      var d := FileDecl(filePath, lineCount);
      var idRef, name, qn, doc, sig := PutStrings(FileNodeId(filePath), BaseName(filePath), filePath, None, None);
      var idx := tables.PushNode(
        NodeRow(KindIndex(File), 0, Flags(d.exported), 1, lineCount, 0, 0,
                name, qn, idRef, doc, sig, NONE_STR, NONE_STR, NONE_STR, NONE_STR));
    }
  }

  /** A calls reference at the call, from the scope on top; nothing when the callee is empty. */
  method EmitCall(out: Emitter, parenConversion: Text -> Option<Text>, n: Node)
    requires out.Valid()
    modifies out, out.arena, out.tables
    ensures out.Valid() && out.stack == old(out.stack)
    ensures out.Snap() == After(old(out.Snap()), out.stack, ExtractCall(parenConversion, n))
  {
    AfterNothing(out.Snap(), out.stack);
    var f := Callee(n);
    if f.None? {
      return;
    }
    var callee := f.value.text;
    var inner := parenConversion(callee);
    if inner.Some? {
      callee := inner.value;
    }
    if callee == [] {
      return;
    }
    var info := RefAt(EDGE_CALLS, callee, n);
    AfterRef(out.Snap(), out.stack, info);
    out.PushRefAt(Top(out.stack).row, info);
  }

  /** An import node at the call, and an imports reference from the scope on top. */
  method EmitImport(out: Emitter, d: Decl, info: RefInfo)
    requires d.name != [] && out.Valid() && |out.infos| + 1 < NONE
    modifies out, out.arena, out.tables, out.nodeIdAllocator
    ensures out.Valid() && out.stack == old(out.stack)
    ensures out.Snap() == After(old(out.Snap()), out.stack, [Sym(d, []), Ref(info)])
  {
    AfterImport(out.Snap(), out.stack, d, info);
    var imp := out.CreateNode(d);
    out.PushRefAt(Top(out.stack).row, info);
  }

  lemma AfterImport(s: Snapshot, scopes: seq<Scope>, d: Decl, info: RefInfo)
    requires scopes != []
    ensures var s' := AfterRow(s, scopes, d);
      After(s, scopes, [Sym(d, []), Ref(info)]) == s'.(refs := s.refs + [RefTo(info, Top(scopes).row)])
  {
    assert [Sym(d, []), Ref(info)] == [Sym(d, [])] + [Ref(info)];
    AfterAppend(s, scopes, [Sym(d, [])], [Ref(info)]);
    AfterSym(s, scopes, d, []);
    AfterNothing(AfterRow(s, scopes, d), Inside(scopes, d, |s.infos|));
    AfterRef(AfterRow(s, scopes, d), scopes, info);
  }
}
