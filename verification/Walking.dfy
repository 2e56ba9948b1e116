/** What the language walks have in common. */
module Walking {
  import opened Buffers
  import opened Bytes
  import opened Options
  import opened Outline
  import opened SyntaxTree

  function TextOf(n: Option<Node>): Option<Text> {
    match n case None => None case Some(m) => Some(m.text)
  }

  function RefAt(kind: Byte, name: Text, n: Node): RefInfo {
    RefInfo(kind, name, n.span.startLine, n.span.startColumn, n.index)
  }

  /** A nameless declaration is not made, and then nothing inside it is looked at. */
  function SymUnlessNameless(d: Decl, inside: seq<Item>): seq<Item> {
    if d.name == [] then [] else [Sym(d, inside)]
  }

  /** A call that is nothing special: the raw text of what is called. */
  function ExtractCall(parenConversion: Text -> Option<Text>, n: Node): seq<Item> {
    match CalleeText(parenConversion, n)
    case None => []
    case Some(name) => [Ref(RefAt(EDGE_CALLS, name, n))]
  }

  function CalleeText(parenConversion: Text -> Option<Text>, n: Node): (r: Option<Text>)
    ensures r.Some? ==> r.value != []
  {
    match Callee(n)
    case None => None
    case Some(f) =>
      var name := match parenConversion(f.text) case None => f.text case Some(inner) => inner;
      if name == [] then None else Some(name)
  }

  function Callee(n: Node): Option<Node> {
    match ByField(n, "function") case Some(f) => Some(f) case None => FirstNamed(n.children)
  }

  /** What is called: the node in the `function` field, or without one the first named child. */
  predicate IsCallee(n: Node, f: Node) {
    ByField(n, "function") == Some(f) || (ByField(n, "function").None? && FirstNamed(n.children) == Some(f))
  }

  /** A call is named after its callee's text, or after what a parenthesized conversion holds, unless that is empty. */
  lemma CalleeTextIff(parenConversion: Text -> Option<Text>, n: Node, t: Text)
    ensures CalleeText(parenConversion, n) == Some(t) <==>
      && t != []
      && exists f :: IsCallee(n, f) &&
          (parenConversion(f.text) == Some(t) || (parenConversion(f.text).None? && f.text == t))
  {
    if Callee(n).Some? {
      assert IsCallee(n, Callee(n).value);
    }
  }

  lemma WellFormedSym(d: Decl, inside: seq<Item>, outer: Span)
    requires !d.kind.File? && Nested(d.span, outer) && WellFormed(inside, d.span)
    ensures WellFormed(SymUnlessNameless(d, inside), outer)
    ensures d.name != [] ==> WellFormed([Sym(d, inside)], outer)
  {
    assert [Sym(d, inside)][1..] == [];
  }

  lemma WellFormedLeaf(item: Item, outer: Span)
    requires !item.Sym?
    ensures WellFormed([item], outer)
  {
    assert WellFormedItem(item, outer);
    assert [item][1..] == [];
  }

  lemma WellFormedCall(parenConversion: Text -> Option<Text>, n: Node, outer: Span)
    ensures WellFormed(ExtractCall(parenConversion, n), outer)
  {
    if CalleeText(parenConversion, n).Some? {
      WellFormedLeaf(ExtractCall(parenConversion, n)[0], outer);
    }
  }

  lemma CountImport(d: Decl, info: RefInfo)
    ensures Count([Sym(d, []), Ref(info)]) == 1
  {
    assert [Sym(d, []), Ref(info)] == [Sym(d, [])] + [Ref(info)];
    CountAppend([Sym(d, [])], [Ref(info)]);
    CountSym(d, []);
    assert [Ref(info)][1..] == [];
  }
}
