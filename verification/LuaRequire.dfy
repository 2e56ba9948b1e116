/** What the breadth-first search of Lua extraction finds, and with it which module a call requires. */
module LuaRequire {
  import opened Bytes
  import opened Options
  import opened SyntaxTree
  import opened Lua

  // ----- the search for a descendant -----

  /** Some node of the forest, at any depth, is of `kind`. */
  predicate AnyKind(nodes: seq<Node>, kind: string)
    decreases TotalSize(nodes)
  {
    nodes != [] &&
    (nodes[0].kind == kind || AnyKind(Named(nodes[0].children), kind) || AnyKind(nodes[1..], kind))
  }

  lemma {:induction false} AnyKindAppend(a: seq<Node>, b: seq<Node>, kind: string)
    ensures AnyKind(a + b, kind) <==> AnyKind(a, kind) || AnyKind(b, kind)
  {
    if a == [] {
      assert a + b == b;
    } else {
      assert (a + b)[1..] == a[1..] + b;
      AnyKindAppend(a[1..], b, kind);
    }
  }

  lemma {:induction false} AnyKindByLevels(level: seq<Node>, kind: string)
    ensures AnyKind(level, kind) <==> Find(level, kind).Some? || AnyKind(Below(level), kind)
  {
    if level != [] {
      AnyKindByLevels(level[1..], kind);
      AnyKindAppend(Named(level[0].children), Below(level[1..]), kind);
    }
  }

  /** Nothing is found exactly when there is nothing to find. */
  lemma {:induction false} FoundIffPresent(level: seq<Node>, kind: string)
    ensures Shallowest(level, kind).Some? <==> AnyKind(level, kind)
    decreases TotalSize(level)
  {
    if level != [] {
      AnyKindByLevels(level, kind);
      if Find(level, kind).None? {
        FoundIffPresent(Below(level), kind);
      }
    }
  }

  /** The nodes `depth` levels down, left to right. */
  function LevelAt(level: seq<Node>, depth: nat): seq<Node>
    decreases depth
  {
    if depth == 0 then level else LevelAt(Below(level), depth - 1)
  }

  predicate IsLeftmost(nodes: seq<Node>, kind: string, m: Node) {
    exists i :: 0 <= i < |nodes| && nodes[i] == m && m.kind == kind && forall j :: 0 <= j < i ==> nodes[j].kind != kind
  }

  lemma {:induction false} FindIsLeftmost(nodes: seq<Node>, kind: string)
    requires Find(nodes, kind).Some?
    ensures IsLeftmost(nodes, kind, Find(nodes, kind).value)
  {
    var m := Find(nodes, kind).value;
    if nodes[0].kind != kind {
      FindIsLeftmost(nodes[1..], kind);
      var i :| 0 <= i < |nodes[1..]| && nodes[1..][i] == m && forall j :: 0 <= j < i ==> nodes[1..][j].kind != kind;
      assert nodes[i + 1] == m;
      assert forall j :: 1 <= j < i + 1 ==> nodes[j] == nodes[1..][j - 1];
    }
  }

  /** What is found is the leftmost of its kind on the first level that has one. */
  lemma {:induction false} FoundIsShallowest(level: seq<Node>, kind: string) returns (depth: nat)
    requires Shallowest(level, kind).Some?
    ensures IsLeftmost(LevelAt(level, depth), kind, Shallowest(level, kind).value)
    ensures forall d: nat, i :: d < depth && 0 <= i < |LevelAt(level, d)| ==> LevelAt(level, d)[i].kind != kind
    decreases TotalSize(level)
  {
    if Find(level, kind).Some? {
      FindIsLeftmost(level, kind);
      depth := 0;
    } else {
      var below := FoundIsShallowest(Below(level), kind);
      depth := below + 1;
      forall d: nat, i | d < depth && 0 <= i < |LevelAt(level, d)|
        ensures LevelAt(level, d)[i].kind != kind
      {
        if d > 0 {
          assert LevelAt(level, d) == LevelAt(Below(level), d - 1);
        }
      }
    }
  }

  // ----- which module a call requires -----

  /** `m` is the leftmost node of `kind` on the first level below `n` that has one. */
  ghost predicate IsFirst(n: Node, kind: string, m: Node) {
    exists depth: nat :: IsFirstAt(Named(n.children), kind, m, depth)
  }

  ghost predicate IsFirstAt(level: seq<Node>, kind: string, m: Node, depth: nat) {
    && IsLeftmost(LevelAt(level, depth), kind, m)
    && forall d: nat, i :: d < depth && 0 <= i < |LevelAt(level, d)| ==> LevelAt(level, d)[i].kind != kind
  }

  predicate HasBelow(n: Node, kind: string) {
    AnyKind(Named(n.children), kind)
  }

  lemma LeftmostIsUnique(nodes: seq<Node>, kind: string, a: Node, b: Node)
    requires IsLeftmost(nodes, kind, a) && IsLeftmost(nodes, kind, b)
    ensures a == b
  {
    var i :| 0 <= i < |nodes| && nodes[i] == a && a.kind == kind && forall j :: 0 <= j < i ==> nodes[j].kind != kind;
    var k :| 0 <= k < |nodes| && nodes[k] == b && b.kind == kind && forall j :: 0 <= j < k ==> nodes[j].kind != kind;
  }

  lemma FirstIsUnique(level: seq<Node>, kind: string, a: Node, c: nat, b: Node, d: nat)
    requires IsFirstAt(level, kind, a, c) && IsFirstAt(level, kind, b, d)
    ensures a == b
  {
    if c == d {
      LeftmostIsUnique(LevelAt(level, c), kind, a, b);
    }
  }

  /** The search finds the first one, and something exactly when there is something to find. */
  lemma FoundIsFirst(n: Node, kind: string, m: Node)
    ensures FindDescendant(n, kind) == Some(m) <==> IsFirst(n, kind, m)
    ensures FindDescendant(n, kind).Some? <==> HasBelow(n, kind)
  {
    var level := Named(n.children);
    FoundIffPresent(level, kind);
    if FindDescendant(n, kind).Some? {
      var depth := FoundIsShallowest(level, kind);
      var found := FindDescendant(n, kind).value;
      assert IsFirstAt(level, kind, found, depth);
      if IsFirst(n, kind, m) {
        var d: nat :| IsFirstAt(level, kind, m, d);
        FirstIsUnique(level, kind, m, d, found, depth);
      }
    } else if IsFirst(n, kind, m) {
      var d: nat :| IsFirstAt(level, kind, m, d);
      KindAtLevel(level, kind, m, d);
    }
  }

  /** What stands on some level is there to be found. */
  lemma {:induction false} KindAtLevel(level: seq<Node>, kind: string, m: Node, depth: nat)
    requires IsLeftmost(LevelAt(level, depth), kind, m)
    ensures AnyKind(level, kind)
    decreases depth
  {
    AnyKindByLevels(level, kind);
    if depth > 0 {
      KindAtLevel(Below(level), kind, m, depth - 1);
    }
  }

  /** The argument holds a string whose content the grammar gives, and it is `mod` between blanks. */
  ghost predicate NamesContent(env: Env, args: Node, mod: Text) {
    exists m :: IsFirst(args, "string_content", m) && env.trim(m.text) == mod
  }

  /** The first string, its brackets and quotes taken off, is `mod`. */
  ghost predicate NamesString(env: Env, args: Node, mod: Text) {
    exists m :: IsFirst(args, "string", m) && Unquoted(env.trim(m.text)) == mod
  }

  /** The first indexed expression, a dotted one before a method's, ends in the segment `mod`. */
  ghost predicate NamesPath(env: Env, args: Node, mod: Text) {
    exists m ::
      && IsFirst(args, if HasBelow(args, "dot_index_expression") then "dot_index_expression"
                       else "method_index_expression", m)
      && EndsIn(env, m, mod)
  }

  predicate EndsIn(env: Env, m: Node, mod: Text) {
    FieldOrMethod(m).Some? && env.trim(FieldOrMethod(m).value.text) == mod
  }

  /** A text is what the arguments name as a module: string content before bare strings before paths. */
  ghost predicate Names(env: Env, args: Node, mod: Text) {
    if HasBelow(args, "string_content") then NamesContent(env, args, mod)
    else if HasBelow(args, "string") && !NamesString(env, args, []) then NamesString(env, args, mod)
    else NamesPath(env, args, mod)
  }

  predicate IsRequire(call: Node) {
    && ByField(call, "name").Some? && ByField(call, "name").value.kind == "identifier"
    && ByField(call, "name").value.text == Ascii("require")
  }

  lemma ContentIff(env: Env, args: Node, mod: Text)
    requires FindDescendant(args, "string_content").Some?
    ensures NamesContent(env, args, mod) <==> env.trim(FindDescendant(args, "string_content").value.text) == mod
  {
    FoundIsFirst(args, "string_content", FindDescendant(args, "string_content").value);
    forall m | IsFirst(args, "string_content", m)
      ensures FindDescendant(args, "string_content") == Some(m)
    {
      FoundIsFirst(args, "string_content", m);
    }
  }

  lemma StringIff(env: Env, args: Node, mod: Text)
    requires FindDescendant(args, "string").Some?
    ensures NamesString(env, args, mod) <==> Unquoted(env.trim(FindDescendant(args, "string").value.text)) == mod
  {
    FoundIsFirst(args, "string", FindDescendant(args, "string").value);
    forall m | IsFirst(args, "string", m)
      ensures FindDescendant(args, "string") == Some(m)
    {
      FoundIsFirst(args, "string", m);
    }
  }

  lemma PathIff(env: Env, args: Node, mod: Text)
    ensures InstancePath(env, args) == Some(mod) <==> mod != [] && NamesPath(env, args, mod)
  {
    var kind := if HasBelow(args, "dot_index_expression") then "dot_index_expression" else "method_index_expression";
    var found := FindDescendant(args, kind);
    FoundIsFirst(args, "dot_index_expression", args);
    assert found ==
      OrElse(FindDescendant(args, "dot_index_expression"), FindDescendant(args, "method_index_expression"));
    forall m
      ensures found == Some(m) <==> IsFirst(args, kind, m)
    {
      FoundIsFirst(args, kind, m);
    }
    if found.Some? {
      assert IsFirst(args, kind, found.value);
      assert NamesPath(env, args, mod) <==> EndsIn(env, found.value, mod);
    }
  }

  /**
   A call requires a module exactly when it is a call of `require` whose
   arguments name the module by a text that is not empty.
   */
  lemma RequireModuleIff(env: Env, call: Node, mod: Text)
    ensures RequireModule(env, call) == Some(mod) <==>
      && IsRequire(call) && ByField(call, "arguments").Some?
      && mod != [] && Names(env, ByField(call, "arguments").value, mod)
  {
    if IsRequire(call) && ByField(call, "arguments").Some? {
      ModuleNamedInIff(env, ByField(call, "arguments").value, mod);
    }
  }

  lemma ModuleNamedInIff(env: Env, args: Node, mod: Text)
    ensures ModuleNamedIn(env, args) == Some(mod) <==> mod != [] && Names(env, args, mod)
  {
    FoundIsFirst(args, "string_content", args);
    FoundIsFirst(args, "string", args);
    PathIff(env, args, mod);
    if FindDescendant(args, "string_content").Some? {
      ContentIff(env, args, mod);
    } else if FindDescendant(args, "string").Some? {
      StringIff(env, args, mod);
      StringIff(env, args, []);
    }
  }

  /** Taking the quotes off a quoted text gives the text. */
  lemma QuotedReadsBack(q: Byte, t: Text, r: Byte)
    requires IsQuote(q) && IsQuote(r)
    ensures Unquoted([q] + t + [r]) == t
  {
    var s := [q] + t + [r];
    assert s[0] == q && s[|s| - 1] == r && s[1..] == t + [r];
    assert Ascii("[[")[0] == 91 && Ascii("]]")[1] == 93;
    assert s[..2] != Ascii("[[") by {
      assert s[..2][0] == q;
    }
    assert s[|s| - 2..] != Ascii("]]") by {
      assert s[|s| - 2..][1] == r;
    }
  }

  /** Taking the brackets off a long string gives the text exactly when that neither starts nor ends with a quote. */
  lemma BracketedReadsBackIff(t: Text)
    ensures Unquoted(Ascii("[[") + t + Ascii("]]")) == t <==> t == [] || (!IsQuote(t[0]) && !IsQuote(t[|t| - 1]))
  {
    var open, close := Ascii("[["), Ascii("]]");
    var s := open + t + close;
    assert s[..2] == open && s[2..] == t + close;
    assert (t + close)[|t|..] == close && (t + close)[..|t|] == t;
    if t != [] && !IsQuote(t[0]) && IsQuote(t[|t| - 1]) {
      assert |Unquoted(s)| == |t| - 1;
    }
  }
}
