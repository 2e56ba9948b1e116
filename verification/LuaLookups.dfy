/** What the lookups of the Lua walk find, said of the nodes themselves. */
module LuaLookups {
  import opened Bytes
  import opened Options
  import opened Outline
  import opened SyntaxTree
  import opened Lua
  import opened LuaDecls

  // ----- children -----

  function NamedCount(children: seq<Child>): nat {
    if children == [] then 0 else (if children[0].named then 1 else 0) + NamedCount(children[1..])
  }

  /** The named children, all of them and in order. */
  lemma {:induction false} NamedAreInOrder(children: seq<Child>, i: nat)
    requires i < |children| && children[i].named
    ensures |Named(children)| == NamedCount(children)
    ensures NamedCount(children[..i]) < |Named(children)|
    ensures Named(children)[NamedCount(children[..i])] == children[i].node
  {
    NamedAreCounted(children);
    if i > 0 {
      NamedAreInOrder(children[1..], i - 1);
      assert children[..i][1..] == children[1..][..i - 1];
    }
  }

  lemma {:induction false} NamedAreCounted(children: seq<Child>)
    ensures |Named(children)| == NamedCount(children)
  {
    if children != [] {
      NamedAreCounted(children[1..]);
    }
  }

  /** The first node of a kind. */
  lemma {:induction false} FindIff(nodes: seq<Node>, kind: string, m: Node)
    ensures Find(nodes, kind) == Some(m) <==>
      exists i :: 0 <= i < |nodes| && nodes[i] == m && m.kind == kind
        && forall j :: 0 <= j < i ==> nodes[j].kind != kind
  {
    if nodes != [] && nodes[0].kind != kind {
      FindIff(nodes[1..], kind, m);
      assert forall i :: 1 <= i < |nodes| ==> nodes[1..][i - 1] == nodes[i];
    }
  }

  // ----- names of functions -----

  /** The name is `table.member` or `table:member`. */
  predicate IsNamedIn(n: Node, table: Node, member: Node) {
    ByField(n, "name").Some? &&
    var name := ByField(n, "name").value;
    && ByField(name, "table") == Some(table)
    && (|| (name.kind == "dot_index_expression" && ByField(name, "field") == Some(member))
        || (name.kind == "method_index_expression" && ByField(name, "method") == Some(member)))
  }

  /**
   A function whose name is an index expression is a method called by the last
   part, and qualified by the text of the table, whatever it lies in.
   */
  lemma IndexNamedIsMethod(env: Env, n: Node, table: Node, member: Node, d: Decl)
    requires IsNamedIn(n, table, member)
    ensures IsDeclaredBy(env, n, d) <==>
      && member.text != [] && d.name == member.text && d.kind == Method && d.span == n.span && d.at == n.index
      && d.qualifiedOverride == Some(table.text + [58, 58] + member.text)
      && d.signature == SignatureOf(env, n) && d.docstring == env.docstring(n.index) && d.exported.None?
  {}

  /** A function with any other name is called by its text, and qualified by what it lies in. */
  lemma OtherwiseNamedIsFunction(env: Env, n: Node, name: Node, d: Decl)
    requires ByField(n, "name") == Some(name)
    requires name.kind != "dot_index_expression" && name.kind != "method_index_expression"
    ensures IsDeclaredBy(env, n, d) <==>
      && name.text != [] && name.text != ANONYMOUS && d.name == name.text && d.kind == Function
      && d.span == n.span && d.at == n.index && d.qualifiedOverride.None?
      && d.signature == SignatureOf(env, n) && d.docstring == env.docstring(n.index)
      && d.exported == IsExportedOf(env, n)
  {}

  /** Without a name it is called by its first child that is an identifier of some sort. */
  lemma {:induction false} FirstIdentifierishIff(nodes: seq<Node>, t: Text)
    ensures FirstIdentifierish(nodes) == t <==>
      || (t == ANONYMOUS && forall i :: 0 <= i < |nodes| ==> !IsIdentifierish(nodes[i]))
      || (exists i :: 0 <= i < |nodes| && IsIdentifierish(nodes[i]) && nodes[i].text == t
            && forall j :: 0 <= j < i ==> !IsIdentifierish(nodes[j]))
  {
    if nodes != [] && !IsIdentifierish(nodes[0]) {
      FirstIdentifierishIff(nodes[1..], t);
      assert forall i :: 1 <= i < |nodes| ==> nodes[1..][i - 1] == nodes[i];
    }
  }

  // ----- signatures -----

  predicate StartsWhere(m: Node, n: Node) {
    m.span.startLine == n.span.startLine && m.span.startColumn == n.span.startColumn
  }

  /** The `i`th node is the first one that starts where the parameters do, and `ret` comes right after. */
  predicate FollowsAt(nodes: seq<Node>, params: Node, ret: Node, i: nat) {
    && i + 1 < |nodes| && StartsWhere(nodes[i], params) && nodes[i + 1] == ret
    && NoneStartsWhere(nodes[..i], params)
  }

  predicate NoneStartsWhere(nodes: seq<Node>, params: Node) {
    forall m :: m in nodes ==> !StartsWhere(m, params)
  }

  lemma {:induction false} AfterParametersIff(nodes: seq<Node>, params: Node, ret: Node)
    ensures AfterParameters(nodes, params) == Some(ret) <==> exists i: nat :: FollowsAt(nodes, params, ret, i)
  {
    if nodes != [] {
      if StartsWhere(nodes[0], params) {
        assert |nodes| > 1 ==> FollowsAt(nodes, params, nodes[1], 0);
        FirstStartFollows(nodes, params, ret);
      } else {
        AfterParametersIff(nodes[1..], params, ret);
        FollowsFurther(nodes, params, ret);
      }
    }
  }

  lemma FirstStartFollows(nodes: seq<Node>, params: Node, ret: Node)
    requires nodes != [] && StartsWhere(nodes[0], params)
    ensures forall i: nat :: FollowsAt(nodes, params, ret, i) ==> i == 0
  {
    forall i: nat
      ensures FollowsAt(nodes, params, ret, i) ==> i == 0
    {
      if 0 < i <= |nodes| {
        assert nodes[..i][0] == nodes[0];
      }
    }
  }

  lemma FollowsFurther(nodes: seq<Node>, params: Node, ret: Node)
    requires nodes != [] && !StartsWhere(nodes[0], params)
    ensures (exists i: nat :: FollowsAt(nodes, params, ret, i)) <==>
      exists i: nat :: FollowsAt(nodes[1..], params, ret, i)
  {
    var rest := nodes[1..];
    if i: nat :| FollowsAt(nodes, params, ret, i) {
      assert nodes[..i][1..] == rest[..i - 1];
      assert FollowsAt(rest, params, ret, i - 1);
    }
    if i: nat :| FollowsAt(rest, params, ret, i) {
      assert nodes[..i + 1] == [nodes[0]] + rest[..i];
      assert FollowsAt(nodes, params, ret, i + 1);
    }
  }

  /** The text of the parameters; in Luau with what follows them, unless that is the body. */
  lemma SignatureMeans(env: Env, n: Node, params: Node)
    requires ByField(n, "parameters") == Some(params)
    requires forall i: nat, ret :: env.isLuau && FollowsAt(Named(n.children), params, ret, i) ==> ret.kind == "block"
    ensures SignatureOf(env, n) == Some(params.text)
  {
    var nodes := Named(n.children);
    var sig := params.text + [];
    assert sig == params.text;
    if env.isLuau && AfterParameters(nodes, params).Some? {
      var ret := AfterParameters(nodes, params).value;
      AfterParametersIff(nodes, params, ret);
      var i: nat :| FollowsAt(nodes, params, ret, i);
      assert ret.kind == "block";
    }
  }

  lemma SignatureWithReturnMeans(env: Env, n: Node, params: Node, i: nat, ret: Node)
    requires ByField(n, "parameters") == Some(params) && env.isLuau
    requires FollowsAt(Named(n.children), params, ret, i) && ret.kind != "block"
    ensures SignatureOf(env, n) == Some(params.text + [58, 32] + ret.text)
  {
    AfterParametersIff(Named(n.children), params, ret);
    assert Ascii(": ") == [58, 32];
    assert params.text + ([58, 32] + ret.text) == params.text + [58, 32] + ret.text;
  }

  lemma ExportedMeans(env: Env, n: Node)
    ensures IsExportedOf(env, n) == if env.isLuau then Some(Ascii("export ") <= n.text) else None
  {}

  // ----- targets and keys -----

  /** What a key says: an identifier, unless in brackets, or the content of a string; trimmed, and not empty. */
  ghost predicate IsStaticKey(env: Env, m: Node, bracketed: bool, key: Text) {
    key != [] &&
    (|| (m.kind == "identifier" && !bracketed && key == env.trim(m.text))
     || (m.kind == "string"
         && exists c :: Find(Named(m.children), "string_content") == Some(c) && key == env.trim(c.text)))
  }

  lemma StaticKeyIff(env: Env, m: Node, bracketed: bool, key: Text)
    requires key != []
    ensures StaticFieldName(env, m, bracketed) == key <==> IsStaticKey(env, m, bracketed, key)
  {}

  /** A table's field is called by its `name`, which is in brackets when the field starts with one. */
  lemma FieldNameIff(env: Env, field: Node, key: Text)
    requires key != []
    ensures FieldName(env, field) == key <==>
      exists m :: ByField(field, "name") == Some(m) && IsStaticKey(env, m, [91] <= env.trimStart(field.text), key)
  {
    if ByField(field, "name").Some? {
      StaticKeyIff(env, ByField(field, "name").value, [91] <= env.trimStart(field.text), key);
    }
  }

  /** A name by itself has no receiver. */
  lemma PlainTargetIff(env: Env, t: Node, target: Target)
    requires t.kind == "identifier"
    ensures AssignmentTarget(env, t) == Some(target) <==>
      && env.trim(t.text) != [] && target.name == env.trim(t.text) && target.receiver.None?
      && target.fullName == target.name
  {}

  /** A field, a method or a key of a table, with both together joined by a dot. */
  lemma MemberTargetIff(env: Env, t: Node, target: Target)
    requires t.kind != "identifier"
    ensures AssignmentTarget(env, t) == Some(target) <==>
      && (|| t.kind == "dot_index_expression" || t.kind == "method_index_expression"
          || t.kind == "bracket_index_expression")
      && exists table, m ::
          ByField(t, "table") == Some(table) && IsMemberOf(t, m)
          && env.trim(table.text) != [] && target.receiver == Some(env.trim(table.text))
          && IsStaticKey(env, m, t.kind == "bracket_index_expression", target.name)
          && target.fullName == env.trim(table.text) + [46] + target.name
  {
    if ByField(t, "table").Some? && FieldOrMethod(t).Some? {
      var m := FieldOrMethod(t).value;
      var name := StaticFieldName(env, m, t.kind == "bracket_index_expression");
      assert IsMemberOf(t, m) && forall m' :: IsMemberOf(t, m') ==> m' == m;
      if name != [] {
        StaticKeyIff(env, m, t.kind == "bracket_index_expression", name);
      }
      if target.name != [] {
        StaticKeyIff(env, m, t.kind == "bracket_index_expression", target.name);
      }
    }
  }

  predicate IsMemberOf(t: Node, m: Node) {
    ByField(t, "field") == Some(m) || (ByField(t, "field").None? && ByField(t, "method") == Some(m))
  }
}
