/** What the lookups of the R walk find, said of the nodes themselves. */
module RLookups {
  import opened Bytes
  import opened Options
  import opened SyntaxTree
  import opened RLang
  import opened RReach

  /** `v` is the value of the first argument, whether that has a name or not. */
  ghost predicate IsFirstArgument(args: seq<Child>, v: Node) {
    exists i :: 0 <= i < |args| && IsArgument(args[i]) && ByField(args[i].node, "value") == Some(v)
      && forall j :: 0 <= j < i ==> !IsArgument(args[j])
  }

  predicate IsContent(c: Child) {
    c.named && c.node.kind == "string_content"
  }

  /** The text in a string's quotes: its first content, if it has any. */
  ghost predicate IsStringText(children: seq<Child>, t: Text) {
    || (t == [] && forall i :: 0 <= i < |children| ==> !IsContent(children[i]))
    || (exists i :: 0 <= i < |children| && IsContent(children[i]) && children[i].node.text == t
          && forall j :: 0 <= j < i ==> !IsContent(children[j]))
  }

  /** An identifier or a string that is not empty, with this text. */
  ghost predicate IsNameLiteral(v: Node, name: Text) {
    name != [] && ((v.kind == "identifier" && v.text == name) || (v.kind == "string" && IsStringText(v.children, name)))
  }

  ghost predicate NamesFirst(call: Node, name: Text) {
    exists v :: IsFirstArgument(Arguments(call), v) && IsNameLiteral(v, name)
  }

  predicate IsFunctionValue(c: Child) {
    && IsArgument(c) && ByField(c.node, "value").Some?
    && ByField(c.node, "value").value.kind == "function_definition"
  }

  /** The first function among the arguments, at whatever position. */
  ghost predicate IsFirstFunction(args: seq<Child>, f: Option<Node>) {
    match f
    case None => forall i :: 0 <= i < |args| ==> !IsFunctionValue(args[i])
    case Some(g) =>
      exists i :: 0 <= i < |args| && IsFunctionValue(args[i]) && ByField(args[i].node, "value") == f
        && forall j :: 0 <= j < i ==> !IsFunctionValue(args[j])
  }

  /** Called by its name, or by its name in a package. */
  predicate IsCalledAs(n: Node, callee: Text) {
    n.kind == "call" && ByField(n, "function").Some? &&
    var f := ByField(n, "function").value;
    (f.kind == "identifier" && f.text == callee)
    || (f.kind == "namespace_operator" && ByField(f, "rhs").Some? && ByField(f, "rhs").value.text == callee)
  }

  lemma {:induction false} FirstValueIff(args: seq<Child>, v: Node)
    ensures FirstValue(args) == Some(v) <==> IsFirstArgument(args, v)
  {
    if args != [] && !IsArgument(args[0]) {
      FirstValueIff(args[1..], v);
      assert forall i :: 1 <= i < |args| ==> args[1..][i - 1] == args[i];
    }
  }

  lemma {:induction false} StringTextIff(children: seq<Child>, t: Text)
    ensures StringContent(children) == t <==> IsStringText(children, t)
  {
    if children != [] && !IsContent(children[0]) {
      StringTextIff(children[1..], t);
      assert forall i :: 1 <= i < |children| ==> children[1..][i - 1] == children[i];
    }
  }

  lemma NameLiteralIff(v: Node, name: Text)
    ensures NonEmptyLiteral(Some(v)) == Some(name) <==> IsNameLiteral(v, name)
  {
    StringTextIff(v.children, name);
  }

  lemma TellsIff(call: Node, name: Text)
    ensures Tells(call, name) <==> NamesFirst(call, name)
  {
    if FirstArgValue(call).Some? {
      var v := FirstArgValue(call).value;
      FirstValueIff(Arguments(call), v);
      NameLiteralIff(v, name);
    }
    if v :| IsFirstArgument(Arguments(call), v) && IsNameLiteral(v, name) {
      FirstValueIff(Arguments(call), v);
      NameLiteralIff(v, name);
    }
  }

  lemma {:induction false} FirstFunctionIff(args: seq<Child>, f: Option<Node>)
    ensures FirstFunction(args) == f <==> IsFirstFunction(args, f)
  {
    if args != [] && !IsFunctionValue(args[0]) {
      FirstFunctionIff(args[1..], f);
      FirstFunctionFurther(args, f);
    }
  }

  lemma FirstFunctionFurther(args: seq<Child>, f: Option<Node>)
    requires args != [] && !IsFunctionValue(args[0])
    ensures IsFirstFunction(args, f) <==> IsFirstFunction(args[1..], f)
  {
    assert forall i :: 1 <= i < |args| ==> args[1..][i - 1] == args[i];
  }

  lemma ImplementationIff(call: Node, f: Option<Node>)
    ensures Implementation(call) == f <==> IsFirstFunction(Arguments(call), f)
  {
    FirstFunctionIff(Arguments(call), f);
  }

  lemma CallsIff(n: Node, callee: Text)
    ensures Calls(n, callee) <==> IsCalledAs(n, callee)
  {}

  lemma ClassOrGenericIff(value: Node)
    ensures DefinesClassOrGeneric(value) <==>
      exists callee :: Calls(value, callee) && (IsClassFn(callee) || IsGenericFn(callee))
  {
    if value.kind == "call" && CalleeName(value).Some? {
      CallsIff(value, CalleeName(value).value);
    }
  }
}
