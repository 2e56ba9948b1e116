/**
 The R walker as it runs, codegraph-kernel/src/rlang.rs: a recursive walk that
 pushes and pops a scope stack and appends to the tables.  Each method is
 proved to append exactly the rows of the outline RLang gives, and to leave the
 stack as it found it.
 */
module RWalker {
  import opened Buffers
  import opened Bytes
  import opened Emitter
  import opened Ids
  import opened Options
  import opened Outline
  import opened RLangFacts
  import opened SyntaxTree
  import opened Texts
  import opened Walking
  import R = RLang

  class Walker {
    const env: R.Env
    const out: Emitter

    constructor (env: R.Env, hash: Hash, filePath: Text, lineCount: U32)
      ensures this.env == env && fresh(out) && fresh(out.arena) && fresh(out.tables) && fresh(out.nodeIdAllocator)
      ensures out.Valid() && out.hash == hash && out.filePath == filePath
      ensures out.infos == [NodeInfo(FileDecl(filePath, lineCount), 0, filePath)] && out.refs == [] && out.log == []
      ensures out.stack == [Scope(0, File, BaseName(filePath))]
    {
      this.env := env;
      out := new Emitter(hash, filePath, lineCount);
    }

    /** Rows are numbered by u32. */
    ghost predicate Room(items: seq<Item>)
      reads out
    {
      |out.infos| + Count(items) < NONE
    }

    method Visit(n: Node, top: bool)
      requires out.Valid() && Room(R.Visit(env, n, top))
      modifies out, out.arena, out.tables, out.nodeIdAllocator
      ensures out.Valid() && out.stack == old(out.stack)
      ensures out.Snap() == After(old(out.Snap()), out.stack, R.Visit(env, n, top))
      decreases Size(n), 5
    {
      ghost var s, mark := out.Snap(), [Visited(n.index, Main, Plain)];
      ghost var hook := R.Hook(env, n, top);
      ghost var call := if n.kind == "call" then Walking.ExtractCall(env.parenConversion, n) else [];
      ghost var all := R.VisitAll(env, n.children, n.kind == "program");
      out.Note(n.index);
      AfterVisited(s, out.stack, n.index, Main, Plain);
      CountAppend(mark, if hook.Some? then hook.value else call + all);
      AfterAppend(s, out.stack, mark, if hook.Some? then hook.value else call + all);
      var consumed := Hook(n, top);
      if consumed {
        return;
      }
      CountAppend(call, all);
      AfterAppend(out.Snap(), out.stack, call, all);
      if n.kind == "call" {
        EmitCall(out, env.parenConversion, n);
      } else {
        AfterNothing(out.Snap(), out.stack);
      }
      VisitChildren(n.children, n.kind == "program");
    }

    /** `for child in node.named_children`: visit each. */
    method VisitChildren(children: seq<Child>, top: bool)
      requires out.Valid() && Room(R.VisitAll(env, children, top))
      modifies out, out.arena, out.tables, out.nodeIdAllocator
      ensures out.Valid() && out.stack == old(out.stack)
      ensures out.Snap() == After(old(out.Snap()), out.stack, R.VisitAll(env, children, top))
      decreases SizeAll(children), 6
    {
      ghost var goal := After(out.Snap(), out.stack, R.VisitAll(env, children, top));
      ghost var left := R.VisitAll(env, children, top);
      var i := 0;
      assert children[0..] == children;
      while i < |children|
        invariant i <= |children| && left == R.VisitAll(env, children[i..], top)
        invariant out.Valid() && out.stack == old(out.stack)
        invariant Room(left) && After(out.Snap(), out.stack, left) == goal
      {
        TailOfSlice(children, i);
        ChildIsSmaller(children, i);
        ghost var first := if children[i].named then R.Visit(env, children[i].node, top) else [];
        left := R.VisitAll(env, children[i + 1..], top);
        InTurn(out.Snap(), out.stack, first, left);
        if children[i].named {
          Visit(children[i].node, top);
        }
        i := i + 1;
      }
    }

    /** The language hook; true when it consumes the node. */
    method Hook(n: Node, top: bool) returns (consumed: bool)
      requires out.Valid() && (R.Hook(env, n, top).Some? ==> Room(R.Hook(env, n, top).value))
      modifies out, out.arena, out.tables, out.nodeIdAllocator
      ensures out.Valid() && out.stack == old(out.stack)
      ensures consumed <==> R.Hook(env, n, top).Some?
      ensures out.Snap() ==
        if consumed then After(old(out.Snap()), out.stack, R.Hook(env, n, top).value) else old(out.Snap())
      decreases Size(n), 4
    {
      if n.kind == "call" {
        consumed := HookCall(n);
      } else if n.kind == "binary_operator" {
        consumed := HookBinaryOperator(n, top);
      } else {
        consumed := false;
      }
    }

    method HookCall(n: Node) returns (consumed: bool)
      requires out.Valid() && (R.HookCall(env, n).Some? ==> Room(R.HookCall(env, n).value))
      modifies out, out.arena, out.tables, out.nodeIdAllocator
      ensures out.Valid() && out.stack == old(out.stack)
      ensures consumed <==> R.HookCall(env, n).Some?
      ensures out.Snap() ==
        if consumed then After(old(out.Snap()), out.stack, R.HookCall(env, n).value) else old(out.Snap())
      decreases Size(n), 3
    {
      var callee := R.CalleeName(n);
      if callee.None? {
        return false;
      }
      var fname := callee.value;
      var first := R.NonEmptyLiteral(R.FirstArgValue(n));
      if R.IsImportFn(fname) || fname == Ascii("source") {
        if first.None? {
          AfterNothing(out.Snap(), out.stack);
          return true;
        }
        var d := R.DeclAt(Import, first.value, n, Some(env.importSignature(n.text)));
        CountImport(d, RefAt(EDGE_IMPORTS, first.value, n));
        EmitImport(out, d, RefAt(EDGE_IMPORTS, first.value, n));
        return true;
      }
      if R.IsClassFn(fname) {
        if first.None? {
          return false;
        }
        EmitClass(n, first.value);
        return true;
      }
      if R.IsGenericFn(fname) {
        if first.None? {
          return false;
        }
        EmitFunction(R.DeclAt(Function, first.value, n, None), R.Implementation(n), Size(n));
        return true;
      }
      return false;
    }

    /** A class node at the call and, with its scope pushed, its members. */
    method EmitClass(n: Node, name: Text)
      requires name != [] && out.Valid() && Room([Sym(R.DeclAt(Class, name, n, None), R.ClassMembers(env, n))])
      modifies out, out.arena, out.tables, out.nodeIdAllocator
      ensures out.Valid() && out.stack == old(out.stack)
      ensures out.Snap() ==
        After(old(out.Snap()), out.stack, [Sym(R.DeclAt(Class, name, n, None), R.ClassMembers(env, n))])
      decreases Size(n), 2, 1
    {
      var d := R.DeclAt(Class, name, n, None);
      ghost var members := R.ClassMembers(env, n);
      AfterSym(out.Snap(), out.stack, d, members);
      var row := out.CreateNode(d);
      ExtractInside(Scope(row.value, Class, name), n);
    }

    method ExtractInside(scope: Scope, n: Node)
      requires out.Valid() && Room(R.ClassMembers(env, n)) && scope.row < |out.infos|
      modifies out, out.arena, out.tables, out.nodeIdAllocator
      ensures out.Valid() && out.stack == old(out.stack)
      ensures out.Snap() == After(old(out.Snap()), out.stack + [scope], R.ClassMembers(env, n))
      decreases Size(n), 2, 0, 1
    {
      out.Push(scope);
      ExtractClassMembers(n, scope.row);
      out.Pop();
    }

    /** A function or method node and, with its scope pushed, the walk of its body. */
    method EmitFunction(d: Decl, f: Option<Node>, ghost limit: nat)
      requires out.Valid() && Room(R.FunctionSym(env, d, f))
      requires f.Some? ==> Size(f.value) < limit
      modifies out, out.arena, out.tables, out.nodeIdAllocator
      ensures out.Valid() && out.stack == old(out.stack)
      ensures out.Snap() == After(old(out.Snap()), out.stack, R.FunctionSym(env, d, f))
      decreases limit, 1
    {
      var d' := if f.Some? then d.(signature := TextOf(ByField(f.value, "parameters"))) else d;
      var body := if f.Some? then ByField(f.value, "body") else None;
      ghost var s := out.Snap();
      ghost var inside := if body.Some? then R.Visit(env, body.value, false) else [];
      assert R.FunctionSym(env, d, f) == SymUnlessNameless(d', inside);
      if d'.name == [] {
        AfterNothing(s, out.stack);
        return;
      }
      AfterSym(s, out.stack, d', inside);
      var row := out.CreateNode(d');
      if body.Some? {
        VisitInside(Scope(row.value, d'.kind, d'.name), body.value);
      } else {
        AfterNothing(AfterRow(s, out.stack, d'), Inside(out.stack, d', |s.infos|));
      }
    }

    /** The walk of a body with its declaration's scope pushed. */
    method VisitInside(scope: Scope, body: Node)
      requires out.Valid() && Room(R.Visit(env, body, false)) && scope.row < |out.infos|
      modifies out, out.arena, out.tables, out.nodeIdAllocator
      ensures out.Valid() && out.stack == old(out.stack)
      ensures out.Snap() == After(old(out.Snap()), out.stack + [scope], R.Visit(env, body, false))
      decreases Size(body), 6
    {
      out.Push(scope);
      Visit(body, false);
      out.Pop();
    }

    method HookBinaryOperator(n: Node, top: bool) returns (consumed: bool)
      requires out.Valid()
      requires R.HookBinaryOperator(env, n, top).Some? ==> Room(R.HookBinaryOperator(env, n, top).value)
      modifies out, out.arena, out.tables, out.nodeIdAllocator
      ensures out.Valid() && out.stack == old(out.stack)
      ensures consumed <==> R.HookBinaryOperator(env, n, top).Some?
      ensures out.Snap() ==
        if consumed then After(old(out.Snap()), out.stack, R.HookBinaryOperator(env, n, top).value) else old(out.Snap())
      decreases Size(n), 3
    {
      var operator := ByField(n, "operator");
      if operator.None? {
        return false;
      }
      var op := operator.value.text;
      var lhs, rhs := ByField(n, "lhs"), ByField(n, "rhs");
      if R.IsAssignLeft(op) && lhs.Some? && rhs.Some? &&
         lhs.value.kind == "identifier" && rhs.value.kind == "function_definition" {
        EmitFunction(R.DeclAt(Function, lhs.value.text, n, None), rhs, Size(n));
        return true;
      }
      if top && R.IsAssignLeft(op) && lhs.Some? && rhs.Some? && lhs.value.kind == "identifier" {
        EmitAssigned(if R.DefinesClassOrGeneric(rhs.value) then None else lhs, n, rhs.value);
        return true;
      }
      if top && R.IsAssignRight(op) && lhs.Some? && rhs.Some? && rhs.value.kind == "identifier" {
        EmitAssigned(rhs, n, lhs.value);
        return true;
      }
      return false;
    }

    /** The variable assigned to, unless it is suppressed, and the walk of its value. */
    method EmitAssigned(target: Option<Node>, n: Node, value: Node)
      requires out.Valid() && Size(value) < Size(n) && Room(Assigned(target, n) + R.Visit(env, value, false))
      modifies out, out.arena, out.tables, out.nodeIdAllocator
      ensures out.Valid() && out.stack == old(out.stack)
      ensures out.Snap() == After(old(out.Snap()), out.stack, Assigned(target, n) + R.Visit(env, value, false))
      decreases Size(n), 2
    {
      ghost var visit := R.Visit(env, value, false);
      CountAppend(Assigned(target, n), visit);
      AfterAppend(out.Snap(), out.stack, Assigned(target, n), visit);
      if target.Some? {
        EmitVariable(target.value.text, n);
      } else {
        AfterNothing(out.Snap(), out.stack);
      }
      Visit(value, false);
    }

    ghost function Assigned(target: Option<Node>, n: Node): seq<Item> {
      match target case None => [] case Some(t) => R.Variable(t.text, n)
    }

    method EmitVariable(name: Text, n: Node)
      requires out.Valid() && |out.infos| + Count(R.Variable(name, n)) < NONE
      modifies out, out.arena, out.tables, out.nodeIdAllocator
      ensures out.Valid() && out.stack == old(out.stack)
      ensures out.Snap() == After(old(out.Snap()), out.stack, R.Variable(name, n))
    {
      var kind := if R.IsConstantName(name) then Constant else Variable;
      var d := R.DeclAt(kind, name, n, None);
      ghost var s := out.Snap();
      if name != [] {
        AfterSym(s, out.stack, d, []);
        AfterNothing(AfterRow(s, out.stack, d), Inside(out.stack, d, |s.infos|));
      } else {
        AfterNothing(s, out.stack);
        return;
      }
      var row := out.CreateNode(d);
    }

    method ExtractClassMembers(call: Node, classRow: nat)
      requires out.Valid() && Room(R.ClassMembers(env, call)) && Top(out.stack).row == classRow
      modifies out, out.arena, out.tables, out.nodeIdAllocator
      ensures out.Valid() && out.stack == old(out.stack)
      ensures out.Snap() == After(old(out.Snap()), out.stack, R.ClassMembers(env, call))
      decreases Size(call), 2, 0, 0
    {
      var args := ByField(call, "arguments");
      if args.None? {
        AfterNothing(out.Snap(), out.stack);
        return;
      }
      var children := args.value.children;
      ghost var goal := After(out.Snap(), out.stack, R.Members(env, children, 0));
      ghost var left := R.Members(env, children, 0);
      var positional: nat := 0;
      var i := 0;
      assert children[0..] == children;
      while i < |children|
        invariant i <= |children| && left == R.Members(env, children[i..], positional)
        invariant out.Valid() && out.stack == old(out.stack)
        invariant Room(left) && After(out.Snap(), out.stack, left) == goal
      {
        ghost var first, next := FirstMember(children, i, positional);
        ChildIsSmaller(children, i);
        left := R.Members(env, children[i + 1..], next);
        InTurn(out.Snap(), out.stack, first, left);
        if R.IsArgument(children[i]) {
          positional := ExtractArgument(children[i].node, positional, classRow);
        }
        i := i + 1;
      }
    }

    /** What a child of the argument list yields, and how many unnamed arguments there are after it. */
    lemma FirstMember(children: seq<Child>, i: nat, positional: nat) returns (first: seq<Item>, next: nat)
      requires i < |children|
      ensures R.Members(env, children[i..], positional) == first + R.Members(env, children[i + 1..], next)
      ensures first == if R.IsArgument(children[i]) then R.Argument(env, children[i].node, positional) else []
      ensures next == if R.IsArgument(children[i]) && R.IsUnnamed(children[i].node) then positional + 1 else positional
    {
      TailOfSlice(children, i);
      first := if R.IsArgument(children[i]) then R.Argument(env, children[i].node, positional) else [];
      next := if R.IsArgument(children[i]) && R.IsUnnamed(children[i].node) then positional + 1 else positional;
    }

    /** One argument of a class call; unnamed ones are counted. */
    method ExtractArgument(arg: Node, positional: nat, classRow: nat) returns (next: nat)
      requires out.Valid() && Room(R.Argument(env, arg, positional)) && Top(out.stack).row == classRow
      modifies out, out.arena, out.tables, out.nodeIdAllocator
      ensures out.Valid() && out.stack == old(out.stack)
      ensures out.Snap() == After(old(out.Snap()), out.stack, R.Argument(env, arg, positional))
      ensures next == if R.IsUnnamed(arg) then positional + 1 else positional
      decreases Size(arg), 4
    {
      next := positional;
      var name := ByField(arg, "name");
      if name.None? {
        next := next + 1;
        if next == 2 {
          EmitSecondPositional(ByField(arg, "value"), classRow);
        } else {
          AfterNothing(out.Snap(), out.stack);
        }
      } else {
        ExtractMember(arg, name.value.text, classRow);
      }
    }

    method EmitSecondPositional(value: Option<Node>, classRow: nat)
      requires out.Valid() && Top(out.stack).row == classRow
      modifies out, out.arena, out.tables
      ensures out.Valid() && out.stack == old(out.stack)
      ensures out.Snap() == After(old(out.Snap()), out.stack, R.SecondPositional(value))
    {
      if value.Some? && value.value.kind == "identifier" {
        var info := RefAt(EDGE_EXTENDS, value.value.text, value.value);
        AfterRef(out.Snap(), out.stack, info);
        out.PushRefAt(classRow, info);
      } else {
        AfterNothing(out.Snap(), out.stack);
      }
    }

    /** One named argument of a class call. */
    method ExtractMember(arg: Node, name: Text, classRow: nat)
      requires out.Valid() && Room(R.Member(env, arg, name)) && Top(out.stack).row == classRow
      modifies out, out.arena, out.tables, out.nodeIdAllocator
      ensures out.Valid() && out.stack == old(out.stack)
      ensures out.Snap() == After(old(out.Snap()), out.stack, R.Member(env, arg, name))
      decreases Size(arg), 3
    {
      var value := ByField(arg, "value");
      if value.None? {
        AfterNothing(out.Snap(), out.stack);
        return;
      }
      var v := value.value;
      if name == Ascii("inherit") || name == Ascii("contains") {
        EmitParent(v, classRow);
        return;
      }
      if v.kind == "function_definition" {
        EmitMethodArg(arg);
        return;
      }
      if v.kind == "call" && R.CalleeName(v) == Some(Ascii("list")) {
        var entries := ByField(v, "arguments");
        if entries.Some? {
          EmitMethodArgs(entries.value.children);
          return;
        }
      }
      AfterNothing(out.Snap(), out.stack);
    }

    method EmitParent(v: Node, classRow: nat)
      requires out.Valid() && Top(out.stack).row == classRow
      modifies out, out.arena, out.tables
      ensures out.Valid() && out.stack == old(out.stack)
      ensures out.Snap() == After(old(out.Snap()), out.stack, R.Parent(v))
    {
      var parent := R.NonEmptyLiteral(Some(v));
      if parent.Some? {
        var info := RefAt(EDGE_EXTENDS, parent.value, v);
        AfterRef(out.Snap(), out.stack, info);
        out.PushRefAt(classRow, info);
      } else {
        AfterNothing(out.Snap(), out.stack);
      }
    }

    method EmitMethodArgs(entries: seq<Child>)
      requires out.Valid() && Room(R.MethodArgs(env, entries))
      modifies out, out.arena, out.tables, out.nodeIdAllocator
      ensures out.Valid() && out.stack == old(out.stack)
      ensures out.Snap() == After(old(out.Snap()), out.stack, R.MethodArgs(env, entries))
      decreases SizeAll(entries), 4
    {
      ghost var goal := After(out.Snap(), out.stack, R.MethodArgs(env, entries));
      ghost var left := R.MethodArgs(env, entries);
      var i := 0;
      assert entries[0..] == entries;
      while i < |entries|
        invariant i <= |entries| && left == R.MethodArgs(env, entries[i..])
        invariant out.Valid() && out.stack == old(out.stack)
        invariant Room(left) && After(out.Snap(), out.stack, left) == goal
      {
        TailOfSlice(entries, i);
        ChildIsSmaller(entries, i);
        ghost var first := if R.IsArgument(entries[i]) then R.MethodArg(env, entries[i].node) else [];
        left := R.MethodArgs(env, entries[i + 1..]);
        InTurn(out.Snap(), out.stack, first, left);
        if R.IsArgument(entries[i]) {
          EmitMethodArg(entries[i].node);
        }
        i := i + 1;
      }
    }

    method EmitMethodArg(entry: Node)
      requires out.Valid() && Room(R.MethodArg(env, entry))
      modifies out, out.arena, out.tables, out.nodeIdAllocator
      ensures out.Valid() && out.stack == old(out.stack)
      ensures out.Snap() == After(old(out.Snap()), out.stack, R.MethodArg(env, entry))
      decreases Size(entry), 2
    {
      var name, value := ByField(entry, "name"), ByField(entry, "value");
      if name.None? || value.None? || value.value.kind != "function_definition" {
        AfterNothing(out.Snap(), out.stack);
        return;
      }
      EmitFunction(R.DeclAt(Method, name.value.text, entry, None), value, Size(entry));
    }
  }

  /** The rows an R file must yield. */
  function ExpectedNodes(env: R.Env, filePath: Text, lineCount: U32, root: Node): seq<NodeInfo> {
    Table(FileDecl(filePath, lineCount), filePath, R.Visit(env, root, false))
  }

  function ExpectedRefs(env: R.Env, filePath: Text, root: Node): seq<RefTo> {
    Refs(R.Visit(env, root, false), [Scope(0, File, BaseName(filePath))], 1)
  }

  /**
   Main result.  The bytes an extraction returns decode, by the documented
   layout, to exactly the rows of the outline of the tree, in order, while the
   arena is small enough for its references; the `contains` edges make them a
   tree whose line spans and qualified names nest.
   */
  method Extract(env: R.Env, hash: Hash, filePath: Text, lineCount: U32, root: Node,
                 rootHasError: bool, warning: Text, duration: seq<Byte>) returns (o: EmitOut)
    requires Numbered(root) && Size(root) + 1 < NONE && |duration| == 8
    ensures EmitSays(o, hash, filePath, ExpectedNodes(env, filePath, lineCount, root),
                     ExpectedRefs(env, filePath, root))
    ensures Spanned(root) && Nested(root.span, FileDecl(filePath, lineCount).span) ==>
      IsContainsTree(ExpectedNodes(env, filePath, lineCount, root))
  {
    var w := new Walker(env, hash, filePath, lineCount);
    var out := w.out;
    OutputIsLinear(env, root, out.stack, 1);
    w.Visit(root, false);
    AfterIsLayout(Snapshot([NodeInfo(FileDecl(filePath, lineCount), 0, filePath)], [], []), out.stack,
                  R.Visit(env, root, false));
    assert out.infos == ExpectedNodes(env, filePath, lineCount, root);
    assert out.refs == ExpectedRefs(env, filePath, root);
    o := out.Finish(rootHasError, warning, duration);
    if Spanned(root) && Nested(root.span, FileDecl(filePath, lineCount).span) {
      ExtractionIsContainsTree(env, root, FileDecl(filePath, lineCount), filePath);
    }
  }
}
