/**
 The Lua and Luau walker as it runs, codegraph-kernel/src/lua.rs: its queue,
 its loops, its scope stack and its tables.  Each method is proved to append
 exactly the rows of the outline Lua gives, and to leave the stack as it found it.
 */
module LuaWalker {
  import opened Buffers
  import opened Bytes
  import opened Emitter
  import opened Ids
  import opened LuaFacts
  import opened LuaSites
  import opened Options
  import opened Outline
  import opened SyntaxTree
  import opened Texts
  import opened Walking
  import L = Lua

  /** What the search still finds with `level` left of a level and `next` below what is gone of it. */
  ghost function Ahead(level: seq<Node>, next: seq<Node>, kind: string): Option<Node> {
    if L.Find(level, kind).Some? then L.Find(level, kind) else L.Shallowest(next + L.Below(level), kind)
  }

  lemma NextLevel(next: seq<Node>, kind: string)
    ensures Ahead([], next, kind) == Ahead(next, [], kind) == L.Shallowest(next, kind)
  {
    assert next + L.Below([]) == next;
    assert [] + L.Below(next) == L.Below(next);
    if next == [] {
      assert L.Below(next) == [];
    }
  }

  lemma NextNode(level: seq<Node>, next: seq<Node>, kind: string)
    requires level != [] && level[0].kind != kind
    ensures Ahead(level, next, kind) == Ahead(level[1..], next + L.Named(level[0].children), kind)
  {
    Regroup(next, L.Named(level[0].children), L.Below(level[1..]));
  }

  /** Taking the first node off the queue and putting its children at the end. */
  lemma QueueTurns(queue: seq<Node>, level: seq<Node>, next: seq<Node>)
    requires queue == level + next && level != []
    ensures queue[0] == level[0]
    ensures queue[1..] + L.Named(queue[0].children) == level[1..] + (next + L.Named(queue[0].children))
    ensures L.TotalSize(queue[1..] + L.Named(queue[0].children)) < L.TotalSize(queue)
  {
    TailOfConcat(level, next);
    Regroup(level[1..], next, L.Named(queue[0].children));
    L.TotalSizeAppend(queue[1..], L.Named(queue[0].children));
  }

  /** The breadth-first search with its queue; each round the subtrees left in it shrink. */
  method FindDescendant(node: Node, kind: string) returns (found: Option<Node>)
    ensures found == L.FindDescendant(node, kind)
  {
    var queue := L.Named(node.children);
    ghost var level, next: seq<Node> := queue, [];
    NextLevel(queue, kind);
    while queue != []
      invariant queue == level + next
      invariant L.FindDescendant(node, kind) == Ahead(level, next, kind)
      decreases L.TotalSize(queue)
    {
      if level == [] {
        assert queue == next;
        NextLevel(queue, kind);
        level, next := queue, [];
      }
      QueueTurns(queue, level, next);
      var n := queue[0];
      if n.kind == kind {
        return Some(n);
      }
      NextNode(level, next, kind);
      level, next := level[1..], next + L.Named(n.children);
      queue := queue[1..] + L.Named(n.children);
    }
    return None;
  }

  /** The module a call requires: a string's content, a bare string, or a path's last segment. */
  method RequireModule(env: L.Env, call: Node) returns (mod: Option<Text>)
    ensures mod == L.RequireModule(env, call)
  {
    var name, args := ByField(call, "name"), ByField(call, "arguments");
    if name.None? || args.None? || name.value.kind != "identifier" || name.value.text != Ascii("require") {
      return None;
    }
    var content := FindDescendant(args.value, "string_content");
    if content.Some? {
      return L.NonEmpty(env.trim(content.value.text));
    }
    var s := FindDescendant(args.value, "string");
    if s.Some? {
      var t := L.Unquoted(env.trim(s.value.text));
      if t != [] {
        return Some(t);
      }
    }
    var idx := FindDescendant(args.value, "dot_index_expression");
    if idx.None? {
      idx := FindDescendant(args.value, "method_index_expression");
    }
    if idx.Some? {
      var field := L.FieldOrMethod(idx.value);
      if field.Some? {
        return L.NonEmpty(env.trim(field.value.text));
      }
    }
    return None;
  }

  class Walker {
    const env: L.Env
    const out: Emitter

    constructor (env: L.Env, hash: Hash, filePath: Text, lineCount: U32)
      ensures this.env == env && fresh(out) && fresh(out.arena) && fresh(out.tables) && fresh(out.nodeIdAllocator)
      ensures out.Valid() && out.hash == hash && out.filePath == filePath
      ensures out.infos == [NodeInfo(FileDecl(filePath, lineCount), 0, filePath)] && out.refs == [] && out.log == []
      ensures out.stack == [Scope(0, File, BaseName(filePath))]
    {
      this.env := env;
      out := new Emitter(hash, filePath, lineCount);
    }

    /** Rows are numbered by u32. */
    ghost predicate Room(items: seq<Item>)
      reads out
    {
      |out.infos| + Count(items) < NONE
    }

    // ----- the walk of the top level -----

    method Visit(n: Node)
      requires out.Valid() && Room(L.Visit(env, n))
      modifies out, out.arena, out.tables, out.nodeIdAllocator
      ensures out.Valid() && out.stack == old(out.stack)
      ensures out.Snap() == After(old(out.Snap()), out.stack, L.Visit(env, n))
      decreases Size(n), 5
    {
      var mod := None;
      if n.kind == "function_call" {
        mod := RequireModule(env, n);
      }
      ghost var rest := if mod.Some? then L.Import(env, n, mod.value)
                        else L.Initializers(env, L.InitialValues(n)) + L.Ladder(env, n);
      InTurn(out.Snap(), out.stack, [Visited(n.index, Main, L.RoleOf(env, n))], rest);
      NoteVisit(n, Main);
      if mod.Some? {
        EmitRequire(n, mod.value);
      } else {
        InTurn(out.Snap(), out.stack, L.Initializers(env, L.InitialValues(n)), L.Ladder(env, n));
        EmitInitializers(L.InitialValues(n));
        Ladder(n);
      }
    }

    ghost method NoteVisit(n: Node, mode: Mode)
      requires out.Valid()
      modifies out
      ensures out.Valid() && out.stack == old(out.stack)
      ensures out.Snap() == After(old(out.Snap()), out.stack, [Visited(n.index, mode, L.RoleOf(env, n))])
    {
      AfterVisited(out.Snap(), out.stack, n.index, mode, L.RoleOf(env, n));
      out.Note(n.index);
    }

    method VisitAll(nodes: seq<Node>)
      requires out.Valid() && Room(L.VisitAll(env, nodes))
      modifies out, out.arena, out.tables, out.nodeIdAllocator
      ensures out.Valid() && out.stack == old(out.stack)
      ensures out.Snap() == After(old(out.Snap()), out.stack, L.VisitAll(env, nodes))
      decreases L.TotalSize(nodes), 6
    {
      ghost var goal := After(out.Snap(), out.stack, L.VisitAll(env, nodes));
      var i := 0;
      assert nodes[0..] == nodes;
      while i < |nodes|
        invariant i <= |nodes| && L.TotalSize(nodes[i..]) <= L.TotalSize(nodes)
        invariant out.Valid() && out.stack == old(out.stack)
        invariant Room(L.VisitAll(env, nodes[i..]))
        invariant After(out.Snap(), out.stack, L.VisitAll(env, nodes[i..])) == goal
      {
        assert nodes[i..][1..] == nodes[i + 1..];
        InTurn(out.Snap(), out.stack, L.Visit(env, nodes[i]), L.VisitAll(env, nodes[i + 1..]));
        Visit(nodes[i]);
        i := i + 1;
      }
      AfterNothing(out.Snap(), out.stack);
    }

    /** The import node and the imports reference of a required module. */
    method EmitRequire(call: Node, mod: Text)
      requires mod != [] && out.Valid() && Room(L.Import(env, call, mod))
      modifies out, out.arena, out.tables, out.nodeIdAllocator
      ensures out.Valid() && out.stack == old(out.stack)
      ensures out.Snap() == After(old(out.Snap()), out.stack, L.Import(env, call, mod))
    {
      CountImport(L.ImportDecl(env, call, mod), RefAt(EDGE_IMPORTS, mod, call));
      EmitImport(out, L.ImportDecl(env, call, mod), RefAt(EDGE_IMPORTS, mod, call));
    }

    /** Digs requires out of the initializers the variable branch will skip. */
    method EmitInitializers(values: seq<Node>)
      requires out.Valid() && Room(L.Initializers(env, values))
      modifies out, out.arena, out.tables, out.nodeIdAllocator
      ensures out.Valid() && out.stack == old(out.stack)
      ensures out.Snap() == After(old(out.Snap()), out.stack, L.Initializers(env, values))
    {
      ghost var goal := After(out.Snap(), out.stack, L.Initializers(env, values));
      var i := 0;
      assert values[0..] == values;
      while i < |values|
        invariant i <= |values|
        invariant out.Valid() && out.stack == old(out.stack)
        invariant Room(L.Initializers(env, values[i..]))
        invariant After(out.Snap(), out.stack, L.Initializers(env, values[i..])) == goal
      {
        assert values[i..][1..] == values[i + 1..];
        InTurn(out.Snap(), out.stack, L.Initializer(env, values[i]), L.Initializers(env, values[i + 1..]));
        EmitInitializer(values[i]);
        i := i + 1;
      }
      AfterNothing(out.Snap(), out.stack);
    }

    method EmitInitializer(v: Node)
      requires out.Valid() && Room(L.Initializer(env, v))
      modifies out, out.arena, out.tables, out.nodeIdAllocator
      ensures out.Valid() && out.stack == old(out.stack)
      ensures out.Snap() == After(old(out.Snap()), out.stack, L.Initializer(env, v))
    {
      if v.kind != "function_call" {
        AfterNothing(out.Snap(), out.stack);
        return;
      }
      var mod := RequireModule(env, v);
      ghost var found := match mod case None => [] case Some(m) => L.Import(env, v, m);
      InTurn(out.Snap(), out.stack, [Visited(v.index, Initializer, L.RoleOf(env, v))], found);
      NoteVisit(v, Initializer);
      if mod.Some? {
        EmitRequire(v, mod.value);
      } else {
        AfterNothing(out.Snap(), out.stack);
      }
    }

    /** The dispatch ladder. */
    method Ladder(n: Node)
      requires out.Valid() && Room(L.Ladder(env, n))
      modifies out, out.arena, out.tables, out.nodeIdAllocator
      ensures out.Valid() && out.stack == old(out.stack)
      ensures out.Snap() == After(old(out.Snap()), out.stack, L.Ladder(env, n))
      decreases Size(n), 4
    {
      if n.kind == "function_declaration" {
        ExtractFunction(n);
      } else if n.kind == "variable_declaration" || n.kind == "assignment_statement" {
        ExtractVariable(n);
      } else if env.isLuau && n.kind == "type_definition" {
        InTurn(out.Snap(), out.stack, L.ExtractTypeAlias(env, n), L.VisitAll(env, L.Named(n.children)));
        ExtractTypeAlias(n);
        VisitAll(L.Named(n.children));
      } else if n.kind == "function_call" {
        InTurn(out.Snap(), out.stack, ExtractCall(env.parenConversion, n), L.VisitAll(env, L.Named(n.children)));
        EmitCall(out, env.parenConversion, n);
        VisitAll(L.Named(n.children));
      } else {
        VisitAll(L.Named(n.children));
      }
    }

    method ExtractTypeAlias(n: Node)
      requires out.Valid() && Room(L.ExtractTypeAlias(env, n))
      modifies out, out.arena, out.tables, out.nodeIdAllocator
      ensures out.Valid() && out.stack == old(out.stack)
      ensures out.Snap() == After(old(out.Snap()), out.stack, L.ExtractTypeAlias(env, n))
    {
      var name := L.ExtractName(n);
      if name == L.ANONYMOUS {
        AfterNothing(out.Snap(), out.stack);
        return;
      }
      var d := Decl(TypeAlias, name, n.span, env.docstring(n.index), None, L.IsExportedOf(env, n), None, n.index);
      EmitLeaf(d);
    }

    /** A declaration with nothing inside. */
    method EmitLeaf(d: Decl)
      requires out.Valid() && Room(SymUnlessNameless(d, []))
      modifies out, out.arena, out.tables, out.nodeIdAllocator
      ensures out.Valid() && out.stack == old(out.stack)
      ensures out.Snap() == After(old(out.Snap()), out.stack, SymUnlessNameless(d, []))
    {
      ghost var s := out.Snap();
      AfterSym(s, out.stack, d, []);
      AfterNothing(AfterRow(s, out.stack, d), Inside(out.stack, d, |s.infos|));
      AfterNothing(s, out.stack);
      var row := out.CreateNode(d);
    }

    // ----- functions -----

    /** A declaration and, with its scope pushed, the body of `f`; nothing when it is nameless. */
    method EmitWithBody(d: Decl, f: Node)
      requires out.Valid() && Room(L.WithBody(env, d, f))
      modifies out, out.arena, out.tables, out.nodeIdAllocator
      ensures out.Valid() && out.stack == old(out.stack)
      ensures out.Snap() == After(old(out.Snap()), out.stack, L.WithBody(env, d, f))
      decreases Size(f), 2
    {
      ghost var s := out.Snap();
      AfterNothing(s, out.stack);
      if d.name == [] {
        return;
      }
      AfterSym(s, out.stack, d, L.BodyItems(env, f));
      var row := out.CreateNode(d);
      VisitInside(Scope(row.value, d.kind, d.name), f);
    }

    method VisitInside(scope: Scope, f: Node)
      requires out.Valid() && Room(L.BodyItems(env, f)) && scope.row < |out.infos|
      modifies out, out.arena, out.tables, out.nodeIdAllocator
      ensures out.Valid() && out.stack == old(out.stack)
      ensures out.Snap() == After(old(out.Snap()), out.stack + [scope], L.BodyItems(env, f))
      decreases Size(f), 1, 1
    {
      out.Push(scope);
      VisitBodyOf(f);
      out.Pop();
    }

    method VisitBodyOf(f: Node)
      requires out.Valid() && Room(L.BodyItems(env, f))
      modifies out, out.arena, out.tables, out.nodeIdAllocator
      ensures out.Valid() && out.stack == old(out.stack)
      ensures out.Snap() == After(old(out.Snap()), out.stack, L.BodyItems(env, f))
      decreases Size(f), 1, 0
    {
      var body := ByField(f, "body");
      if body.Some? {
        VisitBody(body.value);
      } else {
        AfterNothing(out.Snap(), out.stack);
      }
    }

    method ExtractFunction(n: Node)
      requires out.Valid() && Room(L.ExtractFunction(env, n))
      modifies out, out.arena, out.tables, out.nodeIdAllocator
      ensures out.Valid() && out.stack == old(out.stack)
      ensures out.Snap() == After(old(out.Snap()), out.stack, L.ExtractFunction(env, n))
      decreases Size(n), 3
    {
      var receiver := L.ReceiverType(n);
      if receiver.Some? {
        EmitWithBody(L.MethodDecl(env, n, receiver.value), n);
      } else if L.ExtractName(n) == L.ANONYMOUS {
        VisitBodyOf(n);
      } else {
        EmitWithBody(L.FunctionDecl(env, n), n);
      }
    }

    // ----- variables -----

    method ExtractVariable(n: Node)
      requires out.Valid() && Room(L.ExtractVariable(env, n))
      modifies out, out.arena, out.tables, out.nodeIdAllocator
      ensures out.Valid() && out.stack == old(out.stack)
      ensures out.Snap() == After(old(out.Snap()), out.stack, L.ExtractVariable(env, n))
      decreases Size(n), 3
    {
      var assign := L.AssignmentOf(n);
      ExtractTargets(n, L.ListOf(assign, "variable_list"), L.ListOf(assign, "expression_list"));
    }

    function ValueAt(values: seq<Node>, i: nat): Option<Node> {
      if i < |values| then Some(values[i]) else None
    }

    /** What the targets from `i` on yield, each with the value at its place, if there is one. */
    ghost function Targets(n: Node, targets: seq<Node>, values: seq<Node>, i: nat): seq<Item>
      requires i <= |targets|
    {
      L.VariableTargets(env, n, targets[i..], if i < |values| then values[i..] else [])
    }

    lemma FirstTarget(n: Node, targets: seq<Node>, values: seq<Node>, i: nat)
      requires i < |targets|
      ensures Targets(n, targets, values, i) ==
        L.VariableTarget(env, n, targets[i], ValueAt(values, i)) + Targets(n, targets, values, i + 1)
    {
      TailOfSlice(targets, i);
      if i < |values| {
        TailOfSlice(values, i);
      }
    }

    lemma {:induction false} ValueIsSmaller(values: seq<Node>, i: nat)
      requires i < |values|
      ensures Size(values[i]) <= L.TotalSize(values)
    {
      if i > 0 {
        ValueIsSmaller(values[1..], i - 1);
      }
    }

    /** Targets pair with values by position. */
    method ExtractTargets(n: Node, targets: seq<Node>, values: seq<Node>)
      requires out.Valid() && Room(L.VariableTargets(env, n, targets, values))
      modifies out, out.arena, out.tables, out.nodeIdAllocator
      ensures out.Valid() && out.stack == old(out.stack)
      ensures out.Snap() == After(old(out.Snap()), out.stack, L.VariableTargets(env, n, targets, values))
      decreases L.TotalSize(values), 5
    {
      ghost var goal := After(out.Snap(), out.stack, L.VariableTargets(env, n, targets, values));
      ghost var left := L.VariableTargets(env, n, targets, values);
      var i := 0;
      assert targets[0..] == targets && values[0..] == values;
      while i < |targets|
        invariant i <= |targets| && left == Targets(n, targets, values, i)
        invariant out.Valid() && out.stack == old(out.stack)
        invariant Room(left) && After(out.Snap(), out.stack, left) == goal
      {
        FirstTarget(n, targets, values, i);
        if i < |values| {
          ValueIsSmaller(values, i);
        }
        left := Targets(n, targets, values, i + 1);
        InTurn(out.Snap(), out.stack, L.VariableTarget(env, n, targets[i], ValueAt(values, i)), left);
        ExtractTarget(n, targets[i], ValueAt(values, i));
        i := i + 1;
      }
    }

    method ExtractTarget(n: Node, t: Node, value: Option<Node>)
      requires out.Valid() && Room(L.VariableTarget(env, n, t, value))
      modifies out, out.arena, out.tables, out.nodeIdAllocator
      ensures out.Valid() && out.stack == old(out.stack)
      ensures out.Snap() == After(old(out.Snap()), out.stack, L.VariableTarget(env, n, t, value))
      decreases if value.Some? then Size(value.value) else 0, 4
    {
      var target := L.AssignmentTarget(env, t);
      if target.None? {
        AfterNothing(out.Snap(), out.stack);
        return;
      }
      var name, receiver := target.value.name, target.value.receiver;
      if value.Some? && value.value.kind == "function_definition" {
        EmitWithBody(L.FunctionValueDecl(env, value.value, name, receiver, env.docstring(n.index)), value.value);
        return;
      }
      var isTable := value.Some? && value.value.kind == "table_constructor";
      var isMember := receiver.Some? || n.kind == "assignment_statement";
      var d := L.VariableDecl(env, n, t, name, value);
      ghost var functions :=
        if isTable then L.TableFunctions(env, L.Named(value.value.children), target.value.fullName) else [];
      ghost var variable := if isMember then [] else SymUnlessNameless(d, []);
      assert L.VariableTarget(env, n, t, value) == functions + variable;
      InTurn(out.Snap(), out.stack, functions, variable);
      AfterNothing(out.Snap(), out.stack);
      if isTable {
        ExtractTableFunctions(L.Named(value.value.children), target.value.fullName);
      }
      AfterNothing(out.Snap(), out.stack);
      if !isMember {
        EmitLeaf(d);
      }
    }

    method ExtractTableFunctions(fields: seq<Node>, receiver: Text)
      requires out.Valid() && Room(L.TableFunctions(env, fields, receiver))
      modifies out, out.arena, out.tables, out.nodeIdAllocator
      ensures out.Valid() && out.stack == old(out.stack)
      ensures out.Snap() == After(old(out.Snap()), out.stack, L.TableFunctions(env, fields, receiver))
      decreases L.TotalSize(fields), 3
    {
      ghost var goal := After(out.Snap(), out.stack, L.TableFunctions(env, fields, receiver));
      var i := 0;
      assert fields[0..] == fields;
      while i < |fields|
        invariant i <= |fields| && L.TotalSize(fields[i..]) <= L.TotalSize(fields)
        invariant out.Valid() && out.stack == old(out.stack)
        invariant Room(L.TableFunctions(env, fields[i..], receiver))
        invariant After(out.Snap(), out.stack, L.TableFunctions(env, fields[i..], receiver)) == goal
      {
        assert fields[i..][1..] == fields[i + 1..];
        InTurn(out.Snap(), out.stack, L.TableField(env, fields[i], receiver),
               L.TableFunctions(env, fields[i + 1..], receiver));
        ExtractTableField(fields[i], receiver);
        i := i + 1;
      }
      AfterNothing(out.Snap(), out.stack);
    }

    method ExtractTableField(field: Node, receiver: Text)
      requires out.Valid() && Room(L.TableField(env, field, receiver))
      modifies out, out.arena, out.tables, out.nodeIdAllocator
      ensures out.Valid() && out.stack == old(out.stack)
      ensures out.Snap() == After(old(out.Snap()), out.stack, L.TableField(env, field, receiver))
      decreases Size(field), 2
    {
      var value := ByField(field, "value");
      var name := L.FieldName(env, field);
      if field.kind == "field" && value.Some? && name != [] {
        var v := value.value;
        if v.kind == "function_definition" {
          EmitWithBody(L.FunctionValueDecl(env, v, name, Some(receiver), None), v);
          return;
        }
        if v.kind == "table_constructor" {
          ExtractTableFunctions(L.Named(v.children), receiver + [L.DOT] + name);
          return;
        }
      }
      AfterNothing(out.Snap(), out.stack);
    }

    // ----- the walk of function bodies -----

    method VisitBody(n: Node)
      requires out.Valid() && Room(L.VisitBody(env, n))
      modifies out, out.arena, out.tables, out.nodeIdAllocator
      ensures out.Valid() && out.stack == old(out.stack)
      ensures out.Snap() == After(old(out.Snap()), out.stack, L.VisitBody(env, n))
      decreases Size(n), 5
    {
      ghost var call := if n.kind == "function_call" then ExtractCall(env.parenConversion, n) else [];
      ghost var rest := if n.kind == "function_declaration" then L.ExtractFunction(env, n)
                        else call + L.VisitBodies(env, L.Named(n.children));
      InTurn(out.Snap(), out.stack, [Visited(n.index, Body, L.RoleOf(env, n))], rest);
      NoteVisit(n, Body);
      if n.kind == "function_declaration" {
        ExtractFunction(n);
        return;
      }
      InTurn(out.Snap(), out.stack, call, L.VisitBodies(env, L.Named(n.children)));
      if n.kind == "function_call" {
        EmitCall(out, env.parenConversion, n);
      } else {
        AfterNothing(out.Snap(), out.stack);
      }
      VisitBodies(L.Named(n.children));
    }

    method VisitBodies(nodes: seq<Node>)
      requires out.Valid() && Room(L.VisitBodies(env, nodes))
      modifies out, out.arena, out.tables, out.nodeIdAllocator
      ensures out.Valid() && out.stack == old(out.stack)
      ensures out.Snap() == After(old(out.Snap()), out.stack, L.VisitBodies(env, nodes))
      decreases L.TotalSize(nodes), 6
    {
      ghost var goal := After(out.Snap(), out.stack, L.VisitBodies(env, nodes));
      var i := 0;
      assert nodes[0..] == nodes;
      while i < |nodes|
        invariant i <= |nodes| && L.TotalSize(nodes[i..]) <= L.TotalSize(nodes)
        invariant out.Valid() && out.stack == old(out.stack)
        invariant Room(L.VisitBodies(env, nodes[i..]))
        invariant After(out.Snap(), out.stack, L.VisitBodies(env, nodes[i..])) == goal
      {
        assert nodes[i..][1..] == nodes[i + 1..];
        InTurn(out.Snap(), out.stack, L.VisitBody(env, nodes[i]), L.VisitBodies(env, nodes[i + 1..]));
        VisitBody(nodes[i]);
        i := i + 1;
      }
      AfterNothing(out.Snap(), out.stack);
    }
  }

  /** The rows a Lua file must yield. */
  function ExpectedNodes(env: L.Env, filePath: Text, lineCount: U32, root: Node): seq<NodeInfo> {
    Table(FileDecl(filePath, lineCount), filePath, L.Visit(env, root))
  }

  function ExpectedRefs(env: L.Env, filePath: Text, root: Node): seq<RefTo> {
    Refs(L.Visit(env, root), [Scope(0, File, BaseName(filePath))], 1)
  }

  /**
   Main result.  The bytes an extraction returns decode, by the documented
   layout, to exactly the rows of the outline of the tree, in order, while the
   arena is small enough for its references; the `contains` edges make them a
   tree whose line spans nest and whose names are paths or receivers' names.
   */
  method Extract(env: L.Env, hash: Hash, filePath: Text, lineCount: U32, root: Node,
                 rootHasError: bool, warning: Text, duration: seq<Byte>) returns (o: EmitOut)
    requires Size(root) + 1 < NONE && |duration| == 8
    ensures EmitSays(o, hash, filePath, ExpectedNodes(env, filePath, lineCount, root),
                     ExpectedRefs(env, filePath, root))
    ensures Numbered(root) && Spanned(root) && Nested(root.span, FileDecl(filePath, lineCount).span) ==>
      IsContainsTree(ExpectedNodes(env, filePath, lineCount, root))
  {
    var w := new Walker(env, hash, filePath, lineCount);
    var out := w.out;
    OneSitePerRow(L.Visit(env, root), out.stack, 1);
    OutputIsLinear(env, root, Decls);
    w.Visit(root);
    AfterIsLayout(Snapshot([NodeInfo(FileDecl(filePath, lineCount), 0, filePath)], [], []), out.stack,
                  L.Visit(env, root));
    assert out.infos == ExpectedNodes(env, filePath, lineCount, root);
    assert out.refs == ExpectedRefs(env, filePath, root);
    o := out.Finish(rootHasError, warning, duration);
    if Numbered(root) && Spanned(root) && Nested(root.span, FileDecl(filePath, lineCount).span) {
      ExtractionIsContainsTree(env, root, FileDecl(filePath, lineCount), filePath);
    }
  }
}
