/** Functions in table constructors: the keys that lead to them, and what the walk makes of them. */
module LuaTables {
  import opened Bytes
  import opened Contents
  import opened Options
  import opened Outline
  import opened SyntaxTree
  import opened Lua

  // ----- declared functions -----

  /** `d` is a method made for the function node `f`: it belongs to `owner`, whatever it lies in. */
  predicate IsMethodOf(env: Env, d: Decl, f: Node, name: Text, owner: Text, docstring: Option<Text>) {
    && d.kind == Method && d.name == name && d.span == f.span && d.at == f.index && d.docstring == docstring
    && d.signature == SignatureOf(env, f) && d.exported.None?
    && d.qualifiedOverride == Some(owner + SEPARATOR + name)
  }

  /** `d` is a function made for `f`, qualified by what it lies in. */
  predicate IsFunctionOf(env: Env, d: Decl, f: Node, name: Text, docstring: Option<Text>) {
    && d.kind == Function && d.name == name && d.span == f.span && d.at == f.index && d.docstring == docstring
    && d.signature == SignatureOf(env, f) && d.exported == IsExportedOf(env, f)
    && d.qualifiedOverride.None?
  }

  lemma MethodValueIff(env: Env, d: Decl, f: Node, name: Text, owner: Text, docstring: Option<Text>)
    ensures IsMethodOf(env, d, f, name, owner, docstring) <==>
      d == FunctionValueDecl(env, f, name, Some(owner), docstring)
  {}

  lemma FunctionValueIff(env: Env, d: Decl, f: Node, name: Text, docstring: Option<Text>)
    ensures IsFunctionOf(env, d, f, name, docstring) <==> d == FunctionValueDecl(env, f, name, None, docstring)
  {}

  /** A declared function, and what the walk of its body finds. */
  predicate HasFunction(env: Env, d: Decl, f: Node, path: seq<Decl>, e: Entry) {
    (path == [] && e == Declared(d)) || (path != [] && path[0] == d && HasBody(env, f, path[1..], e))
  }

  predicate HasBody(env: Env, f: Node, path: seq<Decl>, e: Entry) {
    ByField(f, "body").Some? && Lies(VisitBody(env, ByField(f, "body").value), path, e)
  }

  lemma WithBodyHas(env: Env, d: Decl, f: Node, path: seq<Decl>, e: Entry)
    ensures Lies(BodyItems(env, f), path, e) <==> HasBody(env, f, path, e)
    ensures Lies(WithBody(env, d, f), path, e) <==> d.name != [] && HasFunction(env, d, f, path, e)
  {
    if d.name != [] {
      LiesInOne(Sym(d, BodyItems(env, f)), path, e);
    }
  }

  // ----- keys -----

  predicate HasKey(env: Env, field: Node, key: Text) {
    field.kind == "field" && key != [] && FieldName(env, field) == key
  }

  /** One of the fields has this key and this value. */
  ghost predicate IsUnder(env: Env, fields: seq<Node>, key: Text, v: Node) {
    exists field :: field in fields && HasKey(env, field, key) && ByField(field, "value") == Some(v)
  }

  ghost predicate IsTableUnder(env: Env, fields: seq<Node>, key: Text, v: Node) {
    IsUnder(env, fields, key, v) && v.kind == "table_constructor"
  }

  /** Among `fields` the keys lead to `v`, each but the last to a table. */
  ghost predicate KeysLead(env: Env, fields: seq<Node>, keys: seq<Text>, v: Node)
    decreases |keys|
  {
    && keys != []
    && if |keys| == 1 then IsUnder(env, fields, keys[0], v)
       else exists table ::
         IsTableUnder(env, fields, keys[0], table) && KeysLead(env, Named(table.children), keys[1..], v)
  }

  /** A receiver and keys, with dots between them. */
  function Dotted(receiver: Text, keys: seq<Text>): Text
    decreases |keys|
  {
    if keys == [] then receiver else Dotted(receiver + [DOT] + keys[0], keys[1..])
  }

  /** `f` is a function the keys lead to, and `d` its declaration under the dotted receiver. */
  ghost predicate IsTableMethod(env: Env, fields: seq<Node>, receiver: Text, keys: seq<Text>, f: Node, d: Decl) {
    && KeysLead(env, fields, keys, f) && f.kind == "function_definition"
    && IsMethodOf(env, d, f, keys[|keys| - 1], Dotted(receiver, keys[..|keys| - 1]), None)
  }

  lemma UnderFurther(env: Env, fields: seq<Node>, key: Text, v: Node)
    requires fields != [] && IsUnder(env, fields[1..], key, v)
    ensures IsUnder(env, fields, key, v)
  {}

  lemma LeadFurther(env: Env, fields: seq<Node>, keys: seq<Text>, v: Node)
    requires fields != [] && KeysLead(env, fields[1..], keys, v)
    ensures KeysLead(env, fields, keys, v)
  {
    if |keys| == 1 {
      UnderFurther(env, fields, keys[0], v);
    } else {
      var table :| IsTableUnder(env, fields[1..], keys[0], table)
        && KeysLead(env, Named(table.children), keys[1..], v);
      UnderFurther(env, fields, keys[0], table);
    }
  }

  lemma DottedDeeper(receiver: Text, keys: seq<Text>)
    requires |keys| > 1
    ensures Dotted(receiver, keys[..|keys| - 1]) ==
      Dotted(receiver + [DOT] + keys[0], keys[1..][..|keys[1..]| - 1])
    ensures keys[1..][|keys[1..]| - 1] == keys[|keys| - 1]
  {
    assert keys[..|keys| - 1][1..] == keys[1..][..|keys[1..]| - 1];
  }

  /** All that is found in a table's functions comes from a function that keys lead to. */
  lemma {:induction false} TableFound(env: Env, fields: seq<Node>, receiver: Text, path: seq<Decl>, e: Entry)
      returns (keys: seq<Text>, f: Node, d: Decl)
    requires Lies(TableFunctions(env, fields, receiver), path, e)
    ensures IsTableMethod(env, fields, receiver, keys, f, d) && HasFunction(env, d, f, path, e)
    decreases TotalSize(fields)
  {
    LiesAppend(TableField(env, fields[0], receiver), TableFunctions(env, fields[1..], receiver), path, e);
    if Lies(TableField(env, fields[0], receiver), path, e) {
      var field := fields[0];
      var v, key := ByField(field, "value").value, FieldName(env, field);
      assert IsUnder(env, fields, key, v);
      if v.kind == "function_definition" {
        d := FunctionValueDecl(env, v, key, Some(receiver), None);
        WithBodyHas(env, d, v, path, e);
        keys, f := [key], v;
        assert keys[..0] == [];
      } else {
        var inner;
        inner, f, d := TableFound(env, Named(v.children), receiver + [DOT] + key, path, e);
        keys := [key] + inner;
        assert keys[1..] == inner;
        DottedDeeper(receiver, keys);
      }
    } else {
      keys, f, d := TableFound(env, fields[1..], receiver, path, e);
      LeadFurther(env, fields, keys, f);
    }
  }

  lemma {:induction false} FieldLies(env: Env, fields: seq<Node>, field: Node, receiver: Text,
                                     path: seq<Decl>, e: Entry)
    requires field in fields && Lies(TableField(env, field, receiver), path, e)
    ensures Lies(TableFunctions(env, fields, receiver), path, e)
    decreases |fields|
  {
    LiesAppend(TableField(env, fields[0], receiver), TableFunctions(env, fields[1..], receiver), path, e);
    if field != fields[0] {
      FieldLies(env, fields[1..], field, receiver, path, e);
    }
  }

  lemma LeafIsFound(env: Env, fields: seq<Node>, receiver: Text, key: Text, f: Node, d: Decl,
                    path: seq<Decl>, e: Entry)
    requires IsUnder(env, fields, key, f) && f.kind == "function_definition"
    requires IsMethodOf(env, d, f, key, receiver, None) && HasFunction(env, d, f, path, e)
    ensures Lies(TableFunctions(env, fields, receiver), path, e)
  {
    var field :| field in fields && HasKey(env, field, key) && ByField(field, "value") == Some(f);
    MethodValueIff(env, d, f, key, receiver, None);
    WithBodyHas(env, d, f, path, e);
    FieldLies(env, fields, field, receiver, path, e);
  }

  lemma NestedIsFound(env: Env, fields: seq<Node>, receiver: Text, key: Text, table: Node, path: seq<Decl>, e: Entry)
    requires IsTableUnder(env, fields, key, table)
    requires Lies(TableFunctions(env, Named(table.children), receiver + [DOT] + key), path, e)
    ensures Lies(TableFunctions(env, fields, receiver), path, e)
  {
    var field :| field in fields && HasKey(env, field, key) && ByField(field, "value") == Some(table);
    FieldLies(env, fields, field, receiver, path, e);
  }

  /** And every function that keys lead to is found. */
  lemma {:induction false} TableMethodIsFound(env: Env, fields: seq<Node>, receiver: Text, keys: seq<Text>,
                                              f: Node, d: Decl, path: seq<Decl>, e: Entry)
    requires IsTableMethod(env, fields, receiver, keys, f, d) && HasFunction(env, d, f, path, e)
    ensures Lies(TableFunctions(env, fields, receiver), path, e)
    decreases |keys|
  {
    if |keys| == 1 {
      assert keys[..0] == [];
      LeafIsFound(env, fields, receiver, keys[0], f, d, path, e);
    } else {
      var table :| IsTableUnder(env, fields, keys[0], table)
        && KeysLead(env, Named(table.children), keys[1..], f);
      DottedDeeper(receiver, keys);
      TableMethodIsFound(env, Named(table.children), receiver + [DOT] + keys[0], keys[1..], f, d, path, e);
      NestedIsFound(env, fields, receiver, keys[0], table, path, e);
    }
  }
}
