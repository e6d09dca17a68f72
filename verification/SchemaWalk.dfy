/** Which property names a successful response can carry: a cycle-guarded walk over a schema. */
module SchemaWalk {
  import Strings

  /** Parsed JSON; an object keeps its members in order, keys are unique. */
  datatype Json =
    | Null
    | Flag(b: bool)
    | Number(n: int)
    | Text(text: string)
    | List(members: seq<Json>)
    | Object(fields: seq<Field>)

  datatype Field = Field(name: string, value: Json)

  // ---------------------------------------------------------------- reading one node

  /** `node.get(key)`, `None` being JSON null. */
  function Get(node: Json, key: string): (value: Json)
    requires node.Object?
    ensures value == Null || (exists i :: 0 <= i < |node.fields| && node.fields[i].value == value)
  {
    Lookup(node.fields, key)
  }

  function Lookup(fields: seq<Field>, key: string): (value: Json)
    ensures value == Null || (exists i :: 0 <= i < |fields| && fields[i].value == value)
  {
    if fields == [] then Null
    else if fields[0].name == key then fields[0].value
    else
      var value := Lookup(fields[1..], key);
      assert forall i :: 0 <= i < |fields[1..]| ==> fields[1..][i] == fields[i + 1];
      value
  }

  /** Python truth of a parsed value: `x or default` keeps a truthy `x`. */
  predicate Truthy(v: Json) {
    match v
    case Null => false
    case Flag(b) => b
    case Number(n) => n != 0
    case Text(t) => t != ""
    case List(m) => m != []
    case Object(f) => f != []
  }

  predicate IsReference(node: Json) {
    node.Object? && Get(node, "$ref").Text?
  }

  /** A node the walk cannot iterate: `properties` not a mapping, or a composition keyword holding
      a number or `true`. */
  predicate Malformed(node: Json) {
    node.Object? && !IsReference(node) &&
    ( (Truthy(Get(node, "properties")) && !Get(node, "properties").Object?)
      || NotIterable(Get(node, "oneOf")) || NotIterable(Get(node, "anyOf")) || NotIterable(Get(node, "allOf")))
  }

  predicate NotIterable(v: Json) {
    Truthy(v) && (v.Flag? || v.Number?)
  }

  /** The fields of `node["properties"] or {}`. */
  function Properties(node: Json): seq<Field>
    requires node.Object?
  {
    var p := Get(node, "properties");
    if p.Object? then p.fields else []
  }

  /** What `for member in node.get(key) or []` yields that is worth walking: iterating a mapping
      or a string yields strings, on which the walk does nothing. */
  function Members(v: Json): seq<Json> {
    if v.List? then v.members else []
  }

  // ---------------------------------------------------------------- references

  function StripLeading(text: string): string {
    if text != "" && (text[0] == '#' || text[0] == '/') then StripLeading(text[1..]) else text
  }

  /** One path segment down; anything but an object stays put, a missing key is the empty object. */
  function Descend(target: Json, part: string): Json {
    if !target.Object? then target
    else if exists i :: 0 <= i < |target.fields| && target.fields[i].name == part then Get(target, part)
    else Object([])
  }

  function FollowPath(target: Json, parts: seq<string>): Json
    decreases |parts|
  {
    if parts == [] then target else FollowPath(Descend(target, parts[0]), parts[1..])
  }

  function Resolve(document: Json, reference: string): Json {
    FollowPath(document, Strings.Split(StripLeading(reference), '/'))
  }

  // ---------------------------------------------------------------- the independent definition

  function ValuesOf(fields: seq<Field>): (values: seq<Json>)
    ensures |values| == |fields| && forall i :: 0 <= i < |fields| ==> values[i] == fields[i].value
  {
    if fields == [] then [] else [fields[0].value] + ValuesOf(fields[1..])
  }

  function NamesOf(fields: seq<Field>): (names: seq<string>)
    ensures |names| == |fields| && forall i :: 0 <= i < |fields| ==> names[i] == fields[i].name
  {
    if fields == [] then [] else [fields[0].name] + NamesOf(fields[1..])
  }

  /** `items`, `additionalProperties`, then the members of the three composition keywords. */
  function KeywordChildren(node: Json): seq<Json>
    requires node.Object?
  {
    [Get(node, "items"), Get(node, "additionalProperties")]
    + Members(Get(node, "oneOf")) + Members(Get(node, "anyOf")) + Members(Get(node, "allOf"))
  }

  /** The nodes reachable from `node` in one step: a reference has its target only. */
  function Children(document: Json, node: Json): seq<Json> {
    if node.List? then node.members
    else if !node.Object? then []
    else if IsReference(node) then [Resolve(document, Get(node, "$ref").text)]
    else ValuesOf(Properties(node)) + KeywordChildren(node)
  }

  /** The property names `node` itself declares. */
  function OwnNames(node: Json): seq<string> {
    if node.Object? && !IsReference(node) then NamesOf(Properties(node)) else []
  }

  ghost predicate IsPath(document: Json, path: seq<Json>) {
    |path| > 0 && forall i :: 0 <= i < |path| - 1 ==> path[i + 1] in Children(document, path[i])
  }

  /** `node` is reachable from one of `roots`, through any number of references. */
  ghost predicate Reachable(document: Json, roots: seq<Json>, node: Json) {
    exists path :: IsPath(document, path) && path[0] in roots && path[|path| - 1] == node
  }

  ghost predicate ReachableName(document: Json, roots: seq<Json>, name: string) {
    exists node :: Reachable(document, roots, node) && name in OwnNames(node)
  }

  lemma ReachableStep(document: Json, roots: seq<Json>, node: Json, child: Json)
    requires Reachable(document, roots, node) && child in Children(document, node)
    ensures Reachable(document, roots, child)
  {
    var path :| IsPath(document, path) && path[0] in roots && path[|path| - 1] == node;
    var longer := path + [child];
    assert forall i :: 0 <= i < |path| ==> longer[i] == path[i];
    assert IsPath(document, longer);
  }

  lemma RootReachable(document: Json, roots: seq<Json>, root: Json)
    requires root in roots
    ensures Reachable(document, roots, root)
  {
    assert IsPath(document, [root]);
  }

  // ---------------------------------------------------------------- termination: reference strings

  /** Every `$ref` string written anywhere inside `node`. */
  function References(node: Json): set<string> {
    match node
    case List(members) => set i, r | 0 <= i < |members| && r in References(members[i]) :: r
    case Object(fields) =>
      (set i, r | 0 <= i < |fields| && r in References(fields[i].value) :: r)
      + (if IsReference(node) then {Get(node, "$ref").text} else {})
    case _ => {}
  }

  lemma FieldReferences(node: Json, key: string)
    requires node.Object?
    ensures References(Get(node, key)) <= References(node)
  {
    if Get(node, key) != Null {
      var i :| 0 <= i < |node.fields| && node.fields[i].value == Get(node, key);
    }
  }

  lemma {:induction false} PathReferences(target: Json, parts: seq<string>)
    ensures References(FollowPath(target, parts)) <= References(target)
    decreases |parts|
  {
    if parts != [] {
      if target.Object? {
        FieldReferences(target, parts[0]);
      }
      PathReferences(Descend(target, parts[0]), parts[1..]);
    }
  }

  lemma MemberReferences(members: seq<Json>, member: Json)
    requires member in members
    ensures References(member) <= References(List(members))
  {
    var i :| 0 <= i < |members| && members[i] == member;
  }

  lemma KeywordReferences(node: Json, key: string, member: Json)
    requires node.Object? && member in Members(Get(node, key))
    ensures References(member) <= References(node)
  {
    FieldReferences(node, key);
    MemberReferences(Get(node, key).members, member);
  }

  lemma PropertyReferences(node: Json, child: Json)
    requires node.Object? && child in ValuesOf(Properties(node))
    ensures References(child) <= References(node)
  {
    var p := Get(node, "properties");
    var i :| 0 <= i < |p.fields| && p.fields[i].value == child;
    assert References(child) <= References(p);
    FieldReferences(node, "properties");
  }

  /** Walking never meets a reference that is written in neither the node nor the document. */
  lemma ChildReferences(document: Json, node: Json, child: Json)
    requires child in Children(document, node)
    ensures References(child) <= References(node) + References(document)
  {
    if node.List? {
      MemberReferences(node.members, child);
    } else if IsReference(node) {
      PathReferences(document, Strings.Split(StripLeading(Get(node, "$ref").text), '/'));
    } else if child in ValuesOf(Properties(node)) {
      PropertyReferences(node, child);
    } else if child == Get(node, "items") {
      FieldReferences(node, "items");
    } else if child == Get(node, "additionalProperties") {
      FieldReferences(node, "additionalProperties");
    } else if child in Members(Get(node, "oneOf")) {
      KeywordReferences(node, "oneOf", child);
    } else if child in Members(Get(node, "anyOf")) {
      KeywordReferences(node, "anyOf", child);
    } else {
      KeywordReferences(node, "allOf", child);
    }
  }

  // ---------------------------------------------------------------- termination: node size

  function Size(node: Json): nat {
    match node
    case List(members) => 1 + MembersSize(members)
    case Object(fields) => 1 + FieldsSize(fields)
    case _ => 0
  }

  function MembersSize(members: seq<Json>): nat {
    if members == [] then 0 else Size(members[0]) + MembersSize(members[1..])
  }

  function FieldsSize(fields: seq<Field>): nat {
    if fields == [] then 0 else Size(fields[0].value) + FieldsSize(fields[1..])
  }

  lemma {:induction false} MemberSmaller(members: seq<Json>, i: nat)
    requires i < |members|
    ensures Size(members[i]) <= MembersSize(members)
  {
    if i > 0 {
      MemberSmaller(members[1..], i - 1);
    }
  }

  lemma {:induction false} FieldSmaller(fields: seq<Field>, i: nat)
    requires i < |fields|
    ensures Size(fields[i].value) <= FieldsSize(fields)
  {
    if i > 0 {
      FieldSmaller(fields[1..], i - 1);
    }
  }

  lemma GetSmaller(node: Json, key: string)
    requires node.Object?
    ensures Size(Get(node, key)) < Size(node)
  {
    if Get(node, key) != Null {
      var i :| 0 <= i < |node.fields| && node.fields[i].value == Get(node, key);
      FieldSmaller(node.fields, i);
    }
  }

  /** Away from references, every step goes to a smaller node. */
  lemma ChildSmaller(document: Json, node: Json, i: nat)
    requires i < |Children(document, node)| && !IsReference(node)
    ensures Size(Children(document, node)[i]) < Size(node)
  {
    if node.List? {
      MemberSmaller(node.members, i);
    } else {
      var n := |Properties(node)|;
      if i < n {
        GetSmaller(node, "properties");
        FieldSmaller(Properties(node), i);
      } else {
        KeywordSmaller(node, i - n);
      }
    }
  }

  lemma KeywordSmaller(node: Json, i: nat)
    requires node.Object? && i < |KeywordChildren(node)|
    ensures Size(KeywordChildren(node)[i]) < Size(node)
  {
    GetSmaller(node, "items");
    GetSmaller(node, "additionalProperties");
    var one, any, all := Members(Get(node, "oneOf")), Members(Get(node, "anyOf")), Members(Get(node, "allOf"));
    if 2 <= i < 2 + |one| {
      KeywordMemberSmaller(node, "oneOf", i - 2);
    } else if 2 + |one| <= i < 2 + |one| + |any| {
      KeywordMemberSmaller(node, "anyOf", i - 2 - |one|);
    } else if 2 + |one| + |any| <= i {
      KeywordMemberSmaller(node, "allOf", i - 2 - |one| - |any|);
    }
  }

  lemma KeywordMemberSmaller(node: Json, key: string, i: nat)
    requires node.Object? && i < |Members(Get(node, key))|
    ensures Size(Members(Get(node, key))[i]) < Size(node)
  {
    GetSmaller(node, key);
    MemberSmaller(Members(Get(node, key)), i);
  }

  lemma {:induction false} Subset(a: set<string>, b: set<string>)
    requires a <= b
    ensures |a| <= |b|
  {
    if a != {} {
      var x :| x in a;
      Subset(a - {x}, b - {x});
    }
  }

  lemma UnseenShrinks(universe: set<string>, seen: set<string>, r: string)
    requires r in universe && r !in seen
    ensures |universe - (seen + {r})| < |universe - seen|
  {
    Subset(universe - (seen + {r}), universe - seen - {r});
  }

  // ---------------------------------------------------------------- progress of the walk

  /** `node` is done: its names are collected and everything walked from it has been entered. */
  ghost predicate Done(document: Json, names: set<string>, entered: set<Json>, node: Json) {
    && node in entered && !Malformed(node)
    && (forall name :: name in OwnNames(node) ==> name in names)
    && (forall child :: child in Children(document, node) ==> child in entered)
  }

  /** What a walk that started from (`names0`, `seen0`, `entered0`) may have done: only grow, and
      finish everything it entered. */
  ghost predicate Progress(document: Json, names0: set<string>, seen0: set<string>, entered0: set<Json>,
                           names: set<string>, seen: set<string>, entered: set<Json>) {
    && names0 <= names && seen0 <= seen && entered0 <= entered
    && forall node :: node in entered && node !in entered0 ==> Done(document, names, entered, node)
  }

  lemma DoneGrows(
      document: Json, names: set<string>, entered: set<Json>, node: Json, names': set<string>, entered': set<Json>)
    requires Done(document, names, entered, node) && names <= names' && entered <= entered'
    ensures Done(document, names', entered', node)
  {
  }

  lemma ProgressJoins(document: Json, n0: set<string>, s0: set<string>, e0: set<Json>,
                      n1: set<string>, s1: set<string>, e1: set<Json>, n2: set<string>, s2: set<string>, e2: set<Json>)
    requires Progress(document, n0, s0, e0, n1, s1, e1) && Progress(document, n1, s1, e1, n2, s2, e2)
    ensures Progress(document, n0, s0, e0, n2, s2, e2)
  {
    forall node | node in e2 && node !in e0
      ensures Done(document, n2, e2, node)
    {
      if node in e1 {
        DoneGrows(document, n1, e1, node, n2, e2);
      }
    }
  }

  // ---------------------------------------------------------------- the walk

  /** The first `n` elements of `s` (all of them when it is shorter) are in `xs`. */
  ghost predicate FirstIn<T>(s: seq<T>, n: nat, xs: set<T>) {
    forall x :: x in s[..if n < |s| then n else |s|] ==> x in xs
  }

  lemma FirstInStep<T>(s: seq<T>, n: nat, xs: set<T>, ys: set<T>)
    requires FirstIn(s, n, xs) && xs <= ys && (n < |s| ==> s[n] in ys)
    ensures FirstIn(s, n + 1, ys)
  {
    if n < |s| {
      assert s[..n + 1] == s[..n] + [s[n]];
    }
  }

  lemma FirstInAll<T>(s: seq<T>, n: nat, xs: set<T>)
    requires FirstIn(s, n, xs) && n >= |s|
    ensures forall x :: x in s ==> x in xs
  {
    assert s[..|s|] == s;
  }

  class Walker {
    const document: Json
    ghost const roots: seq<Json>
    ghost const universe: set<string>
    var names: set<string>
    var seen: set<string>
    ghost var entered: set<Json>

    constructor (document: Json, roots: seq<Json>)
      ensures this.document == document && this.roots == roots
      ensures names == {} && seen == {} && entered == {} && Valid()
      ensures forall root :: root in roots ==> Walkable(root)
    {
      this.document, this.roots := document, roots;
      this.universe := References(document) + (set i, r | 0 <= i < |roots| && r in References(roots[i]) :: r);
      this.names, this.seen, this.entered := {}, {}, {};
      new;
      forall root | root in roots ensures Reachable(document, roots, root) { RootReachable(document, roots, root); }
    }

    ghost predicate Valid()
      reads this
    {
      && seen <= universe && References(document) <= universe
      && (forall name :: name in names ==> ReachableName(document, roots, name))
      && (forall r :: r in seen ==> Resolve(document, r) in entered)
    }

    ghost predicate Walkable(node: Json) {
      Reachable(document, roots, node) && References(node) <= universe
    }

    ghost predicate MalformedReachable() {
      exists node :: Reachable(document, roots, node) && Malformed(node)
    }

    lemma ChildWalkable(node: Json, child: Json)
      requires Walkable(node) && child in Children(document, node) && References(document) <= universe
      ensures Walkable(child)
    {
      ReachableStep(document, roots, node, child);
      ChildReferences(document, node, child);
    }

    /** What a finished walk promises of the node it was given. */
    twostate predicate Walked(node: Json)
      reads this
    {
      && Progress(document, old(names), old(seen), old(entered), names, seen, entered)
      && Done(document, names, entered, node)
    }

    /** `walk(node)`; `ok` is false when iterating some reachable node raises. */
    method Walk(node: Json) returns (ok: bool)
      requires Valid() && Walkable(node)
      modifies this
      ensures Valid()
      ensures ok ==> Walked(node)
      ensures !ok ==> MalformedReachable()
      decreases |universe - seen|, Size(node), 2
    {
      if IsReference(node) {
        ok := WalkReference(node);
      } else {
        if Malformed(node) {
          return false;
        }
        entered := entered + {node};
        ok := WalkChildren(node);
      }
    }

    method WalkReference(node: Json) returns (ok: bool)
      requires Valid() && Walkable(node) && IsReference(node)
      modifies this
      ensures Valid()
      ensures ok ==> Walked(node)
      ensures !ok ==> MalformedReachable()
      decreases |universe - seen|, Size(node), 0
    {
      var reference := Get(node, "$ref").text;
      var target := Resolve(document, reference);
      if reference in seen {
        entered := entered + {node};
        return true;
      }
      ChildWalkable(node, target);
      UnseenShrinks(universe, seen, reference);
      seen, entered := seen + {reference}, entered + {node, target};
      ok := Walk(target);
    }

    /** `names.add(name)`, when the child is a property. */
    method CollectName(node: Json, i: nat)
      requires Valid() && Walkable(node)
      modifies this`names
      ensures Valid()
      ensures i >= |OwnNames(node)| ==> names == old(names)
      ensures i < |OwnNames(node)| ==> names == old(names) + {OwnNames(node)[i]}
    {
      var own := OwnNames(node);
      if i < |own| {
        assert own[i] in OwnNames(node);
        names := names + {own[i]};
      }
    }

    /** One turn of those loops: collect the property's name, if it is one, then walk its schema. */
    method WalkChild(node: Json, i: nat) returns (ok: bool)
      requires Valid() && Walkable(node) && !IsReference(node) && i < |Children(document, node)|
      modifies this
      ensures Valid()
      ensures ok ==> Progress(document, old(names), old(seen), old(entered), names, seen, entered)
      ensures ok ==> Children(document, node)[i] in entered
                     && (i < |OwnNames(node)| ==> OwnNames(node)[i] in names)
      ensures !ok ==> MalformedReachable()
      decreases |universe - seen|, Size(node), 0
    {
      var child := Children(document, node)[i];
      ChildWalkable(node, child);
      ChildSmaller(document, node, i);
      CollectName(node, i);
      assert i < |OwnNames(node)| ==> OwnNames(node)[i] in names;
      ghost var collected := names;
      ok := Walk(child);
      if ok {
        assert collected <= names && old(names) <= collected;
      }
    }

    /** The loops over the properties and over the other children, in order. */
    method WalkChildren(node: Json) returns (ok: bool)
      requires Valid() && Walkable(node) && !IsReference(node)
      modifies this
      ensures Valid()
      ensures ok ==> Progress(document, old(names), old(seen), old(entered), names, seen, entered)
      ensures ok ==> (forall name :: name in OwnNames(node) ==> name in names)
                     && (forall child :: child in Children(document, node) ==> child in entered)
      ensures !ok ==> MalformedReachable()
      decreases |universe - seen|, Size(node), 1
    {
      ghost var n0, s0, e0 := names, seen, entered;
      ghost var children, own := Children(document, node), OwnNames(node);
      var i := 0;
      while i < |Children(document, node)|
        invariant 0 <= i <= |children|
        invariant Valid() && Progress(document, n0, s0, e0, names, seen, entered)
        invariant FirstIn(children, i, entered) && FirstIn(own, i, names)
      {
        ghost var n1, s1, e1 := names, seen, entered;
        Subset(universe - seen, universe - s0);
        ok := WalkChild(node, i);
        if !ok {
          return;
        }
        ProgressJoins(document, n0, s0, e0, n1, s1, e1, names, seen, entered);
        FirstInStep(children, i, e1, entered);
        FirstInStep(own, i, n1, names);
        i := i + 1;
      }
      FirstInAll(children, i, entered);
      FirstInAll(own, i, names);
      ok := true;
    }
  }

  // ---------------------------------------------------------------- the whole collection

  /** One response of an operation: its status and its JSON schema, null when it has none. */
  datatype Response = Response(code: string, schema: Json)

  function SuccessSchemas(responses: seq<Response>): seq<Json> {
    if responses == [] then []
    else (if |responses[0].code| > 0 && responses[0].code[0] == '2' then [responses[0].schema] else [])
         + SuccessSchemas(responses[1..])
  }

  lemma {:induction false} PathEntered(document: Json, names: set<string>, entered: set<Json>, path: seq<Json>)
    requires IsPath(document, path) && path[0] in entered
    requires forall node :: node in entered ==> Done(document, names, entered, node)
    ensures path[|path| - 1] in entered
    decreases |path|
  {
    if |path| > 1 {
      assert path[1] in Children(document, path[0]);
      var rest := path[1..];
      assert forall i :: 0 <= i < |rest| ==> rest[i] == path[i + 1];
      PathEntered(document, names, entered, rest);
    }
  }

  /** Exactly the property names reachable from any 2xx schema, in spite of cyclic references and of
      one visited set shared by every branch and response; it raises iff a reachable node cannot be
      iterated. */
  method ResponseProperties(document: Json, responses: seq<Response>) returns (ok: bool, names: set<string>)
    ensures ok <==> !exists node :: Reachable(document, SuccessSchemas(responses), node) && Malformed(node)
    ensures ok ==> forall name :: name in names <==> ReachableName(document, SuccessSchemas(responses), name)
  {
    var schemas := SuccessSchemas(responses);
    var walker := new Walker(document, schemas);
    names := {};
    var i := 0;
    while i < |schemas|
      invariant 0 <= i <= |schemas|
      invariant walker.Valid() && walker.document == document && walker.roots == schemas
      invariant forall root :: root in schemas ==> walker.Walkable(root)
      invariant forall node :: node in walker.entered ==> Done(document, walker.names, walker.entered, node)
      invariant FirstIn(schemas, i, walker.entered)
    {
      ghost var n1, s1, e1 := walker.names, walker.seen, walker.entered;
      ok := walker.Walk(schemas[i]);
      if !ok {
        return;
      }
      ProgressJoins(document, {}, {}, {}, n1, s1, e1, walker.names, walker.seen, walker.entered);
      FirstInStep(schemas, i, e1, walker.entered);
      i := i + 1;
    }
    FirstInAll(schemas, i, walker.entered);
    names := walker.names;
    ok := true;
    forall node | Reachable(document, schemas, node)
      ensures Done(document, names, walker.entered, node)
    {
      var path :| IsPath(document, path) && path[0] in schemas && path[|path| - 1] == node;
      PathEntered(document, names, walker.entered, path);
    }
  }

  // ---------------------------------------------------------------- where a reference and a step lead

  /** `node` has `value` under `key`; the first member of that name counts. */
  ghost predicate MemberIs(node: Json, key: string, value: Json) {
    node.Object? && exists i :: 0 <= i < |node.fields| && node.fields[i] == Field(key, value)
                                && forall j :: 0 <= j < i ==> node.fields[j].name != key
  }

  lemma {:induction false} LookupFinds(fields: seq<Field>, key: string, i: nat)
    requires i < |fields| && fields[i].name == key && forall j :: 0 <= j < i ==> fields[j].name != key
    ensures Lookup(fields, key) == fields[i].value
  {
    if i > 0 {
      LookupFinds(fields[1..], key, i - 1);
    }
  }

  lemma {:induction false} LookupFound(fields: seq<Field>, key: string) returns (i: nat)
    requires Lookup(fields, key) != Null
    ensures i < |fields| && fields[i] == Field(key, Lookup(fields, key))
    ensures forall j :: 0 <= j < i ==> fields[j].name != key
  {
    if fields[0].name == key {
      i := 0;
    } else {
      var k := LookupFound(fields[1..], key);
      i := k + 1;
      forall j | 0 <= j < i
        ensures fields[j].name != key
      {
        assert j > 0 ==> fields[j] == fields[1..][j - 1];
      }
    }
  }

  lemma MemberIsFound(node: Json, key: string, value: Json)
    requires node.Object?
    ensures MemberIs(node, key, value) ==> Get(node, key) == value
    ensures value != Null && Get(node, key) == value ==> MemberIs(node, key, value)
  {
    if MemberIs(node, key, value) {
      var i :| 0 <= i < |node.fields| && node.fields[i] == Field(key, value)
               && forall j :: 0 <= j < i ==> node.fields[j].name != key;
      LookupFinds(node.fields, key, i);
    }
    if value != Null && Get(node, key) == value {
      var i := LookupFound(node.fields, key);
    }
  }

  /** Following the members `parts` from `node`, one below the other, leads to `value`. */
  ghost predicate Leads(node: Json, parts: seq<string>, value: Json)
    decreases |parts|
  {
    if parts == [] then value == node
    else exists child :: MemberIs(node, parts[0], child) && Leads(child, parts[1..], value)
  }

  lemma {:induction false} FollowLeads(node: Json, parts: seq<string>, value: Json)
    requires Leads(node, parts, value)
    ensures FollowPath(node, parts) == value
    decreases |parts|
  {
    if parts != [] {
      var child :| MemberIs(node, parts[0], child) && Leads(child, parts[1..], value);
      MemberIsFound(node, parts[0], child);
      FollowLeads(child, parts[1..], value);
    }
  }

  /** A local reference leads to the member its path names, part by part. */
  lemma ReferenceLeads(document: Json, parts: seq<string>, value: Json)
    requires parts != [] && Leads(document, parts, value) && forall i :: 0 <= i < |parts| ==> '/' !in parts[i]
    requires parts[0] != "" && parts[0][0] != '#'
    ensures Resolve(document, "#/" + Strings.Join(parts, '/')) == value
  {
    var path := Strings.Join(parts, '/');
    assert path[0] == parts[0][0] && parts[0][0] in parts[0];
    assert ("#/" + path)[1..] == "/" + path && ("/" + path)[1..] == path;
    assert StripLeading(path) == path && StripLeading("/" + path) == path && StripLeading("#/" + path) == path;
    Strings.SplitOfJoin(parts, '/');
    FollowLeads(document, parts, value);
  }

  lemma JoinOfThree(a: string, b: string, c: string)
    ensures Strings.Join([a, b, c], '/') == a + "/" + b + "/" + c
  {
    assert [a, b, c][1..] == [b, c] && [b, c][1..] == [c];
    assert Strings.Join([b, c], '/') == b + ['/'] + c;
  }

  lemma LeadsThrough(document: Json, a: string, x: Json, b: string, y: Json, c: string, z: Json)
    requires MemberIs(document, a, x) && MemberIs(x, b, y) && MemberIs(y, c, z)
    ensures Leads(document, [a, b, c], z)
  {
    assert [a, b, c][1..] == [b, c] && [b, c][1..] == [c] && [c][1..] == [];
    assert Leads(z, [], z);
    assert Leads(y, [c], z);
    assert Leads(x, [b, c], z);
  }

  /** The form every reference to a declared schema has. */
  lemma SchemaReference(document: Json, components: Json, schemas: Json, key: string, value: Json)
    requires MemberIs(document, "components", components) && MemberIs(components, "schemas", schemas)
    requires MemberIs(schemas, key, value) && '/' !in key
    ensures Resolve(document, "#/components/schemas/" + key) == value
  {
    LeadsThrough(document, "components", components, "schemas", schemas, key, value);
    ReferenceLeads(document, ["components", "schemas", key], value);
    JoinOfThree("components", "schemas", key);
    assert "#/components/schemas/" + key == "#/" + ("components" + "/" + "schemas" + "/" + key);
  }

  /** A reference whose first part the document does not have leads to the empty object. */
  lemma {:induction false} NothingLeadsOn(parts: seq<string>)
    ensures FollowPath(Object([]), parts) == Object([])
    decreases |parts|
  {
    if parts != [] {
      NothingLeadsOn(parts[1..]);
    }
  }

  lemma MissingLeadsToNothing(document: Json, reference: string)
    requires document.Object?
    requires forall i :: 0 <= i < |document.fields| ==>
               document.fields[i].name != Strings.Split(StripLeading(reference), '/')[0]
    ensures Resolve(document, reference) == Object([])
  {
    NothingLeadsOn(Strings.Split(StripLeading(reference), '/')[1..]);
  }

  ghost predicate HasReference(node: Json) {
    exists text :: MemberIs(node, "$ref", Text(text))
  }

  ghost predicate Declares(node: Json, f: Field) {
    exists p :: MemberIs(node, "properties", p) && p.Object? && f in p.fields
  }

  ghost predicate Composes(node: Json, key: string, x: Json) {
    exists members :: MemberIs(node, key, List(members)) && x in members
  }

  /** One step of the walk, keyword by keyword. */
  ghost predicate Step(document: Json, node: Json, x: Json) {
    || (node.List? && x in node.members)
    || (exists text :: MemberIs(node, "$ref", Text(text)) && x == Resolve(document, text))
    || (node.Object? && !HasReference(node)
        && ( || (exists name :: Declares(node, Field(name, x)))
             || MemberIs(node, "items", x) || MemberIs(node, "additionalProperties", x)
             || Composes(node, "oneOf", x) || Composes(node, "anyOf", x) || Composes(node, "allOf", x)))
  }

  lemma ReferenceIff(node: Json)
    ensures IsReference(node) <==> HasReference(node)
    ensures IsReference(node) ==> MemberIs(node, "$ref", Get(node, "$ref"))
  {
    if node.Object? {
      MemberIsFound(node, "$ref", Get(node, "$ref"));
      forall text | MemberIs(node, "$ref", Text(text))
        ensures Get(node, "$ref") == Text(text)
      {
        MemberIsFound(node, "$ref", Text(text));
      }
    }
  }

  lemma PropertiesIff(node: Json, f: Field)
    requires node.Object?
    ensures f in Properties(node) <==> Declares(node, f)
  {
    MemberIsFound(node, "properties", Get(node, "properties"));
    forall p | MemberIs(node, "properties", p)
      ensures Get(node, "properties") == p
    {
      MemberIsFound(node, "properties", p);
    }
  }

  lemma MembersIff(node: Json, key: string, x: Json)
    requires node.Object?
    ensures x in Members(Get(node, key)) <==> Composes(node, key, x)
  {
    MemberIsFound(node, key, Get(node, key));
    forall members | MemberIs(node, key, List(members))
      ensures Get(node, key) == List(members)
    {
      MemberIsFound(node, key, List(members));
    }
  }

  lemma ValuesIff(fields: seq<Field>, x: Json)
    ensures x in ValuesOf(fields) <==> exists name :: Field(name, x) in fields
  {
    if x in ValuesOf(fields) {
      var i :| 0 <= i < |fields| && ValuesOf(fields)[i] == x;
      assert fields[i] == Field(fields[i].name, x);
    }
    if name :| Field(name, x) in fields {
      var i :| 0 <= i < |fields| && fields[i] == Field(name, x);
      assert ValuesOf(fields)[i] == x;
    }
  }

  lemma KeywordIff(node: Json, x: Json)
    requires node.Object? && x != Null
    ensures x in KeywordChildren(node) <==>
            || MemberIs(node, "items", x) || MemberIs(node, "additionalProperties", x)
            || Composes(node, "oneOf", x) || Composes(node, "anyOf", x) || Composes(node, "allOf", x)
  {
    MemberIsFound(node, "items", x);
    MemberIsFound(node, "additionalProperties", x);
    MembersIff(node, "oneOf", x);
    MembersIff(node, "anyOf", x);
    MembersIff(node, "allOf", x);
  }

  /** The walk takes exactly these steps (an absent keyword also yields null, which leads nowhere). */
  lemma StepIff(document: Json, node: Json, x: Json)
    requires x != Null
    ensures x in Children(document, node) <==> Step(document, node, x)
  {
    ReferenceIff(node);
    if node.Object? && !IsReference(node) {
      forall name
        ensures Field(name, x) in Properties(node) <==> Declares(node, Field(name, x))
      {
        PropertiesIff(node, Field(name, x));
      }
      ValuesIff(Properties(node), x);
      KeywordIff(node, x);
    } else if IsReference(node) {
      forall text | MemberIs(node, "$ref", Text(text))
        ensures Get(node, "$ref") == Text(text)
      {
        MemberIsFound(node, "$ref", Text(text));
      }
    }
  }

  /** A node declares exactly the names under its `properties`, unless it is a reference. */
  lemma OwnNamesIff(node: Json, name: string)
    ensures name in OwnNames(node) <==>
            node.Object? && !HasReference(node) && exists x :: Declares(node, Field(name, x))
  {
    ReferenceIff(node);
    if node.Object? && !IsReference(node) {
      forall x
        ensures Field(name, x) in Properties(node) <==> Declares(node, Field(name, x))
      {
        PropertiesIff(node, Field(name, x));
      }
      NamesIff(Properties(node), name);
    }
  }

  lemma NamesIff(fields: seq<Field>, name: string)
    ensures name in NamesOf(fields) <==> exists x :: Field(name, x) in fields
  {
    if name in NamesOf(fields) {
      var i :| 0 <= i < |fields| && NamesOf(fields)[i] == name;
      assert fields[i] == Field(name, fields[i].value);
    }
    if x :| Field(name, x) in fields {
      var i :| 0 <= i < |fields| && fields[i] == Field(name, x);
      assert NamesOf(fields)[i] == name;
    }
  }

  /** What cannot be iterated: `properties` that is `true`, a number but 0, a text or a list that is not
      empty; a composition keyword that is `true` or a number but 0. */
  lemma MalformedIff(node: Json)
    requires node.Object? && !HasReference(node)
    ensures Malformed(node) <==>
            || (match Get(node, "properties")
                case Flag(b) => b
                case Number(n) => n != 0
                case Text(t) => t != ""
                case List(m) => m != []
                case _ => false)
            || exists key :: key in ["oneOf", "anyOf", "allOf"]
                             && ( Get(node, key) == Flag(true)
                                  || (Get(node, key).Number? && Get(node, key) != Number(0)))
  {
    ReferenceIff(node);
    assert "oneOf" in ["oneOf", "anyOf", "allOf"] && "anyOf" in ["oneOf", "anyOf", "allOf"]
           && "allOf" in ["oneOf", "anyOf", "allOf"];
  }

  /** The walk starts from the schema of every response whose code starts with 2. */
  lemma {:induction false} SuccessSchemasIff(responses: seq<Response>, schema: Json)
    ensures schema in SuccessSchemas(responses) <==>
            exists i :: 0 <= i < |responses| && responses[i].schema == schema && "2" <= responses[i].code
  {
    if responses != [] {
      SuccessSchemasIff(responses[1..], schema);
      assert forall i :: 0 <= i < |responses[1..]| ==> responses[1..][i] == responses[i + 1];
      assert forall i :: 0 < i < |responses| ==> responses[i] == responses[1..][i - 1];
    }
  }
}
