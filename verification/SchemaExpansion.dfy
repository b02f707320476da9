/** Expanding a message type into a schema tree (internal/app/rest_schema.go). Types may be
    recursive; one set of type names, mutated and restored on the way, cuts the recursion. */
module SchemaExpansion {
  import opened Utf8
  import opened Wrappers
  import opened Finite

  // A group field (proto2, or delimited in an edition) refers to a message type too, but is neither
  // expanded nor named: the exact consequences are at the end.

  type Name = Bytes

  datatype MapValue = ScalarValue(kind: ScalarKind) | EnumValue(enumType: Name) | MessageValue(messageType: Name)

  const KIND_ENUM: Bytes := [101, 110, 117, 109]

  const KIND_MESSAGE: Bytes := [109, 101, 115, 115, 97, 103, 101]

  const KIND_GROUP: Bytes := [103, 114, 111, 117, 112]

  type ScalarKind = k: Bytes | k != KIND_GROUP && k != KIND_ENUM && k != KIND_MESSAGE

  datatype Shape =
    | Scalar(kind: ScalarKind)
    | Enum(enumType: Name, values: seq<Name>)
    | Message(messageType: Name)
    | Group(groupType: Name)
    | MapOf(keyKind: Bytes, value: MapValue)

  datatype Cardinality = Optional | Required | Repeated

  /** A synthetic oneof stands for proto3's `optional`. */
  datatype Oneof = Oneof(name: Name, synthetic: bool)

  datatype Field = Field(
    name: Name,
    jsonName: Name,
    number: int,
    cardinality: Cardinality,
    oneof: Option<Oneof>,
    shape: Shape)

  /** All message types by name, with their fields. */
  type Types = map<Name, seq<Field>>

  /** The message type that a field refers to. */
  function Refers(f: Field): Option<Name> {
    match f.shape
    case Message(t) => Some(t)
    case Group(t) => Some(t)
    case MapOf(_, MessageValue(t)) => Some(t)
    case _ => None
  }

  /** The message type that is expanded below a field. */
  function Follows(f: Field): Option<Name> {
    if f.shape.Group? then None else Refers(f)
  }

  /** Descriptors are linked: every message type that a field refers to is there. */
  ghost predicate Linked(g: Types) {
    forall t, i :: t in g && 0 <= i < |g[t]| && Refers(g[t][i]).Some? ==> Refers(g[t][i]).value in g
  }

  /** A map field is a repeated message underneath. */
  function Kind(f: Field): Bytes {
    match f.shape
    case Scalar(kind) => kind
    case Enum(_, _) => KIND_ENUM
    case Group(_) => KIND_GROUP
    case _ => KIND_MESSAGE
  }

  function ValueKind(v: MapValue): Bytes {
    match v
    case ScalarValue(kind) => kind
    case EnumValue(_) => KIND_ENUM
    case MessageValue(_) => KIND_MESSAGE
  }

  datatype FieldSchema = FieldSchema(
    name: Name,
    jsonName: Name,
    number: int,
    kind: Bytes,
    cardinality: Cardinality,
    oneof: Option<Name>,
    typeName: Option<Name>,
    enumValues: Option<seq<Name>>,
    message: Option<Schema>,
    isMap: bool,
    mapKeyKind: Option<Bytes>,
    mapValueKind: Option<Bytes>,
    mapValueTypeName: Option<Name>,
    mapValueMessage: Option<Schema>)

  datatype Schema = Schema(typeName: Name, fields: seq<FieldSchema>, recursiveRef: bool)

  // ----- The tree as a function of the type and the types being expanded above it

  ghost function Expand(g: Types, t: Name, above: set<Name>): Schema
    requires Linked(g) && t in g
    decreases g.Keys - above, 1
  {
    if t in above then Schema(t, [], true)
    else Schema(t, seq(|g[t]|, i requires 0 <= i < |g[t]| => ExpandField(g, t, i, above + {t})), false)
  }

  ghost function ExpandField(g: Types, t: Name, i: nat, above: set<Name>): FieldSchema
    requires Linked(g) && t in g && i < |g[t]| && t in above
    decreases g.Keys - above, 2
  {
    var f := g[t][i];
    var none := Plain(f);
    match f.shape
    case Scalar(_) | Group(_) => none
    case Enum(e, values) => none.(typeName := Some(e), enumValues := Some(values))
    case Message(m) => none.(typeName := Some(m), message := Some(Expand(g, m, above)))
    case MapOf(k, v) =>
      var keyed := none.(isMap := true, mapKeyKind := Some(k), mapValueKind := Some(ValueKind(v)));
      match v
      case ScalarValue(_) => keyed
      case EnumValue(e) => keyed.(mapValueTypeName := Some(e))
      case MessageValue(m) => keyed.(mapValueTypeName := Some(m), mapValueMessage := Some(Expand(g, m, above)))
  }

  ghost function Plain(f: Field): FieldSchema {
    FieldSchema(f.name, f.jsonName, f.number, Kind(f), f.cardinality,
                if f.oneof.None? || f.oneof.value.synthetic then None else Some(f.oneof.value.name),
                None, None, None, false, None, None, None, None)
  }

  // ----- The code

  /** The map that all calls of one expansion share. */
  class Visiting {
    var names: set<Name>

    constructor ()
      ensures names == {}
    {
      names := {};
    }
  }

  /** Terminates on every linked graph, and gives the visiting set back as it was. */
  method MessageSchema(g: Types, t: Name, visiting: Visiting) returns (s: Schema)
    requires Linked(g) && t in g
    modifies visiting
    ensures visiting.names == old(visiting.names)
    ensures s == Expand(g, t, visiting.names)
    decreases g.Keys - visiting.names, 1
  {
    if t in visiting.names {
      return Schema(t, [], true);
    }
    ghost var above := visiting.names;
    visiting.names := visiting.names + {t};
    var fields := [];
    for i := 0 to |g[t]|
      invariant visiting.names == above + {t}
      invariant |fields| == i && forall k :: 0 <= k < i ==> fields[k] == ExpandField(g, t, k, above + {t})
    {
      var f := ProtoFieldSchema(g, t, i, visiting);
      fields := fields + [f];
    }
    visiting.names := visiting.names - {t};
    s := Schema(t, fields, false);
  }

  method ProtoFieldSchema(g: Types, t: Name, i: nat, visiting: Visiting) returns (r: FieldSchema)
    requires Linked(g) && t in g && i < |g[t]| && t in visiting.names
    modifies visiting
    ensures visiting.names == old(visiting.names)
    ensures r == ExpandField(g, t, i, visiting.names)
    decreases g.Keys - visiting.names, 2
  {
    var f := g[t][i];
    r := FieldSchema(f.name, f.jsonName, f.number, Kind(f), f.cardinality,
                     None, None, None, None, false, None, None, None, None);
    if f.oneof.Some? && !f.oneof.value.synthetic {
      r := r.(oneof := Some(f.oneof.value.name));
    }
    match f.shape {
      case MapOf(k, value) =>
        r := r.(isMap := true, mapKeyKind := Some(k), mapValueKind := Some(ValueKind(value)));
        match value {
          case ScalarValue(_) =>
          case EnumValue(e) => r := r.(mapValueTypeName := Some(e));
          case MessageValue(m) =>
            var nested := MessageSchema(g, m, visiting);
            r := r.(mapValueTypeName := Some(m), mapValueMessage := Some(nested));
        }
      case Enum(e, values) =>
        r := r.(typeName := Some(e), enumValues := Some(values));
      case Message(m) =>
        var nested := MessageSchema(g, m, visiting);
        r := r.(typeName := Some(m), message := Some(nested));
      case Scalar(_) | Group(_) =>
    }
  }

  // ----- Walking the tree

  function Child(f: FieldSchema): Option<Schema> {
    if f.message.Some? then f.message else f.mapValueMessage
  }

  predicate HasChild(s: Schema, i: nat) {
    i < |s.fields| && Child(s.fields[i]).Some?
  }

  /** The node that a path of field positions leads to. */
  function Node(s: Schema, path: seq<nat>): Option<Schema> {
    if path == [] then Some(s)
    else if HasChild(s, path[0]) then Node(Child(s.fields[path[0]]).value, path[1..])
    else None
  }

  /** The types of the nodes that the path passes before it arrives. */
  function Passed(s: Schema, path: seq<nat>): seq<Name>
    requires Node(s, path).Some?
  {
    if path == [] then [] else [s.typeName] + Passed(Child(s.fields[path[0]]).value, path[1..])
  }

  lemma ChildIsExpanded(g: Types, t: Name, above: set<Name>, i: nat)
    requires Linked(g) && t in g && HasChild(Expand(g, t, above), i)
    ensures t !in above && i < |g[t]| && Follows(g[t][i]).Some?
    ensures Child(Expand(g, t, above).fields[i]).value == Expand(g, Follows(g[t][i]).value, above + {t})
  {
    assert Expand(g, t, above).fields[i] == ExpandField(g, t, i, above + {t});
  }

  /** No type is expanded twice along a path, and a node is a recursive reference exactly where its
      type is among those being expanded above it. */
  lemma {:induction false} RecursionIsMarked(g: Types, t: Name, above: set<Name>, path: seq<nat>)
    requires Linked(g) && t in g && Node(Expand(g, t, above), path).Some?
    ensures var s := Expand(g, t, above);
      var node, passed := Node(s, path).value, Passed(s, path);
      && |passed| == |path| && Distinct(passed)
      && Elements(passed) <= g.Keys - above
      && node.typeName in g
      && (node.recursiveRef <==> node.typeName in above || node.typeName in passed)
    decreases |path|
  {
    if path != [] {
      var s := Expand(g, t, above);
      ChildIsExpanded(g, t, above, path[0]);
      var m := Follows(g[t][path[0]]).value;
      RecursionIsMarked(g, m, above + {t}, path[1..]);
      var below := Passed(Expand(g, m, above + {t}), path[1..]);
      assert Passed(s, path) == [t] + below;
      hide Expand, Linked, Follows, Child;
      assert t !in below by {
        assert t in below ==> t in Elements(below);
      }
      assert Elements([t] + below) == {t} + Elements(below);
    }
  }

  /** So no path is longer than the number of types. */
  lemma DepthBound(g: Types, t: Name, path: seq<nat>)
    requires Linked(g) && t in g && Node(Expand(g, t, {}), path).Some?
    ensures |path| <= |g|
  {
    RecursionIsMarked(g, t, {}, path);
    DistinctFits(Passed(Expand(g, t, {}), path), g.Keys - {});
  }

  /** What a kind tells, by its text alone. */
  datatype KindClass = ScalarClass | EnumClass | MessageClass | GroupClass

  function ClassOf(kind: Bytes): KindClass {
    if kind == [0x65, 0x6E, 0x75, 0x6D] then EnumClass
    else if kind == [0x6D, 0x65, 0x73, 0x73, 0x61, 0x67, 0x65] then MessageClass
    else if kind == [0x67, 0x72, 0x6F, 0x75, 0x70] then GroupClass
    else ScalarClass
  }

  function OrElse<T>(o: Option<T>, d: T): T {
    if o.Some? then o.value else d
  }

  /** The field that a schema describes: its kinds say which of the other entries count. */
  function Recover(r: FieldSchema): Field {
    var valueType, fieldType := OrElse(r.mapValueTypeName, []), OrElse(r.typeName, []);
    var valueKind := OrElse(r.mapValueKind, []);
    var shape :=
      match ClassOf(r.kind)
      case ScalarClass => Scalar(r.kind)
      case GroupClass => Group([])
      case EnumClass => Enum(fieldType, OrElse(r.enumValues, []))
      case MessageClass =>
        if !r.isMap then Message(fieldType)
        else MapOf(OrElse(r.mapKeyKind, []),
                   match ClassOf(valueKind)
                   case EnumClass => EnumValue(valueType)
                   case ScalarClass => ScalarValue(valueKind)
                   case _ => MessageValue(valueType));
    Field(r.name, r.jsonName, r.number, r.cardinality,
          if r.oneof.Some? then Some(Oneof(r.oneof.value, false)) else None, shape)
  }

  /** What a schema shows of a field: all but a synthetic oneof and the type of a group. */
  function Shown(f: Field): Field {
    var g := Visible(f);
    if g.shape.Group? then g.(shape := Group([])) else g
  }

  /** A field but for a synthetic oneof. */
  function Visible(f: Field): Field {
    if f.oneof.Some? && f.oneof.value.synthetic then f.(oneof := None) else f
  }

  ghost predicate Describes(rs: seq<FieldSchema>, fs: seq<Field>) {
    |rs| == |fs| && forall i :: 0 <= i < |rs| ==> Recover(rs[i]) == Shown(fs[i]) && Tidy(rs[i])
  }

  /** An entry is there exactly for fields of the kind it is about. */
  ghost predicate Tidy(r: FieldSchema) {
    var kind, valueKind := ClassOf(r.kind), ClassOf(OrElse(r.mapValueKind, []));
    && (r.typeName.Some? <==> !r.isMap && (kind.EnumClass? || kind.MessageClass?))
    && (r.enumValues.Some? <==> kind.EnumClass?)
    && (r.message.Some? <==> !r.isMap && kind.MessageClass?)
    && (r.mapKeyKind.Some? <==> r.isMap) && (r.mapValueKind.Some? <==> r.isMap)
    && (r.mapValueTypeName.Some? <==> r.isMap && (valueKind.EnumClass? || valueKind.MessageClass?))
    && (r.mapValueMessage.Some? <==> r.isMap && valueKind.MessageClass?)
  }

  lemma FieldIsTidy(g: Types, t: Name, i: nat, above: set<Name>)
    requires Linked(g) && t in g && i < |g[t]| && t in above
    ensures Tidy(ExpandField(g, t, i, above))
  {
    KindsTold(g[t][i]);
    assert ClassOf([]) == ScalarClass;
    hide Expand, Linked, ClassOf, Kind, ValueKind;
  }

  lemma FieldIsRecovered(g: Types, t: Name, i: nat, above: set<Name>)
    requires Linked(g) && t in g && i < |g[t]| && t in above
    ensures Recover(ExpandField(g, t, i, above)) == Shown(g[t][i])
  {
    KindsTold(g[t][i]);
    hide Expand, Linked, ClassOf, Kind, ValueKind;
  }

  /** The kind tells the shape of a field, and so does the kind of a map's values. */
  lemma KindsTold(f: Field)
    ensures match f.shape
      case Scalar(kind) => ClassOf(Kind(f)) == ScalarClass && Kind(f) == kind
      case Enum(_, _) => ClassOf(Kind(f)) == EnumClass
      case Message(_) => ClassOf(Kind(f)) == MessageClass
      case Group(_) => ClassOf(Kind(f)) == GroupClass
      case MapOf(_, v) => ClassOf(Kind(f)) == MessageClass
    ensures f.shape.MapOf? ==>
      match f.shape.value
      case ScalarValue(kind) => ClassOf(ValueKind(f.shape.value)) == ScalarClass && ValueKind(f.shape.value) == kind
      case EnumValue(_) => ClassOf(ValueKind(f.shape.value)) == EnumClass
      case MessageValue(_) => ClassOf(ValueKind(f.shape.value)) == MessageClass
  {
  }

  /** The field's schema shows it, and its child is the schema of the type it refers to. */
  lemma FieldIsDescribed(g: Types, t: Name, i: nat, above: set<Name>)
    requires Linked(g) && t in g && i < |g[t]| && t in above
    ensures var r := ExpandField(g, t, i, above);
      && Recover(r) == Shown(g[t][i]) && Tidy(r)
      && (Child(r).Some? ==> Follows(Recover(r)) == Some(Child(r).value.typeName))
  {
    FieldIsTidy(g, t, i, above);
    FieldIsRecovered(g, t, i, above);
    hide Recover, Tidy;
    var m := Follows(g[t][i]);
    assert m.Some? ==> Expand(g, m.value, above).typeName == m.value;
    hide Expand;
  }

  ghost predicate Complete(g: Types, node: Schema) {
    && node.typeName in g
    && (if node.recursiveRef then node.fields == [] else Describes(node.fields, g[node.typeName]))
    && forall i: nat :: HasChild(node, i) ==>
         Follows(Recover(node.fields[i])) == Some(Child(node.fields[i]).value.typeName)
  }

  lemma ExpandUnfolds(g: Types, t: Name, above: set<Name>)
    requires Linked(g) && t in g
    ensures var s := Expand(g, t, above);
      && s.typeName == t && s.recursiveRef == (t in above) && |s.fields| == (if t in above then 0 else |g[t]|)
      && forall i :: 0 <= i < |s.fields| ==> s.fields[i] == ExpandField(g, t, i, above + {t})
  {
  }

  lemma RootIsComplete(g: Types, t: Name, above: set<Name>)
    requires Linked(g) && t in g
    ensures Complete(g, Expand(g, t, above))
  {
    ExpandUnfolds(g, t, above);
    hide Expand, ExpandField, Recover, Tidy, Follows, Child, Shown;
    var s := Expand(g, t, above);
    forall i | 0 <= i < |s.fields|
      ensures Recover(s.fields[i]) == Shown(g[t][i]) && Tidy(s.fields[i])
      ensures Child(s.fields[i]).Some? ==> Follows(Recover(s.fields[i])) == Some(Child(s.fields[i]).value.typeName)
    {
      FieldIsDescribed(g, t, i, above + {t});
    }
  }

  /** A node that is no recursive reference describes all fields of its type, but for the types of
      groups, and each child is the schema of the type that its field refers to. */
  lemma {:induction false} NodesAreComplete(g: Types, t: Name, above: set<Name>, path: seq<nat>)
    requires Linked(g) && t in g && Node(Expand(g, t, above), path).Some?
    ensures Complete(g, Node(Expand(g, t, above), path).value)
    decreases |path|
  {
    if path == [] {
      RootIsComplete(g, t, above);
    } else {
      ChildIsExpanded(g, t, above, path[0]);
      var m := Follows(g[t][path[0]]).value;
      assert Node(Expand(g, t, above), path) == Node(Expand(g, m, above + {t}), path[1..]);
      hide *;
      NodesAreComplete(g, m, above + {t}, path[1..]);
    }
  }

  // ----- What is expanded, and what a reachable type is

  /** t has a field that refers to u: any field, or one that is expanded. */
  ghost predicate RefersTo(g: Types, t: Name, u: Name, groups: bool)
    requires t in g
  {
    exists i :: 0 <= i < |g[t]| && (if groups then Refers(g[t][i]) else Follows(g[t][i])) == Some(u)
  }

  ghost predicate Walk(g: Types, w: seq<Name>, groups: bool) {
    && w != [] && (forall i :: 0 <= i < |w| ==> w[i] in g)
    && forall i, j :: 0 <= i && j == i + 1 && j < |w| ==> RefersTo(g, w[i], w[j], groups)
  }

  /** Through any fields, or without passing a group. */
  ghost predicate Reachable(g: Types, t: Name, u: Name, groups: bool) {
    exists w :: Walk(g, w, groups) && w[0] == t && w[|w| - 1] == u
  }

  /** A walk can be shortened until it meets no type twice. */
  lemma {:induction false} Shorten(g: Types, w: seq<Name>) returns (v: seq<Name>)
    requires Walk(g, w, false)
    ensures Walk(g, v, false) && Distinct(v) && v[0] == w[0] && v[|v| - 1] == w[|w| - 1]
    decreases |w|
  {
    if Distinct(w) {
      v := w;
    } else {
      var i, j :| 0 <= i < j < |w| && w[i] == w[j];
      var cut := w[..i] + w[j..];
      CutIsWalk(g, w, i, j);
      v := Shorten(g, cut);
    }
  }

  lemma CutIsWalk(g: Types, w: seq<Name>, i: nat, j: nat)
    requires Walk(g, w, false) && i < j < |w| && w[i] == w[j]
    ensures var cut := w[..i] + w[j..]; Walk(g, cut, false) && cut[0] == w[0] && cut[|cut| - 1] == w[|w| - 1]
  {
    hide RefersTo;
    var cut := w[..i] + w[j..];
    forall a, b | 0 <= a && b == a + 1 && b < |cut| ensures RefersTo(g, cut[a], cut[b], false) {
      if b < i {
        assert cut[a] == w[a] && cut[b] == w[b];
      } else if b == i {
        assert cut[a] == w[a] && cut[b] == w[j] == w[b];
      } else {
        assert cut[a] == w[j + (a - i)] && cut[b] == w[j + (b - i)];
      }
    }
  }

  /** Along a walk without repetition everything is expanded. */
  lemma {:induction false} ExpandsAlong(g: Types, w: seq<Name>, above: set<Name>) returns (path: seq<nat>)
    requires Linked(g) && Walk(g, w, false) && Distinct(w) && forall t :: t in w ==> t !in above
    ensures var found := Node(Expand(g, w[0], above), path);
      found.Some? && found.value.typeName == w[|w| - 1] && !found.value.recursiveRef
    decreases |w|
  {
    var t := w[0];
    if |w| == 1 {
      path := [];
    } else {
      assert RefersTo(g, w[0], w[1], false);
      var i: nat :| i < |g[t]| && Follows(g[t][i]) == Some(w[1]);
      var rest := w[1..];
      forall a, b | 0 <= a && b == a + 1 && b < |rest| ensures RefersTo(g, rest[a], rest[b], false) {
        assert rest[a] == w[a + 1] && rest[b] == w[b + 1];
      }
      FollowedIsChild(g, t, above, i);
      hide Expand, Linked, Follows, RefersTo, Child, HasChild;
      var below := ExpandsAlong(g, rest, above + {t});
      path := [i] + below;
      assert path[1..] == below;
    }
  }

  lemma FollowedIsChild(g: Types, t: Name, above: set<Name>, i: nat)
    requires Linked(g) && t in g && t !in above && i < |g[t]| && Follows(g[t][i]).Some?
    ensures var s := Expand(g, t, above);
      HasChild(s, i) && Child(s.fields[i]) == Some(Expand(g, Follows(g[t][i]).value, above + {t}))
  {
    assert Expand(g, t, above).fields[i] == ExpandField(g, t, i, above + {t});
  }

  ghost predicate ExpandedAt(g: Types, t: Name, u: Name, path: seq<nat>)
    requires Linked(g) && t in g
  {
    var found := Node(Expand(g, t, {}), path);
    found.Some? && found.value.typeName == u && !found.value.recursiveRef
  }

  /** A type is expanded somewhere in the tree exactly if it can be reached without a group. */
  lemma ExpandedExactly(g: Types, t: Name, u: Name)
    requires Linked(g) && t in g
    ensures (exists path :: ExpandedAt(g, t, u, path)) <==> Reachable(g, t, u, false)
  {
    if path :| ExpandedAt(g, t, u, path) {
      NodesAreReachable(g, t, {}, path);
    }
    if w :| Walk(g, w, false) && w[0] == t && w[|w| - 1] == u {
      var v := Shorten(g, w);
      var path := ExpandsAlong(g, v, {});
      assert ExpandedAt(g, t, u, path);
    }
  }

  /** Every node of the tree, expanded or not, has a type that can be reached without a group. */
  lemma {:induction false} NodesAreReachable(g: Types, t: Name, above: set<Name>, path: seq<nat>)
    requires Linked(g) && t in g && Node(Expand(g, t, above), path).Some?
    ensures Reachable(g, t, Node(Expand(g, t, above), path).value.typeName, false)
    decreases |path|
  {
    var s := Expand(g, t, above);
    var u := Node(s, path).value.typeName;
    if path == [] {
      assert Walk(g, [t], false);
    } else {
      ChildIsExpanded(g, t, above, path[0]);
      var m := Follows(g[t][path[0]]).value;
      assert RefersTo(g, t, m, false);
      assert Node(s, path) == Node(Expand(g, m, above + {t}), path[1..]);
      hide *;
      NodesAreReachable(g, m, above + {t}, path[1..]);
      ReachableFrom(g, t, m, u, false);
    }
  }

  lemma ReachableFrom(g: Types, t: Name, m: Name, u: Name, groups: bool)
    requires t in g && RefersTo(g, t, m, groups) && Reachable(g, m, u, groups)
    ensures Reachable(g, t, u, groups)
  {
    hide RefersTo;
    var w :| Walk(g, w, groups) && w[0] == m && w[|w| - 1] == u;
    var v := [t] + w;
    assert v[|w|] == u;
    assert Walk(g, v, groups);
  }

  lemma ReachableThen(g: Types, t: Name, u: Name, m: Name, groups: bool)
    requires u in g && m in g && Reachable(g, t, u, groups) && RefersTo(g, u, m, groups)
    ensures Reachable(g, t, m, groups)
  {
    hide RefersTo;
    var w :| Walk(g, w, groups) && w[0] == t && w[|w| - 1] == u;
    var v := w + [m];
    assert v[|w|] == m && v[|w| - 1] == u;
    assert Walk(g, v, groups);
  }

  // ----- Groups: what the schema loses, and exactly when

  ghost predicate HasGroup(g: Types, u: Name, m: Name)
    requires u in g
  {
    exists i :: 0 <= i < |g[u]| && g[u][i].shape == Group(m)
  }

  /** Every type behind a group field of an expanded type is also reachable without groups. */
  ghost predicate GroupsCovered(g: Types, t: Name) {
    forall u, m :: u in g && Reachable(g, t, u, false) && HasGroup(g, u, m) ==> Reachable(g, t, m, false)
  }

  lemma StepKinds(g: Types, u: Name, m: Name)
    requires u in g
    ensures RefersTo(g, u, m, true) <==> RefersTo(g, u, m, false) || HasGroup(g, u, m)
  {
    if i :| 0 <= i < |g[u]| && Refers(g[u][i]) == Some(m) {
      assert g[u][i].shape == Group(m) || Follows(g[u][i]) == Some(m);
    }
    if i :| 0 <= i < |g[u]| && (Follows(g[u][i]) == Some(m) || g[u][i].shape == Group(m)) {
      assert Refers(g[u][i]) == Some(m);
    }
  }

  lemma {:induction false} CoveredAlong(g: Types, t: Name, w: seq<Name>)
    requires GroupsCovered(g, t) && Walk(g, w, true) && w[0] == t
    ensures Reachable(g, t, w[|w| - 1], false)
    decreases |w|
  {
    if |w| == 1 {
      assert Walk(g, w, false);
    } else {
      var k := |w| - 2;
      CoveredAlong(g, t, w[..|w| - 1]);
      assert RefersTo(g, w[k], w[k + 1], true);
      StepKinds(g, w[k], w[k + 1]);
      if RefersTo(g, w[k], w[k + 1], false) {
        ReachableThen(g, t, w[k], w[k + 1], false);
      }
    }
  }

  lemma {:induction false} WithoutGroups(g: Types, t: Name, u: Name)
    requires Reachable(g, t, u, false)
    ensures Reachable(g, t, u, true)
  {
    var w :| Walk(g, w, false) && w[0] == t && w[|w| - 1] == u;
    forall i, j | 0 <= i && j == i + 1 && j < |w| ensures RefersTo(g, w[i], w[j], true) {
      StepKinds(g, w[i], w[j]);
    }
    assert Walk(g, w, true);
  }

  /** All reachable types are expanded exactly if the types behind groups are covered. */
  lemma ReachableIsExpanded(g: Types, t: Name)
    requires Linked(g) && t in g
    ensures (forall u :: Reachable(g, t, u, true) ==> exists path :: ExpandedAt(g, t, u, path)) <==> GroupsCovered(g, t)
  {
    forall u ensures (exists path :: ExpandedAt(g, t, u, path)) <==> Reachable(g, t, u, false) {
      ExpandedExactly(g, t, u);
    }
    if GroupsCovered(g, t) {
      forall u | Reachable(g, t, u, true) ensures Reachable(g, t, u, false) {
        var w :| Walk(g, w, true) && w[0] == t && w[|w| - 1] == u;
        CoveredAlong(g, t, w);
      }
    } else {
      var u, m :| u in g && Reachable(g, t, u, false) && HasGroup(g, u, m) && !Reachable(g, t, m, false);
      BehindGroup(g, t, u, m);
    }
  }

  lemma BehindGroup(g: Types, t: Name, u: Name, m: Name)
    requires Linked(g) && u in g && Reachable(g, t, u, false) && HasGroup(g, u, m)
    ensures m in g && Reachable(g, t, m, true)
  {
    var i :| 0 <= i < |g[u]| && g[u][i].shape == Group(m);
    assert Refers(g[u][i]) == Some(m);
    StepKinds(g, u, m);
    WithoutGroups(g, t, u);
    ReachableThen(g, t, u, m, true);
  }

  ghost predicate SameFields(a: seq<Field>, b: seq<Field>) {
    |a| == |b| && forall i :: 0 <= i < |a| ==> Shown(a[i]) == Shown(b[i])
  }

  ghost predicate SameSchema(g: Types, h: Types, t: Name)
    requires Linked(g) && t in g
  {
    Linked(h) && t in h && Expand(g, t, {}) == Expand(h, t, {})
  }

  /** Two type graphs with the same schema for t agree, field by field, on every type that is
      reachable from t without groups, however recursive. */
  lemma SchemaDeterminesExpanded(g: Types, h: Types, t: Name, u: Name)
    requires Linked(g) && t in g && SameSchema(g, h, t) && Reachable(g, t, u, false)
    ensures u in g && u in h && SameFields(g[u], h[u]) && Reachable(h, t, u, false)
  {
    ExpandedExactly(g, t, u);
    var path :| ExpandedAt(g, t, u, path);
    NodesAreComplete(g, t, {}, path);
    NodesAreComplete(h, t, {}, path);
    NodesAreReachable(h, t, {}, path);
  }

  /** And they need agree on nothing else. */
  lemma {:induction false} SameExpansion(g: Types, h: Types, t: Name, above: set<Name>)
    requires Linked(g) && Linked(h) && t in g
    requires forall x :: Reachable(g, t, x, false) ==> x in g && x in h && SameFields(g[x], h[x])
    ensures t in h && Expand(g, t, above) == Expand(h, t, above)
    decreases g.Keys - above
  {
    assert Walk(g, [t], false);
    assert Reachable(g, t, t, false);
    if t !in above {
      forall i | 0 <= i < |g[t]| ensures ExpandField(g, t, i, above + {t}) == ExpandField(h, t, i, above + {t}) {
        assert Shown(g[t][i]) == Shown(h[t][i]);
        var m := Follows(g[t][i]);
        if m.Some? {
          hide *;
          FollowedStays(g, t, i);
          SameExpansion(g, h, m.value, above + {t});
        }
        ExpandsAlike(g, h, t, i, above + {t});
      }
      ExpandUnfolds(g, t, above);
      ExpandUnfolds(h, t, above);
      hide *;
      assert Expand(g, t, above).fields == Expand(h, t, above).fields;
    }
  }

  lemma FollowedStays(g: Types, t: Name, i: nat)
    requires Linked(g) && t in g && i < |g[t]| && Follows(g[t][i]).Some?
    ensures var m := Follows(g[t][i]).value;
      m in g && forall x :: Reachable(g, m, x, false) ==> Reachable(g, t, x, false)
  {
    var m := Follows(g[t][i]).value;
    assert RefersTo(g, t, m, false);
    forall x | Reachable(g, m, x, false) ensures Reachable(g, t, x, false) {
      ReachableFrom(g, t, m, x, false);
    }
  }

  lemma ExpandsAlike(g: Types, h: Types, t: Name, i: nat, above: set<Name>)
    requires Linked(g) && Linked(h) && t in g && t in h && t in above && i < |g[t]| && i < |h[t]|
    requires Shown(g[t][i]) == Shown(h[t][i])
    requires var m := Follows(g[t][i]);
      m.Some? ==> m.value in g && m.value in h && Expand(g, m.value, above) == Expand(h, m.value, above)
    ensures ExpandField(g, t, i, above) == ExpandField(h, t, i, above)
  {
    PlainShown(g[t][i], h[t][i]);
    hide Expand, Plain, ValueKind;
  }

  lemma PlainShown(a: Field, b: Field)
    requires Shown(a) == Shown(b)
    ensures Plain(a) == Plain(b)
  {
    assert Kind(a) == Kind(Shown(a)) && Kind(b) == Kind(Shown(b));
    hide Kind;
  }

  /** h agrees with g on all that can be reached in g, but for the types of groups. */
  ghost predicate AgreesShown(g: Types, h: Types, t: Name) {
    forall u :: u in g && Reachable(g, t, u, true) ==> u in h && SameFields(g[u], h[u])
  }

  /** The schema determines all reachable types, but for the types of groups, exactly if every type
      behind a group is covered. */
  lemma SchemaDeterminesTypes(g: Types, t: Name)
    requires Linked(g) && t in g
    ensures (forall h :: SameSchema(g, h, t) ==> AgreesShown(g, h, t)) <==> GroupsCovered(g, t)
  {
    if GroupsCovered(g, t) {
      forall h | SameSchema(g, h, t) ensures AgreesShown(g, h, t) {
        forall u | u in g && Reachable(g, t, u, true) ensures u in h && SameFields(g[u], h[u]) {
          var w :| Walk(g, w, true) && w[0] == t && w[|w| - 1] == u;
          CoveredAlong(g, t, w);
          SchemaDeterminesExpanded(g, h, t, u);
        }
      }
    } else {
      var u, m :| u in g && Reachable(g, t, u, false) && HasGroup(g, u, m) && !Reachable(g, t, m, false);
      BehindGroup(g, t, u, m);
      var h := OtherFields(g, t, m);
      assert !AgreesShown(g, h, t);
    }
  }

  /** The same graph with other fields for a type that is never expanded. */
  lemma OtherFields(g: Types, t: Name, m: Name) returns (h: Types)
    requires Linked(g) && t in g && m in g && !Reachable(g, t, m, false)
    ensures SameSchema(g, h, t) && m in h && !SameFields(g[m], h[m])
  {
    h := g[m := if g[m] == [] then [Unrelated()] else []];
    assert h.Keys == g.Keys;
    assert Linked(h);
    forall x | Reachable(g, t, x, false) ensures x in g && x in h && SameFields(g[x], h[x]) {
      assert t in g && x in g;
    }
    hide *;
    SameExpansion(g, h, t, {});
    assert SameSchema(g, h, t);
  }

  /** Some field, of a kind that refers to nothing. */
  function Unrelated(): Field {
    Field([], [], 1, Optional, None, Scalar([]))
  }

  ghost predicate Groupless(g: Types, t: Name) {
    forall u, m :: u in g && Reachable(g, t, u, false) ==> !HasGroup(g, u, m)
  }

  ghost predicate SameVisible(a: seq<Field>, b: seq<Field>) {
    |a| == |b| && forall i :: 0 <= i < |a| ==> Visible(a[i]) == Visible(b[i])
  }

  ghost predicate AgreesVisible(g: Types, h: Types, t: Name) {
    forall u :: u in g && Reachable(g, t, u, true) ==> u in h && SameVisible(g[u], h[u])
  }

  /** It determines them altogether exactly if no expanded type has a group field. */
  lemma SchemaIsLossless(g: Types, t: Name)
    requires Linked(g) && t in g
    ensures (forall h :: SameSchema(g, h, t) ==> AgreesVisible(g, h, t)) <==> Groupless(g, t)
  {
    if Groupless(g, t) {
      SchemaDeterminesTypes(g, t);
      forall h | SameSchema(g, h, t) ensures AgreesVisible(g, h, t) {
        forall u | u in g && Reachable(g, t, u, true) ensures u in h && SameVisible(g[u], h[u]) {
          assert AgreesShown(g, h, t);
          var w :| Walk(g, w, true) && w[0] == t && w[|w| - 1] == u;
          CoveredAlong(g, t, w);
          NoGroupShown(g, u, h[u]);
        }
      }
    } else {
      var u, m :| u in g && Reachable(g, t, u, false) && HasGroup(g, u, m);
      var h := OtherGroup(g, t, u, m);
      assert !AgreesVisible(g, h, t) by {
        WithoutGroups(g, t, u);
      }
    }
  }

  lemma NoGroupShown(g: Types, u: Name, fs: seq<Field>)
    requires u in g && SameFields(g[u], fs) && forall m :: !HasGroup(g, u, m)
    ensures SameVisible(g[u], fs)
  {
    forall i | 0 <= i < |fs| ensures Visible(g[u][i]) == Visible(fs[i]) {
      assert Shown(g[u][i]) == Shown(fs[i]);
      if g[u][i].shape.Group? {
        assert HasGroup(g, u, g[u][i].shape.groupType);
      }
    }
  }

  /** The same graph with a group of another type, one that does not occur in it. */
  lemma OtherGroup(g: Types, t: Name, u: Name, m: Name) returns (h: Types)
    requires Linked(g) && t in g && u in g && HasGroup(g, u, m)
    ensures SameSchema(g, h, t) && u in h && !SameVisible(g[u], h[u])
  {
    var i :| 0 <= i < |g[u]| && g[u][i].shape == Group(m);
    var other := Fresh(g.Keys + {m});
    var fs := g[u][i := g[u][i].(shape := Group(other))];
    h := g[u := fs][other := []];
    assert Visible(g[u][i]).shape == Group(m) && Visible(fs[i]).shape == Group(other);
    assert h[u] == fs;
    assert Linked(h) by {
      forall x, k | x in h && 0 <= k < |h[x]| && Refers(h[x][k]).Some? ensures Refers(h[x][k]).value in h {
        assert x in g;
        assert Refers(g[x][k]).Some?;
      }
    }
    forall x | Reachable(g, t, x, false) ensures x in g && x in h && SameFields(g[x], h[x]) {
      assert t in g && x in g;
    }
    SameExpansion(g, h, t, {});
  }

  /** A name that is not in a finite set: one longer than all of them. */
  lemma {:induction false} Fresh(names: set<Name>) returns (n: Name)
    ensures n !in names && forall x :: x in names ==> |x| < |n|
  {
    if names == {} {
      n := [];
    } else {
      var x :| x in names;
      var rest := Fresh(names - {x});
      n := seq(|rest| + |x| + 1, _ => 0);
    }
  }

  /** The smallest case: a type with one group field. Its schema is the same whatever the type of
      the group, and that type occurs nowhere in it. */
  function OneGroup(m: Name): Types {
    map[[0x61] := [Unrelated().(shape := Group(m))], [0x62] := [], [0x63] := []]
  }

  lemma DeadEnd(g: Types, t: Name, x: Name)
    requires t in g && (forall i :: 0 <= i < |g[t]| ==> Follows(g[t][i]).None?) && Reachable(g, t, x, false)
    ensures x == t
  {
    var w :| Walk(g, w, false) && w[0] == t && w[|w| - 1] == x;
    assert |w| > 1 ==> RefersTo(g, w[0], w[1], false);
  }

  lemma GroupTypeIsLost()
    ensures var t, b, c: Name := [0x61], [0x62], [0x63];
      && Linked(OneGroup(b)) && Linked(OneGroup(c)) && SameSchema(OneGroup(b), OneGroup(c), t)
      && Reachable(OneGroup(b), t, b, true)
      && (forall path :: !ExpandedAt(OneGroup(b), t, b, path))
      && !AgreesVisible(OneGroup(b), OneGroup(c), t)
  {
    var t, b, c: Name := [0x61], [0x62], [0x63];
    var g, h := OneGroup(b), OneGroup(c);
    assert Walk(g, [t], false);
    forall x | Reachable(g, t, x, false) ensures x == t {
      DeadEnd(g, t, x);
    }
    SameExpansion(g, h, t, {});
    assert g[t][0].shape == Group(b);
    assert HasGroup(g, t, b);
    BehindGroup(g, t, t, b);
    ExpandedExactly(g, t, b);
    WithoutGroups(g, t, t);
    assert Visible(g[t][0]) != Visible(h[t][0]);
  }
}
