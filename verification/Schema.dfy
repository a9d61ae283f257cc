/** The key-value store's table schema and its merge (v3ioutils/schema.go). */
module Schema {
  import opened Wrappers
  import opened Values

  /** Untyped is the type "" that bool columns and bool labels get. */
  datatype FieldType = Long | Double | String | TimeType | Untyped

  datatype Field = Field(name: string, ftype: FieldType, nullable: bool)

  function ColumnType(dtype: DType): FieldType {
    match dtype
    case IntType => Long
    case FloatType => Double
    case StringType => String
    case TimeType => FieldType.TimeType
    case BoolType => Untyped
  }

  function ValueType(v: Value): FieldType {
    match v
    case Int(kind, _) => if kind in {KInt, KInt32, KInt64} then Long else Untyped
    case Float64(_) => Double
    case Float32(_) => Double
    case Str(_) => String
    case TimeVal(_) => FieldType.TimeType
    case _ => Untyped
  }

  /** The type that stands for a column's; a boolean column has none. */
  predicate Tells(t: FieldType, dtype: DType) {
    match dtype
    case IntType => t == Long
    case FloatType => t == Double
    case StringType => t == String
    case TimeType => t == FieldType.TimeType
    case BoolType => t == Untyped
  }

  /** The type that stands for a label value's; int8, int16 and booleans have none. */
  predicate TellsValue(t: FieldType, v: Value) {
    match v
    case Int(kind, _) => t == if kind == KInt || kind == KInt32 || kind == KInt64 then Long else Untyped
    case Float64(_) => t == Double
    case Float32(_) => t == Double
    case Str(_) => t == String
    case TimeVal(_) => t == FieldType.TimeType
    case _ => t == Untyped
  }

  // --- What one incoming field does -------------------------------------------------------------

  /** The type a known field of type `t` gets when `f` comes in; None where the merge gives up. */
  function Absorb(t: FieldType, f: FieldType): Option<FieldType> {
    if f == t || f == String then Some(f)
    else if f == Double && t == Long then Some(Double)
    else if f == FieldType.TimeType || t == FieldType.TimeType then None
    else Some(t)
  }

  function LastIndex(fields: seq<Field>, name: string): (i: int)
    ensures -1 <= i < |fields|
    ensures i >= 0 ==> fields[i].name == name
    ensures forall j :: i < j < |fields| ==> fields[j].name != name
  {
    LastWhere(fields, (f: Field) => f.name == name)
  }

  /** The view of a schema that its lookup gives: the type of the last field with that name. */
  function LastType(fields: seq<Field>, name: string): Option<FieldType> {
    var i := LastIndex(fields, name);
    if i < 0 then None else Some(fields[i].ftype)
  }

  datatype Merged = Merged(fields: seq<Field>, changed: bool, failed: bool)

  /** A field is appended when its name is new, and also when its name is known with the same type. */
  function MergeField(m: Merged, field: Field): Merged {
    var i := LastIndex(m.fields, field.name);
    if m.failed then m
    else if i < 0 || m.fields[i].ftype == field.ftype then Merged(m.fields + [field], true, false)
    else match Absorb(m.fields[i].ftype, field.ftype)
      case None => m.(failed := true)
      case Some(t) =>
        if t == m.fields[i].ftype then m
        else Merged(m.fields[i := m.fields[i].(ftype := t)], true, false)
  }

  function MergeFields(fields: seq<Field>, incoming: seq<Field>): Merged {
    if incoming == [] then Merged(fields, false, false)
    else MergeField(MergeFields(fields, incoming[..|incoming| - 1]), incoming[|incoming| - 1])
  }

  // --- The order of types -----------------------------------------------------------------------

  /** long < double < string and time < string. */
  predicate Leq(a: FieldType, b: FieldType) {
    a == b || b == String || (a == Long && b == Double)
  }

  predicate IsJoin(j: FieldType, a: FieldType, b: FieldType) {
    && Leq(a, j) && Leq(b, j)
    && forall u :: Leq(a, u) && Leq(b, u) ==> Leq(j, u)
  }

  predicate Typed(fields: seq<Field>) {
    forall i :: 0 <= i < |fields| ==> fields[i].ftype != Untyped
  }

  lemma AbsorbIsJoin(t: FieldType, f: FieldType)
    requires t != Untyped && f != Untyped
    ensures match Absorb(t, f)
            case Some(j) => j != Untyped && IsJoin(j, t, f)
            case None => t != f && f != String && (t == FieldType.TimeType || f == FieldType.TimeType)
  {
  }

  /** The least upper bound of a run of types. */
  ghost predicate IsJoinOf(j: FieldType, ts: seq<FieldType>) {
    && (forall i :: 0 <= i < |ts| ==> Leq(ts[i], j))
    && (forall u :: (forall i :: 0 <= i < |ts| ==> Leq(ts[i], u)) ==> Leq(j, u))
  }

  /** The types one name goes through in a merge: the one it has, then the incoming ones. */
  function TypesOf(fields: seq<Field>, incoming: seq<Field>, name: string): seq<FieldType> {
    (if LastType(fields, name).Some? then [LastType(fields, name).value] else []) + IncomingTypes(incoming, name)
  }

  function IncomingTypes(incoming: seq<Field>, name: string): seq<FieldType> {
    if incoming == [] then [] else
      IncomingTypes(incoming[..|incoming| - 1], name) +
      (if incoming[|incoming| - 1].name == name then [incoming[|incoming| - 1].ftype] else [])
  }

  /** May `b` come in right after `a`: a time only after a time, and after a time only a time or a string. */
  predicate Follows(a: FieldType, b: FieldType) {
    && (b == FieldType.TimeType ==> a == FieldType.TimeType)
    && (a == FieldType.TimeType ==> b == FieldType.TimeType || b == String)
  }

  predicate Compatible(ts: seq<FieldType>) {
    forall i :: 0 < i < |ts| ==> Follows(ts[i - 1], ts[i])
  }

  predicate AllTyped(ts: seq<FieldType>) {
    forall i :: 0 <= i < |ts| ==> ts[i] != Untyped
  }

  lemma CompatibleSnoc(ts: seq<FieldType>, f: FieldType)
    requires ts != []
    ensures Compatible(ts + [f]) <==> Compatible(ts) && Follows(ts[|ts| - 1], f)
  {
    var us := ts + [f];
    assert us[|ts|] == f && us[|ts| - 1] == ts[|ts| - 1];
    if Compatible(us) {
      forall i | 0 < i < |ts| ensures Follows(ts[i - 1], ts[i]) {
        assert Follows(us[i - 1], us[i]);
      }
    }
  }

  lemma CompatiblePrefix(ts: seq<FieldType>, f: FieldType)
    ensures Compatible(ts + [f]) ==> Compatible(ts)
  {
    if ts != [] {
      CompatibleSnoc(ts, f);
    }
  }

  lemma {:induction false} OnlyTimes(ts: seq<FieldType>)
    requires Compatible(ts) && ts != [] && ts[|ts| - 1] == FieldType.TimeType
    ensures forall i :: 0 <= i < |ts| ==> ts[i] == FieldType.TimeType
  {
    if |ts| > 1 {
      assert Follows(ts[|ts| - 2], ts[|ts| - 1]);
      OnlyTimes(ts[..|ts| - 1]);
    }
  }

  /** Absorbing one more type: it succeeds exactly when that type may follow, and yields the join. */
  lemma AbsorbSnoc(ts: seq<FieldType>, j: FieldType, f: FieldType)
    requires ts != [] && Compatible(ts) && IsJoinOf(j, ts) && j != Untyped && f != Untyped
    ensures Absorb(j, f).Some? <==> Follows(ts[|ts| - 1], f)
    ensures Absorb(j, f).Some? ==> Absorb(j, f).value != Untyped && IsJoinOf(Absorb(j, f).value, ts + [f])
  {
    var us := ts + [f];
    assert us[|ts|] == f && forall i :: 0 <= i < |ts| ==> us[i] == ts[i];
    AbsorbIsJoin(j, f);
    if Absorb(j, f).Some? {
      forall u | forall i :: 0 <= i < |us| ==> Leq(us[i], u) ensures Leq(Absorb(j, f).value, u) {
        forall i | 0 <= i < |ts| ensures Leq(ts[i], u) {
          assert Leq(us[i], u);
        }
        assert Leq(us[|ts|], u);
      }
      forall i | 0 <= i < |us| ensures Leq(us[i], Absorb(j, f).value) {
      }
    }
    assert Leq(ts[|ts| - 1], j);
    if ts[|ts| - 1] == FieldType.TimeType {
      OnlyTimes(ts);
      assert Leq(j, FieldType.TimeType);
    }
  }

  // --- Merging is a join --------------------------------------------------------------------------

  lemma {:induction false} LastTypeAppend(fields: seq<Field>, field: Field, name: string)
    ensures LastType(fields + [field], name) == if field.name == name then Some(field.ftype) else LastType(fields, name)
  {
    assert (fields + [field])[..|fields|] == fields;
    var i := LastIndex(fields, name);
  }

  lemma {:induction false} LastIndexByNames(a: seq<Field>, b: seq<Field>, name: string)
    requires |a| == |b| && forall i :: 0 <= i < |a| ==> a[i].name == b[i].name
    ensures LastIndex(a, name) == LastIndex(b, name)
  {
    var i, j := LastIndex(a, name), LastIndex(b, name);
  }

  /** One incoming field, seen through the lookup. */
  lemma MergeFieldView(m: Merged, field: Field, name: string)
    requires !m.failed
    ensures var m', was := MergeField(m, field), LastType(m.fields, field.name);
            && (m'.failed <==> was.Some? && Absorb(was.value, field.ftype).None?)
            && LastType(m'.fields, name)
               == if name != field.name || m'.failed then LastType(m.fields, name)
                  else if was.None? then Some(field.ftype)
                  else Absorb(was.value, field.ftype)
  {
    var i := LastIndex(m.fields, field.name);
    LastTypeAppend(m.fields, field, name);
    LastIndexByNames(m.fields, MergeField(m, field).fields[..|m.fields|], name);
    if 0 <= i && |MergeField(m, field).fields| == |m.fields| {
      assert MergeField(m, field).fields[..|m.fields|] == MergeField(m, field).fields;
    }
  }

  /** What a merge did to one name, after the incoming fields seen so far. */
  ghost predicate MergedName(fields: seq<Field>, incoming: seq<Field>, m: Merged, name: string) {
    var ts, t := TypesOf(fields, incoming, name), LastType(m.fields, name);
    if ts == [] then t == None
    else t.Some? && t.value != Untyped && Compatible(ts) && IsJoinOf(t.value, ts)
  }

  lemma TypesOfSnoc(fields: seq<Field>, incoming: seq<Field>, field: Field, name: string)
    ensures TypesOf(fields, incoming + [field], name) ==
            TypesOf(fields, incoming, name) + (if name == field.name then [field.ftype] else [])
    ensures MergeFields(fields, incoming + [field]) == MergeField(MergeFields(fields, incoming), field)
  {
    assert (incoming + [field])[..|incoming|] == incoming;
  }

  lemma MergeOneMore(fields: seq<Field>, incoming: seq<Field>, field: Field, name: string)
    requires field.ftype != Untyped && !MergeFields(fields, incoming).failed
    requires MergedName(fields, incoming, MergeFields(fields, incoming), name)
    ensures var m := MergeFields(fields, incoming + [field]);
            && (!m.failed ==> MergedName(fields, incoming + [field], m, name))
            && (m.failed && name == field.name ==> !Compatible(TypesOf(fields, incoming + [field], name)))
  {
    hide LastIndex, LastType, MergeField, MergeFields, TypesOf, Absorb, Follows, Compatible, IsJoinOf;
    var m, ts := MergeFields(fields, incoming), TypesOf(fields, incoming, name);
    TypesOfSnoc(fields, incoming, field, name);
    MergeFieldView(m, field, name);
    if name == field.name {
      if ts == [] {
        SingleType(field.ftype);
        assert ts + [field.ftype] == [field.ftype];
      } else {
        AbsorbSnoc(ts, LastType(m.fields, name).value, field.ftype);
        CompatibleSnoc(ts, field.ftype);
      }
    } else {
      assert ts + [] == ts;
    }
  }

  lemma SingleType(t: FieldType)
    ensures Compatible([t]) && IsJoinOf(t, [t])
  {
    forall u | forall i :: 0 <= i < |[t]| ==> Leq([t][i], u) ensures Leq(t, u) {
      assert Leq([t][0], u);
    }
  }

  /**
    * Merging is a join: a merge that succeeds leaves each name's last type equal to the least upper
    * bound of its old type and all incoming ones. It succeeds exactly when, name by name, each type
    * may follow the one before.
    */
  lemma {:induction false} MergeIsJoin(fields: seq<Field>, incoming: seq<Field>)
    requires Typed(fields) && Typed(incoming)
    ensures !MergeFields(fields, incoming).failed <==> forall name :: Compatible(TypesOf(fields, incoming, name))
    ensures !MergeFields(fields, incoming).failed ==>
              forall name :: MergedName(fields, incoming, MergeFields(fields, incoming), name)
    decreases |incoming|
  {
    var n, m := |incoming| - 1, MergeFields(fields, incoming);
    if incoming == [] {
      forall name ensures MergedName(fields, incoming, m, name) && Compatible(TypesOf(fields, incoming, name)) {
        var i := LastIndex(fields, name);
        if i >= 0 {
          SingleType(fields[i].ftype);
          assert TypesOf(fields, incoming, name) == [fields[i].ftype];
        }
      }
    } else {
      var init, field := incoming[..n], incoming[n];
      assert init + [field] == incoming;
      MergeIsJoin(fields, init);
      TypesOfSnoc(fields, init, field, field.name);
      if MergeFields(fields, init).failed {
        var name :| !Compatible(TypesOf(fields, init, name));
        TypesOfSnoc(fields, init, field, name);
        CompatiblePrefix(TypesOf(fields, init, name), field.ftype);
        assert TypesOf(fields, init, name) + [] == TypesOf(fields, init, name);
        assert !Compatible(TypesOf(fields, incoming, name));
      } else {
        forall name ensures (!m.failed ==> MergedName(fields, incoming, m, name) && Compatible(TypesOf(fields, incoming, name)))
                         && (m.failed && name == field.name ==> !Compatible(TypesOf(fields, incoming, name))) {
          MergeOneMore(fields, init, field, name);
        }
      }
    }
  }

  /** No stored field is removed, moved or renamed, no type goes down, and `changed` tells the truth. */
  lemma {:induction false} MergeKeepsFields(fields: seq<Field>, incoming: seq<Field>)
    ensures var m := MergeFields(fields, incoming);
            && |fields| <= |m.fields|
            && (forall i :: 0 <= i < |fields| ==>
                  && m.fields[i].name == fields[i].name && m.fields[i].nullable == fields[i].nullable
                  && Leq(fields[i].ftype, m.fields[i].ftype))
            && (m.changed <==> m.fields != fields)
  {
    if incoming != [] {
      MergeKeepsFields(fields, incoming[..|incoming| - 1]);
    }
  }

  // --- Lists of schemas ---------------------------------------------------------------------------

  /** Merging each schema of a list in turn; after a failure nothing more is merged. */
  function MergeAll(fields: seq<Field>, schemas: seq<seq<Field>>): Merged {
    if schemas == [] then Merged(fields, false, false) else
      var m := MergeAll(fields, schemas[..|schemas| - 1]);
      if m.failed then m else MergeFields(m.fields, schemas[|schemas| - 1])
  }

  function Concat(schemas: seq<seq<Field>>): seq<Field> {
    if schemas == [] then [] else Concat(schemas[..|schemas| - 1]) + schemas[|schemas| - 1]
  }

  lemma {:induction false} MergeInTwo(fields: seq<Field>, a: seq<Field>, b: seq<Field>)
    requires !MergeFields(fields, a).failed
    ensures var m, n := MergeFields(fields, a + b), MergeFields(MergeFields(fields, a).fields, b);
            m.failed == n.failed && m.fields == n.fields
  {
    hide MergeField;
    if b == [] {
      assert a + b == a;
    } else {
      var k := |b| - 1;
      MergeInTwo(fields, a, b[..k]);
      assert (a + b)[..|a + b| - 1] == a + b[..k];
      MergeFieldIgnoresFlag(MergeFields(fields, a + b[..k]), MergeFields(MergeFields(fields, a).fields, b[..k]), b[k]);
    }
  }

  lemma MergeFieldIgnoresFlag(m: Merged, n: Merged, field: Field)
    requires m.failed == n.failed && m.fields == n.fields
    ensures var m', n' := MergeField(m, field), MergeField(n, field);
            m'.failed == n'.failed && m'.fields == n'.fields
  {
  }

  predicate NoTimes(fields: seq<Field>) {
    forall i :: 0 <= i < |fields| ==> fields[i].ftype in {Long, Double, String}
  }

  lemma {:induction false} MergeAllIsMerge(fields: seq<Field>, schemas: seq<seq<Field>>)
    requires NoTimes(fields) && forall k :: 0 <= k < |schemas| ==> NoTimes(schemas[k])
    ensures NoTimes(Concat(schemas))
    ensures !MergeAll(fields, schemas).failed && !MergeFields(fields, Concat(schemas)).failed
    ensures MergeAll(fields, schemas).fields == MergeFields(fields, Concat(schemas)).fields
  {
    hide MergeField, MergeFields, NoTimes;
    ConcatWithoutTimes(schemas);
    NeverFails(fields, Concat(schemas));
    if schemas == [] {
      NothingToMerge(fields);
    } else {
      var k := |schemas| - 1;
      MergeAllIsMerge(fields, schemas[..k]);
      MergeInTwo(fields, Concat(schemas[..k]), schemas[k]);
    }
  }

  lemma NothingToMerge(fields: seq<Field>)
    ensures MergeFields(fields, []).fields == fields
  {
  }

  lemma {:induction false} ConcatWithoutTimes(schemas: seq<seq<Field>>)
    requires forall k :: 0 <= k < |schemas| ==> NoTimes(schemas[k])
    ensures NoTimes(Concat(schemas))
  {
    if schemas != [] {
      ConcatWithoutTimes(schemas[..|schemas| - 1]);
    }
  }

  /** Over long, double and string a merge cannot fail. */
  lemma NeverFails(fields: seq<Field>, incoming: seq<Field>)
    requires NoTimes(fields) && NoTimes(incoming)
    ensures !MergeFields(fields, incoming).failed
  {
    hide MergeFields, TypesOf, Compatible, MergedName;
    MergeIsJoin(fields, incoming);
    forall name ensures Compatible(TypesOf(fields, incoming, name)) {
      WithoutTimes(fields, incoming, name);
    }
  }

  lemma {:induction false} WithoutTimes(fields: seq<Field>, incoming: seq<Field>, name: string)
    requires NoTimes(fields) && NoTimes(incoming)
    ensures forall t :: t in TypesOf(fields, incoming, name) ==> t in {Long, Double, String}
    ensures Compatible(TypesOf(fields, incoming, name))
  {
    var ts := TypesOf(fields, incoming, name);
    forall t | t in ts ensures t in {Long, Double, String} {
      TypeOccurs(fields, incoming, name, t);
    }
    forall i | 0 < i < |ts| ensures Follows(ts[i - 1], ts[i]) {
      assert ts[i - 1] in ts && ts[i] in ts;
    }
  }

  lemma {:induction false} TypeOccurs(fields: seq<Field>, incoming: seq<Field>, name: string, t: FieldType)
    ensures t in TypesOf(fields, incoming, name) <==>
            LastType(fields, name) == Some(t) || exists f :: f in incoming && f.name == name && f.ftype == t
    decreases |incoming|
  {
    if incoming != [] {
      var init, last := incoming[..|incoming| - 1], incoming[|incoming| - 1];
      TypeOccurs(fields, init, name, t);
      assert forall f :: f in incoming <==> f in init || f == last by {
        assert incoming == init + [last];
      }
      assert init + [last] == incoming;
      TypesOfSnoc(fields, init, last, name);
    }
  }

  lemma {:induction false} ConcatMember(schemas: seq<seq<Field>>, f: Field)
    ensures f in Concat(schemas) <==> exists s :: s in schemas && f in s
  {
    if schemas != [] {
      var init, last := schemas[..|schemas| - 1], schemas[|schemas| - 1];
      ConcatMember(init, f);
      assert schemas == init + [last];
    }
  }

  lemma JoinIsUnique(i: FieldType, j: FieldType, ss: seq<FieldType>, ts: seq<FieldType>)
    requires IsJoinOf(i, ss) && IsJoinOf(j, ts) && forall t :: t in ss <==> t in ts
    ensures i == j
  {
    forall k | 0 <= k < |ss| ensures Leq(ss[k], j) {
      assert ss[k] in ss;
    }
    forall k | 0 <= k < |ts| ensures Leq(ts[k], i) {
      assert ts[k] in ts;
    }
    assert Leq(i, j) && Leq(j, i);
  }

  lemma SameMembersSameEmptiness(ss: seq<FieldType>, ts: seq<FieldType>)
    requires forall t :: t in ss <==> t in ts
    ensures ss == [] <==> ts == []
  {
    if ss != [] {
      assert ss[0] in ts;
    }
    if ts != [] {
      assert ts[0] in ss;
    }
  }

  /** Without times, no list of schemas fails to merge, and neither order nor repetition shows in the lookup. */
  lemma OrderDoesNotMatter(fields: seq<Field>, ss: seq<seq<Field>>, ts: seq<seq<Field>>, name: string)
    requires NoTimes(fields) && (forall k :: 0 <= k < |ss| ==> NoTimes(ss[k])) && (forall k :: 0 <= k < |ts| ==> NoTimes(ts[k]))
    requires forall s :: s in ss <==> s in ts
    ensures !MergeAll(fields, ss).failed && !MergeAll(fields, ts).failed
    ensures LastType(MergeAll(fields, ss).fields, name) == LastType(MergeAll(fields, ts).fields, name)
  {
    hide LastIndex, LastType, MergeFields, MergeAll, Concat, TypesOf, IsJoinOf, Compatible;
    MergeAllIsMerge(fields, ss);
    MergeAllIsMerge(fields, ts);
    MergeIsJoin(fields, Concat(ss));
    MergeIsJoin(fields, Concat(ts));
    assert MergedName(fields, Concat(ss), MergeFields(fields, Concat(ss)), name);
    assert MergedName(fields, Concat(ts), MergeFields(fields, Concat(ts)), name);
    forall t ensures t in TypesOf(fields, Concat(ss), name) <==> t in TypesOf(fields, Concat(ts), name) {
      TypeOccurs(fields, Concat(ss), name, t);
      TypeOccurs(fields, Concat(ts), name, t);
      forall f: Field ensures f in Concat(ss) <==> f in Concat(ts) {
        ConcatMember(ss, f);
        ConcatMember(ts, f);
      }
    }
    var xs, ys := TypesOf(fields, Concat(ss), name), TypesOf(fields, Concat(ts), name);
    SameMembersSameEmptiness(xs, ys);
    if xs != [] {
      JoinIsUnique(LastType(MergeFields(fields, Concat(ss)).fields, name).value,
                   LastType(MergeFields(fields, Concat(ts)).fields, name).value, xs, ys);
    }
  }

  /** With times the order does matter: a string may follow a time, but not the other way round. */
  lemma OrderMattersWithTimes(name: string)
    ensures var t, s := Field(name, FieldType.TimeType, true), Field(name, String, true);
            !MergeAll([], [[t], [s]]).failed && MergeAll([], [[s], [t]]).failed
  {
    var t, s := Field(name, FieldType.TimeType, true), Field(name, String, true);
    MergeTwo(t, s);
    MergeTwo(s, t);
  }

  lemma MergeTwo(a: Field, b: Field)
    ensures MergeAll([], [[a], [b]]) == MergeField(Merged([a], false, false), b)
  {
    MergeOne([], a);
    MergeOne([a], b);
    assert [] + [a] == [a];
    assert [[a], [b]][..1] == [[a]] && [[a]][..0] == [];
    assert MergeAll([], []) == Merged([], false, false);
    assert MergeAll([], [[a]]) == MergeFields([], [a]);
  }

  lemma MergeOne(fields: seq<Field>, f: Field)
    ensures MergeFields(fields, [f]) == MergeField(Merged(fields, false, false), f)
  {
    assert [f][..0] == [];
  }

  // --- The schema object --------------------------------------------------------------------------

  /** The `.#schema` object of one table. */
  class SchemaStore {
    var stored: Option<(seq<Field>, string)>
    var refused: nat

    constructor ()
      ensures stored == None && refused == 0
    {
      stored, refused := None, 0;
    }

    method PutObject(fields: seq<Field>, key: string) returns (ok: bool)
      modifies this
      ensures stored == if ok then Some((fields, key)) else old(stored)
      ensures refused == old(refused) + (if ok then 0 else 1)
    {
      ok := *;
      if ok {
        stored := Some((fields, key));
      } else {
        refused := refused + 1;
      }
    }
  }

  /** The lookup loop of `merge`: a later match replaces an earlier one. */
  method FindField(fields: seq<Field>, name: string) returns (index: int)
    ensures index == LastIndex(fields, name)
  {
    index := -1;
    for j := 0 to |fields|
      invariant -1 <= index < j
      invariant index >= 0 ==> fields[index].name == name
      invariant forall k :: index < k < j ==> fields[k].name != name
    {
      if fields[j].name == name {
        index := j;
      }
    }
  }

  class OldV3ioSchema {
    var fields: seq<Field>
    var key: string

    /** `NewSchema`. */
    constructor (key: string)
      ensures fields == [] && this.key == key
    {
      this.fields, this.key := [], key;
    }

    method AddColumn(name: string, dtype: DType, nullable: bool)
      modifies this
      ensures key == old(key) && |fields| == |old(fields)| + 1 && old(fields) <= fields
      ensures var field := fields[|old(fields)|]; field.name == name && field.nullable == nullable && Tells(field.ftype, dtype)
    {
      fields := fields + [Field(name, ColumnType(dtype), nullable)];
    }

    method AddField(name: string, val: Value, nullable: bool)
      modifies this
      ensures key == old(key) && |fields| == |old(fields)| + 1 && old(fields) <= fields
      ensures var field := fields[|old(fields)|]; field.name == name && field.nullable == nullable && TellsValue(field.ftype, val)
    {
      fields := fields + [Field(name, ValueType(val), nullable)];
    }

    /** `merge`. */
    method Merge(incoming: OldV3ioSchema) returns (changed: bool, failed: bool)
      requires incoming != this
      modifies this
      ensures fields == MergeFields(old(fields), incoming.fields).fields
      ensures failed == MergeFields(old(fields), incoming.fields).failed
      ensures key == if !failed && incoming.key != "" then incoming.key else old(key)
      ensures changed <==> fields != old(fields) || key != old(key)
    {
      hide LastIndex;
      changed, failed := false, false;
      for n := 0 to |incoming.fields|
        invariant key == old(key) && incoming.fields == old(incoming.fields)
        invariant MergeFields(old(fields), incoming.fields[..n]) == Merged(fields, changed, false)
      {
        var field := incoming.fields[n];
        assert incoming.fields[..n + 1][..n] == incoming.fields[..n];
        var index := FindField(fields, field.name);
        if index >= 0 && field.ftype != fields[index].ftype {
          if field.ftype == String {
            fields := fields[index := fields[index].(ftype := String)];
            changed := true;
            continue;
          }
          if field.ftype == Double && fields[index].ftype == Long {
            fields := fields[index := fields[index].(ftype := Double)];
            changed := true;
            continue;
          }
          if field.ftype == FieldType.TimeType || fields[index].ftype == FieldType.TimeType {
            assert MergeFields(old(fields), incoming.fields[..n + 1]).failed;
            FailureStays(old(fields), incoming.fields, n + 1);
            MergeKeepsFields(old(fields), incoming.fields);
            return changed, true;
          }
        } else {
          fields := fields + [field];
          changed := true;
        }
      }
      assert incoming.fields[..|incoming.fields|] == incoming.fields;
      MergeKeepsFields(old(fields), incoming.fields);

      if key != incoming.key && incoming.key != "" {
        key := incoming.key;
        changed := true;
      }
    }

    ghost function View(store: SchemaStore): SchemaState
      reads this, store
    {
      SchemaState(fields, key, store.stored)
    }

    /**
      * `UpdateSchema`: the schema is written back exactly when the merge changed it. It fails exactly when
      * the merge does or the store refuses; what was merged until then stays in memory.
      */
    method UpdateSchema(store: SchemaStore, incoming: OldV3ioSchema) returns (ok: bool)
      requires incoming != this
      modifies this, store
      ensures ok <==> !MergeFields(old(fields), incoming.fields).failed && store.refused == old(store.refused)
      ensures store.refused >= old(store.refused) && (!ok ==> store.stored == old(store.stored))
      ensures fields == MergeFields(old(fields), incoming.fields).fields
      ensures ok ==> UpdateStep(old(View(store)), incoming.fields, incoming.key) == Some(View(store))
      ensures MergeFields(old(fields), incoming.fields).failed ==> !ok
    {
      var changed, failed := Merge(incoming);
      if failed {
        return false;
      }
      if changed {
        ok := store.PutObject(fields, key);
      } else {
        ok := true;
      }
    }
  }

  lemma {:induction false} FailureStays(fields: seq<Field>, incoming: seq<Field>, n: nat)
    requires n <= |incoming| && MergeFields(fields, incoming[..n]).failed
    ensures MergeFields(fields, incoming) == MergeFields(fields, incoming[..n])
  {
    if n == |incoming| {
      assert incoming[..n] == incoming;
    } else {
      var k := |incoming| - 1;
      assert incoming[..k][..n] == incoming[..n];
      FailureStays(fields, incoming[..k], n);
    }
  }

  // --- A whole write run ----------------------------------------------------------------------------

  datatype SchemaState = SchemaState(fields: seq<Field>, key: string, stored: Option<(seq<Field>, string)>)

  /** What an `UpdateSchema` that reports no error does; None if the merge cannot succeed. */
  function UpdateStep(st: SchemaState, incoming: seq<Field>, newKey: string): Option<SchemaState> {
    var m := MergeFields(st.fields, incoming);
    var key := if newKey != "" then newKey else st.key;
    if m.failed then None
    else if m.fields != st.fields || key != st.key then Some(SchemaState(m.fields, key, Some((m.fields, key))))
    else Some(st)
  }

  function RunUpdates(st: SchemaState, updates: seq<(seq<Field>, string)>): Option<SchemaState> {
    if updates == [] then Some(st) else
      var last := updates[|updates| - 1];
      match RunUpdates(st, updates[..|updates| - 1])
      case None => None
      case Some(mid) => UpdateStep(mid, last.0, last.1)
  }

  /** The schema an appender starts from. */
  const INITIAL := SchemaState([], "__name", None)

  /** A name that is new, and comes in once, gets the type it comes in with. */
  lemma {:induction false} NewName(fields: seq<Field>, incoming: seq<Field>, c: nat)
    requires !MergeFields(fields, incoming).failed && c < |incoming|
    requires LastType(fields, incoming[c].name) == None
    requires forall i :: 0 <= i < |incoming| && incoming[i].name == incoming[c].name ==> i == c
    ensures LastType(MergeFields(fields, incoming).fields, incoming[c].name) == Some(incoming[c].ftype)
  {
    hide LastType, LastIndex;
    var n := |incoming| - 1;
    var m, name := MergeFields(fields, incoming[..n]), incoming[c].name;
    MergeFieldView(m, incoming[n], name);
    if c < n {
      NewName(fields, incoming[..n], c);
    } else {
      NameStaysNew(fields, incoming[..n], name);
    }
  }

  lemma {:induction false} NameStaysNew(fields: seq<Field>, incoming: seq<Field>, name: string)
    requires !MergeFields(fields, incoming).failed && LastType(fields, name) == None
    requires forall i :: 0 <= i < |incoming| ==> incoming[i].name != name
    ensures LastType(MergeFields(fields, incoming).fields, name) == None
  {
    hide LastType, LastIndex;
    if incoming != [] {
      var n := |incoming| - 1;
      NameStaysNew(fields, incoming[..n], name);
      MergeFieldView(MergeFields(fields, incoming[..n]), incoming[n], name);
    }
  }

  /** Every field that came in has a type, and the schema's is at least as wide. */
  ghost predicate Covers(fields: seq<Field>, incoming: seq<Field>) {
    forall i :: 0 <= i < |incoming| ==>
      var t := LastType(fields, incoming[i].name);
      t.Some? && Leq(incoming[i].ftype, t.value)
  }

  lemma MergeCovers(fields: seq<Field>, incoming: seq<Field>, earlier: seq<Field>)
    requires Typed(fields) && Typed(incoming) && !MergeFields(fields, incoming).failed
    ensures Typed(MergeFields(fields, incoming).fields)
    ensures Covers(MergeFields(fields, incoming).fields, incoming)
    ensures Covers(fields, earlier) ==> Covers(MergeFields(fields, incoming).fields, earlier)
  {
    hide MergeFields, TypesOf, LastIndex, Compatible;
    var m := MergeFields(fields, incoming);
    MergeStaysTyped(fields, incoming);
    MergeIsJoin(fields, incoming);
    forall f: Field | f in incoming || LastType(fields, f.name) == Some(f.ftype)
      ensures LastType(m.fields, f.name).Some? && Leq(f.ftype, LastType(m.fields, f.name).value)
    {
      assert MergedName(fields, incoming, m, f.name);
      TypeOccurs(fields, incoming, f.name, f.ftype);
      assert f.ftype in TypesOf(fields, incoming, f.name);
    }
    if Covers(fields, earlier) {
      forall i | 0 <= i < |earlier|
        ensures LastType(m.fields, earlier[i].name).Some? && Leq(earlier[i].ftype, LastType(m.fields, earlier[i].name).value)
      {
        var f := earlier[i].(ftype := LastType(fields, earlier[i].name).value);
        assert LastType(fields, f.name) == Some(f.ftype);
      }
    }
  }

  lemma {:induction false} MergeStaysTyped(fields: seq<Field>, incoming: seq<Field>)
    requires Typed(fields) && Typed(incoming)
    ensures Typed(MergeFields(fields, incoming).fields)
  {
    if incoming != [] {
      MergeStaysTyped(fields, incoming[..|incoming| - 1]);
    }
  }

  /**
    * Along any error-free run without bool columns, what is stored is the schema in memory as soon
    * as anything is, and it covers every column of every frame added so far.
    */
  lemma {:induction false} RunKeepsStored(updates: seq<(seq<Field>, string)>)
    requires forall k :: 0 <= k < |updates| ==> Typed(updates[k].0)
    requires RunUpdates(INITIAL, updates).Some?
    ensures var st := RunUpdates(INITIAL, updates).value;
            && Typed(st.fields)
            && (if st.stored.Some? then st.stored.value == (st.fields, st.key) else st == INITIAL)
            && forall k :: 0 <= k < |updates| ==> Covers(st.fields, updates[k].0)
  {
    if updates != [] {
      var n := |updates| - 1;
      var mid, last := RunUpdates(INITIAL, updates[..n]).value, updates[n];
      RunKeepsStored(updates[..n]);
      forall k | 0 <= k < |updates| ensures Covers(MergeFields(mid.fields, last.0).fields, updates[k].0) {
        if k < n {
          assert updates[..n][k] == updates[k];
        }
        MergeCovers(mid.fields, last.0, updates[k].0);
      }
      MergeCovers(mid.fields, last.0, last.0);
    }
  }
}
