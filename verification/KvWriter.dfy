/** Adding frames to a key-value table (backends/kv/writer.go): what is put, and what is counted. */
module KvWriter {
  import opened Wrappers
  import opened Values
  import opened Columns
  import opened Decimal
  import opened Frames
  import opened RowIter
  import opened Schema

  // --- Attribute names --------------------------------------------------------------------------------

  function ValidName(name: string): (v: string)
    ensures |v| == |name|
  {
    seq(|name|, i requires 0 <= i < |name| => if name[i] == ' ' || name[i] == ':' then '_' else name[i])
  }

  /** `validColName`. */
  method ValidColName(name: string) returns (v: string)
    ensures v == ValidName(name)
    ensures |v| == |name| && forall i :: 0 <= i < |name| ==> v[i] == if name[i] in " :" then '_' else name[i]
  {
    v := name;
    for i := 0 to |name|
      invariant |v| == |name| && v[..i] == ValidName(name)[..i] && v[i..] == name[i..]
    {
      if v[i] == ' ' || v[i] == ':' {
        v := v[..i] + "_" + v[i + 1..];
      }
    }
  }

  // --- What a frame is turned into ----------------------------------------------------------------------

  /** The columns by attribute name: of several that share one, the last. */
  function Attributes(cols: seq<ColVal>, n: nat): map<string, ColVal>
    requires n <= |cols|
  {
    if n == 0 then map[] else
      Attributes(cols, n - 1)[ValidName(cols[n - 1].name) := Resolved(cols)[n - 1]]
  }

  /** The field that stands for a column. */
  predicate IsFieldOf(cols: seq<ColVal>, c: nat, field: Field)
    requires c < |cols|
  {
    field.name == ValidName(cols[c].name) && field.nullable && Tells(field.ftype, Resolved(cols)[c].dtype)
  }

  /** The schema of a frame: its columns, then its labels in some order. */
  ghost predicate IsSchemaOf(f: FrameVal, labels: Labels, fields: seq<Field>) {
    && |fields| == |f.columns| + |labels|
    && (forall c :: 0 <= c < |f.columns| ==> IsFieldOf(f.columns, c, fields[c]))
    && AreLabels(labels, fields[|f.columns|..])
  }

  predicate AreLabels(labels: Labels, fields: seq<Field>) {
    && (forall name :: name in labels ==> exists i :: 0 <= i < |fields| && fields[i].name == name)
    && (forall i :: 0 <= i < |fields| ==> IsLabel(labels, fields[i]))
  }

  predicate IsLabel(labels: Labels, field: Field) {
    field.name in labels && field.nullable && TellsValue(field.ftype, labels[field.name])
  }

  /** `utils.ColAt`, and then int64 to int. */
  function AttributeOf(fmt: Formats, cell: Cell): Value {
    match cell
    case IntCell(i) => Int(KInt, i)
    case TimeCell(ns) => Str(fmt.time(NSToTime(ns)))
    case _ => cell.ToValue()
  }

  /** The column that holds the keys: the only index, or else the first column. */
  function IndexColumn(f: FrameVal): Option<ColVal> {
    if |f.indices| > 1 || f.columns == [] then None
    else if f.indices != [] then Some(f.indices[0])
    else Some(Resolved(f.columns)[0])
  }

  datatype Put = Put(path: string, attributes: Row)

  function RowAttributes(fmt: Formats, columns: map<string, ColVal>, r: nat): Row
    requires forall name :: name in columns ==> r < |columns[name].cells|
  {
    map name | name in columns :: AttributeOf(fmt, columns[name].cells[r])
  }

  lemma {:induction false} AttributesReach(f: FrameVal, n: nat)
    requires FrameOk(f) && n <= |f.columns|
    ensures forall name :: name in Attributes(f.columns, n) ==> |Attributes(f.columns, n)[name].cells| == Height(f)
  {
    if n > 0 {
      AttributesReach(f, n - 1);
    }
  }

  function Puts(fmt: Formats, tablePath: string, f: FrameVal, n: nat): (ps: seq<Put>)
    requires FrameOk(f) && IndexColumn(f).Some? && n <= Height(f)
    ensures |ps| == n
  {
    AttributesReach(f, |f.columns|);
    seq(n, r requires 0 <= r < n =>
      Put(tablePath + Text(fmt, IndexColumn(f).value.cells[r]),
          RowAttributes(fmt, Attributes(f.columns, |f.columns|), r)))
  }

  // --- What a put holds ----------------------------------------------------------------------------------

  /** The attribute of a cell: an integer as `int`, a time as its text, all else as it is. */
  ghost predicate IsAttribute(fmt: Formats, cell: Cell, v: Value) {
    match cell
    case IntCell(i) => v == Int(KInt, i)
    case FloatCell(f) => v == Float64(f)
    case StringCell(s) => v == Str(s)
    case TimeCell(_) => v.Str? && IsText(fmt, cell, v.s)
    case BoolCell(b) => v == Bool(b)
  }

  /** The text of row `r`'s cell in the only index, or else in the last column named like the first. */
  ghost predicate IsKey(fmt: Formats, f: FrameVal, r: nat, key: string) {
    if f.indices != [] then |f.indices| == 1 && r < |f.indices[0].cells| && IsText(fmt, f.indices[0].cells[r], key)
    else forall k :: 0 <= k < |f.columns| && f.columns[k].name == f.columns[0].name
                       && (forall d :: k < d < |f.columns| ==> f.columns[d].name != f.columns[0].name)
           ==> r < |f.columns[k].cells| && IsText(fmt, f.columns[k].cells[r], key)
  }

  /** No later column has the same attribute name. */
  predicate IsLast(cols: seq<ColVal>, c: nat)
    requires c < |cols|
  {
    forall d :: c < d < |cols| ==> ValidName(cols[d].name) != ValidName(cols[c].name)
  }

  /** The put for row `r`: its path, exactly the columns' attribute names, and under each the row's cell. */
  ghost predicate IsPutOf(fmt: Formats, tablePath: string, f: FrameVal, r: nat, put: Put) {
    && tablePath <= put.path && IsKey(fmt, f, r, put.path[|tablePath|..])
    && (forall name :: name in put.attributes <==> exists c :: 0 <= c < |f.columns| && ValidName(f.columns[c].name) == name)
    && (forall c :: 0 <= c < |f.columns| && IsLast(f.columns, c) ==>
          && r < |f.columns[c].cells| && ValidName(f.columns[c].name) in put.attributes
          && IsAttribute(fmt, f.columns[c].cells[r], put.attributes[ValidName(f.columns[c].name)]))
  }

  /** From position `from` on there is one put for each of the first `n` rows, in order. */
  ghost predicate HoldsRows(fmt: Formats, tablePath: string, f: FrameVal, puts: seq<Put>, from: nat, n: nat) {
    from + n <= |puts| && forall p :: from <= p < from + n ==> IsPutOf(fmt, tablePath, f, p - from, puts[p])
  }

  lemma AttributeOfCell(fmt: Formats, cell: Cell)
    ensures IsAttribute(fmt, cell, AttributeOf(fmt, cell))
  {
    TextIsText(fmt, cell);
  }

  lemma KeyOfRow(fmt: Formats, f: FrameVal, r: nat)
    requires FrameOk(f) && IndexColumn(f).Some? && r < Height(f)
    ensures r < |IndexColumn(f).value.cells| && IsKey(fmt, f, r, Text(fmt, IndexColumn(f).value.cells[r]))
  {
    hide Text, IsText, LastNamed;
    TextIsText(fmt, IndexColumn(f).value.cells[r]);
    if f.indices == [] {
      var k := LastNamed(f.columns, f.columns[0].name);
      assert k >= 0 && IndexColumn(f).value == f.columns[k];
    }
  }

  lemma AttributesOfRow(fmt: Formats, f: FrameVal, r: nat, c: nat)
    requires FrameOk(f) && r < Height(f) && c < |f.columns| && IsLast(f.columns, c)
    requires forall name :: name in Attributes(f.columns, |f.columns|) ==> r < |Attributes(f.columns, |f.columns|)[name].cells|
    ensures var name, row := ValidName(f.columns[c].name), RowAttributes(fmt, Attributes(f.columns, |f.columns|), r);
      name in row && r < |f.columns[c].cells| && IsAttribute(fmt, f.columns[c].cells[r], row[name])
  {
    hide IsAttribute, AttributeOf, Attributes, FrameOk;
    var name := ValidName(f.columns[c].name);
    AttributesOfFrame(f.columns, name);
    var k := LastNamed(f.columns, f.columns[c].name);
    assert Owner(f.columns, name) == c && k == c && Resolved(f.columns)[c] == f.columns[c];
    AttributeOfCell(fmt, f.columns[c].cells[r]);
  }

  lemma PutOfRow(fmt: Formats, tablePath: string, f: FrameVal, r: nat)
    requires FrameOk(f) && IndexColumn(f).Some? && r < Height(f)
    ensures IsPutOf(fmt, tablePath, f, r, Puts(fmt, tablePath, f, r + 1)[r])
  {
    hide IsKey, IsAttribute, AttributeOf, Text, FrameOk, IndexColumn, Attributes, IsLast, ValidName;
    AttributesReach(f, |f.columns|);
    KeyOfRow(fmt, f, r);
    var put := Puts(fmt, tablePath, f, r + 1)[r];
    var row := RowAttributes(fmt, Attributes(f.columns, |f.columns|), r);
    assert put.attributes == row && put.path[|tablePath|..] == Text(fmt, IndexColumn(f).value.cells[r]);
    forall name ensures name in row <==> exists c :: 0 <= c < |f.columns| && ValidName(f.columns[c].name) == name {
      AttributesOfFrame(f.columns, name);
    }
    forall c | 0 <= c < |f.columns| && IsLast(f.columns, c)
      ensures r < |f.columns[c].cells| && ValidName(f.columns[c].name) in row
      ensures IsAttribute(fmt, f.columns[c].cells[r], row[ValidName(f.columns[c].name)])
    {
      AttributesOfRow(fmt, f, r, c);
    }
  }

  lemma PutsSnoc(fmt: Formats, tablePath: string, f: FrameVal, r: nat, was: seq<Put>)
    requires FrameOk(f) && IndexColumn(f).Some? && r < Height(f)
    requires forall name :: name in Attributes(f.columns, |f.columns|) ==> r < |Attributes(f.columns, |f.columns|)[name].cells|
    requires r < |IndexColumn(f).value.cells|
    ensures was + Puts(fmt, tablePath, f, r) + [Put(tablePath + Text(fmt, IndexColumn(f).value.cells[r]),
              RowAttributes(fmt, Attributes(f.columns, |f.columns|), r))] == was + Puts(fmt, tablePath, f, r + 1)
  {
    hide Text, FrameOk, IndexColumn, Attributes, RowAttributes;
  }

  lemma NoPuts(fmt: Formats, tablePath: string, f: FrameVal, was: seq<Put>)
    requires FrameOk(f) && IndexColumn(f).Some?
    ensures was + Puts(fmt, tablePath, f, 0) == was
  {
  }

  lemma PutsHoldRows(fmt: Formats, tablePath: string, f: FrameVal, n: nat, was: seq<Put>, puts: seq<Put>)
    requires FrameOk(f) && IndexColumn(f).Some? && n <= Height(f)
    requires puts == was + Puts(fmt, tablePath, f, n)
    ensures HoldsRows(fmt, tablePath, f, puts, |was|, n)
  {
    hide IsPutOf, IndexColumn, FrameOk, RowAttributes;
    forall p | |was| <= p < |was| + n ensures IsPutOf(fmt, tablePath, f, p - |was|, puts[p]) {
      var r := p - |was|;
      PutOfRow(fmt, tablePath, f, r);
      assert puts[p] == Puts(fmt, tablePath, f, n)[r] == Puts(fmt, tablePath, f, r + 1)[r];
    }
  }

  /** The last column with that attribute name, -1 if there is none. */
  function Owner(cols: seq<ColVal>, name: string): (c: int)
    ensures -1 <= c < |cols|
    ensures c >= 0 ==> ValidName(cols[c].name) == name
    ensures forall d :: c < d < |cols| ==> ValidName(cols[d].name) != name
  {
    LastWhere(cols, (v: ColVal) => ValidName(v.name) == name)
  }

  lemma {:induction false} AttributeOwner(cols: seq<ColVal>, n: nat, name: string)
    requires n <= |cols|
    ensures var c := Owner(cols[..n], name);
      if c >= 0 then name in Attributes(cols, n) && Attributes(cols, n)[name] == Resolved(cols)[c]
      else name !in Attributes(cols, n)
  {
    hide ValidName, Resolved;
    if n > 0 {
      AttributeOwner(cols, n - 1, name);
      OwnerSnoc(cols, n, name);
    }
  }

  lemma OwnerSnoc(cols: seq<ColVal>, n: nat, name: string)
    requires 0 < n <= |cols|
    ensures Owner(cols[..n], name) == if ValidName(cols[n - 1].name) == name then n - 1 else Owner(cols[..n - 1], name)
  {
    hide ValidName;
    var c, d := Owner(cols[..n], name), Owner(cols[..n - 1], name);
    assert forall k :: 0 <= k < n - 1 ==> cols[..n - 1][k] == cols[..n][k];
    assert cols[..n][n - 1] == cols[n - 1];
  }

  /** An attribute holds the last column of that name; no column is lost exactly when the names stay distinct. */
  lemma AttributesOfFrame(cols: seq<ColVal>, name: string)
    ensures name in Attributes(cols, |cols|) <==> Owner(cols, name) >= 0
    ensures name in Attributes(cols, |cols|) ==> Attributes(cols, |cols|)[name] == Resolved(cols)[Owner(cols, name)]
    ensures (forall c :: 0 <= c < |cols| ==> Owner(cols, ValidName(cols[c].name)) == c) <==>
            (forall c, d :: 0 <= c < d < |cols| ==> ValidName(cols[c].name) != ValidName(cols[d].name))
  {
    hide ValidName, Resolved;
    assert cols[..|cols|] == cols;
    AttributeOwner(cols, |cols|, name);
    if forall c :: 0 <= c < |cols| ==> Owner(cols, ValidName(cols[c].name)) == c {
      forall c, d | 0 <= c < d < |cols| ensures ValidName(cols[c].name) != ValidName(cols[d].name) {
        assert Owner(cols, ValidName(cols[c].name)) == c;
      }
    }
  }

  /** A blank and a colon in the same place make one attribute of two columns. */
  lemma NamesCollide()
    ensures ValidName("a b") == ValidName("a:b") == "a_b"
  {
  }

  // --- The appender ---------------------------------------------------------------------------------------

  datatype Outcome = Ok | EmptyFrame | SchemaFailed | BadIndex | PutRefused

  /** The requests that the store has taken on; their answers go to the wait loop. */
  class Container {
    var puts: seq<Put>
    var refused: nat

    constructor ()
      ensures puts == [] && refused == 0
    {
      puts, refused := [], 0;
    }

    method PutItem(input: Put) returns (ok: bool)
      modifies this
      ensures puts == if ok then old(puts) + [input] else old(puts)
      ensures refused == old(refused) + (if ok then 0 else 1)
    {
      ok := *;
      if ok {
        puts := puts + [input];
      } else {
        refused := refused + 1;
      }
    }
  }

  class Appender {
    const container: Container
    const schemaStore: SchemaStore
    const tablePath: string
    const fmt: Formats
    const schema: OldV3ioSchema
    var sent: nat

    constructor (container: Container, schemaStore: SchemaStore, tablePath: string, fmt: Formats)
      ensures this.container == container && this.schemaStore == schemaStore
      ensures this.tablePath == tablePath && this.fmt == fmt && sent == 0
      ensures fresh(schema) && schema.fields == [] && schema.key == "__name"
    {
      this.container, this.schemaStore, this.tablePath, this.fmt := container, schemaStore, tablePath, fmt;
      schema := new OldV3ioSchema("__name");
      sent := 0;
    }

    /** What was taken on since there were `was` puts: one for each of the first rows. */
    ghost predicate PutRowsOf(f: FrameVal, was: seq<Put>, sentBefore: nat)
      reads this, container
    {
      && sentBefore <= sent && sent - sentBefore == |container.puts| - |was|
      && was <= container.puts && HoldsRows(fmt, tablePath, f, container.puts, |was|, sent - sentBefore)
    }

    /**
      * `Add`: one put for each row, in order, as far as it gets; `sent` counts the puts taken on, also
      * when it fails half-way. The schema is updated first, and stays updated if the index is refused.
      */
    method Add(f: FrameVal, labels: Labels) returns (outcome: Outcome, ghost incoming: seq<Field>)
      requires FrameOk(f)
      modifies this, container, schema, schemaStore
      ensures PutRowsOf(f, old(container.puts), old(sent))
      ensures sent <= old(sent) + Height(f)
      ensures outcome == Ok ==> sent == old(sent) + Height(f)
      ensures outcome != Ok && outcome != PutRefused ==> sent == old(sent)
      // the reasons of a failure
      ensures outcome == EmptyFrame <==> f.columns == []
      ensures outcome == SchemaFailed <==>
                f.columns != [] && (schemaStore.refused > old(schemaStore.refused) || MergeFields(old(schema.fields), incoming).failed)
      ensures outcome == BadIndex <==> f.columns != [] && outcome != SchemaFailed && |f.indices| > 1
      ensures outcome == PutRefused <==> container.refused > old(container.refused)
      // the schema
      ensures outcome == EmptyFrame ==> schema.View(schemaStore) == old(schema.View(schemaStore))
      ensures outcome != EmptyFrame ==> IsSchemaOf(f, labels, incoming)
      ensures outcome in {Ok, BadIndex, PutRefused} ==>
                && UpdateStep(old(schema.View(schemaStore)), incoming, if f.indices != [] then f.indices[0].name else "")
                   == Some(schema.View(schemaStore))
                && NewNamesTyped(f, old(schema.fields), incoming, schema.fields)
    {
      hide IsSchemaOf, MergeFields, Attributes, Resolved, FrameOk, HoldsRows, NewNamesTyped;
      incoming := [];
      assert HoldsRows(fmt, tablePath, f, container.puts, |container.puts|, 0) by {
        NoRowsYet(fmt, tablePath, f, container.puts);
      }
      if f.columns == [] {
        return EmptyFrame, incoming;
      }
      var columns, newSchema := SchemaOf(f, labels);
      incoming := newSchema.fields;
      var ok := schema.UpdateSchema(schemaStore, newSchema);
      if !ok {
        return SchemaFailed, incoming;
      }
      NewNamesAreTyped(f, labels, old(schema.fields), incoming);
      if |f.indices| > 1 {
        return BadIndex, incoming;
      }
      outcome := PutRows(f, columns);
    }

    method PutRows(f: FrameVal, columns: map<string, ColVal>) returns (outcome: Outcome)
      requires FrameOk(f) && IndexColumn(f).Some? && columns == Attributes(f.columns, |f.columns|)
      modifies `sent, container
      ensures outcome == Ok || outcome == PutRefused
      ensures outcome == PutRefused <==> container.refused > old(container.refused)
      ensures PutRowsOf(f, old(container.puts), old(sent)) && sent <= old(sent) + Height(f)
      ensures outcome == Ok ==> sent == old(sent) + Height(f)
    {
      hide HoldsRows, IsKey, FrameOk, IndexColumn, Attributes, RowAttributes, Puts, Text;
      AttributesReach(f, |f.columns|);
      ghost var was := container.puts;
      NoPuts(fmt, tablePath, f, was);
      for r := 0 to Height(f)
        invariant sent == old(sent) + r && container.refused == old(container.refused)
        invariant container.puts == was + Puts(fmt, tablePath, f, r)
      {
        var row := RowAttributes(fmt, columns, r);
        KeyOfRow(fmt, f, r);
        var key := Text(fmt, IndexColumn(f).value.cells[r]);
        var ok := container.PutItem(Put(tablePath + key, row));
        if !ok {
          PutsHoldRows(fmt, tablePath, f, r, was, container.puts);
          return PutRefused;
        }
        sent := sent + 1;
        PutsSnoc(fmt, tablePath, f, r, was);
      }
      PutsHoldRows(fmt, tablePath, f, Height(f), was, container.puts);
      outcome := Ok;
    }
  }

  lemma NoRowsYet(fmt: Formats, tablePath: string, f: FrameVal, puts: seq<Put>)
    ensures HoldsRows(fmt, tablePath, f, puts, |puts|, 0)
  {
  }

  /** A column whose attribute is new, and comes in once, has its own type in the schema afterwards. */
  ghost predicate NewNamesTyped(f: FrameVal, was: seq<Field>, incoming: seq<Field>, now: seq<Field>) {
    forall c :: 0 <= c < |f.columns| && |f.columns| <= |incoming|
      && LastType(was, ValidName(f.columns[c].name)) == None
      && (forall i :: 0 <= i < |incoming| && incoming[i].name == ValidName(f.columns[c].name) ==> i == c)
      ==> var t := LastType(now, ValidName(f.columns[c].name));
          t.Some? && Tells(t.value, Resolved(f.columns)[c].dtype)
  }

  lemma NewNamesAreTyped(f: FrameVal, labels: Labels, was: seq<Field>, incoming: seq<Field>)
    requires IsSchemaOf(f, labels, incoming) && !MergeFields(was, incoming).failed
    ensures NewNamesTyped(f, was, incoming, MergeFields(was, incoming).fields)
  {
    hide MergeFields, LastType, Tells, ValidName, Resolved, AreLabels;
    forall c | 0 <= c < |f.columns|
      && LastType(was, ValidName(f.columns[c].name)) == None
      && (forall i :: 0 <= i < |incoming| && incoming[i].name == ValidName(f.columns[c].name) ==> i == c)
      ensures var t := LastType(MergeFields(was, incoming).fields, ValidName(f.columns[c].name));
        t.Some? && Tells(t.value, Resolved(f.columns)[c].dtype)
    {
      assert IsFieldOf(f.columns, c, incoming[c]);
      NewName(was, incoming, c);
    }
  }

  /** The columns by attribute name, and the schema they and the labels make. */
  method SchemaOf(f: FrameVal, labels: Labels) returns (columns: map<string, ColVal>, newSchema: OldV3ioSchema)
    ensures fresh(newSchema) && newSchema.key == (if f.indices != [] then f.indices[0].name else "")
    ensures IsSchemaOf(f, labels, newSchema.fields)
    ensures columns == Attributes(f.columns, |f.columns|)
  {
    hide Resolved, ValidName, Tells;
    columns := map[];
    var indexName := if f.indices != [] then f.indices[0].name else "";
    newSchema := new OldV3ioSchema(indexName);
    for c := 0 to |f.columns|
      invariant fresh(newSchema) && newSchema.key == indexName && |newSchema.fields| == c
      invariant forall k :: 0 <= k < c ==> IsFieldOf(f.columns, k, newSchema.fields[k])
      invariant columns == Attributes(f.columns, c)
    {
      var col := ColumnNamed(f.columns, c);
      var name := ValidColName(f.columns[c].name);
      newSchema.AddColumn(name, col.dtype, true);
      columns := columns[name := col];
    }
    AddLabels(newSchema, labels);
  }

  /** `Column` of the name of column `c`. */
  method ColumnNamed(cols: seq<ColVal>, c: nat) returns (col: ColVal)
    requires c < |cols|
    ensures col == Resolved(cols)[c]
  {
    col := cols[LastNamed(cols, cols[c].name)];
  }

  method AddLabels(newSchema: OldV3ioSchema, labels: Labels)
    modifies newSchema
    ensures newSchema.key == old(newSchema.key)
    ensures |newSchema.fields| == |old(newSchema.fields)| + |labels| && old(newSchema.fields) <= newSchema.fields
    ensures AreLabels(labels, newSchema.fields[|old(newSchema.fields)|..])
  {
    hide TellsValue;
    ghost var n := |newSchema.fields|;
    var todo := labels.Keys;
    while todo != {}
      invariant todo <= labels.Keys && newSchema.key == old(newSchema.key)
      invariant old(newSchema.fields) <= newSchema.fields && |newSchema.fields| + |todo| == n + |labels|
      invariant forall name :: name in labels && name !in todo ==>
        exists i :: 0 <= i < |newSchema.fields[n..]| && newSchema.fields[n..][i].name == name
      invariant forall i :: 0 <= i < |newSchema.fields[n..]| ==> IsLabel(labels, newSchema.fields[n..][i])
    {
      var name :| name in todo;
      ghost var was := newSchema.fields[n..];
      newSchema.AddField(name, labels[name], true);
      ghost var now := newSchema.fields[n..];
      assert now == was + [newSchema.fields[|newSchema.fields| - 1]];
      assert now[|was|].name == name;
      forall other | other in labels && other !in todo ensures exists i :: 0 <= i < |now| && now[i].name == other {
        var i :| 0 <= i < |was| && was[i].name == other;
        assert now[i].name == other;
      }
      todo := todo - {name};
    }
  }

  // --- A whole write run ---------------------------------------------------------------------------------

  /** Columns and labels that have a type in the schema. */
  ghost predicate AllTyped(f: FrameVal, labels: Labels) {
    && (forall c :: 0 <= c < |f.columns| ==> Resolved(f.columns)[c].dtype != BoolType)
    && (forall name :: name in labels ==> HasType(labels[name]))
  }

  predicate HasType(v: Value) {
    match v
    case Int(kind, _) => kind == KInt || kind == KInt32 || kind == KInt64
    case Bool(_) => false
    case Other => false
    case _ => true
  }

  lemma SchemaIsTyped(f: FrameVal, labels: Labels, fields: seq<Field>)
    requires IsSchemaOf(f, labels, fields) && AllTyped(f, labels)
    ensures Schema.Typed(fields)
  {
    hide Resolved, ValidName;
    var n := |f.columns|;
    forall i | 0 <= i < |fields| ensures fields[i].ftype != Untyped {
      if i < n {
        assert IsFieldOf(f.columns, i, fields[i]);
      } else {
        assert fields[i] == fields[n..][i - n];
        assert IsLabel(labels, fields[n..][i - n]);
      }
    }
  }

  /** Wide enough for a column of that type: no integer is stored as a time, no float as an integer, and so on. */
  predicate WideEnough(t: FieldType, dtype: DType) {
    match dtype
    case IntType => t == Long || t == Double || t == String
    case FloatType => t == Double || t == String
    case StringType => t == String
    case TimeType => t == FieldType.TimeType || t == String
    case BoolType => true
  }

  /** Every column of the frame has a type in the schema that is wide enough for it. */
  ghost predicate CoversFrame(fields: seq<Field>, f: FrameVal) {
    forall c :: 0 <= c < |f.columns| ==>
      var t := LastType(fields, ValidName(f.columns[c].name));
      t.Some? && WideEnough(t.value, Resolved(f.columns)[c].dtype)
  }

  lemma CoversItsFrame(fields: seq<Field>, f: FrameVal, labels: Labels, incoming: seq<Field>)
    requires IsSchemaOf(f, labels, incoming) && Covers(fields, incoming)
    ensures CoversFrame(fields, f)
  {
    hide Resolved, ValidName, LastType, AreLabels;
    forall c | 0 <= c < |f.columns|
      ensures var t := LastType(fields, ValidName(f.columns[c].name));
        t.Some? && WideEnough(t.value, Resolved(f.columns)[c].dtype)
    {
      assert IsFieldOf(f.columns, c, incoming[c]);
      assert Leq(incoming[c].ftype, LastType(fields, incoming[c].name).value);
    }
  }

  /** The rows of all frames. */
  function TotalHeight(fs: seq<(FrameVal, Labels)>): nat {
    if fs == [] then 0 else TotalHeight(fs[..|fs| - 1]) + Height(fs[|fs| - 1].0)
  }

  /** The puts of the first frames, each where the ones before it end. */
  ghost predicate HoldsFrames(fmt: Formats, tablePath: string, fs: seq<(FrameVal, Labels)>, puts: seq<Put>, n: nat)
    requires n <= |fs|
  {
    forall k :: 0 <= k < n ==> HoldsRows(fmt, tablePath, fs[k].0, puts, TotalHeight(fs[..k]), Height(fs[k].0))
  }

  lemma MorePuts(fmt: Formats, tablePath: string, f: FrameVal, was: seq<Put>, now: seq<Put>, from: nat, n: nat)
    requires HoldsRows(fmt, tablePath, f, was, from, n) && was <= now
    ensures HoldsRows(fmt, tablePath, f, now, from, n)
  {
    hide IsPutOf;
    forall p | from <= p < from + n ensures IsPutOf(fmt, tablePath, f, p - from, now[p]) {
      assert now[p] == was[p];
    }
  }

  lemma OneMoreFrame(fmt: Formats, tablePath: string, fs: seq<(FrameVal, Labels)>, i: nat, was: seq<Put>, now: seq<Put>)
    requires i < |fs| && HoldsFrames(fmt, tablePath, fs, was, i) && was <= now && |was| == TotalHeight(fs[..i])
    requires HoldsRows(fmt, tablePath, fs[i].0, now, |was|, Height(fs[i].0))
    ensures HoldsFrames(fmt, tablePath, fs, now, i + 1)
    ensures TotalHeight(fs[..i + 1]) == TotalHeight(fs[..i]) + Height(fs[i].0)
  {
    hide HoldsRows, Height;
    assert fs[..i + 1][..i] == fs[..i];
    forall k | 0 <= k < i ensures HoldsRows(fmt, tablePath, fs[k].0, now, TotalHeight(fs[..k]), Height(fs[k].0)) {
      MorePuts(fmt, tablePath, fs[k].0, was, now, TotalHeight(fs[..k]), Height(fs[k].0));
    }
  }

  /** The schema after a run without booleans. */
  ghost predicate KeptFor(st: SchemaState, fs: seq<(FrameVal, Labels)>, updates: seq<(seq<Field>, string)>)
    requires |fs| == |updates|
  {
    && (if st.stored.Some? then st.stored.value == (st.fields, st.key) else st == INITIAL)
    && (forall k :: 0 <= k < |fs| ==> CoversFrame(st.fields, fs[k].0))
    && (forall k :: 0 <= k < |fs| ==> Covers(st.fields, updates[k].0))
  }

  lemma RunKeepsSchema(st: SchemaState, fs: seq<(FrameVal, Labels)>, updates: seq<(seq<Field>, string)>)
    requires |fs| == |updates| && RunUpdates(INITIAL, updates) == Some(st)
    requires forall k :: 0 <= k < |fs| ==> IsSchemaOf(fs[k].0, fs[k].1, updates[k].0) && AllTyped(fs[k].0, fs[k].1)
    ensures KeptFor(st, fs, updates)
  {
    hide IsSchemaOf, AllTyped, Covers, CoversFrame, RunUpdates, Schema.Typed;
    forall k | 0 <= k < |updates| ensures Schema.Typed(updates[k].0) {
      SchemaIsTyped(fs[k].0, fs[k].1, updates[k].0);
    }
    RunKeepsStored(updates);
    forall k | 0 <= k < |fs| ensures CoversFrame(st.fields, fs[k].0) {
      CoversItsFrame(st.fields, fs[k].0, fs[k].1, updates[k].0);
    }
  }

  lemma OneMoreUpdate(updates: seq<(seq<Field>, string)>, incoming: seq<Field>, key: string)
    ensures RunUpdates(INITIAL, updates + [(incoming, key)]) == match RunUpdates(INITIAL, updates)
              case None => None
              case Some(mid) => UpdateStep(mid, incoming, key)
  {
    assert (updates + [(incoming, key)])[..|updates|] == updates;
  }

  /**
    * Frames added one after the other without an error: each row was put once and counted, and, if there
    * are no booleans, the stored schema is the one in memory and is wide enough for every column and label.
    */
  method AddAll(appender: Appender, fs: seq<(FrameVal, Labels)>) returns (ok: bool, ghost updates: seq<(seq<Field>, string)>)
    requires forall k :: 0 <= k < |fs| ==> FrameOk(fs[k].0)
    requires appender.sent == 0 && appender.container.puts == []
    requires appender.schema.View(appender.schemaStore) == INITIAL
    modifies appender, appender.container, appender.schema, appender.schemaStore
    ensures appender.sent == |appender.container.puts|
    ensures ok ==> appender.sent == TotalHeight(fs)
    ensures ok ==> HoldsFrames(appender.fmt, appender.tablePath, fs, appender.container.puts, |fs|)
    ensures ok ==> |updates| == |fs| && forall k :: 0 <= k < |fs| ==> IsSchemaOf(fs[k].0, fs[k].1, updates[k].0)
    ensures ok && (forall k :: 0 <= k < |fs| ==> AllTyped(fs[k].0, fs[k].1)) ==>
              KeptFor(appender.schema.View(appender.schemaStore), fs, updates)
  {
    hide IsSchemaOf, AllTyped, FrameOk, UpdateStep, HoldsRows, HoldsFrames, NewNamesTyped, Height, TotalHeight, RunUpdates, KeptFor;
    updates := [];
    NoFrames(appender.fmt, appender.tablePath, fs);
    for i := 0 to |fs|
      invariant appender.sent == |appender.container.puts| == TotalHeight(fs[..i])
      invariant HoldsFrames(appender.fmt, appender.tablePath, fs, appender.container.puts, i)
      invariant |updates| == i && forall k :: 0 <= k < i ==> IsSchemaOf(fs[k].0, fs[k].1, updates[k].0)
      invariant RunUpdates(INITIAL, updates) == Some(appender.schema.View(appender.schemaStore))
    {
      ghost var was, incoming := appender.container.puts, [];
      var outcome;
      outcome, incoming := appender.Add(fs[i].0, fs[i].1);
      if outcome != Ok {
        return false, updates;
      }
      ghost var key := if fs[i].0.indices != [] then fs[i].0.indices[0].name else "";
      OneMoreUpdate(updates, incoming, key);
      OneMoreFrame(appender.fmt, appender.tablePath, fs, i, was, appender.container.puts);
      updates := updates + [(incoming, key)];
    }
    assert fs[..|fs|] == fs;
    if forall k :: 0 <= k < |fs| ==> AllTyped(fs[k].0, fs[k].1) {
      RunKeepsSchema(appender.schema.View(appender.schemaStore), fs, updates);
    }
    ok := true;
  }

  lemma NoFrames(fmt: Formats, tablePath: string, fs: seq<(FrameVal, Labels)>)
    ensures HoldsFrames(fmt, tablePath, fs, [], 0) && TotalHeight(fs[..0]) == 0
    ensures RunUpdates(INITIAL, []) == Some(INITIAL)
  {
  }
}
