/** The FIELDS section of an iCSV file and the Table Schema descriptor:
    both list the profiled columns, in header order. */
module Fields {
  import opened Wrappers
  import opened Text
  import opened Missing
  import opened Inference
  import opened Statistics

  /** One line of the section: a key and the delimiter-joined values. */
  datatype FieldsLine = FieldsLine(key: string, value: string) {
    function Text(): string {
      key + " = " + value
    }
  }

  const FieldsKeys: seq<string> := ["fields", "types", "min", "max", "missing_count", "description"]

  /** A bound as the section writes it; an absent bound is empty. */
  function Cell(b: Option<Bound>): string {
    if b.Some? then Render(b.value) else ""
  }

  /** The six rows of values, one value per column each: names, type
      names, minima, maxima, missing counts and descriptions. */
  function FieldsTable(header: seq<string>, infos: seq<ColumnInfo>): (t: seq<seq<string>>)
    ensures |t| == 6 && t[0] == header
    ensures forall j :: 1 <= j < 6 ==> |t[j]| == |infos|
    ensures forall i :: 0 <= i < |infos| ==>
      && t[1][i] == infos[i].columnType.Name()
      && t[2][i] == Cell(infos[i].min)
      && t[3][i] == Cell(infos[i].max)
      && t[4][i] == NatToString(infos[i].missingCount)
      && t[5][i] == infos[i].description
  {
    [header,
     seq(|infos|, i requires 0 <= i < |infos| => infos[i].columnType.Name()),
     seq(|infos|, i requires 0 <= i < |infos| => Cell(infos[i].min)),
     seq(|infos|, i requires 0 <= i < |infos| => Cell(infos[i].max)),
     seq(|infos|, i requires 0 <= i < |infos| => NatToString(infos[i].missingCount)),
     seq(|infos|, i requires 0 <= i < |infos| => infos[i].description)]
  }

  /** `build_fields_section`: six lines, in the order of `FieldsKeys`, each
      the matching row of the table joined with the delimiter. */
  function FieldsSection(header: seq<string>, infos: seq<ColumnInfo>, d: char): (lines: seq<FieldsLine>)
    ensures |lines| == 6
    ensures forall j :: 0 <= j < 6 ==> lines[j].key == FieldsKeys[j]
  {
    var t := FieldsTable(header, infos);
    seq(6, j requires 0 <= j < 6 => FieldsLine(FieldsKeys[j], Join(t[j], d)))
  }

  /** As written: the first line lists the header, `fields = ` followed by
      the names joined with the delimiter. */
  lemma FieldsText(header: seq<string>, infos: seq<ColumnInfo>, d: char)
    ensures FieldsSection(header, infos, d)[0].Text() == "fields = " + Join(header, d)
  {
    assert FieldsKeys[0] + " = " == "fields = ";
  }

  /** When no value contains the delimiter, every line splits back into
      exactly its row: one entry per column, in column order. */
  lemma FieldsSplit(header: seq<string>, infos: seq<ColumnInfo>, d: char)
    requires |header| > 0 && |infos| == |header|
    requires forall j, i :: 0 <= j < 6 && 0 <= i < |header| ==> d !in FieldsTable(header, infos)[j][i]
    ensures forall j :: 0 <= j < 6 ==>
      Split(FieldsSection(header, infos, d)[j].value, d) == FieldsTable(header, infos)[j]
  {
    var t := FieldsTable(header, infos);
    forall j | 0 <= j < 6
      ensures Split(FieldsSection(header, infos, d)[j].value, d) == t[j]
    {
      SplitJoin(t[j], d);
    }
  }

  /** A delimiter that is not a digit never occurs in a missing count, so
      the `missing_count` line gives back every column's count. */
  lemma MissingCountsRecoverable(header: seq<string>, infos: seq<ColumnInfo>, d: char)
    requires |infos| > 0 && !IsDigit(d)
    ensures var parts := Split(FieldsSection(header, infos, d)[4].value, d);
      && |parts| == |infos|
      && forall i :: 0 <= i < |infos| ==> IsDigits(parts[i]) && DigitsValue(parts[i]) == infos[i].missingCount
  {
    var t := FieldsTable(header, infos);
    forall i | 0 <= i < |infos| ensures d !in t[4][i] {
      var r := NatToString(infos[i].missingCount);
      assert forall k :: 0 <= k < |r| ==> IsDigit(r[k]);
    }
    SplitJoin(t[4], d);
  }

  /** A Table Schema field descriptor: `format`, `description` and
      `constraints` appear only when truthy. */
  datatype SchemaField = SchemaField(
    name: string,
    fieldType: string,
    format: Option<string>,
    description: Option<string>,
    constraints: Option<Constraints>)

  /** The schema: its fields and the `missingValues` list. */
  datatype Schema = Schema(fields: seq<SchemaField>, missingValues: seq<string>)

  /** The descriptor of one profiled column. */
  function FieldOf(info: ColumnInfo): (f: SchemaField)
    ensures f.name == info.name && f.fieldType == info.columnType.Name()
    ensures f.format.Some? <==> info.format != ""
    ensures f.format.Some? ==> f.format.value == info.format
    ensures f.description.Some? <==> info.description != ""
    ensures f.description.Some? ==> f.description.value == info.description
    ensures f.constraints.Some? <==> info.constraints.Some? && info.constraints.value.NonEmpty()
    ensures f.constraints.Some? ==> f.constraints == info.constraints
  {
    SchemaField(
      info.name,
      info.columnType.Name(),
      if info.format != "" then Some(info.format) else None,
      if info.description != "" then Some(info.description) else None,
      if info.constraints.Some? && info.constraints.value.NonEmpty() then info.constraints else None)
  }

  /** The schema's fields and the FIELDS table list the same names and
      types, column by column. */
  lemma SchemaAgreesWithTable(header: seq<string>, infos: seq<ColumnInfo>, fields: seq<SchemaField>)
    requires |infos| == |header| && |fields| == |infos|
    requires forall i :: 0 <= i < |infos| ==> infos[i].name == header[i] && fields[i] == FieldOf(infos[i])
    ensures forall i :: 0 <= i < |header| ==>
      fields[i].name == FieldsTable(header, infos)[0][i] && fields[i].fieldType == FieldsTable(header, infos)[1][i]
  {
  }

  /** `build_frictionless_schema`: one descriptor per column info, in order,
      appended in a loop; the missing values pass through. */
  method BuildSchema(infos: seq<ColumnInfo>, missingValues: seq<string>) returns (schema: Schema)
    ensures |schema.fields| == |infos|
    ensures forall i :: 0 <= i < |infos| ==> schema.fields[i] == FieldOf(infos[i])
    ensures schema.missingValues == missingValues
  {
    var fields: seq<SchemaField> := [];
    for i := 0 to |infos|
      invariant |fields| == i
      invariant forall k :: 0 <= k < i ==> fields[k] == FieldOf(infos[k])
    {
      var info := infos[i];
      var field := SchemaField(info.name, info.columnType.Name(), None, None, None);
      if info.format != "" {
        field := field.(format := Some(info.format));
      }
      if info.description != "" {
        field := field.(description := Some(info.description));
      }
      if info.constraints.Some? && info.constraints.value.NonEmpty() {
        field := field.(constraints := info.constraints);
      }
      fields := fields + [field];
    }
    schema := Schema(fields, missingValues);
  }
}
