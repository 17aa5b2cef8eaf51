/** The conversion of a loaded table into the iCSV header sections and the
    schema: the steps of `make_icsv_from_csv` between loading and writing. */
module Pipeline {
  import opened Wrappers
  import opened Missing
  import opened Inference
  import opened Statistics
  import opened Nodata
  import opened Geometry
  import opened Metadata
  import opened Fields

  /** From the header, the rows as read and the detected input delimiter:
      the nodata value, the METADATA and FIELDS sections and the schema.
      Columns are profiled on rows brought to the header's width. */
  method MakeIcsv(
    header: seq<string>, rows: seq<seq<string>>, detected: char,
    nodataOverride: Option<string>, application: Option<string>,
    creationDate: string, lib: DatetimeLib)
    returns (nodata: string, metadata: seq<Entry>, fields: seq<FieldsLine>, schema: Schema)
    ensures nodataOverride.Some? ==> nodata == nodataOverride.value
    ensures nodataOverride.None? && (forall p :: 0 <= p < |Flatten(rows)| ==> !IsPlaceholder(Flatten(rows)[p]))
      ==> nodata == ""
    ensures nodataOverride.None? && (exists p :: 0 <= p < |Flatten(rows)| && IsPlaceholder(Flatten(rows)[p]))
      ==> exists q :: ChosenAt(Flatten(rows), q) && nodata == Flatten(rows)[q]
    ensures metadata == Section(Settings(OutputDelimiter(detected), |header|, |rows|, Some(nodata),
                                         GeometryHint(header).geometry, GeometryHint(header).srid,
                                         application, creationDate))
    ensures Values(metadata, NodataKey) == [nodata]
    ensures Values(metadata, FieldDelimiter) == [[OutputDelimiter(detected)]]
    ensures fields == FieldsSection(header, Profiles(header, rows, lib), OutputDelimiter(detected))
    ensures |schema.fields| == |header|
    ensures forall i :: 0 <= i < |header| ==>
      && schema.fields[i] == FieldOf(Profiles(header, rows, lib)[i])
      && schema.fields[i].name == FieldsTable(header, Profiles(header, rows, lib))[0][i]
      && schema.fields[i].fieldType == FieldsTable(header, Profiles(header, rows, lib))[1][i]
    ensures forall t :: t in schema.missingValues <==> t in CommonMissing()
  {
    var d := OutputDelimiter(detected);
    nodata := SelectNodata(rows, nodataOverride);
    var infos := ProfileColumns(header, rows, lib);
    schema := BuildSchema(infos, MissingTokens);
    var hint := DetectGeometryHint(header);
    metadata := BuildMetadataSection(d, header, |rows|, Some(nodata), hint.geometry, hint.srid,
                                     application, creationDate);
    fields := FieldsSection(header, infos, d);
    ProfileNames(header, rows, lib);
    SchemaAgreesWithTable(header, infos, schema.fields);
    NodataAndDelimiter(Settings(d, |header|, |rows|, Some(nodata), hint.geometry, hint.srid,
                                application, creationDate));
    TokensAreCommon();
  }
}
