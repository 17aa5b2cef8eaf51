/** The METADATA section of an iCSV file: the output delimiter rule and the
    ordered `key = value` entries. */
module Metadata {
  import opened Wrappers
  import opened Text

  /** The iCSV field delimiter for a detected input delimiter: a comma
      becomes a pipe, any other delimiter is kept. */
  function OutputDelimiter(detected: char): (d: char)
    ensures d != ','
    ensures detected != ',' ==> d == detected
    ensures detected == ',' ==> d == '|'
  {
    if detected != ',' then detected else '|'
  }

  /** The metadata keys, in the order the section writes them. */
  datatype Key =
    | Version | ApplicationProfile | FieldDelimiter | RowCount | ColumnCount
    | CreationDate | NodataKey | GeometryKey | SridKey | GeneratorKey
  {
    function Name(): string {
      match this
      case Version => "iCSV_version"
      case ApplicationProfile => "application_profile"
      case FieldDelimiter => "field_delimiter"
      case RowCount => "rows"
      case ColumnCount => "columns"
      case CreationDate => "creation_date"
      case NodataKey => "nodata"
      case GeometryKey => "geometry"
      case SridKey => "srid"
      case GeneratorKey => "generator"
    }

    /** The key's place in the section. */
    function Rank(): nat {
      match this
      case Version => 0
      case ApplicationProfile => 1
      case FieldDelimiter => 2
      case RowCount => 3
      case ColumnCount => 4
      case CreationDate => 5
      case NodataKey => 6
      case GeometryKey => 7
      case SridKey => 8
      case GeneratorKey => 9
    }
  }

  const KeyOrder: seq<Key> :=
    [Version, ApplicationProfile, FieldDelimiter, RowCount, ColumnCount,
     CreationDate, NodataKey, GeometryKey, SridKey, GeneratorKey]

  const Generator: string := "make_icsv.py (frictionless-based)"

  /** One line of the section, written `key = value` after the comment mark. */
  datatype Entry = Entry(key: Key, value: string) {
    function Text(): string {
      key.Name() + " = " + value
    }
  }

  /** What the section is built from. The creation date is the UTC clock
      reading in ISO form, supplied by the caller. */
  datatype Settings = Settings(
    delimiter: char,
    columns: nat,
    rows: nat,
    nodata: Option<string>,
    geometry: Option<string>,
    srid: Option<string>,
    application: Option<string>,
    creationDate: string)

  /** Python truthiness of an optional string: present and non-empty. */
  predicate Truthy(o: Option<string>) {
    o.Some? && o.value != ""
  }

  /** The value each key takes, or `None` when the key is left out: the
      application profile, geometry and srid only when truthy, nodata
      whenever it is given (even when empty), the rest always. */
  function Value(s: Settings, k: Key): Option<string> {
    match k
    case Version => Some("1.0")
    case ApplicationProfile => if Truthy(s.application) then s.application else None
    case FieldDelimiter => Some([s.delimiter])
    case RowCount => Some(NatToString(s.rows))
    case ColumnCount => Some(NatToString(s.columns))
    case CreationDate => Some(s.creationDate + "Z")
    case NodataKey => s.nodata
    case GeometryKey => if Truthy(s.geometry) then s.geometry else None
    case SridKey => if Truthy(s.srid) then s.srid else None
    case GeneratorKey => Some(Generator)
  }

  /** The entries for the keys `ks`, in their order, leaving out the keys
      without a value. */
  function Emitted(ks: seq<Key>, s: Settings): (md: seq<Entry>)
    ensures |md| <= |ks|
  {
    if ks == [] then []
    else Emitted(ks[..|ks| - 1], s) + Piece(ks[|ks| - 1], s)
  }

  function Piece(k: Key, s: Settings): seq<Entry> {
    if Value(s, k).Some? then [Entry(k, Value(s, k).value)] else []
  }

  /** The values the entries give to key `k`, in order. */
  function Values(md: seq<Entry>, k: Key): (vs: seq<string>)
    ensures forall v :: v in vs ==> exists i :: 0 <= i < |md| && md[i] == Entry(k, v)
  {
    if md == [] then []
    else
      var last := md[|md| - 1];
      var rest := Values(md[..|md| - 1], k);
      assert forall v :: v in rest ==> exists i :: 0 <= i < |md| && md[i] == Entry(k, v) by {
        forall v | v in rest ensures exists i :: 0 <= i < |md| && md[i] == Entry(k, v) {
          var i :| 0 <= i < |md| - 1 && md[..|md| - 1][i] == Entry(k, v);
          assert md[i] == Entry(k, v);
        }
      }
      rest + (if last.key == k then [last.value] else [])
  }

  /** Keys with strictly increasing ranks. */
  predicate Ordered(ks: seq<Key>) {
    forall i, j :: 0 <= i < j < |ks| ==> ks[i].Rank() < ks[j].Rank()
  }

  /** The section: every key of the fixed order that has a value. */
  function Section(s: Settings): seq<Entry> {
    Emitted(KeyOrder, s)
  }

  /** One more key: its entry, if any, goes after the others. */
  lemma EmittedSnoc(ks: seq<Key>, k: Key, s: Settings)
    ensures Emitted(ks + [k], s) == Emitted(ks, s) + Piece(k, s)
  {
    assert (ks + [k])[..|ks|] == ks;
  }

  /** `build_icsv_metadata_section`: one append per key, in order, the
      optional ones guarded. */
  method BuildMetadataSection(
    delimiter: char, header: seq<string>, rowsCount: nat, nodata: Option<string>,
    geometry: Option<string>, srid: Option<string>, application: Option<string>,
    creationDate: string)
    returns (md: seq<Entry>)
    ensures md == Section(Settings(delimiter, |header|, rowsCount, nodata, geometry, srid,
                                   application, creationDate))
  {
    ghost var s := Settings(delimiter, |header|, rowsCount, nodata, geometry, srid,
                            application, creationDate);
    ghost var spec: seq<Entry> := [];
    md := [];
    md := md + [Entry(Version, "1.0")];
    spec := spec + Piece(Version, s);
    assert md == spec;
    if application.Some? && application.value != "" {
      md := md + [Entry(ApplicationProfile, application.value)];
    }
    spec := spec + Piece(ApplicationProfile, s);
    assert md == spec;
    md := md + [Entry(FieldDelimiter, [delimiter])];
    spec := spec + Piece(FieldDelimiter, s);
    assert md == spec;
    md := md + [Entry(RowCount, NatToString(rowsCount))];
    spec := spec + Piece(RowCount, s);
    assert md == spec;
    md := md + [Entry(ColumnCount, NatToString(|header|))];
    spec := spec + Piece(ColumnCount, s);
    assert md == spec;
    md := md + [Entry(CreationDate, creationDate + "Z")];
    spec := spec + Piece(CreationDate, s);
    assert md == spec;
    if nodata.Some? {
      md := md + [Entry(NodataKey, nodata.value)];
    }
    spec := spec + Piece(NodataKey, s);
    assert md == spec;
    if geometry.Some? && geometry.value != "" {
      md := md + [Entry(GeometryKey, geometry.value)];
    }
    spec := spec + Piece(GeometryKey, s);
    assert md == spec;
    if srid.Some? && srid.value != "" {
      md := md + [Entry(SridKey, srid.value)];
    }
    spec := spec + Piece(SridKey, s);
    assert md == spec;
    md := md + [Entry(GeneratorKey, Generator)];
    spec := spec + Piece(GeneratorKey, s);
    assert md == spec;
    SectionPieces(s);
  }

  /** The section, key by key. */
  lemma SectionPieces(s: Settings)
    ensures Section(s) ==
      [] + Piece(Version, s) + Piece(ApplicationProfile, s) + Piece(FieldDelimiter, s)
      + Piece(RowCount, s) + Piece(ColumnCount, s) + Piece(CreationDate, s)
      + Piece(NodataKey, s) + Piece(GeometryKey, s) + Piece(SridKey, s) + Piece(GeneratorKey, s)
  {
    var done: seq<Key> := [];
    EmittedSnoc(done, Version, s);
    done := done + [Version];
    EmittedSnoc(done, ApplicationProfile, s);
    done := done + [ApplicationProfile];
    EmittedSnoc(done, FieldDelimiter, s);
    done := done + [FieldDelimiter];
    EmittedSnoc(done, RowCount, s);
    done := done + [RowCount];
    EmittedSnoc(done, ColumnCount, s);
    done := done + [ColumnCount];
    EmittedSnoc(done, CreationDate, s);
    done := done + [CreationDate];
    EmittedSnoc(done, NodataKey, s);
    done := done + [NodataKey];
    EmittedSnoc(done, GeometryKey, s);
    done := done + [GeometryKey];
    EmittedSnoc(done, SridKey, s);
    done := done + [SridKey];
    EmittedSnoc(done, GeneratorKey, s);
    done := done + [GeneratorKey];
    KeyOrderBuilt();
  }

  lemma KeyOrderBuilt()
    ensures [] + [Version] + [ApplicationProfile] + [FieldDelimiter] + [RowCount] + [ColumnCount]
      + [CreationDate] + [NodataKey] + [GeometryKey] + [SridKey] + [GeneratorKey] == KeyOrder
  {
  }

  /** Emitting keeps the order of the keys and emits no other key. */
  lemma {:induction false} EmittedOrdered(ks: seq<Key>, s: Settings)
    requires Ordered(ks)
    ensures Ordered(KeysOf(Emitted(ks, s)))
    ensures forall i :: 0 <= i < |Emitted(ks, s)| ==> Emitted(ks, s)[i].key in ks
  {
    if ks != [] {
      var init := ks[..|ks| - 1];
      assert Ordered(init);
      EmittedOrdered(init, s);
      var md := Emitted(ks, s);
      var e := Emitted(init, s);
      assert md == e + Piece(ks[|ks| - 1], s);
      forall i | 0 <= i < |e| ensures e[i].key.Rank() < ks[|ks| - 1].Rank() {
        var m :| 0 <= m < |init| && init[m] == e[i].key;
      }
    }
  }

  function KeysOf(md: seq<Entry>): (ks: seq<Key>)
    ensures |ks| == |md| && forall i :: 0 <= i < |md| ==> ks[i] == md[i].key
  {
    seq(|md|, i requires 0 <= i < |md| => md[i].key)
  }

  /** A key that occurs once among `ks` has exactly its value among the
      emitted entries, or none when it is left out. */
  lemma {:induction false} EmittedValues(ks: seq<Key>, s: Settings, k: Key)
    requires Ordered(ks)
    ensures Values(Emitted(ks, s), k) ==
      if k in ks && Value(s, k).Some? then [Value(s, k).value] else []
  {
    if ks != [] {
      var init, last := ks[..|ks| - 1], ks[|ks| - 1];
      assert ks == init + [last];
      assert Ordered(init);
      EmittedValues(init, s, k);
      ValuesPiece(Emitted(init, s), s, last, k);
      if k == last {
        OrderedLastFresh(ks);
      }
    }
  }

  lemma ValuesPiece(e: seq<Entry>, s: Settings, last: Key, k: Key)
    ensures Values(e + Piece(last, s), k) ==
      Values(e, k) + if last == k && Value(s, last).Some? then [Value(s, last).value] else []
  {
    if Value(s, last).Some? {
      var md := e + [Entry(last, Value(s, last).value)];
      assert md[..|md| - 1] == e;
    } else {
      assert e + [] == e;
    }
  }

  lemma OrderedLastFresh(ks: seq<Key>)
    requires ks != [] && Ordered(ks)
    ensures ks[|ks| - 1] !in ks[..|ks| - 1]
  {
    forall m | 0 <= m < |ks| - 1 ensures ks[m] != ks[|ks| - 1] {
      assert ks[m].Rank() < ks[|ks| - 1].Rank();
    }
  }

  lemma KeyOrderOrdered()
    ensures Ordered(KeyOrder)
  {
    assert forall i :: 0 <= i < |KeyOrder| ==> KeyOrder[i].Rank() == i;
  }

  /** Every key's entries in the section: its value once, or nothing when
      the key is left out. */
  lemma SectionValues(s: Settings, k: Key)
    ensures Values(Section(s), k) == if Value(s, k).Some? then [Value(s, k).value] else []
  {
    KeyOrderOrdered();
    EmittedValues(KeyOrder, s, k);
    assert KeyOrder[k.Rank()] == k;
  }

  /** The section: keys in the fixed order, each at most once; it opens with
      the version and closes with the generator; the delimiter, row count,
      column count and creation date are always there. */
  lemma MetadataSection(s: Settings)
    ensures var md := Section(s);
      && Ordered(KeysOf(md))
      && |md| > 0
      && md[0] == Entry(Version, "1.0")
      && md[|md| - 1] == Entry(GeneratorKey, Generator)
    ensures Values(Section(s), FieldDelimiter) == [[s.delimiter]]
    ensures Values(Section(s), RowCount) == [NatToString(s.rows)]
    ensures Values(Section(s), ColumnCount) == [NatToString(s.columns)]
    ensures Values(Section(s), CreationDate) == [s.creationDate + "Z"]
  {
    KeyOrderOrdered();
    EmittedOrdered(KeyOrder, s);
    SectionEnds(s);
    SectionValues(s, FieldDelimiter);
    SectionValues(s, RowCount);
    SectionValues(s, ColumnCount);
    SectionValues(s, CreationDate);
  }

  /** The optional keys: nodata exactly when a value is given, even an
      empty one; the application profile, geometry and srid exactly when
      truthy. */
  lemma MetadataOptional(s: Settings)
    ensures Values(Section(s), NodataKey) == if s.nodata.Some? then [s.nodata.value] else []
    ensures Values(Section(s), ApplicationProfile) ==
      if Truthy(s.application) then [s.application.value] else []
    ensures Values(Section(s), GeometryKey) == if Truthy(s.geometry) then [s.geometry.value] else []
    ensures Values(Section(s), SridKey) == if Truthy(s.srid) then [s.srid.value] else []
  {
    SectionValues(s, NodataKey);
    SectionValues(s, ApplicationProfile);
    SectionValues(s, GeometryKey);
    SectionValues(s, SridKey);
  }

  /** With a nodata value chosen, the section holds it once, and the
      delimiter once. */
  lemma NodataAndDelimiter(s: Settings)
    requires s.nodata.Some?
    ensures Values(Section(s), NodataKey) == [s.nodata.value]
    ensures Values(Section(s), FieldDelimiter) == [[s.delimiter]]
  {
    SectionValues(s, NodataKey);
    SectionValues(s, FieldDelimiter);
  }

  /** The version entry opens the section and the generator entry closes it. */
  lemma SectionEnds(s: Settings)
    ensures var md := Section(s);
      |md| > 0 && md[0] == Entry(Version, "1.0") && md[|md| - 1] == Entry(GeneratorKey, Generator)
  {
    SectionPieces(s);
    var head := [] + Piece(Version, s);
    assert head == [Entry(Version, "1.0")];
    assert Piece(GeneratorKey, s) == [Entry(GeneratorKey, Generator)];
    var md := head + Piece(ApplicationProfile, s) + Piece(FieldDelimiter, s)
      + Piece(RowCount, s) + Piece(ColumnCount, s) + Piece(CreationDate, s)
      + Piece(NodataKey, s) + Piece(GeometryKey, s) + Piece(SridKey, s);
    assert md[0] == Entry(Version, "1.0");
  }
}
