/** The statistics aggregator: per-column min/max, missing counts and the
    `required` flag, the profiling loop over all columns, and the row
    normalisation the loop's transposition relies on. */
module Statistics {
  import opened Wrappers
  import opened Text
  import opened Missing
  import opened Inference

  /** `min(xs)`. */
  function MinOf(xs: seq<int>): (m: int)
    requires |xs| > 0
    ensures m in xs
    ensures forall i :: 0 <= i < |xs| ==> m <= xs[i]
  {
    if |xs| == 1 then xs[0]
    else
      var rest := MinOf(xs[1..]);
      if xs[0] <= rest then xs[0] else rest
  }

  /** `max(xs)`. */
  function MaxOf(xs: seq<int>): (m: int)
    requires |xs| > 0
    ensures m in xs
    ensures forall i :: 0 <= i < |xs| ==> xs[i] <= m
  {
    if |xs| == 1 then xs[0]
    else
      var rest := MaxOf(xs[1..]);
      if xs[0] >= rest then xs[0] else rest
  }

  /** `[int(x) for x in pruned]`: every value read as an integer, or no
      result at all when `int()` refuses one of them. */
  function ParseAll(pruned: seq<string>): (r: Option<seq<int>>)
    ensures r.Some? ==> |r.value| == |pruned|
  {
    if pruned == [] then Some([])
    else
      match ParseInt(pruned[0])
      case None => None
      case Some(n) =>
        match ParseAll(pruned[1..])
        case None => None
        case Some(ns) => Some([n] + ns)
  }

  /** Reading all values succeeds exactly when each is integer-shaped with
      at most `MaxStrDigits` digits, and then gives each value's integer in
      place. */
  lemma {:induction false} ParseAllEach(pruned: seq<string>)
    ensures ParseAll(pruned).Some? <==> forall i :: 0 <= i < |pruned| ==> IsConvertible(pruned[i])
    ensures ParseAll(pruned).Some? ==>
      forall i :: 0 <= i < |pruned| ==> ParseInt(pruned[i]) == Some(ParseAll(pruned).value[i])
  {
    if pruned != [] {
      ParseAllEach(pruned[1..]);
      assert forall i :: 1 <= i < |pruned| ==> pruned[i] == pruned[1..][i - 1];
    }
  }

  /** `compute_numeric_minmax(pruned, "integer")`: the least and greatest
      value of a non-empty column of integers; nothing for an empty column
      or when a value does not parse. */
  function IntMinMax(pruned: seq<string>): (r: Option<(int, int)>)
    ensures r.Some? ==> pruned != []
  {
    if pruned == [] then None
    else
      match ParseAll(pruned)
      case None => None
      case Some(ns) => Some((MinOf(ns), MaxOf(ns)))
  }

  /** Integer bounds exist exactly for a non-empty column of values `int()`
      converts (integer-shaped, at most `MaxStrDigits` digits); the minimum is at most and the maximum at least every value,
      and both are values of the column. */
  lemma IntMinMaxBounds(pruned: seq<string>)
    ensures IntMinMax(pruned).Some? <==> pruned != [] && forall i :: 0 <= i < |pruned| ==> IsConvertible(pruned[i])
    ensures IntMinMax(pruned).Some? ==> forall i :: 0 <= i < |pruned| ==>
      IntMinMax(pruned).value.0 <= ParseInt(pruned[i]).value <= IntMinMax(pruned).value.1
    ensures IntMinMax(pruned).Some? ==>
      exists i :: 0 <= i < |pruned| && ParseInt(pruned[i]).value == IntMinMax(pruned).value.0
    ensures IntMinMax(pruned).Some? ==>
      exists i :: 0 <= i < |pruned| && ParseInt(pruned[i]).value == IntMinMax(pruned).value.1
  {
    ParseAllEach(pruned);
    if IntMinMax(pruned).Some? {
      var ns := ParseAll(pruned).value;
      var lo, hi := MinOf(ns), MaxOf(ns);
      var a :| 0 <= a < |ns| && ns[a] == lo;
      var b :| 0 <= b < |ns| && ns[b] == hi;
      assert ParseInt(pruned[a]).value == lo;
      assert ParseInt(pruned[b]).value == hi;
    }
  }

  /** The instants of the values the min/max parser reads, in column order;
      values it cannot read are skipped. */
  function Instants(lib: DatetimeLib, pruned: seq<string>): (ts: seq<int>)
    ensures |ts| <= |pruned|
  {
    if pruned == [] then []
    else
      var rest := Instants(lib, pruned[1..]);
      match lib.parse(pruned[0])
      case None => rest
      case Some(t) => [t] + rest
  }

  /** Every readable value's instant is collected, and only those. */
  lemma {:induction false} InstantsOfReadable(lib: DatetimeLib, pruned: seq<string>)
    ensures forall i :: 0 <= i < |pruned| && lib.parse(pruned[i]).Some? ==>
      lib.parse(pruned[i]).value in Instants(lib, pruned)
    ensures forall t :: t in Instants(lib, pruned) ==>
      exists i :: 0 <= i < |pruned| && lib.parse(pruned[i]) == Some(t)
  {
    if pruned != [] {
      var rest := Instants(lib, pruned[1..]);
      InstantsOfReadable(lib, pruned[1..]);
      forall i | 0 <= i < |pruned| && lib.parse(pruned[i]).Some?
        ensures lib.parse(pruned[i]).value in Instants(lib, pruned)
      {
        if i > 0 {
          assert pruned[i] == pruned[1..][i - 1];
        }
      }
      forall t | t in rest ensures exists i :: 0 <= i < |pruned| && lib.parse(pruned[i]) == Some(t) {
        var j :| 0 <= j < |pruned[1..]| && lib.parse(pruned[1..][j]) == Some(t);
        assert lib.parse(pruned[j + 1]) == Some(t);
      }
    }
  }

  /** `compute_datetime_minmax`: the earliest and latest readable instant,
      rendered by the library; nothing when no value is readable. */
  function DatetimeMinMax(lib: DatetimeLib, pruned: seq<string>): (r: Option<(string, string)>)
    ensures r.Some? ==> |pruned| > 0
  {
    var ts := Instants(lib, pruned);
    if ts == [] then None
    else
      var lo, hi := MinOf(ts), MaxOf(ts);
      Some((lib.isoformat(lo), lib.isoformat(hi)))
  }

  /** Datetime bounds exist exactly when some value is readable; they are
      the rendering of two instants of readable values, the earliest and
      the latest. */
  lemma DatetimeMinMaxBounds(lib: DatetimeLib, pruned: seq<string>)
    ensures DatetimeMinMax(lib, pruned).Some? <==> exists i :: 0 <= i < |pruned| && lib.parse(pruned[i]).Some?
    ensures DatetimeMinMax(lib, pruned).Some? ==> exists lo, hi ::
      && DatetimeMinMax(lib, pruned).value == (lib.isoformat(lo), lib.isoformat(hi))
      && (exists i :: 0 <= i < |pruned| && lib.parse(pruned[i]) == Some(lo))
      && (exists i :: 0 <= i < |pruned| && lib.parse(pruned[i]) == Some(hi))
      && (forall i :: 0 <= i < |pruned| && lib.parse(pruned[i]).Some? ==>
            lo <= lib.parse(pruned[i]).value <= hi)
  {
    var ts := Instants(lib, pruned);
    InstantsOfReadable(lib, pruned);
    if ts != [] {
      var lo, hi := MinOf(ts), MaxOf(ts);
      assert exists i :: 0 <= i < |pruned| && lib.parse(pruned[i]) == Some(lo);
      assert exists i :: 0 <= i < |pruned| && lib.parse(pruned[i]) == Some(hi);
    }
  }

  /** A minimum or maximum as the column info holds it: an integer, or the
      ISO text of an instant. */
  datatype Bound = IntBound(n: int) | TextBound(s: string)

  /** `str(v)` of a bound. */
  function Render(b: Bound): string {
    match b
    case IntBound(n) => IntToString(n)
    case TextBound(s) => s
  }

  /** The `constraints` dictionary: the keys it holds, in Table Schema terms. */
  datatype Constraints = Constraints(minimum: Option<Bound>, maximum: Option<Bound>, required: bool) {
    /** A dictionary with at least one key. */
    predicate NonEmpty() {
      minimum.Some? || maximum.Some? || required
    }
  }

  /** The per-column info dictionary. `constraints` is present only when
      non-empty; `format` is never set by the profiler. */
  datatype ColumnInfo = ColumnInfo(
    name: string,
    columnType: ColumnType,
    min: Option<Bound>,
    max: Option<Bound>,
    constraints: Option<Constraints>,
    missingCount: nat,
    description: string,
    format: string)
  {
    predicate Required() {
      constraints.Some? && constraints.value.required
    }
  }

  /** `len(pruned) == len(col_values) and len(col_values) > 0`. */
  predicate NoneMissing(vs: seq<string>) {
    |Pruned(vs)| == |vs| && |vs| > 0
  }

  /** The numeric bounds of a column of the given type: integers only; the
      float path of a number column is not modelled and gives none. */
  function NumericBounds(pruned: seq<string>, t: ColumnType): Option<(Bound, Bound)>
  {
    if t == Integer then
      match IntMinMax(pruned)
      case None => None
      case Some((lo, hi)) => Some((IntBound(lo), IntBound(hi)))
    else None
  }

  function DatetimeBounds(lib: DatetimeLib, pruned: seq<string>): Option<(Bound, Bound)>
  {
    match DatetimeMinMax(lib, pruned)
    case None => None
    case Some((lo, hi)) => Some((TextBound(lo), TextBound(hi)))
  }

  /** The body of the profiling loop after type inference: from the
      stripped cells and the inferred type, the column's info. */
  function BuildColumnInfo(name: string, vs: seq<string>, t: ColumnType, lib: DatetimeLib): ColumnInfo
  {
    var pruned := Pruned(vs);
    var required := NoneMissing(vs);
    var missing := MissingCount(vs);
    if t == String then
      var cons := if required then Some(Constraints(None, None, true)) else None;
      ColumnInfo(name, t, None, None, cons, missing, "", "")
    else
      var bounds := if t == Datetime then DatetimeBounds(lib, pruned) else NumericBounds(pruned, t);
      var mn := if bounds.Some? then Some(bounds.value.0) else None;
      var mx := if bounds.Some? then Some(bounds.value.1) else None;
      var c := Constraints(mn, mx, required);
      ColumnInfo(name, t, mn, mx, if c.NonEmpty() then Some(c) else None, missing, "", "")
  }

  /** One iteration of the profiling loop: the cells of one column are
      stripped, classified and summarised. */
  function ProfileColumn(name: string, raw: seq<string>, lib: DatetimeLib): ColumnInfo
  {
    var vs := StripAll(raw);
    BuildColumnInfo(name, vs, ClassifyColumn(lib, vs), lib)
  }

  /** The info of a column of the given type: the header name, that type,
      the number of missing cells, empty description and format; a string
      column has no bounds. */
  lemma ColumnInfoShape(name: string, vs: seq<string>, t: ColumnType, lib: DatetimeLib)
    ensures var info := BuildColumnInfo(name, vs, t, lib);
      && info.name == name && info.columnType == t && info.description == "" && info.format == ""
      && info.missingCount == MissingCount(vs)
      && (t == String ==> info.min == None && info.max == None)
  {
  }

  /** A datetime column has bounds exactly when `compute_datetime_minmax`
      finds some, and then they are its result. */
  lemma DatetimeInfoBounds(name: string, vs: seq<string>, lib: DatetimeLib)
    ensures var info := BuildColumnInfo(name, vs, Datetime, lib);
      && (info.min.Some? <==> DatetimeMinMax(lib, Pruned(vs)).Some?)
      && (info.min.Some? ==>
            && info.min == Some(TextBound(DatetimeMinMax(lib, Pruned(vs)).value.0))
            && info.max == Some(TextBound(DatetimeMinMax(lib, Pruned(vs)).value.1)))
  {
    var bounds := DatetimeBounds(lib, Pruned(vs));
    var info := BuildColumnInfo(name, vs, Datetime, lib);
    assert info.min == (if bounds.Some? then Some(bounds.value.0) else None);
    assert info.max == (if bounds.Some? then Some(bounds.value.1) else None);
  }

  /** The profiler strips the cells before `infer_column_type` strips them
      again; the type is the one the raw cells would get. */
  lemma ProfileColumnType(name: string, raw: seq<string>, lib: DatetimeLib)
    ensures ProfileColumn(name, raw, lib).columnType == ClassifyColumn(lib, raw)
  {
    InferPrunedPrestripped(raw);
  }

  lemma {:induction false} InferPrunedPrestripped(raw: seq<string>)
    ensures InferPruned(StripAll(raw)) == InferPruned(raw)
  {
    if raw != [] {
      StripIdempotent(raw[0]);
      assert StripAll(raw)[1..] == StripAll(raw[1..]);
      InferPrunedPrestripped(raw[1..]);
    }
  }

  /** Every cell of a column is counted as missing or kept, so the missing
      count and the pruned values add up to the row count; the name is the
      header's and the description is empty. */
  lemma ProfileCounts(name: string, raw: seq<string>, lib: DatetimeLib)
    ensures ProfileColumn(name, raw, lib).missingCount + |Pruned(StripAll(raw))| == |raw|
    ensures ProfileColumn(name, raw, lib).name == name
    ensures ProfileColumn(name, raw, lib).description == ""
  {
    MissingPartition(StripAll(raw));
  }

  /** `required` is set exactly when no cell is missing and there is at
      least one row, whatever the type. */
  lemma ProfileRequired(name: string, raw: seq<string>, lib: DatetimeLib)
    ensures ProfileColumn(name, raw, lib).Required() <==>
      ProfileColumn(name, raw, lib).missingCount == 0 && |raw| > 0
  {
    var vs := StripAll(raw);
    RequiredInfo(name, vs, ClassifyColumn(lib, vs), lib);
  }

  /** The `required` flag of a built info, whatever the type. */
  lemma RequiredInfo(name: string, vs: seq<string>, t: ColumnType, lib: DatetimeLib)
    ensures BuildColumnInfo(name, vs, t, lib).Required() <==> MissingCount(vs) == 0 && |vs| > 0
    ensures BuildColumnInfo(name, vs, t, lib).missingCount == MissingCount(vs)
  {
    MissingPartition(vs);
    var required := NoneMissing(vs);
    var info := BuildColumnInfo(name, vs, t, lib);
    if t == String {
      assert info.constraints == if required then Some(Constraints(None, None, true)) else None;
    } else {
      assert info.constraints.Some? ==> info.constraints.value.required == required;
      assert required ==> info.constraints.Some?;
    }
  }

  /** The constraints dictionary is attached only when it holds a key. */
  lemma ProfileConstraintsNonEmpty(name: string, raw: seq<string>, lib: DatetimeLib)
    ensures var p := ProfileColumn(name, raw, lib);
      p.constraints.Some? ==> p.constraints.value.NonEmpty()
    ensures var p := ProfileColumn(name, raw, lib);
      p.constraints.Some? ==> p.constraints.value.minimum == p.min && p.constraints.value.maximum == p.max
  {
    var vs := StripAll(raw);
    InfoConstraints(name, vs, ClassifyColumn(lib, vs), lib);
  }

  lemma InfoConstraints(name: string, vs: seq<string>, t: ColumnType, lib: DatetimeLib)
    ensures var info := BuildColumnInfo(name, vs, t, lib);
      info.constraints.Some? ==>
      && info.constraints.value.NonEmpty()
      && info.constraints.value.minimum == info.min && info.constraints.value.maximum == info.max
  {
  }

  /** An integer column has bounds exactly when `int()` converts every
      value, that is when none has more than `MaxStrDigits` digits. Then the
      minimum is at most and the maximum at least every value, both are
      values of the column, and both are recorded as constraints; otherwise
      there are no bounds and the constraints hold only `required`. */
  lemma ProfileIntegerBounds(name: string, raw: seq<string>, lib: DatetimeLib)
    requires ProfileColumn(name, raw, lib).columnType == Integer
    ensures var p := ProfileColumn(name, raw, lib);
      var pruned := Pruned(StripAll(raw));
      && pruned != [] && (forall i :: 0 <= i < |pruned| ==> IsIntShape(pruned[i]))
      && (p.min.Some? <==> forall i :: 0 <= i < |pruned| ==> |Unsigned(pruned[i])| <= MaxStrDigits)
    ensures var p := ProfileColumn(name, raw, lib);
      p.min.Some? ==>
      && p.min.value.IntBound? && p.max.Some? && p.max.value.IntBound?
      && p.constraints.Some? && p.constraints.value.minimum == p.min
      && p.constraints.value.maximum == p.max
    ensures var p := ProfileColumn(name, raw, lib);
      var pruned := Pruned(StripAll(raw));
      p.min.Some? ==>
      && (forall i :: 0 <= i < |pruned| ==> p.min.value.n <= ParseInt(pruned[i]).value <= p.max.value.n)
      && (exists i :: 0 <= i < |pruned| && ParseInt(pruned[i]).value == p.min.value.n)
      && (exists i :: 0 <= i < |pruned| && ParseInt(pruned[i]).value == p.max.value.n)
    ensures var p := ProfileColumn(name, raw, lib);
      p.min.None? ==>
      && p.max == None
      && p.constraints == if p.Required() then Some(Constraints(None, None, true)) else None
  {
    var vs := StripAll(raw);
    assert ClassifyColumn(lib, vs) == Integer;
    InferPrunedStripped(raw);
    ClassificationRule(lib, vs);
    IntegerInfoBounds(name, vs, lib);
    IntMinMaxBounds(Pruned(vs));
  }

  /** The info built for an integer column: its bounds and constraints are
      `compute_numeric_minmax`'s result, or absent with it. */
  lemma IntegerInfoBounds(name: string, vs: seq<string>, lib: DatetimeLib)
    ensures var p := BuildColumnInfo(name, vs, Integer, lib);
      IntMinMax(Pruned(vs)).Some? ==>
      && p.min == Some(IntBound(IntMinMax(Pruned(vs)).value.0))
      && p.max == Some(IntBound(IntMinMax(Pruned(vs)).value.1))
      && p.constraints.Some? && p.constraints.value.minimum == p.min
      && p.constraints.value.maximum == p.max
    ensures var p := BuildColumnInfo(name, vs, Integer, lib);
      IntMinMax(Pruned(vs)).None? ==>
      && p.min == None && p.max == None
      && p.constraints == if NoneMissing(vs) then Some(Constraints(None, None, true)) else None
  {
    var p := BuildColumnInfo(name, vs, Integer, lib);
    var bounds := NumericBounds(Pruned(vs), Integer);
    assert p.min == (if bounds.Some? then Some(bounds.value.0) else None);
    assert p.max == (if bounds.Some? then Some(bounds.value.1) else None);
  }

  /** A string column has no bounds, and constraints only for `required`. */
  lemma ProfileStringNoBounds(name: string, raw: seq<string>, lib: DatetimeLib)
    requires ProfileColumn(name, raw, lib).columnType == String
    ensures var p := ProfileColumn(name, raw, lib);
      && p.min == None && p.max == None
      && p.constraints == if p.Required() then Some(Constraints(None, None, true)) else None
  {
  }

  /** A column of placeholders only: string, every cell missing, no
      required flag and no bounds. */
  lemma ProfileAllMissing(name: string, raw: seq<string>, lib: DatetimeLib)
    requires forall i :: 0 <= i < |raw| ==> IsPlaceholder(Strip(raw[i]))
    ensures var p := ProfileColumn(name, raw, lib);
      && p.columnType == String && p.missingCount == |raw|
      && p.min == None && p.max == None && p.constraints == None
  {
    var vs := StripAll(raw);
    assert forall i :: 0 <= i < |vs| ==> IsPlaceholder(Strip(vs[i])) by {
      forall i | 0 <= i < |vs| ensures IsPlaceholder(Strip(vs[i])) {
        StripIdempotent(raw[i]);
      }
    }
    AllMissingIsString(lib, vs);
    AllMissing(vs);
    MissingPartition(vs);
    ColumnInfoShape(name, vs, String, lib);
  }

  /** A row brought to the header's width: padded with empty cells, or cut. */
  function NormalizeRow(r: seq<string>, n: nat): (nr: seq<string>)
    ensures |nr| == n
    ensures forall i :: 0 <= i < n ==> nr[i] == if i < |r| then r[i] else ""
  {
    if |r| < n then r + seq(n - |r|, _ => "") else r[..n]
  }

  /** The `i`-th column of the rows once each is brought to width `n`. */
  function Column(rows: seq<seq<string>>, n: nat, i: nat): (col: seq<string>)
    requires i < n
    ensures |col| == |rows|
  {
    seq(|rows|, k requires 0 <= k < |rows| => NormalizeRow(rows[k], n)[i])
  }

  /** Cell `k` of column `i` is the row's own cell when the row reaches
      that far, and empty otherwise. */
  lemma ColumnCells(rows: seq<seq<string>>, n: nat, i: nat)
    requires i < n
    ensures forall k :: 0 <= k < |rows| ==>
      Column(rows, n, i)[k] == if i < |rows[k]| then rows[k][i] else ""
  {
  }

  /** The infos the profiling loop produces: column `i` of the normalised
      rows, profiled under header entry `i`. */
  function Profiles(header: seq<string>, rows: seq<seq<string>>, lib: DatetimeLib): (infos: seq<ColumnInfo>)
    ensures |infos| == |header|
  {
    seq(|header|, i requires 0 <= i < |header| => ProfileColumn(header[i], Column(rows, |header|, i), lib))
  }

  /** Each profile carries its header name. */
  lemma ProfileNames(header: seq<string>, rows: seq<seq<string>>, lib: DatetimeLib)
    ensures forall i :: 0 <= i < |header| ==> Profiles(header, rows, lib)[i].name == header[i]
  {
    forall i | 0 <= i < |header| ensures Profiles(header, rows, lib)[i].name == header[i] {
      ProfileCounts(header[i], Column(rows, |header|, i), lib);
    }
  }

  /** The profiling loop: one info per header entry, in header order. */
  method ProfileColumns(header: seq<string>, rows: seq<seq<string>>, lib: DatetimeLib)
    returns (infos: seq<ColumnInfo>)
    ensures infos == Profiles(header, rows, lib)
  {
    ghost var spec := Profiles(header, rows, lib);
    infos := [];
    for i := 0 to |header|
      invariant infos == spec[..i]
    {
      var info := ProfileOne(header[i], Column(rows, |header|, i), lib);
      assert spec[..i + 1] == spec[..i] + [info];
      infos := infos + [info];
    }
    assert spec[..|header|] == spec;
  }

  /** The body of the profiling loop for one column. */
  method ProfileOne(name: string, col: seq<string>, lib: DatetimeLib) returns (info: ColumnInfo)
    ensures info == ProfileColumn(name, col, lib)
  {
    var colValues := StripAll(col);
    var t := InferColumnType(lib, colValues);
    info := BuildColumnInfo(name, colValues, t, lib);
  }

  /** The narrowest row's width. */
  function MinWidth(rows: seq<seq<string>>): (w: nat)
    requires |rows| > 0
    ensures forall k :: 0 <= k < |rows| ==> w <= |rows[k]|
    ensures exists k :: 0 <= k < |rows| && w == |rows[k]|
  {
    if |rows| == 1 then |rows[0]|
    else
      var rest := MinWidth(rows[1..]);
      if |rows[0]| <= rest then |rows[0]| else rest
  }

  /** `list(zip(*rows))` as the profiling code runs it: the padding loop
      before it rebinds only its loop variable, so the rows stay as read and
      zip stops at the narrowest row. */
  function ZipColumns(rows: seq<seq<string>>): (cols: seq<seq<string>>)
    requires |rows| > 0
    ensures |cols| == MinWidth(rows)
  {
    seq(MinWidth(rows), i requires 0 <= i < MinWidth(rows) =>
      seq(|rows|, k requires 0 <= k < |rows| => rows[k][i]))
  }

  /** As written, one row shorter than the header leaves fewer columns than
      header entries, so the loop's `cols[i]` is out of range. */
  lemma ShortRowLosesColumns(header: seq<string>, rows: seq<seq<string>>, k: nat)
    requires k < |rows| && |rows[k]| < |header|
    ensures |ZipColumns(rows)| < |header|
  {
  }

  /** The smallest such input: two header entries and one row with one cell. */
  lemma ShortRowExample()
    ensures |ZipColumns([["1"]])| == 1 < |["a", "b"]|
    ensures Column([["1"]], 2, 1) == [""]
  {
    assert MinWidth([["1"]]) == 1;
  }

  /** On rows already as wide as the header, normalising changes nothing:
      the corrected columns are zip's columns. */
  lemma NormalizedMatchesZip(rows: seq<seq<string>>, n: nat, i: nat)
    requires |rows| > 0 && i < n
    requires forall k :: 0 <= k < |rows| ==> |rows[k]| == n
    ensures i < |ZipColumns(rows)| && Column(rows, n, i) == ZipColumns(rows)[i]
  {
  }
}
