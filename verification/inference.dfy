/** The type inference engine: the two regular-expression shapes, the
    datetime test (the parsing itself belongs to Python's `datetime` and is
    a parameter here) and the all-or-nothing column classifier. */
module Inference {
  import opened Wrappers
  import opened Text
  import opened Missing

  /** The inferred type of a column, strongest first. */
  datatype ColumnType = Integer | Number | Datetime | String {
    /** The Table Schema type name written to the outputs. */
    function Name(): string {
      match this
      case Integer => "integer"
      case Number => "number"
      case Datetime => "datetime"
      case String => "string"
    }
  }

  /** The foreign datetime calls. `accepts` is `fromisoformat` followed by
      the eleven `strptime` formats of `try_parse_datetime`; `parse` is the
      parse of `compute_datetime_minmax` (nine formats, none with `%z`),
      giving an instant on a total order; `isoformat` renders an instant. */
  datatype DatetimeLib = DatetimeLib(
    accepts: string -> bool,
    parse: string -> Option<int>,
    isoformat: int -> string)

  /** The text after an optional leading minus sign. */
  function Unsigned(s: string): (u: string)
    ensures u == s || (|s| > 0 && s[0] == '-' && u == s[1..])
  {
    if |s| > 0 && s[0] == '-' then s[1..] else s
  }

  /** `INT_RE` on a stripped string: `-?\d+`, the whole string. (Python's
      `$` would also let a final newline through, but every value that
      reaches the regex has been stripped and ends in no whitespace.) */
  predicate IsIntShape(s: string) {
    IsDigits(Unsigned(s))
  }

  /** `FLOAT_RE` on a stripped string: `-?\d+\.\d+`, the whole string. */
  predicate IsFloatShape(s: string) {
    var u := Unsigned(s);
    '.' in u && IsDigits(u[..IndexOf(u, '.')]) && IsDigits(u[IndexOf(u, '.') + 1..])
  }

  /** Both shapes need at least one digit: a lone sign or a lone point is
      neither. */
  lemma ShapesHaveDigit(s: string)
    requires IsIntShape(s) || IsFloatShape(s)
    ensures HasDigit(s)
  {
    var u := Unsigned(s);
    var off := |s| - |u|;
    if IsIntShape(s) {
      assert s[off] == u[0];
    } else {
      var k := IndexOf(u, '.');
      assert u[..k][0] == u[0] && s[off] == u[0];
    }
  }

  /** How many characters an optional leading minus sign takes. */
  function SignLength(s: string): (k: nat)
    ensures k <= 1 && (k == 1 <==> |s| > 0 && s[0] == '-')
  {
    if |s| > 0 && s[0] == '-' then 1 else 0
  }

  /** The regular expression `-?\d+` read position by position: after the
      optional minus sign, at least one character, and digits only. */
  lemma IntShapeRegex(s: string)
    ensures IsIntShape(s) <==>
      SignLength(s) < |s| && forall i :: SignLength(s) <= i < |s| ==> IsDigit(s[i])
  {
    var u := Unsigned(s);
    assert forall i :: SignLength(s) <= i < |s| ==> s[i] == u[i - SignLength(s)];
  }

  /** The position-by-position reading of `-?\d+\.\d+` with the point at `p`. */
  predicate FloatShapeAt(s: string, p: int) {
    && SignLength(s) < p < |s| - 1 && s[p] == '.'
    && (forall i :: SignLength(s) <= i < p ==> IsDigit(s[i]))
    && (forall i :: p < i < |s| ==> IsDigit(s[i]))
  }

  /** The regular expression `-?\d+\.\d+` read position by position: after
      the optional minus sign, digits up to a point that has at least one
      digit on each side, and digits only after it. */
  lemma FloatShapeRegex(s: string)
    ensures IsFloatShape(s) <==> exists p :: FloatShapeAt(s, p)
  {
    if IsFloatShape(s) {
      FloatShapePoint(s);
    }
    if exists p :: FloatShapeAt(s, p) {
      var p :| FloatShapeAt(s, p);
      FloatShapeFromPoint(s, p);
    }
  }

  /** Position `i` of a string is position `i - SignLength(s)` of its unsigned part. */
  lemma UnsignedShift(s: string)
    ensures |Unsigned(s)| == |s| - SignLength(s)
    ensures forall i :: SignLength(s) <= i < |s| ==> Unsigned(s)[i - SignLength(s)] == s[i]
  {
  }

  lemma FloatShapePoint(s: string)
    requires IsFloatShape(s)
    ensures FloatShapeAt(s, SignLength(s) + IndexOf(Unsigned(s), '.'))
  {
    UnsignedShift(s);
    DigitsBeforePoint(s);
    DigitsAfterPoint(s);
  }

  lemma DigitsBeforePoint(s: string)
    requires IsFloatShape(s)
    ensures var k := SignLength(s);
      forall i :: k <= i < k + IndexOf(Unsigned(s), '.') ==> IsDigit(s[i])
  {
    var u := Unsigned(s);
    var k := SignLength(s);
    var whole := u[..IndexOf(u, '.')];
    assert IsDigits(whole);
    forall i | k <= i < k + |whole| ensures IsDigit(s[i]) {
      assert whole[i - k] == u[i - k] == s[i];
    }
  }

  lemma DigitsAfterPoint(s: string)
    requires IsFloatShape(s)
    ensures var k := SignLength(s);
      forall i :: k + IndexOf(Unsigned(s), '.') < i < |s| ==> IsDigit(s[i])
  {
    var u := Unsigned(s);
    var k := SignLength(s);
    var q := IndexOf(u, '.');
    var frac := u[q + 1..];
    assert IsDigits(frac);
    forall i | k + q < i < |s| ensures IsDigit(s[i]) {
      assert frac[i - k - q - 1] == u[i - k] == s[i];
    }
  }

  /** With the digits before it, the point at `p` is the first one. */
  lemma PointIsFirst(s: string, p: int)
    requires FloatShapeAt(s, p)
    ensures '.' in Unsigned(s) && IndexOf(Unsigned(s), '.') == p - SignLength(s)
  {
    var u := Unsigned(s);
    var k := SignLength(s);
    UnsignedShift(s);
    assert u[p - k] == '.';
    IndexOfFirst(u, '.', p - k);
    var q := IndexOf(u, '.');
    assert s[q + k] == '.';
  }

  lemma FloatShapeFromPoint(s: string, p: int)
    requires FloatShapeAt(s, p)
    ensures IsFloatShape(s)
  {
    var u := Unsigned(s);
    var k := SignLength(s);
    PointIsFirst(s, p);
    UnsignedShift(s);
    var whole, frac := u[..p - k], u[p - k + 1..];
    forall j | 0 <= j < |whole| ensures IsDigit(whole[j]) {
      assert whole[j] == s[j + k];
    }
    forall j | 0 <= j < |frac| ensures IsDigit(frac[j]) {
      assert frac[j] == s[p + 1 + j];
    }
  }

  /** The strings `int()` converts at `compute_numeric_minmax`: integer
      shape and at most `MaxStrDigits` digits. */
  predicate IsConvertible(s: string) {
    IsIntShape(s) && |Unsigned(s)| <= MaxStrDigits
  }

  /** `int(s)` on the stripped, integer-shaped strings that reach it: the
      value of a string of at most `MaxStrDigits` digits, and no value (the
      `ValueError`) for a longer one or for anything not integer-shaped. */
  function ParseInt(s: string): (r: Option<int>)
    ensures r.Some? <==> IsConvertible(s)
  {
    if !IsConvertible(s) then None
    else if s[0] == '-' then Some(-(DigitsValue(s[1..]) as int))
    else Some(DigitsValue(s))
  }

  /** Reading back the decimal rendering of an integer gives the integer,
      for every integer `str()` itself can render. */
  lemma ParseIntRoundTrip(n: int)
    requires |NatToString(if n < 0 then -n else n)| <= MaxStrDigits
    ensures ParseInt(IntToString(n)) == Some(n)
  {
    var s := IntToString(n);
    if n < 0 {
      assert Unsigned(s) == s[1..];
    } else {
      assert Unsigned(s) == s;
    }
  }

  /** A string of more than `MaxStrDigits` digits is integer-shaped but
      gives no integer. */
  lemma LongDigitsRefused(s: string)
    requires IsDigits(s) && |s| > MaxStrDigits
    ensures IsIntShape(s) && ParseInt(s).None?
  {
    assert Unsigned(s) == s;
  }

  /** `try_parse_datetime`: the library is asked only about the stripped
      string, and only when the string is non-empty and has a digit. */
  predicate TryParseDatetime(lib: DatetimeLib, s: string) {
    if s == "" then false
    else
      var t := Strip(s);
      if !HasDigit(t) then false else lib.accepts(t)
  }

  /** The two guards of `try_parse_datetime`: the empty string and any
      string without a digit are never datetimes, whatever the library. */
  lemma DatetimeGuards(lib: DatetimeLib, s: string)
    ensures s == "" ==> !TryParseDatetime(lib, s)
    ensures !HasDigit(s) ==> !TryParseDatetime(lib, s)
  {
    if !HasDigit(s) {
      StripNoDigit(s);
    }
  }

  /** Surrounding whitespace does not matter to the datetime test, and a
      string passes it only when it holds a digit and the library accepts
      its stripped form, which it does exactly then. */
  lemma DatetimeTestStripped(lib: DatetimeLib, s: string)
    ensures TryParseDatetime(lib, s) == TryParseDatetime(lib, Strip(s))
    ensures TryParseDatetime(lib, s) <==> HasDigit(s) && lib.accepts(Strip(s))
  {
    StripIdempotent(s);
    StripKeepsDigits(s);
  }

  /** The values `infer_column_type` classifies: stripped, missing ones dropped. */
  function InferPruned(values: seq<string>): (p: seq<string>)
  {
    if values == [] then []
    else
      var t := Strip(values[0]);
      (if IsPlaceholder(t) then [] else [t]) + InferPruned(values[1..])
  }

  /** `-?\d+` or `-?\d+\.\d+`: the values a number column may hold. */
  predicate IsNumberShape(s: string) {
    IsIntShape(s) || IsFloatShape(s)
  }

  /** The datetime test with the library fixed, as a value test. */
  function DatetimeTest(lib: DatetimeLib): string -> bool {
    s => TryParseDatetime(lib, s)
  }

  /** Every value passes the test; the flag a left-to-right scan keeps. */
  predicate Every(p: seq<string>, test: string -> bool) {
    p == [] || (Every(p[..|p| - 1], test) && test(p[|p| - 1]))
  }

  lemma {:induction false} EveryMeansAll(p: seq<string>, test: string -> bool)
    ensures Every(p, test) <==> forall k :: 0 <= k < |p| ==> test(p[k])
  {
    if p != [] {
      var q := p[..|p| - 1];
      EveryMeansAll(q, test);
      assert forall k :: 0 <= k < |q| ==> q[k] == p[k];
    }
  }

  /** One more value: the flag stays set exactly when the value passes. */
  lemma EveryStep(p: seq<string>, k: nat, test: string -> bool)
    requires k < |p|
    ensures Every(p[..k + 1], test) == (Every(p[..k], test) && test(p[k]))
  {
    assert p[..k + 1][..k] == p[..k];
  }

  /** The classification rule: no evidence gives string; otherwise the first
      of integer, number, datetime that EVERY value satisfies, else string. */
  function ClassifyColumn(lib: DatetimeLib, values: seq<string>): ColumnType
  {
    var p := InferPruned(values);
    if p == [] then String
    else if Every(p, IsIntShape) then Integer
    else if Every(p, IsNumberShape) then Number
    else if Every(p, DatetimeTest(lib)) then Datetime
    else String
  }

  /** `infer_column_type`: one pass clearing three flags, proved to compute
      the classification rule. */
  method InferColumnType(lib: DatetimeLib, values: seq<string>) returns (t: ColumnType)
    ensures t == ClassifyColumn(lib, values)
  {
    var pruned := InferPruned(values);
    if pruned == [] {
      return String;
    }
    var isInt, isFloat, isDatetime := true, true, true;
    for k := 0 to |pruned|
      invariant isInt == Every(pruned[..k], IsIntShape)
      invariant isFloat == Every(pruned[..k], IsNumberShape)
      invariant isDatetime == Every(pruned[..k], DatetimeTest(lib))
    {
      var v := pruned[k];
      EveryStep(pruned, k, IsIntShape);
      EveryStep(pruned, k, IsNumberShape);
      EveryStep(pruned, k, DatetimeTest(lib));
      if !IsIntShape(v) {
        isInt := false;
      }
      if !(IsIntShape(v) || IsFloatShape(v)) {
        isFloat := false;
      }
      if !TryParseDatetime(lib, v) {
        isDatetime := false;
      }
    }
    assert pruned[..|pruned|] == pruned;
    if isInt {
      return Integer;
    }
    if isFloat {
      return Number;
    }
    if isDatetime {
      return Datetime;
    }
    return String;
  }

  /** Every value that is not a placeholder after stripping is classified. */
  lemma {:induction false} InferPrunedHas(values: seq<string>, i: nat)
    requires i < |values| && !IsPlaceholder(Strip(values[i]))
    ensures Strip(values[i]) in InferPruned(values)
  {
    if i > 0 {
      assert values[1..][i - 1] == values[i];
      InferPrunedHas(values[1..], i - 1);
      InferPrunedTail(values);
    }
  }

  /** What the later cells contribute stays among the classified values. */
  lemma InferPrunedTail(values: seq<string>)
    requires values != []
    ensures forall x :: x in InferPruned(values[1..]) ==> x in InferPruned(values)
  {
  }

  /** A column whose cells are all placeholders (after stripping) has no
      values left to classify. */
  lemma {:induction false} InferPrunedEmpty(values: seq<string>)
    requires forall i :: 0 <= i < |values| ==> IsPlaceholder(Strip(values[i]))
    ensures InferPruned(values) == []
  {
    if values != [] {
      InferPrunedEmpty(values[1..]);
    }
  }

  /** On cells that are already stripped, the classifier prunes exactly
      what the profiling loop prunes. */
  lemma {:induction false} InferPrunedStripped(raw: seq<string>)
    ensures InferPruned(StripAll(raw)) == Pruned(StripAll(raw))
  {
    if raw != [] {
      var vs := StripAll(raw);
      assert vs[1..] == StripAll(raw[1..]);
      InferPrunedStripped(raw[1..]);
      assert Strip(vs[0]) == vs[0] by { StripIdempotent(raw[0]); }
      MissingIsPlaceholder(vs[0]);
    }
  }

  /** One value that is not integer-shaped keeps the whole column from being
      integer; one that is neither shape keeps it from being number; one the
      datetime test rejects then makes it string. */
  lemma Demotion(lib: DatetimeLib, values: seq<string>, i: nat)
    requires i < |values| && !IsPlaceholder(Strip(values[i]))
    ensures !IsIntShape(Strip(values[i])) ==> ClassifyColumn(lib, values) != Integer
    ensures !IsIntShape(Strip(values[i])) && !IsFloatShape(Strip(values[i]))
      ==> ClassifyColumn(lib, values) !in {Integer, Number}
    ensures !IsIntShape(Strip(values[i])) && !IsFloatShape(Strip(values[i]))
        && !TryParseDatetime(lib, Strip(values[i]))
      ==> ClassifyColumn(lib, values) == String
  {
    InferPrunedHas(values, i);
    var p := InferPruned(values);
    EveryMeansAll(p, IsIntShape);
    EveryMeansAll(p, IsNumberShape);
    EveryMeansAll(p, DatetimeTest(lib));
  }

  /** A column with no cells, or only placeholder cells, is string. */
  lemma AllMissingIsString(lib: DatetimeLib, values: seq<string>)
    requires forall i :: 0 <= i < |values| ==> IsPlaceholder(Strip(values[i]))
    ensures ClassifyColumn(lib, values) == String
  {
    InferPrunedEmpty(values);
  }

  /** Because the datetime test rejects digitless strings, one non-missing
      value without a digit makes the column string. */
  lemma NoDigitForcesString(lib: DatetimeLib, values: seq<string>, i: nat)
    requires i < |values| && !IsPlaceholder(Strip(values[i]))
    requires !HasDigit(Strip(values[i]))
    ensures ClassifyColumn(lib, values) == String
  {
    var v := Strip(values[i]);
    if IsIntShape(v) || IsFloatShape(v) {
      ShapesHaveDigit(v);
    }
    DatetimeGuards(lib, v);
    Demotion(lib, values, i);
  }

  /** The classifier's verdicts, all-or-nothing in the fixed precedence:
      integer iff every value is integer-shaped; number iff some value is not
      but every value has one of the two numeric shapes; datetime iff some
      value has neither shape but every value passes the datetime test. */
  lemma ClassificationRule(lib: DatetimeLib, values: seq<string>)
    ensures var p := InferPruned(values);
      && (ClassifyColumn(lib, values) == Integer <==>
            p != [] && forall k :: 0 <= k < |p| ==> IsIntShape(p[k]))
      && (ClassifyColumn(lib, values) == Number <==>
            && (exists k :: 0 <= k < |p| && !IsIntShape(p[k]))
            && (forall k :: 0 <= k < |p| ==> IsNumberShape(p[k])))
      && (ClassifyColumn(lib, values) == Datetime <==>
            && (exists k :: 0 <= k < |p| && !IsNumberShape(p[k]))
            && (forall k :: 0 <= k < |p| ==> TryParseDatetime(lib, p[k])))
  {
    var p := InferPruned(values);
    assert Every(p, IsIntShape) <==> forall k :: 0 <= k < |p| ==> IsIntShape(p[k]) by {
      EveryMeansAll(p, IsIntShape);
    }
    assert Every(p, IsNumberShape) <==> forall k :: 0 <= k < |p| ==> IsNumberShape(p[k]) by {
      EveryMeansAll(p, IsNumberShape);
    }
    assert Every(p, DatetimeTest(lib)) <==> forall k :: 0 <= k < |p| ==> TryParseDatetime(lib, p[k]) by {
      EveryMeansAll(p, DatetimeTest(lib));
    }
  }
}
