/** Sheet selection and naming of the Excel-to-CSV converter: the sheet
    list a comma-separated selection names, the file name each sheet is
    written to, and the rows skipped before the header. */
module Sheets {
  import opened Wrappers
  import opened Text

  /** Why a selection is refused. */
  datatype SheetError =
    | IndexOutOfRange(index: nat)
    | NameNotFound(name: string)
    | DigitLimit(part: string)

  /** One non-blank part of a selection: all digits is a 0-based index, even
      when a sheet carries that text as its name, and `int()` refuses more
      than `MaxStrDigits` digits; anything else is a name. */
  function Resolve(names: seq<string>, part: string): (r: Result<string, SheetError>)
    ensures r.Success? ==> r.value in names
  {
    if IsDigits(part) then
      (if |part| > MaxStrDigits then Failure(DigitLimit(part))
       else if DigitsValue(part) >= |names| then Failure(IndexOutOfRange(DigitsValue(part)))
       else Success(names[DigitsValue(part)]))
    else if part in names then Success(part)
    else Failure(NameNotFound(part))
  }

  /** The parts that are not empty, in order. */
  function Kept(ps: seq<string>): (ks: seq<string>)
    ensures |ks| <= |ps|
    ensures forall k :: 0 <= k < |ks| ==> ks[k] != ""
  {
    if ps == [] then []
    else Kept(ps[..|ps| - 1]) + (if ps[|ps| - 1] == "" then [] else [ps[|ps| - 1]])
  }

  /** The parts of a split selection that are not blank, stripped, in order. */
  function NonBlank(parts: seq<string>): (ps: seq<string>)
    ensures |ps| <= |parts|
    ensures forall k :: 0 <= k < |ps| ==> ps[k] != ""
  {
    Kept(StripAll(parts))
  }

  /** Non-blank parts resolved left to right; the first part that does not
      resolve decides the error. */
  function ResolveAll(names: seq<string>, ps: seq<string>): Result<seq<string>, SheetError>
  {
    if ps == [] then Success([])
    else
      match ResolveAll(names, ps[..|ps| - 1])
      case Failure(e) => Failure(e)
      case Success(chosen) =>
        match Resolve(names, ps[|ps| - 1])
        case Failure(e) => Failure(e)
        case Success(n) => Success(chosen + [n])
  }

  /** The sheets a split selection names. */
  function Select(names: seq<string>, parts: seq<string>): Result<seq<string>, SheetError>
  {
    ResolveAll(names, NonBlank(parts))
  }

  lemma {:induction false} KeptAppend(a: seq<string>, b: seq<string>)
    ensures Kept(a + b) == Kept(a) + Kept(b)
  {
    if b != [] {
      var ab := a + b;
      assert ab[..|ab| - 1] == a + b[..|b| - 1];
      KeptAppend(a, b[..|b| - 1]);
    } else {
      assert a + b == a;
    }
  }

  lemma NonBlankAppend(a: seq<string>, b: seq<string>)
    ensures NonBlank(a + b) == NonBlank(a) + NonBlank(b)
  {
    assert StripAll(a + b) == StripAll(a) + StripAll(b);
    KeptAppend(StripAll(a), StripAll(b));
  }

  /** A single part contributes itself, stripped, unless it is blank. */
  lemma NonBlankOne(part: string)
    ensures NonBlank([part]) == if Strip(part) == "" then [] else [Strip(part)]
  {
    assert StripAll([part]) == [Strip(part)];
    assert [Strip(part)][..0] == [];
  }

  /** An error among the first parts is the error of the whole. */
  lemma {:induction false} ResolveAllFailureStays(names: seq<string>, xs: seq<string>, ys: seq<string>)
    requires ResolveAll(names, xs).Failure?
    ensures ResolveAll(names, xs + ys) == ResolveAll(names, xs)
  {
    if ys != [] {
      var all := xs + ys;
      assert all[..|all| - 1] == xs + ys[..|ys| - 1];
      ResolveAllFailureStays(names, xs, ys[..|ys| - 1]);
    } else {
      assert xs + ys == xs;
    }
  }

  lemma ResolveAllSnoc(names: seq<string>, ps: seq<string>, p: string)
    ensures ResolveAll(names, ps + [p]) ==
      match ResolveAll(names, ps)
      case Failure(e) => Failure(e)
      case Success(chosen) =>
        match Resolve(names, p)
        case Failure(e) => Failure(e)
        case Success(n) => Success(chosen + [n])
  {
    assert (ps + [p])[..|ps|] == ps;
  }

  /** One more part: it joins the kept parts unless it is empty. */
  lemma KeptStep(ps: seq<string>, i: nat)
    requires i < |ps|
    ensures Kept(ps[..i + 1]) == Kept(ps[..i]) + if ps[i] == "" then [] else [ps[i]]
  {
    assert ps[..i + 1][..i] == ps[..i];
  }

  /** The first parts failing to resolve decide the whole. */
  lemma KeptStopsAt(names: seq<string>, ps: seq<string>, i: nat)
    requires i <= |ps| && ResolveAll(names, Kept(ps[..i])).Failure?
    ensures ResolveAll(names, Kept(ps)) == ResolveAll(names, Kept(ps[..i]))
  {
    assert ps == ps[..i] + ps[i..];
    KeptAppend(ps[..i], ps[i..]);
    ResolveAllFailureStays(names, Kept(ps[..i]), Kept(ps[i..]));
  }

  /** `get_sheet_list`: no selection, or an empty one, gives every sheet in
      workbook order; otherwise the parts between commas, stripped, blank
      ones skipped, each resolved in turn, stopping at the first error. */
  method GetSheetList(names: seq<string>, spec: Option<string>) returns (r: Result<seq<string>, SheetError>)
    ensures spec.None? || spec.value == "" ==> r == Success(names)
    ensures spec.Some? && spec.value != "" ==> r == Select(names, Split(spec.value, ','))
  {
    if spec.None? || spec.value == "" {
      return Success(names);
    }
    var parts := Split(spec.value, ',');
    ghost var stripped := StripAll(parts);
    var chosen: seq<string> := [];
    for i := 0 to |parts|
      invariant ResolveAll(names, Kept(stripped[..i])) == Success(chosen)
    {
      var part := Strip(parts[i]);
      assert part == stripped[i];
      KeptStep(stripped, i);
      if part != "" {
        assert Kept(stripped[..i + 1]) == Kept(stripped[..i]) + [part];
        ResolveAllSnoc(names, Kept(stripped[..i]), part);
        var resolved := Resolve(names, part);
        if resolved.Failure? {
          KeptStopsAt(names, stripped, i + 1);
          return Failure(resolved.error);
        }
        chosen := chosen + [resolved.value];
      } else {
        assert Kept(stripped[..i + 1]) == Kept(stripped[..i]);
      }
    }
    assert stripped[..|parts|] == stripped;
    return Success(chosen);
  }

  /** Every part resolves to a sheet. */
  predicate AllResolve(names: seq<string>, ps: seq<string>) {
    forall k :: 0 <= k < |ps| ==> Resolve(names, ps[k]).Success?
  }

  /** Resolving succeeds exactly when every part resolves, and then it
      holds the resolved parts one for one, in order, repeats included. */
  lemma {:induction false} ResolveAllEach(names: seq<string>, ps: seq<string>)
    ensures ResolveAll(names, ps).Success? <==> AllResolve(names, ps)
    ensures ResolveAll(names, ps).Success? ==>
      && |ResolveAll(names, ps).value| == |ps|
      && forall k :: 0 <= k < |ps| ==> ResolveAll(names, ps).value[k] == Resolve(names, ps[k]).value
  {
    if ps != [] {
      var init := ps[..|ps| - 1];
      ResolveAllEach(names, init);
      assert forall k :: 0 <= k < |init| ==> ps[k] == init[k];
      assert AllResolve(names, ps) <==> AllResolve(names, init) && Resolve(names, ps[|ps| - 1]).Success?;
    }
  }

  /** A failed resolution names the first part that does not resolve:
      every earlier part resolves. */
  lemma {:induction false} ResolveAllFirstError(names: seq<string>, ps: seq<string>)
    requires ResolveAll(names, ps).Failure?
    ensures exists k :: && 0 <= k < |ps|
                        && Resolve(names, ps[k]) == Failure(ResolveAll(names, ps).error)
                        && (forall m :: 0 <= m < k ==> Resolve(names, ps[m]).Success?)
  {
    var init := ps[..|ps| - 1];
    assert forall m :: 0 <= m < |init| ==> ps[m] == init[m];
    if ResolveAll(names, init).Failure? {
      ResolveAllFirstError(names, init);
      var k :| 0 <= k < |init| && Resolve(names, init[k]) == Failure(ResolveAll(names, init).error)
        && forall m :: 0 <= m < k ==> Resolve(names, init[m]).Success?;
      assert Resolve(names, ps[k]) == Failure(ResolveAll(names, ps).error);
    } else {
      ResolveAllEach(names, init);
      assert Resolve(names, ps[|init|]) == Failure(ResolveAll(names, ps).error);
    }
  }

  /** A selection succeeds exactly when every non-blank part resolves, and
      then it holds the resolved parts one for one, in the selection's
      order, repeats included; otherwise the error is that of the first
      non-blank part that does not resolve. */
  lemma SelectResolvesEach(names: seq<string>, parts: seq<string>)
    ensures Select(names, parts).Success? <==> AllResolve(names, NonBlank(parts))
    ensures Select(names, parts).Success? ==>
      && |Select(names, parts).value| == |NonBlank(parts)|
      && forall k :: 0 <= k < |NonBlank(parts)| ==>
           Select(names, parts).value[k] == Resolve(names, NonBlank(parts)[k]).value
    ensures Select(names, parts).Failure? ==>
      exists k :: 0 <= k < |NonBlank(parts)|
        && Resolve(names, NonBlank(parts)[k]) == Failure(Select(names, parts).error)
        && forall m :: 0 <= m < k ==> Resolve(names, NonBlank(parts)[m]).Success?
  {
    ResolveAllEach(names, NonBlank(parts));
    if Select(names, parts).Failure? {
      ResolveAllFirstError(names, NonBlank(parts));
    }
  }

  /** A blank part, such as the one between two adjacent commas or after a
      trailing comma, selects nothing. */
  lemma BlankPartsSkipped(parts: seq<string>, i: nat)
    requires i < |parts| && Strip(parts[i]) == ""
    ensures NonBlank(parts) == NonBlank(parts[..i]) + NonBlank(parts[i + 1..])
  {
    assert parts == parts[..i] + ([parts[i]] + parts[i + 1..]);
    NonBlankAppend(parts[..i], [parts[i]] + parts[i + 1..]);
    NonBlankAppend([parts[i]], parts[i + 1..]);
    NonBlankOne(parts[i]);
  }

  /** Every selected sheet is a sheet of the workbook. */
  lemma SelectMembers(names: seq<string>, parts: seq<string>)
    requires Select(names, parts).Success?
    ensures forall k :: 0 <= k < |Select(names, parts).value| ==> Select(names, parts).value[k] in names
  {
    SelectResolvesEach(names, parts);
  }

  /** An all-digit part picks the sheet at that position when there is one,
      even if another sheet is named by those digits, and is an error
      naming the index otherwise; a part too long for `int()` is an error
      of its own. */
  lemma DigitsAreIndices(names: seq<string>, part: string)
    requires IsDigits(part)
    ensures |part| <= MaxStrDigits && DigitsValue(part) < |names| ==>
      Resolve(names, part) == Success(names[DigitsValue(part)])
    ensures |part| <= MaxStrDigits && DigitsValue(part) >= |names| ==>
      Resolve(names, part) == Failure(IndexOutOfRange(DigitsValue(part)))
    ensures |part| > MaxStrDigits ==> Resolve(names, part) == Failure(DigitLimit(part))
  {
  }

  /** Any other part is the sheet of that name, or an error naming it. */
  lemma NamesAreNames(names: seq<string>, part: string)
    requires !IsDigits(part)
    ensures part in names ==> Resolve(names, part) == Success(part)
    ensures part !in names ==> Resolve(names, part) == Failure(NameNotFound(part))
  {
  }

  /** The characters a sheet name keeps in a file name. */
  predicate IsSafe(c: char) {
    IsAlnum(c) || c == ' ' || c == '_' || c == '-'
  }

  /** The sheet name with every other character replaced by an underscore. */
  function SafeSheetName(sheet: string): (safe: string)
    ensures |safe| == |sheet|
    ensures forall i :: 0 <= i < |safe| ==> IsSafe(safe[i])
    ensures forall i :: 0 <= i < |sheet| && IsSafe(sheet[i]) ==> safe[i] == sheet[i]
    ensures forall i :: 0 <= i < |sheet| && !IsSafe(sheet[i]) ==> safe[i] == '_'
  {
    seq(|sheet|, i requires 0 <= i < |sheet| => if IsSafe(sheet[i]) then sheet[i] else '_')
  }

  /** Sanitising a sanitised name changes nothing. */
  lemma SafeSheetNameIdempotent(sheet: string)
    ensures SafeSheetName(SafeSheetName(sheet)) == SafeSheetName(sheet)
  {
  }

  /** `{base}_{safe_sheet}.csv`. */
  function OutputFileName(base: string, sheet: string): (name: string)
    ensures |name| == |base| + |sheet| + 5
    ensures name[..|base| + 1] == base + "_"
    ensures name[|name| - 4..] == ".csv"
    ensures name[|base| + 1..|name| - 4] == SafeSheetName(sheet)
  {
    base + "_" + SafeSheetName(sheet) + ".csv"
  }

  /** The part a sheet contributes holds no path separator and no dot, so
      every sheet's file lands in the output directory with the `.csv`
      extension. */
  lemma SheetPartIsPlain(sheet: string)
    ensures '/' !in SafeSheetName(sheet) && '\\' !in SafeSheetName(sheet) && '.' !in SafeSheetName(sheet)
  {
  }

  /** Sanitising is not one-to-one: two sheets that differ only where a
      character is replaced are written to the same file. */
  lemma DistinctSheetsShareFile(base: string)
    ensures "a.b" != "a_b" && OutputFileName(base, "a.b") == OutputFileName(base, "a_b")
  {
    assert SafeSheetName("a.b") == "a_b";
    assert SafeSheetName("a_b") == "a_b";
  }

  /** How a sheet is read: without a header, or with a header after
      skipping the listed 0-based rows. */
  datatype HeaderPlan = NoHeader | HeaderAfter(skipRows: seq<nat>)

  /** The 1-based header row: a positive row `h` skips the rows before it,
      so that 0-based row `h - 1` is read as the header; anything else
      reads the sheet without a header. */
  function PlanHeader(headerRow: int): (plan: HeaderPlan)
    ensures headerRow <= 0 <==> plan == NoHeader
    ensures headerRow > 0 ==> |plan.skipRows| == headerRow - 1
  {
    if headerRow > 0 then
      var headerIndex := headerRow - 1;
      HeaderAfter(seq(headerIndex, i requires 0 <= i < headerIndex => i))
    else NoHeader
  }

  /** With a positive header row `h`, the skipped rows are exactly rows
      0 to h - 2, so the first row read is row h - 1. */
  lemma HeaderRowIsFirstKept(headerRow: int)
    requires headerRow > 0
    ensures forall r: nat :: r in PlanHeader(headerRow).skipRows <==> r < headerRow - 1
    ensures headerRow - 1 !in PlanHeader(headerRow).skipRows
  {
    var skip := PlanHeader(headerRow).skipRows;
    forall r: nat ensures r in skip <==> r < headerRow - 1 {
      if r < headerRow - 1 {
        assert skip[r] == r;
      }
    }
  }
}
