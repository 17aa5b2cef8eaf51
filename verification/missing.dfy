/** The missing-value model: the fixed set of placeholder tokens and the
    per-column pruning and counting built on it. */
module Missing {
  import opened Text

  /** The tokens of `COMMON_MISSING`, case-sensitive, read as "no data". */
  const MissingTokens: seq<string> :=
    ["", "NA", "N/A", "na", "n/a", "NULL", "null", "nan", "NaN", "-999", "-999.0", "-999.000000"]

  /** `COMMON_MISSING` as the set the schema lists. */
  function CommonMissing(): (m: set<string>)
    ensures forall t :: t in m <==> IsPlaceholder(t)
  {
    PlaceholderSet(MissingTokens)
  }

  function PlaceholderSet(tokens: seq<string>): (m: set<string>)
    ensures forall t :: t in m <==> InTokens(t, tokens)
  {
    if tokens == [] then {} else {tokens[0]} + PlaceholderSet(tokens[1..])
  }

  /** Membership in a token list, unfolded one token at a time. */
  predicate InTokens(t: string, tokens: seq<string>)
  {
    tokens != [] && (tokens[0] == t || InTokens(t, tokens[1..]))
  }

  /** `t in COMMON_MISSING`. */
  predicate IsPlaceholder(t: string) {
    InTokens(t, MissingTokens)
  }

  /** Token-list membership is plain membership. */
  lemma {:induction false} InTokensIsIn(t: string, tokens: seq<string>)
    ensures InTokens(t, tokens) <==> t in tokens
  {
    if tokens != [] {
      InTokensIsIn(t, tokens[1..]);
      assert tokens == [tokens[0]] + tokens[1..];
    }
  }

  /** `list(COMMON_MISSING)` holds exactly the members of the set. */
  lemma TokensAreCommon()
    ensures forall t :: t in MissingTokens <==> t in CommonMissing()
  {
    forall t ensures t in MissingTokens <==> t in CommonMissing() {
      InTokensIsIn(t, MissingTokens);
    }
  }

  /** The twelve placeholders, spelled out. */
  lemma PlaceholderCases(t: string)
    ensures IsPlaceholder(t) <==>
      t == "" || t == "NA" || t == "N/A" || t == "na" || t == "n/a" || t == "NULL" ||
      t == "null" || t == "nan" || t == "NaN" || t == "-999" || t == "-999.0" || t == "-999.000000"
  {
    InTokensIsIn(t, MissingTokens);
  }

  /** A (stripped) cell that the profiling loop treats as missing. */
  predicate IsMissing(v: string) {
    IsPlaceholder(v) || v == ""
  }

  /** The empty string is itself a placeholder, so the profiling loop's
      extra `v == ""` test agrees with plain membership. */
  lemma MissingIsPlaceholder(v: string)
    ensures IsMissing(v) <==> IsPlaceholder(v)
  {
    assert MissingTokens[0] == "";
  }

  /** The non-missing values of a column, in their original order. */
  function Pruned(vs: seq<string>): (p: seq<string>)
    ensures |p| <= |vs|
    ensures forall k :: 0 <= k < |p| ==> !IsMissing(p[k])
  {
    if vs == [] then []
    else (if IsMissing(vs[0]) then [] else [vs[0]]) + Pruned(vs[1..])
  }

  /** Pruning keeps exactly the values that are not missing: every kept
      value comes from the column and every such value of it is kept. */
  lemma {:induction false} PrunedKeeps(vs: seq<string>)
    ensures forall k :: 0 <= k < |Pruned(vs)| ==> Pruned(vs)[k] in vs
    ensures forall v :: v in vs && !IsMissing(v) ==> v in Pruned(vs)
  {
    if vs != [] {
      PrunedKeeps(vs[1..]);
      forall v | v in vs && !IsMissing(v) ensures v in Pruned(vs) {
        if v != vs[0] {
          assert v in vs[1..];
        }
      }
    }
  }

  /** The number of missing cells of a column. */
  function MissingCount(vs: seq<string>): (n: nat)
    ensures n <= |vs|
  {
    if vs == [] then 0
    else (if IsMissing(vs[0]) then 1 else 0) + MissingCount(vs[1..])
  }

  /** Every cell is either counted as missing or kept by pruning. */
  lemma {:induction false} MissingPartition(vs: seq<string>)
    ensures MissingCount(vs) + |Pruned(vs)| == |vs|
  {
    if vs != [] {
      MissingPartition(vs[1..]);
    }
  }

  /** No missing cell at all exactly when pruning keeps everything. */
  lemma {:induction false} NothingMissing(vs: seq<string>)
    ensures MissingCount(vs) == 0 <==> Pruned(vs) == vs
  {
    MissingPartition(vs);
    if vs != [] && MissingCount(vs) == 0 {
      var rest := vs[1..];
      assert !IsMissing(vs[0]) && MissingCount(rest) == 0;
      NothingMissing(rest);
      assert Pruned(vs) == [vs[0]] + rest;
      assert vs == [vs[0]] + rest;
    }
  }

  /** Only missing cells exactly when pruning keeps nothing. */
  lemma {:induction false} AllMissing(vs: seq<string>)
    ensures Pruned(vs) == [] <==> forall i :: 0 <= i < |vs| ==> IsMissing(vs[i])
  {
    if vs != [] {
      AllMissing(vs[1..]);
      assert forall i :: 1 <= i < |vs| ==> vs[i] == vs[1..][i - 1];
    }
  }
}
