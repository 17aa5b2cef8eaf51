/** The missing count read as a count of positions, the way the profiling
    loop's `sum(1 for v in col_values if ...)` counts. */
module Positions {
  import opened Missing

  /** The positions of the missing cells of a column. */
  function MissingPositions(vs: seq<string>): set<int> {
    set i | 0 <= i < |vs| && IsMissing(vs[i])
  }

  /** One more cell at the end adds one to the count iff it is missing. */
  lemma {:induction false} MissingCountSnoc(vs: seq<string>, v: string)
    ensures MissingCount(vs + [v]) == MissingCount(vs) + (if IsMissing(v) then 1 else 0)
  {
    if vs != [] {
      assert (vs + [v])[1..] == vs[1..] + [v];
      MissingCountSnoc(vs[1..], v);
    }
  }

  /** One more cell at the end adds its position iff it is missing. */
  lemma PositionsSnoc(vs: seq<string>, v: string)
    ensures MissingPositions(vs + [v]) ==
      MissingPositions(vs) + (if IsMissing(v) then {|vs|} else {})
  {
    var ws := vs + [v];
    var extra := if IsMissing(v) then {|vs|} else {};
    forall i ensures i in MissingPositions(ws) <==> i in MissingPositions(vs) + extra {
      if 0 <= i < |vs| {
        assert ws[i] == vs[i];
        assert i in MissingPositions(ws) <==> IsMissing(vs[i]);
      } else if i == |vs| {
        assert i in MissingPositions(ws) <==> IsMissing(v);
        assert i !in MissingPositions(vs);
      } else {
        assert i !in MissingPositions(ws) && i !in MissingPositions(vs);
      }
    }
  }

  /** `sum(1 for v in col_values if ...)`: the missing count is the number
      of positions that hold a missing cell. */
  lemma {:induction false} MissingCountPositions(vs: seq<string>)
    ensures MissingCount(vs) == |MissingPositions(vs)|
  {
    if vs != [] {
      var n := |vs| - 1;
      var init := vs[..n];
      assert vs == init + [vs[n]];
      MissingCountSnoc(init, vs[n]);
      MissingCountPositions(init);
      PositionsSnoc(init, vs[n]);
      assert n !in MissingPositions(init);
    }
  }
}
