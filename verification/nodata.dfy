/** The nodata placeholder selector: a table-wide tally of placeholder
    cells and the choice of the most frequent one. */
module Nodata {
  import opened Wrappers
  import opened Missing

  /** The cells of all rows in scan order, row by row. */
  function Flatten(rows: seq<seq<string>>): (cells: seq<string>)
  {
    if rows == [] then [] else Flatten(rows[..|rows| - 1]) + rows[|rows| - 1]
  }

  /** How often `t` occurs among the cells. */
  function Count(cells: seq<string>, t: string): nat {
    multiset(cells)[t]
  }

  /** Position `q` holds the placeholder to choose: no placeholder occurs
      more often, and every placeholder met earlier in the scan occurs
      strictly less often. */
  predicate ChosenAt(cells: seq<string>, q: int) {
    && 0 <= q < |cells|
    && IsPlaceholder(cells[q])
    && (forall p :: 0 <= p < |cells| && IsPlaceholder(cells[p]) ==>
          Count(cells, cells[p]) <= Count(cells, cells[q]))
    && (forall p :: 0 <= p < q && IsPlaceholder(cells[p]) ==>
          Count(cells, cells[p]) < Count(cells, cells[q]))
  }

  /** What the tally dictionary holds after scanning `seen`: its keys in
      insertion order, which is the order of first occurrence; each key's
      count; and, for the proof, where each key first occurred. */
  ghost predicate TallyInv(seen: seq<string>, keys: seq<string>, counts: map<string, nat>, first: map<string, nat>)
  {
    && (forall k :: k in counts <==> k in keys)
    && (forall i :: 0 <= i < |keys| ==>
          && IsPlaceholder(keys[i])
          && keys[i] in counts && counts[keys[i]] == Count(seen, keys[i])
          && keys[i] in first && first[keys[i]] < |seen| && seen[first[keys[i]]] == keys[i])
    && (forall i, j :: 0 <= i < j < |keys| ==> first[keys[i]] < first[keys[j]])
    && (forall p :: 0 <= p < |seen| && IsPlaceholder(seen[p]) ==>
          seen[p] in counts && seen[p] in first && first[seen[p]] <= p)
  }

  /** One more cell adds one to its own count and leaves the others. */
  lemma CountSnoc(seen: seq<string>, c: string)
    ensures Count(seen + [c], c) == Count(seen, c) + 1
    ensures forall t :: t != c ==> Count(seen + [c], t) == Count(seen, t)
  {
    assert multiset(seen + [c]) == multiset(seen) + multiset{c};
  }

  /** A cell that is not a placeholder leaves the dictionary as it is. */
  lemma TallySkip(seen: seq<string>, keys: seq<string>, counts: map<string, nat>, first: map<string, nat>,
                  c: string)
    requires TallyInv(seen, keys, counts, first) && !IsPlaceholder(c)
    ensures TallyInv(seen + [c], keys, counts, first)
  {
    var s := seen + [c];
    assert forall p :: 0 <= p < |seen| ==> s[p] == seen[p];
    CountSnoc(seen, c);
  }

  /** A placeholder seen before: its count goes up by one. */
  lemma TallyAgain(seen: seq<string>, keys: seq<string>, counts: map<string, nat>, first: map<string, nat>,
                   c: string)
    requires TallyInv(seen, keys, counts, first) && IsPlaceholder(c) && c in counts
    ensures TallyInv(seen + [c], keys, counts[c := counts[c] + 1], first)
  {
    var s := seen + [c];
    assert forall p :: 0 <= p < |seen| ==> s[p] == seen[p];
    CountSnoc(seen, c);
  }

  /** A placeholder met for the first time: it becomes the last key, with
      count one, first seen here. */
  lemma TallyNew(seen: seq<string>, keys: seq<string>, counts: map<string, nat>, first: map<string, nat>,
                 c: string)
    requires TallyInv(seen, keys, counts, first) && IsPlaceholder(c) && c !in counts
    ensures TallyInv(seen + [c], keys + [c], counts[c := 1], first[c := |seen|])
  {
    var s := seen + [c];
    assert forall p :: 0 <= p < |seen| ==> s[p] == seen[p];
    CountSnoc(seen, c);
    assert c !in seen;
    assert Count(seen, c) == 0;
    var keys', first' := keys + [c], first[c := |seen|];
    forall i, j | 0 <= i < j < |keys'| ensures first'[keys'[i]] < first'[keys'[j]] {
      if j == |keys| {
        assert keys'[i] == keys[i] && keys[i] != c;
      } else {
        assert keys'[i] == keys[i] && keys'[j] == keys[j];
        assert keys[i] != c && keys[j] != c;
      }
    }
  }

  /** The tally loop: count every raw cell that is a placeholder, row by
      row. */
  method Tally(rows: seq<seq<string>>)
    returns (keys: seq<string>, counts: map<string, nat>, ghost first: map<string, nat>)
    ensures TallyInv(Flatten(rows), keys, counts, first)
  {
    keys, counts, first := [], map[], map[];
    ghost var seen: seq<string> := [];
    for i := 0 to |rows|
      invariant seen == Flatten(rows[..i])
      invariant TallyInv(seen, keys, counts, first)
    {
      keys, counts, first := TallyRow(rows[i], keys, counts, first, seen);
      assert rows[..i + 1][..i] == rows[..i];
      seen := seen + rows[i];
    }
    assert rows[..|rows|] == rows;
  }

  /** The inner loop of the tally: the cells of one row. */
  method TallyRow(r: seq<string>, keys0: seq<string>, counts0: map<string, nat>,
                  ghost first0: map<string, nat>, ghost seen0: seq<string>)
    returns (keys: seq<string>, counts: map<string, nat>, ghost first: map<string, nat>)
    requires TallyInv(seen0, keys0, counts0, first0)
    ensures TallyInv(seen0 + r, keys, counts, first)
  {
    keys, counts, first := keys0, counts0, first0;
    ghost var seen := seen0;
    for j := 0 to |r|
      invariant seen == seen0 + r[..j]
      invariant TallyInv(seen, keys, counts, first)
    {
      keys, counts, first := TallyCell(r[j], keys, counts, first, seen);
      assert r[..j + 1] == r[..j] + [r[j]];
      seen := seen + [r[j]];
    }
    assert r[..|r|] == r;
  }

  /** One cell of the tally: a placeholder's count goes up by one, and a
      placeholder met for the first time becomes the last key. */
  method TallyCell(c: string, keys0: seq<string>, counts0: map<string, nat>,
                   ghost first0: map<string, nat>, ghost seen: seq<string>)
    returns (keys: seq<string>, counts: map<string, nat>, ghost first: map<string, nat>)
    requires TallyInv(seen, keys0, counts0, first0)
    ensures TallyInv(seen + [c], keys, counts, first)
    ensures !IsPlaceholder(c) ==> keys == keys0 && counts == counts0
    ensures IsPlaceholder(c) ==> counts == counts0[c := if c in counts0 then counts0[c] + 1 else 1]
    ensures IsPlaceholder(c) ==> keys == if c in counts0 then keys0 else keys0 + [c]
  {
    keys, counts, first := keys0, counts0, first0;
    if IsPlaceholder(c) {
      if c in counts {
        TallyAgain(seen, keys, counts, first, c);
        counts := counts[c := counts[c] + 1];
      } else {
        TallyNew(seen, keys, counts, first, c);
        keys := keys + [c];
        counts := counts[c := 1];
        first := first[c := |seen|];
      }
    } else {
      TallySkip(seen, keys, counts, first, c);
    }
  }

  /** `max(items, key=count)`: the first key with the greatest count. */
  method PickMax(keys: seq<string>, counts: map<string, nat>) returns (b: nat)
    requires |keys| > 0
    requires forall i :: 0 <= i < |keys| ==> keys[i] in counts
    ensures b < |keys|
    ensures forall i :: 0 <= i < |keys| ==> counts[keys[i]] <= counts[keys[b]]
    ensures forall i :: 0 <= i < b ==> counts[keys[i]] < counts[keys[b]]
  {
    b := 0;
    for i := 1 to |keys|
      invariant b < i
      invariant forall m :: 0 <= m < i ==> counts[keys[m]] <= counts[keys[b]]
      invariant forall m :: 0 <= m < b ==> counts[keys[m]] < counts[keys[b]]
    {
      if counts[keys[i]] > counts[keys[b]] {
        b := i;
      }
    }
  }

  /** The nodata value: the caller's override verbatim; otherwise the most
      frequent placeholder among the raw cells, ties going to the one met
      first; the empty string when no cell is a placeholder. */
  method SelectNodata(rows: seq<seq<string>>, override: Option<string>) returns (nodata: string)
    ensures override.Some? ==> nodata == override.value
    ensures override.None? && (forall p :: 0 <= p < |Flatten(rows)| ==> !IsPlaceholder(Flatten(rows)[p]))
      ==> nodata == ""
    ensures override.None? && (exists p :: 0 <= p < |Flatten(rows)| && IsPlaceholder(Flatten(rows)[p]))
      ==> exists q :: ChosenAt(Flatten(rows), q) && nodata == Flatten(rows)[q]
  {
    if override.Some? {
      return override.value;
    }
    ghost var cells := Flatten(rows);
    var keys, counts, first := Tally(rows);
    if |keys| == 0 {
      assert forall p :: 0 <= p < |cells| ==> !IsPlaceholder(cells[p]);
      return "";
    }
    var b := PickMax(keys, counts);
    nodata := keys[b];
    ghost var q := first[nodata];
    forall p | 0 <= p < q && IsPlaceholder(cells[p])
      ensures Count(cells, cells[p]) < Count(cells, cells[q])
    {
      assert cells[p] in keys;
      var m :| 0 <= m < |keys| && keys[m] == cells[p];
      assert m < b;
    }
    forall p | 0 <= p < |cells| && IsPlaceholder(cells[p])
      ensures Count(cells, cells[p]) <= Count(cells, cells[q])
    {
      assert cells[p] in keys;
    }
    assert ChosenAt(cells, q);
  }

  /** There is only one position to choose, so the choice is determined. */
  lemma ChosenUnique(cells: seq<string>, q1: int, q2: int)
    requires ChosenAt(cells, q1) && ChosenAt(cells, q2)
    ensures q1 == q2
  {
  }

  /** Three "NA" cells and one "-999" cell: "NA" is chosen. */
  lemma ChosenExample(q: int)
    requires ChosenAt(["NA", "-999", "NA", "NA"], q)
    ensures ["NA", "-999", "NA", "NA"][q] == "NA"
  {
    var cells := ["NA", "-999", "NA", "NA"];
    if q == 1 {
      assert IsPlaceholder(cells[0]) by { PlaceholderCases("NA"); }
      assert false;
    }
  }
}
