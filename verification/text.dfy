/** The string primitives the scripts take from Python's `str`, restricted
    to ASCII: `strip()`, `isdigit()`, `isalnum()`, `lower()`, `join` and
    `split`, and the decimal rendering `str(int)`. */
module Text {

  /** Python's `str.isspace()` on ASCII: space, \t \n \v \f \r and the four
      separator controls 0x1C..0x1F. */
  predicate IsSpace(c: char) {
    c == ' ' || ('\t' <= c <= '\r') || ('\U{1C}' <= c <= '\U{1F}')
  }

  predicate IsDigit(c: char) {
    '0' <= c <= '9'
  }

  predicate IsAlnum(c: char) {
    IsDigit(c) || ('a' <= c <= 'z') || ('A' <= c <= 'Z')
  }

  /** `s.isdigit()`: non-empty and made only of digits. */
  predicate IsDigits(s: string) {
    |s| > 0 && forall i :: 0 <= i < |s| ==> IsDigit(s[i])
  }

  predicate HasDigit(s: string) {
    exists i :: 0 <= i < |s| && IsDigit(s[i])
  }

  /** CPython's default limit on the number of digits `int()` converts
      from a decimal string (and `str()` renders); longer strings raise
      `ValueError`. */
  const MaxStrDigits: nat := 4300

  /** Leading whitespace removed. */
  function StripLeft(s: string): (r: string)
    ensures |r| <= |s|
  {
    if s != [] && IsSpace(s[0]) then StripLeft(s[1..]) else s
  }

  /** What `StripLeft` leaves is a suffix of `s` that does not start with
      whitespace, and everything before it is whitespace. */
  lemma {:induction false} StripLeftSpec(s: string)
    ensures StripLeft(s) == s[|s| - |StripLeft(s)|..]
    ensures forall i :: 0 <= i < |s| - |StripLeft(s)| ==> IsSpace(s[i])
    ensures StripLeft(s) == [] || !IsSpace(StripLeft(s)[0])
  {
    if s != [] && IsSpace(s[0]) {
      StripLeftSpec(s[1..]);
      var r := StripLeft(s);
      forall i | 0 < i < |s| - |r| ensures IsSpace(s[i]) {
        assert s[i] == s[1..][i - 1];
      }
    }
  }

  /** Trailing whitespace removed. */
  function StripRight(s: string): (r: string)
    ensures |r| <= |s|
  {
    if s != [] && IsSpace(s[|s| - 1]) then StripRight(s[..|s| - 1]) else s
  }

  /** What `StripRight` leaves is a prefix of `s` that does not end with
      whitespace, and everything after it is whitespace. */
  lemma {:induction false} StripRightSpec(s: string)
    ensures StripRight(s) == s[..|StripRight(s)|]
    ensures forall i :: |StripRight(s)| <= i < |s| ==> IsSpace(s[i])
    ensures StripRight(s) == [] || !IsSpace(StripRight(s)[|StripRight(s)| - 1])
  {
    if s != [] && IsSpace(s[|s| - 1]) {
      StripRightSpec(s[..|s| - 1]);
    }
  }

  /** `s.strip()`: a slice of `s` that neither starts nor ends with
      whitespace. */
  function Strip(s: string): (r: string)
    ensures |r| <= |s|
    ensures r == [] || (!IsSpace(r[0]) && !IsSpace(r[|r| - 1]))
  {
    var l := StripLeft(s);
    var r := StripRight(l);
    StripLeftSpec(s);
    StripRightSpec(l);
    assert r == [] || r[0] == l[0];
    r
  }

  /** Every string of a sequence stripped. */
  function StripAll(raw: seq<string>): (vs: seq<string>)
    ensures |vs| == |raw|
  {
    seq(|raw|, i requires 0 <= i < |raw| => Strip(raw[i]))
  }

  /** A string without surrounding whitespace is its own strip. */
  lemma StripUnpadded(s: string)
    requires s == [] || (!IsSpace(s[0]) && !IsSpace(s[|s| - 1]))
    ensures Strip(s) == s
  {
  }

  /** Stripping twice is stripping once. */
  lemma StripIdempotent(s: string)
    ensures Strip(Strip(s)) == Strip(s)
  {
    StripUnpadded(Strip(s));
  }

  /** What `strip()` keeps: the stretch of `s` between its leading and its
      trailing whitespace, nothing else removed. */
  lemma StripTrims(s: string)
    ensures exists a, b ::
      && 0 <= a <= b <= |s| && Strip(s) == s[a..b]
      && (forall i :: 0 <= i < a ==> IsSpace(s[i]))
      && (forall i :: b <= i < |s| ==> IsSpace(s[i]))
  {
    var l := StripLeft(s);
    StripLeftSpec(s);
    StripRightSpec(l);
    var a := |s| - |l|;
    var b := a + |StripRight(l)|;
    assert Strip(s) == s[a..b];
    forall i | b <= i < |s| ensures IsSpace(s[i]) {
      assert s[i] == l[i - a];
    }
  }

  /** Stripping removes whitespace only, so it keeps every digit. */
  lemma StripKeepsDigits(s: string)
    ensures HasDigit(Strip(s)) <==> HasDigit(s)
  {
    StripTrims(s);
    var a, b :|
      && 0 <= a <= b <= |s| && Strip(s) == s[a..b]
      && (forall i :: 0 <= i < a ==> IsSpace(s[i]))
      && (forall i :: b <= i < |s| ==> IsSpace(s[i]));
    if HasDigit(s) {
      var i :| 0 <= i < |s| && IsDigit(s[i]);
      assert Strip(s)[i - a] == s[i];
    }
    if HasDigit(Strip(s)) {
      var j :| 0 <= j < |Strip(s)| && IsDigit(Strip(s)[j]);
      assert s[a + j] == Strip(s)[j];
    }
  }

  /** A string with no digit keeps having none after stripping. */
  lemma StripNoDigit(s: string)
    requires !HasDigit(s)
    ensures !HasDigit(Strip(s))
  {
    var l := StripLeft(s);
    var r := StripRight(l);
    StripLeftSpec(s);
    StripRightSpec(l);
    forall i | 0 <= i < |r| ensures !IsDigit(r[i]) {
      assert r[i] == l[i] == s[|s| - |l| + i];
    }
  }

  function LowerChar(c: char): (d: char)
    ensures 'A' <= c <= 'Z' ==> 'a' <= d <= 'z'
    ensures !('A' <= c <= 'Z') ==> d == c
  {
    if 'A' <= c <= 'Z' then (c as int - 'A' as int + 'a' as int) as char else c
  }

  /** `s.lower()` on ASCII letters. */
  function Lower(s: string): (r: string)
    ensures |r| == |s|
    ensures forall i :: 0 <= i < |s| ==> r[i] == LowerChar(s[i])
  {
    seq(|s|, i requires 0 <= i < |s| => LowerChar(s[i]))
  }

  function DigitValue(c: char): (v: nat)
    requires IsDigit(c)
    ensures v < 10
  {
    c as int - '0' as int
  }

  function DigitChar(v: nat): (c: char)
    requires v < 10
    ensures IsDigit(c) && DigitValue(c) == v
  {
    ('0' as int + v) as char
  }

  /** The value of a run of decimal digits, most significant first. */
  function DigitsValue(s: string): nat
    requires forall i :: 0 <= i < |s| ==> IsDigit(s[i])
  {
    if |s| == 0 then 0 else DigitsValue(s[..|s| - 1]) * 10 + DigitValue(s[|s| - 1])
  }

  /** `str(n)` for a natural number: the shortest decimal digit string
      whose value is `n`. */
  function NatToString(n: nat): (r: string)
    ensures IsDigits(r) && DigitsValue(r) == n
    ensures r[0] == '0' ==> r == "0"
  {
    if n < 10 then [DigitChar(n)]
    else
      var p := NatToString(n / 10);
      var r := p + [DigitChar(n % 10)];
      assert r[..|r| - 1] == p;
      r
  }

  /** `str(n)` for any integer: a minus sign before negative values. */
  function IntToString(n: int): (r: string)
    ensures n < 0 <==> (|r| > 0 && r[0] == '-')
    ensures n >= 0 ==> r == NatToString(n)
    ensures n < 0 ==> r[1..] == NatToString(-n)
  {
    if n < 0 then "-" + NatToString(-n) else NatToString(n)
  }

  /** Position of the first occurrence of `c` in `s`. */
  function IndexOf(s: string, c: char): (i: nat)
    requires c in s
    ensures i < |s| && s[i] == c && c !in s[..i]
  {
    if s[0] == c then 0 else 1 + IndexOf(s[1..], c)
  }

  /** `IndexOf` finds the first occurrence: none comes before it. */
  lemma {:induction false} IndexOfFirst(s: string, c: char, j: nat)
    requires j < |s| && s[j] == c
    ensures IndexOf(s, c) <= j
  {
    if s[0] != c {
      IndexOfFirst(s[1..], c, j - 1);
    }
  }

  /** `d.join(vals)`. */
  function Join(vals: seq<string>, d: char): string
  {
    if |vals| == 0 then ""
    else if |vals| == 1 then vals[0]
    else vals[0] + [d] + Join(vals[1..], d)
  }

  /** `s.split(d)`: the pieces between occurrences of `d`, always at least
      one and never containing `d`. */
  function Split(s: string, d: char): (parts: seq<string>)
    ensures |parts| >= 1
    ensures forall k :: 0 <= k < |parts| ==> d !in parts[k]
    decreases |s|
  {
    if d !in s then [s]
    else
      var i := IndexOf(s, d);
      [s[..i]] + Split(s[i + 1..], d)
  }

  /** Joining with a delimiter that no piece contains and splitting again
      gives back the pieces, so a joined line carries one entry per value. */
  lemma {:induction false} SplitJoin(vals: seq<string>, d: char)
    requires |vals| > 0
    requires forall k :: 0 <= k < |vals| ==> d !in vals[k]
    ensures Split(Join(vals, d), d) == vals
  {
    if |vals| > 1 {
      var s := Join(vals, d);
      assert s == vals[0] + [d] + Join(vals[1..], d);
      assert s[|vals[0]|] == d;
      assert s[..|vals[0]|] == vals[0];
      assert IndexOf(s, d) == |vals[0]|;
      assert s[|vals[0]| + 1..] == Join(vals[1..], d);
      SplitJoin(vals[1..], d);
    }
  }
}
