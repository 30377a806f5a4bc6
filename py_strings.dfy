/** The few Python `str` operations the harvester relies on: `in`, `index`, `rfind`,
    slicing, `replace` and `str(n)` for a natural number. */
module PyStrings {
  import opened Wrappers

  /** `t` occurs in `s` starting at position `i`. */
  ghost predicate OccursAt(s: string, t: string, i: int) {
    0 <= i && i + |t| <= |s| && s[i..i + |t|] == t
  }

  /** Python's `t in s` for strings. */
  function Contains(s: string, t: string): bool
  {
    t <= s || (|s| > 0 && Contains(s[1..], t))
  }

  /** `t in s` holds exactly when `t` occurs in `s` at some position. */
  lemma {:induction false} ContainsOccurs(s: string, t: string)
    ensures Contains(s, t) <==> exists i :: OccursAt(s, t, i)
  {
    if t <= s {
      assert OccursAt(s, t, 0);
    } else if |s| == 0 {
      assert forall i :: !OccursAt(s, t, i);
    } else {
      ContainsOccurs(s[1..], t);
      forall i ensures OccursAt(s[1..], t, i) <==> OccursAt(s, t, i + 1) {
        if 0 <= i && i + |t| <= |s| - 1 {
          assert s[1..][i..i + |t|] == s[i + 1..i + 1 + |t|];
        }
      }
      assert !OccursAt(s, t, 0);
      assert forall i :: OccursAt(s, t, i) ==> i == 0 || OccursAt(s[1..], t, i - 1);
    }
  }

  /** Python's `s.index(c)`: the first position of `c`, or `None` where Python raises `ValueError`. */
  function IndexOf(s: string, c: char): (r: Option<nat>)
    ensures r.None? <==> c !in s
    ensures r.Some? ==> r.value < |s| && s[r.value] == c && forall j :: 0 <= j < r.value ==> s[j] != c
  {
    var i := FirstFrom(s, c, 0);
    if i == |s| then None else Some(i)
  }

  /** The first position at or after `from` holding `c`, or `|s|` when there is none. */
  function FirstFrom(s: string, c: char, from: nat): (r: nat)
    requires from <= |s|
    ensures from <= r <= |s|
    ensures forall j :: from <= j < r ==> s[j] != c
    ensures r < |s| ==> s[r] == c
    decreases |s| - from
  {
    if from == |s| then |s|
    else if s[from] == c then from
    else FirstFrom(s, c, from + 1)
  }

  /** Python's `s.rfind(c)`: the last position of `c`, or -1 when `c` does not occur. */
  function RFind(s: string, c: char): (r: int)
    ensures -1 <= r < |s|
    ensures r == -1 <==> c !in s
    ensures r >= 0 ==> s[r] == c && forall j :: r < j < |s| ==> s[j] != c
  {
    LastBelow(s, c, |s|)
  }

  /** The last position before `n` holding `c`, or -1 when there is none. */
  function LastBelow(s: string, c: char, n: nat): (r: int)
    requires n <= |s|
    ensures -1 <= r < n
    ensures r == -1 ==> forall j :: 0 <= j < n ==> s[j] != c
    ensures r >= 0 ==> s[r] == c && forall j :: r < j < n ==> s[j] != c
  {
    if n == 0 then -1
    else if s[n - 1] == c then n - 1
    else LastBelow(s, c, n - 1)
  }

  /** A character with none of its kind before it is where `index` finds it. */
  lemma IndexOfAt(s: string, c: char, p: nat)
    requires p < |s| && s[p] == c && forall j :: 0 <= j < p ==> s[j] != c
    ensures IndexOf(s, c) == Some(p)
  {
    assert c in s;
  }

  /** A character with none of its kind after it is where `rfind` finds it. */
  lemma RFindAt(s: string, c: char, p: nat)
    requires p < |s| && s[p] == c && forall j :: p < j < |s| ==> s[j] != c
    ensures RFind(s, c) == p
  {
    assert c in s;
  }

  /** Python's slice `s[lo:hi]` for indices already inside `0..|s|`: empty when `lo >= hi`. */
  function Slice(s: string, lo: nat, hi: nat): (r: string)
    requires lo <= |s| && hi <= |s|
    ensures lo < hi ==> r == s[lo..hi]
    ensures hi <= lo ==> r == ""
  {
    if lo < hi then s[lo..hi] else ""
  }

  /** Python's `s.replace(pat, rep)` for a non-empty `pat`: the occurrences found scanning left
      to right, without overlap, are replaced. */
  function Replace(s: string, pat: string, rep: string): string
    requires |pat| > 0
  {
    if |s| == 0 then ""
    else if pat <= s then rep + Replace(s[|pat|..], pat, rep)
    else [s[0]] + Replace(s[1..], pat, rep)
  }

  /** Text without any occurrence of the pattern is left as it is. */
  lemma {:induction false} ReplaceAbsent(s: string, pat: string, rep: string)
    requires |pat| > 0 && !Contains(s, pat)
    ensures Replace(s, pat, rep) == s
  {
    if |s| > 0 {
      assert !(pat <= s) && !Contains(s[1..], pat);
      ReplaceAbsent(s[1..], pat, rep);
    }
  }

  /** When the replacement is longer than the pattern the text never shrinks, and it grows as
      soon as the pattern occurs. */
  lemma {:induction false} ReplaceGrows(s: string, pat: string, rep: string)
    requires 0 < |pat| < |rep|
    ensures |Replace(s, pat, rep)| >= |s|
    ensures Contains(s, pat) ==> |Replace(s, pat, rep)| > |s|
  {
    if |s| > 0 {
      if pat <= s {
        ReplaceGrows(s[|pat|..], pat, rep);
      } else {
        ReplaceGrows(s[1..], pat, rep);
      }
    }
  }

  /** With a longer replacement, `replace` leaves the text unchanged exactly when the pattern
      does not occur in it. */
  lemma ReplaceUnchangedIff(s: string, pat: string, rep: string)
    requires 0 < |pat| < |rep|
    ensures Replace(s, pat, rep) == s <==> !Contains(s, pat)
  {
    ReplaceGrows(s, pat, rep);
    if !Contains(s, pat) {
      ReplaceAbsent(s, pat, rep);
    }
  }

  /** The decimal digit for `d < 10`. */
  function DigitChar(d: nat): char
    requires d < 10
  {
    ['0', '1', '2', '3', '4', '5', '6', '7', '8', '9'][d]
  }

  /** The value of a decimal digit character. */
  function DigitValue(c: char): nat
  {
    if '0' <= c <= '9' then (c as int - '0' as int) as nat else 0
  }

  /** Python's `str(n)` for a natural number: decimal digits without leading zeros. */
  function Decimal(n: nat): (r: string)
    ensures 0 < |r|
    ensures forall k :: 0 <= k < |r| ==> '0' <= r[k] <= '9'
    ensures n > 0 ==> r[0] != '0'
  {
    if n < 10 then [DigitChar(n)] else Decimal(n / 10) + [DigitChar(n % 10)]
  }

  /** Reads a string of decimal digits back as a number. */
  function ParseDecimal(s: string): nat
  {
    if |s| == 0 then 0 else 10 * ParseDecimal(s[..|s| - 1]) + DigitValue(s[|s| - 1])
  }

  /** `str(n)` is read back as `n`. */
  lemma {:induction false} DecimalRoundTrip(n: nat)
    ensures ParseDecimal(Decimal(n)) == n
  {
    var r := Decimal(n);
    if n < 10 {
      assert r[..0] == [];
      assert DigitValue(DigitChar(n)) == n;
    } else {
      DecimalRoundTrip(n / 10);
      assert r[..|r| - 1] == Decimal(n / 10);
      assert DigitValue(DigitChar(n % 10)) == n % 10;
    }
  }

  /** Different numbers have different decimal spellings. */
  lemma DecimalInjective(m: nat, n: nat)
    requires Decimal(m) == Decimal(n)
    ensures m == n
  {
    DecimalRoundTrip(m);
    DecimalRoundTrip(n);
  }
}
