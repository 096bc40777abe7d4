/** String primitives the checker's logic relies on: lower-casing, Python's `str.rfind` for one
    character, the substring test `x in s`, suffix tests, and the decimal rendering of a counter. */
module Text {

  /** Lower-cases an ASCII capital and leaves every other character alone. */
  function LowerChar(c: char): char {
    if 'A' <= c <= 'Z' then (c as int + 32) as char else c
  }

  /** `str.lower()` on the characters whose lower case is plain ASCII; see README for the limit. */
  function Lower(s: string): (r: string)
    ensures |r| == |s|
    ensures forall i :: 0 <= i < |r| ==> !('A' <= r[i] <= 'Z')
    ensures forall i :: 0 <= i < |s| && 'A' <= s[i] <= 'Z' ==> r[i] as int == s[i] as int + 32
    ensures forall i :: 0 <= i < |s| && !('A' <= s[i] <= 'Z') ==> r[i] == s[i]
  {
    seq(|s|, i requires 0 <= i < |s| => LowerChar(s[i]))
  }

  /** Index of the last `c` in `s`, or -1 when `s` holds no `c` (`str.rfind`). */
  function RFind(s: string, c: char): (r: int)
    ensures -1 <= r < |s|
    ensures r == -1 <==> c !in s
    ensures 0 <= r ==> s[r] == c
    ensures forall k :: r < k < |s| ==> s[k] != c
  {
    if s == [] then -1
    else if s[|s| - 1] == c then |s| - 1
    else
      var r := RFind(s[..|s| - 1], c);
      assert s == s[..|s| - 1] + [s[|s| - 1]];
      r
  }

  /** RFind pinned down by a witness: the last occurrence is the one with no occurrence after it. */
  lemma RFindIs(s: string, c: char, i: nat)
    requires i < |s| && s[i] == c
    requires forall k :: i < k < |s| ==> s[k] != c
    ensures RFind(s, c) == i
  {
  }

  /** `x` occurs in `s` starting at index `i`. */
  ghost predicate OccursAt(s: string, x: string, i: int) {
    0 <= i && i + |x| <= |s| && s[i..i + |x|] == x
  }

  /** Python's substring test `x in s`. */
  predicate Contains(s: string, x: string)
    ensures x <= s ==> Contains(s, x)
    ensures Contains(s, x) ==> |x| <= |s|
    decreases |s|
  {
    x <= s || (s != [] && Contains(s[1..], x))
  }

  lemma {:induction false} ContainsMeansOccurs(s: string, x: string)
    ensures Contains(s, x) <==> exists i :: OccursAt(s, x, i)
    decreases |s|
  {
    if x <= s {
      assert OccursAt(s, x, 0);
    } else if s == [] {
    } else {
      ContainsMeansOccurs(s[1..], x);
      if exists i :: OccursAt(s[1..], x, i) {
        var i :| OccursAt(s[1..], x, i);
        assert s[i + 1..i + 1 + |x|] == s[1..][i..i + |x|];
        assert OccursAt(s, x, i + 1);
      }
      if exists i :: OccursAt(s, x, i) {
        var i :| OccursAt(s, x, i);
        if i > 0 {
          assert s[1..][i - 1..i - 1 + |x|] == s[i..i + |x|];
          assert OccursAt(s[1..], x, i - 1);
        }
      }
    }
  }

  /** Every suffix of `s` occurs in `s`. */
  lemma SuffixIsContained(s: string, k: nat)
    requires k <= |s|
    ensures Contains(s, s[k..])
  {
    ContainsMeansOccurs(s, s[k..]);
    assert OccursAt(s, s[k..], k);
  }

  /** `s` ends with `suffix` (`str.endswith`). */
  predicate EndsWith(s: string, suffix: string) {
    |suffix| <= |s| && s[|s| - |suffix|..] == suffix
  }

  predicate IsDigit(c: char) {
    '0' <= c <= '9'
  }

  function Digit(d: nat): (c: char)
    requires d < 10
    ensures IsDigit(c)
  {
    ('0' as int + d) as char
  }

  /** `str(n)` for a natural number: its decimal digits, most significant first, no leading zero. */
  function Decimal(n: nat): (r: string)
    ensures |r| >= 1
    ensures forall i :: 0 <= i < |r| ==> IsDigit(r[i])
    ensures n > 0 ==> r[0] != '0'
  {
    if n < 10 then [Digit(n)] else Decimal(n / 10) + [Digit(n % 10)]
  }

  /** Reads a string of decimal digits back as a number. */
  function ParseDecimal(s: string): nat
    requires forall i :: 0 <= i < |s| ==> IsDigit(s[i])
  {
    if s == [] then 0
    else
      var last := s[|s| - 1];
      assert IsDigit(last);
      ParseDecimal(s[..|s| - 1]) * 10 + (last as int - '0' as int)
  }

  lemma {:induction false} ParseDecimalOfDecimal(n: nat)
    ensures ParseDecimal(Decimal(n)) == n
  {
    if n >= 10 {
      var d := Decimal(n / 10);
      assert (d + [Digit(n % 10)])[..|d|] == d;
      ParseDecimalOfDecimal(n / 10);
    }
  }

  /** Distinct counters render as distinct strings. */
  lemma DecimalInjective(m: nat, n: nat)
    requires Decimal(m) == Decimal(n)
    ensures m == n
  {
    ParseDecimalOfDecimal(m);
    ParseDecimalOfDecimal(n);
  }
}
