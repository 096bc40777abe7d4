/** The fallback display-width measure used when no Unicode width table is installed, and padding
    of a name to a column width. */
module DisplayWidth {

  /** Terminal cells one character takes: 2 above U+007F, 1 otherwise. */
  function CharWidth(c: char): nat {
    if c as int > 127 then 2 else 1
  }

  /** `wcswidth(s)`: the sum of the widths of its characters. */
  function Width(s: string): nat {
    if s == [] then 0 else CharWidth(s[0]) + Width(s[1..])
  }

  predicate IsAscii(s: string) {
    forall i :: 0 <= i < |s| ==> s[i] as int <= 127
  }

  lemma {:induction false} WidthAppend(a: string, b: string)
    ensures Width(a + b) == Width(a) + Width(b)
  {
    if a != [] {
      assert (a + b)[1..] == a[1..] + b;
      WidthAppend(a[1..], b);
    } else {
      assert a + b == b;
    }
  }

  lemma WidthOfChar(c: char)
    ensures Width([c]) == CharWidth(c)
  {
    assert [c][1..] == [];
  }

  /** Peeling the first character off a suffix of `s`. */
  lemma WidthStep(s: string, k: nat)
    requires k < |s|
    ensures Width(s[k..]) == CharWidth(s[k]) + Width(s[k + 1..])
  {
    assert s[k..][1..] == s[k + 1..];
  }

  /** Growing a prefix of `s` by one character. */
  lemma WidthGrow(s: string, j: nat)
    requires j < |s|
    ensures Width(s[..j + 1]) == Width(s[..j]) + CharWidth(s[j])
  {
    assert s[..j + 1] == s[..j] + [s[j]];
    WidthAppend(s[..j], [s[j]]);
    WidthOfChar(s[j]);
  }

  /** Every character takes one or two cells, and a string takes exactly one cell per character
      if and only if it is pure ASCII. */
  lemma {:induction false} WidthBounds(s: string)
    ensures |s| <= Width(s) <= 2 * |s|
    ensures Width(s) == |s| <==> IsAscii(s)
  {
    if s != [] {
      WidthBounds(s[1..]);
      if IsAscii(s[1..]) && s[0] as int <= 127 {
        forall i | 0 <= i < |s| ensures s[i] as int <= 127 {
          if i > 0 { assert s[i] == s[1..][i - 1]; }
        }
      }
      if IsAscii(s) {
        forall i | 0 <= i < |s| - 1 ensures s[1..][i] as int <= 127 {
          assert s[1..][i] == s[i + 1];
        }
      }
    }
  }

  /** Dropping characters from the front never widens a string. */
  lemma WidthOfSuffixes(s: string, i: nat, j: nat)
    requires i <= j <= |s|
    ensures Width(s[j..]) <= Width(s[i..])
  {
    assert s[i..] == s[i..j] + s[j..];
    WidthAppend(s[i..j], s[j..]);
  }

  function Spaces(n: nat): (r: string)
    ensures |r| == n
  {
    seq(n, _ => ' ')
  }

  lemma {:induction false} SpacesWidth(n: nat)
    ensures Width(Spaces(n)) == n
  {
    if n > 0 {
      assert Spaces(n)[1..] == Spaces(n - 1);
      SpacesWidth(n - 1);
    }
  }

  /** `pad_to_display_width`: a name at least `target` cells wide is returned as it is; a narrower
      one gets exactly enough spaces appended to be `target` cells wide. */
  function PadToWidth(text: string, target: int): (r: string)
    ensures text <= r
    ensures forall i :: |text| <= i < |r| ==> r[i] == ' '
    ensures Width(text) >= target ==> r == text
    ensures Width(text) < target ==> Width(r) == target
  {
    var current := Width(text);
    if current >= target then text
    else
      var padding := Spaces(target - current);
      WidthAppend(text, padding);
      SpacesWidth(target - current);
      text + padding
  }
}
