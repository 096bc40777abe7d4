/** Extension-preserving truncation of a name to a column width (`truncate_to_display_width`).

    A name that does not fit is rebuilt as prefix + "..." + tail + extension, where the extension
    is split off the name, the tail is the longest end of the remaining base that fits in 4 cells,
    and the prefix is filled greedily from the left of the base with what budget is left. The
    recursive functions below state each step; the method `TruncateToWidth` runs the loops of
    `truncate_to_display_width` and is proved to compute `Truncated`. */
module Truncate {
  import opened Text
  import opened DisplayWidth

  const Ellipsis: string := "..."

  /** Cells the tail may take at most. */
  const TailCells: nat := 4

  /** Longest extension that is split off, in characters. */
  const MaxExtensionLength: nat := 8

  lemma EllipsisWidth()
    ensures Width(Ellipsis) == 3
  {
    assert Ellipsis[1..][1..][1..] == [];
  }

  /** Base and extension of a name: the extension runs from the last '.' when the name has one and
      that suffix is at most 8 characters long; otherwise the whole name is the base. */
  function SplitForTruncation(text: string): (parts: (string, string))
    ensures parts.0 + parts.1 == text
    ensures parts.1 == [] <==> ('.' !in text || |text| - RFind(text, '.') > MaxExtensionLength)
    ensures parts.1 != [] ==> parts.1[0] == '.' && '.' !in parts.1[1..] && |parts.1| <= MaxExtensionLength
  {
    var dot := RFind(text, '.');
    if '.' in text && |text| - dot <= MaxExtensionLength then
      assert text[..dot] + text[dot..] == text;
      assert text[dot..][1..] == text[dot + 1..];
      (text[..dot], text[dot..])
    else (text, "")
  }

  /** Where the tail starts: scanning `base` from index `i` to the left, the characters are kept
      while the kept run stays within 4 cells. */
  function TailStart(base: string, i: nat): (k: nat)
    requires i <= |base| && Width(base[i..]) <= TailCells
    ensures k <= i
    decreases i
  {
    if i > 0 then
      WidthStep(base, i - 1);
      if Width(base[i..]) + CharWidth(base[i - 1]) <= TailCells then TailStart(base, i - 1) else i
    else i
  }

  function Tail(base: string): string {
    assert base[|base|..] == [];
    base[TailStart(base, |base|)..]
  }

  lemma {:induction false} TailStartFacts(base: string, i: nat)
    requires i <= |base| && Width(base[i..]) <= TailCells
    ensures var k := TailStart(base, i);
      Width(base[k..]) <= TailCells && (k == 0 || Width(base[k - 1..]) > TailCells)
    decreases i
  {
    if i > 0 {
      WidthStep(base, i - 1);
      if Width(base[i..]) + CharWidth(base[i - 1]) <= TailCells {
        TailStartFacts(base, i - 1);
      }
    }
  }

  /** The tail is the longest suffix of the base whose width is at most 4: a suffix fits in 4 cells
      exactly when it is no longer than the tail. */
  lemma TailIsLongestFit(base: string)
    ensures EndsWith(base, Tail(base))
    ensures Width(Tail(base)) <= TailCells
    ensures forall j :: 0 <= j <= |base| ==> (Width(base[j..]) <= TailCells <==> |base| - |Tail(base)| <= j)
  {
    assert base[|base|..] == [];
    var k := TailStart(base, |base|);
    TailStartFacts(base, |base|);
    forall j | 0 <= j <= |base|
      ensures Width(base[j..]) <= TailCells <==> k <= j
    {
      if k <= j {
        WidthOfSuffixes(base, k, j);
      } else {
        WidthOfSuffixes(base, j, k - 1);
      }
    }
  }

  /** End of the greedy prefix: from index `j`, characters of `base` are taken left to right until
      one occurs in `tail` or would push the prefix past `budget` cells. */
  function GreedyEnd(base: string, tail: string, budget: int, j: nat): (k: nat)
    requires j <= |base|
    ensures j <= k <= |base|
    decreases |base| - j
  {
    if j < |base| && base[j] !in tail && Width(base[..j]) + CharWidth(base[j]) <= budget then
      GreedyEnd(base, tail, budget, j + 1)
    else j
  }

  /** The fallback fill used when the greedy prefix came out empty: every character of `base` in
      turn is tried as the next character of the prefix; it is kept when prefix and prefix + tail
      both still occur in `base`, and the fill stops at the first such character that would not fit. */
  function Refill(base: string, tail: string, budget: int, j: nat, prefix: string): string
    requires j <= |base|
    decreases |base| - j
  {
    if j == |base| then prefix
    else
      var grown := prefix + [base[j]];
      if Contains(base, grown) && Contains(base, grown + tail) then
        if Width(grown) <= budget then Refill(base, tail, budget, j + 1, grown) else prefix
      else Refill(base, tail, budget, j + 1, prefix)
  }

  /** The prefix kept in front of the ellipsis. */
  function KeptPrefix(base: string, tail: string, budget: int): string {
    var greedy := base[..GreedyEnd(base, tail, budget, 0)];
    if greedy == [] && budget > 0 then Refill(base, tail, budget, 0, []) else greedy
  }

  /** Cells left for the prefix once tail, ellipsis and extension are accounted for. */
  function PrefixBudget(base: string, ext: string, maxWidth: int): int {
    maxWidth - (Width(Tail(base)) + Width(Ellipsis) + Width(ext))
  }

  /** The abbreviated name put together from its four parts. */
  function Assembled(prefix: string, tail: string, ext: string): string {
    prefix + Ellipsis + tail + ext
  }

  /** What a name that does not fit becomes, given its base and extension. */
  function Abbreviated(base: string, ext: string, maxWidth: int): string {
    if maxWidth <= Width(Ellipsis) + Width(ext) then Ellipsis + ext
    else Assembled(KeptPrefix(base, Tail(base), PrefixBudget(base, ext, maxWidth)), Tail(base), ext)
  }

  /** `truncate_to_display_width` as a function of its inputs. */
  function Truncated(text: string, maxWidth: int): string {
    if Width(text) <= maxWidth then text
    else
      var parts := SplitForTruncation(text);
      Abbreviated(parts.0, parts.1, maxWidth)
  }

  lemma {:induction false} GreedyEndFacts(base: string, tail: string, budget: int, j: nat)
    requires j <= |base|
    requires forall i :: 0 <= i < j ==> base[i] !in tail
    requires j == 0 || Width(base[..j]) <= budget
    ensures var k := GreedyEnd(base, tail, budget, j);
      (forall i :: 0 <= i < k ==> base[i] !in tail) &&
      (k == 0 || Width(base[..k]) <= budget) &&
      (k == |base| || base[k] in tail || Width(base[..k]) + CharWidth(base[k]) > budget)
    decreases |base| - j
  {
    if j < |base| && base[j] !in tail && Width(base[..j]) + CharWidth(base[j]) <= budget {
      WidthGrow(base, j);
      GreedyEndFacts(base, tail, budget, j + 1);
    }
  }

  lemma {:induction false} RefillFacts(base: string, tail: string, budget: int, j: nat, prefix: string)
    requires j <= |base|
    requires Contains(base, prefix + tail)
    requires prefix == [] || Width(prefix) <= budget
    ensures var p := Refill(base, tail, budget, j, prefix);
      Contains(base, p + tail) && (p == [] || Width(p) <= budget)
    decreases |base| - j
  {
    if j < |base| {
      var grown := prefix + [base[j]];
      if Contains(base, grown) && Contains(base, grown + tail) {
        if Width(grown) <= budget {
          RefillFacts(base, tail, budget, j + 1, grown);
        }
      } else {
        RefillFacts(base, tail, budget, j + 1, prefix);
      }
    }
  }

  /** What the kept prefix is: never wider than the budget (it is empty when nothing fits); when the
      greedy fill took something, a maximal run from the start of the base sharing no character with
      the tail; otherwise a run that, followed by the tail, occurs in the base. */
  lemma KeptPrefixFacts(base: string, tail: string, budget: int)
    requires Contains(base, tail)
    ensures var p := KeptPrefix(base, tail, budget);
      p == [] || Width(p) <= budget
    ensures var k := GreedyEnd(base, tail, budget, 0);
      k > 0 ==>
        KeptPrefix(base, tail, budget) == base[..k] &&
        (forall i :: 0 <= i < k ==> base[i] !in tail) &&
        (k == |base| || base[k] in tail || Width(base[..k]) + CharWidth(base[k]) > budget)
    ensures GreedyEnd(base, tail, budget, 0) == 0 ==>
      Contains(base, KeptPrefix(base, tail, budget) + tail)
  {
    GreedyEndFacts(base, tail, budget, 0);
    var k := GreedyEnd(base, tail, budget, 0);
    if k == 0 {
      assert base[..k] == [];
      if budget > 0 {
        assert [] + tail == tail;
        RefillFacts(base, tail, budget, 0, []);
      } else {
        assert KeptPrefix(base, tail, budget) + tail == tail;
      }
    }
  }

  lemma AssembledEnds(p: string, t: string, x: string)
    ensures EndsWith(Assembled(p, t, x), Ellipsis + t + x) && EndsWith(Assembled(p, t, x), x)
  {
    var r := p + Ellipsis + t + x;
    assert r[|r| - |Ellipsis + t + x|..] == Ellipsis + t + x;
    assert r[|r| - |x|..] == x;
  }

  lemma AssembledWidth(p: string, t: string, x: string)
    ensures Width(Assembled(p, t, x)) == Width(p) + Width(Ellipsis) + Width(t) + Width(x)
  {
    WidthAppend(p, Ellipsis);
    WidthAppend(p + Ellipsis, t);
    WidthAppend(p + Ellipsis + t, x);
  }

  lemma EllipsisThenExtension(x: string)
    ensures EndsWith(Ellipsis + x, x)
  {
    assert (Ellipsis + x)[|Ellipsis|..] == x;
  }

  lemma AbbreviatedUnfold(base: string, ext: string, maxWidth: int)
    requires maxWidth > Width(Ellipsis) + Width(ext)
    ensures Abbreviated(base, ext, maxWidth) ==
      Assembled(KeptPrefix(base, Tail(base), PrefixBudget(base, ext, maxWidth)), Tail(base), ext)
  {}

  /** A name that does not fit always ends with its extension. When the width cannot hold more,
      the ellipsis and the extension are all that is left; otherwise the result ends with the
      ellipsis, the tail and the extension. */
  lemma AbbreviatedShape(base: string, ext: string, maxWidth: int)
    ensures EndsWith(Abbreviated(base, ext, maxWidth), ext)
    ensures maxWidth <= 3 + Width(ext) ==> Abbreviated(base, ext, maxWidth) == Ellipsis + ext
    ensures maxWidth > 3 + Width(ext) ==> EndsWith(Abbreviated(base, ext, maxWidth), Ellipsis + Tail(base) + ext)
  {
    EllipsisWidth();
    if maxWidth > Width(Ellipsis) + Width(ext) {
      AbbreviatedLong(base, ext, maxWidth);
    } else {
      EllipsisThenExtension(ext);
    }
  }

  lemma AbbreviatedLong(base: string, ext: string, maxWidth: int)
    requires maxWidth > Width(Ellipsis) + Width(ext)
    ensures EndsWith(Abbreviated(base, ext, maxWidth), ext)
    ensures EndsWith(Abbreviated(base, ext, maxWidth), Ellipsis + Tail(base) + ext)
  {
    AbbreviatedUnfold(base, ext, maxWidth);
    AssembledEnds(KeptPrefix(base, Tail(base), PrefixBudget(base, ext, maxWidth)), Tail(base), ext);
  }

  /** A name that fits is returned unchanged; one that does not is abbreviated around its extension. */
  lemma TruncatedShape(text: string, maxWidth: int)
    ensures Width(text) <= maxWidth ==> Truncated(text, maxWidth) == text
    ensures Width(text) > maxWidth ==>
      var r := Truncated(text, maxWidth);
      var base := SplitForTruncation(text).0;
      var ext := SplitForTruncation(text).1;
      EndsWith(r, ext) &&
      (maxWidth <= 3 + Width(ext) ==> r == Ellipsis + ext) &&
      (maxWidth > 3 + Width(ext) ==> EndsWith(r, Ellipsis + Tail(base) + ext))
  {
    var parts := SplitForTruncation(text);
    AbbreviatedShape(parts.0, parts.1, maxWidth);
  }

  /** An abbreviation fits the width whenever the width leaves room for ellipsis, tail and extension. */
  lemma AbbreviatedWidth(base: string, ext: string, maxWidth: int)
    requires maxWidth >= 3 + Width(Tail(base)) + Width(ext)
    ensures Width(Abbreviated(base, ext, maxWidth)) <= maxWidth
  {
    EllipsisWidth();
    if maxWidth <= 3 + Width(ext) {
      WidthAppend(Ellipsis, ext);
    } else {
      AbbreviatedWidthLong(base, ext, maxWidth);
    }
  }

  lemma KeptPrefixWidth(base: string, budget: int)
    requires budget >= 0
    ensures Width(KeptPrefix(base, Tail(base), budget)) <= budget
  {
    var tail := Tail(base);
    TailIsLongestFit(base);
    SuffixIsContained(base, |base| - |tail|);
    KeptPrefixFacts(base, tail, budget);
  }

  lemma AbbreviatedWidthLong(base: string, ext: string, maxWidth: int)
    requires maxWidth >= 3 + Width(Tail(base)) + Width(ext)
    requires maxWidth > Width(Ellipsis) + Width(ext)
    requires Width(Ellipsis) == 3
    ensures Width(Abbreviated(base, ext, maxWidth)) <= maxWidth
  {
    var budget := PrefixBudget(base, ext, maxWidth);
    AbbreviatedUnfold(base, ext, maxWidth);
    KeptPrefixWidth(base, budget);
    AssembledWidth(KeptPrefix(base, Tail(base), budget), Tail(base), ext);
  }

  /** A truncated name fits the width whenever the width leaves room for ellipsis, tail and extension. */
  lemma TruncatedWidth(text: string, maxWidth: int)
    requires maxWidth >= 3 + Width(Tail(SplitForTruncation(text).0)) + Width(SplitForTruncation(text).1)
    ensures Width(Truncated(text, maxWidth)) <= maxWidth
  {
    var parts := SplitForTruncation(text);
    if Width(text) > maxWidth {
      AbbreviatedWidth(parts.0, parts.1, maxWidth);
    }
  }

  lemma TruncatedWidthWithRoom(text: string, maxWidth: int)
    requires maxWidth >= 7 + Width(SplitForTruncation(text).1)
    ensures Width(Truncated(text, maxWidth)) <= maxWidth
  {
    TailIsLongestFit(SplitForTruncation(text).0);
    TruncatedWidth(text, maxWidth);
  }

  /** The room for the tail in `TruncatedWidth` is needed: the tail is kept whatever the width, so
      a width above 3 + width(extension) but below 3 + width(tail) + width(extension) is overrun. */
  lemma TruncatedOverflowsWithoutRoomForTail(text: string, maxWidth: int)
    requires Width(text) > maxWidth
    requires 3 + Width(SplitForTruncation(text).1) < maxWidth
    requires maxWidth < 3 + Width(Tail(SplitForTruncation(text).0)) + Width(SplitForTruncation(text).1)
    ensures Width(Truncated(text, maxWidth)) > maxWidth
  {
    var r := Truncated(text, maxWidth);
    var parts := SplitForTruncation(text);
    var end := Ellipsis + Tail(parts.0) + parts.1;
    TruncatedShape(text, maxWidth);
    assert r == r[..|r| - |end|] + end;
    WidthAppend(r[..|r| - |end|], end);
    WidthAppend(Ellipsis + Tail(parts.0), parts.1);
    WidthAppend(Ellipsis, Tail(parts.0));
    EllipsisWidth();
  }

  /** "abcdefgh" in 5 cells: the tail "efgh" is kept with the ellipsis, 7 cells in all. */
  lemma TruncatedOverflowExample()
    ensures Truncated("abcdefgh", 5) == "...efgh"
    ensures Width(Truncated("abcdefgh", 5)) == 7
  {
    var text := "abcdefgh";
    SplitOfExample();
    TailOfExample();
    assert Width(text) == 8 by { WidthBounds(text); }
    assert Truncated(text, 5) == Abbreviated(text, "", 5);
    EllipsisWidth();
    assert Width("") == 0;
    AbbreviatedUnfold(text, "", 5);
    BudgetOfExample();
    SpelledExample();
    assert Width("...efgh") == 7 by { WidthBounds("...efgh"); }
  }

  lemma SpelledExample()
    ensures Assembled([], "efgh", "") == "...efgh"
  {
    assert Ellipsis == "...";
  }

  /** The budget is negative, so no prefix is kept. */
  lemma BudgetOfExample()
    requires Tail("abcdefgh") == "efgh"
    ensures PrefixBudget("abcdefgh", "", 5) == -2
    ensures KeptPrefix("abcdefgh", "efgh", -2) == []
  {
    var text := "abcdefgh";
    EllipsisWidth();
    assert Width("efgh") == 4 by { WidthBounds("efgh"); }
    assert Width("") == 0;
    assert text[..0] == [];
    assert GreedyEnd(text, "efgh", -2, 0) == 0;
  }

  lemma SplitOfExample()
    ensures SplitForTruncation("abcdefgh") == ("abcdefgh", "")
  {
    assert '.' !in "abcdefgh";
  }

  lemma TailOfExample()
    ensures Tail("abcdefgh") == "efgh"
  {
    var base := "abcdefgh";
    TailIsLongestFit(base);
    assert Width(base[4..]) == 4 by { WidthBounds(base[4..]); }
    assert Width(base[3..]) == 5 by { WidthBounds(base[3..]); }
    assert base[4..] == "efgh";
  }

  /** Every name fits a column of 23 cells or more, since an extension is at most 8 characters. */
  lemma TruncatedFitsColumn(text: string, maxWidth: int)
    requires maxWidth >= 7 + 2 * MaxExtensionLength
    ensures Width(Truncated(text, maxWidth)) <= maxWidth
  {
    WidthBounds(SplitForTruncation(text).1);
    TruncatedWidthWithRoom(text, maxWidth);
  }

  /** The tail loop: characters of `base` from the right, while they fit in 4 cells. */
  method CollectTail(base: string) returns (tail: string, tailWidth: nat)
    ensures tail == Tail(base) && tailWidth == Width(tail)
  {
    tail, tailWidth := "", 0;
    var i := |base|;
    assert base[i..] == [];
    ghost var start := TailStart(base, i);
    while i > 0
      invariant 0 <= i <= |base|
      invariant tail == base[i..] && tailWidth == Width(tail) <= TailCells
      invariant TailStart(base, i) == start
    {
      var c := base[i - 1];
      var cw := CharWidth(c);
      WidthStep(base, i - 1);
      if tailWidth + cw > TailCells {
        break;
      }
      tail := [c] + tail;
      tailWidth := tailWidth + cw;
      i := i - 1;
    }
  }

  /** The prefix loop: characters of `base` from the left, until one occurs in the tail or would
      not fit in the budget. */
  method CollectGreedyPrefix(base: string, tail: string, budget: int) returns (prefix: string)
    ensures prefix == base[..GreedyEnd(base, tail, budget, 0)]
  {
    prefix := "";
    var j := 0;
    ghost var end := GreedyEnd(base, tail, budget, 0);
    while j < |base|
      invariant 0 <= j <= |base| && prefix == base[..j]
      invariant GreedyEnd(base, tail, budget, j) == end
    {
      var c := base[j];
      if c in tail {
        break;
      }
      var cw := CharWidth(c);
      if Width(prefix) + cw > budget {
        break;
      }
      prefix := prefix + [c];
      j := j + 1;
    }
  }

  /** The fallback loop, run when the prefix loop took nothing but budget is left. */
  method CollectRefill(base: string, tail: string, budget: int) returns (prefix: string)
    ensures prefix == Refill(base, tail, budget, 0, [])
  {
    prefix := "";
    var k := 0;
    ghost var result := Refill(base, tail, budget, 0, []);
    while k < |base|
      invariant 0 <= k <= |base|
      invariant Refill(base, tail, budget, k, prefix) == result
    {
      var grown := prefix + [base[k]];
      if Contains(base, grown) && Contains(base, grown + tail) {
        if Width(grown) <= budget {
          prefix := grown;
        } else {
          break;
        }
      }
      k := k + 1;
    }
  }

  /** `truncate_to_display_width`. */
  method TruncateToWidth(text: string, maxWidth: int) returns (r: string)
    ensures r == Truncated(text, maxWidth)
  {
    if Width(text) <= maxWidth {
      return text;
    }
    var parts := SplitForTruncation(text);
    var base, ext := parts.0, parts.1;
    var extWidth := Width(ext);
    var ellipsisWidth := Width(Ellipsis);
    if maxWidth <= ellipsisWidth + extWidth {
      return Ellipsis + ext;
    }
    var tail, tailWidth := CollectTail(base);
    var budget := maxWidth - (tailWidth + ellipsisWidth + extWidth);
    var prefix := CollectGreedyPrefix(base, tail, budget);
    if prefix == [] && budget > 0 {
      prefix := CollectRefill(base, tail, budget);
    }
    r := prefix + Ellipsis + tail + ext;
  }
}
