/** The report `print_table` prints: rows ordered by lower-cased name, each name and suggestion in
    a fixed-width column, and the closing tally of correct, wrong and unknown verdicts. */
module Report {
  import opened Text
  import opened DisplayWidth
  import opened Truncate
  import opened Classifier

  /** Python's string order: code point by code point, a proper prefix first. */
  predicate LessEq(a: string, b: string)
    decreases |a|
  {
    a == [] || (b != [] && (a[0] < b[0] || (a[0] == b[0] && LessEq(a[1..], b[1..]))))
  }

  lemma {:induction false} LessEqReflexive(a: string)
    ensures LessEq(a, a)
  {
    if a != [] {
      LessEqReflexive(a[1..]);
    }
  }

  lemma {:induction false} LessEqTotal(a: string, b: string)
    ensures LessEq(a, b) || LessEq(b, a)
  {
    if a != [] && b != [] && a[0] == b[0] {
      LessEqTotal(a[1..], b[1..]);
    }
  }

  lemma {:induction false} LessEqAntisymmetric(a: string, b: string)
    requires LessEq(a, b) && LessEq(b, a)
    ensures a == b
  {
    if a != [] && b != [] {
      LessEqAntisymmetric(a[1..], b[1..]);
      assert a == [a[0]] + a[1..] && b == [b[0]] + b[1..];
    }
  }

  lemma {:induction false} LessEqTransitive(a: string, b: string, c: string)
    requires LessEq(a, b) && LessEq(b, c)
    ensures LessEq(a, c)
  {
    if a != [] && a[0] == b[0] && b[0] == c[0] {
      LessEqTransitive(a[1..], b[1..], c[1..]);
    }
  }

  /** The sort key of a row: its name in lower case. */
  function Key(v: Verdict): string {
    Lower(v.name)
  }

  predicate SortedByKey(s: seq<Verdict>) {
    forall i :: 0 < i < |s| ==> LessEq(Key(s[i - 1]), Key(s[i]))
  }

  /** Puts `x` in front of the first row whose key is not smaller than its own. */
  function Insert(x: Verdict, s: seq<Verdict>): seq<Verdict> {
    if s == [] || LessEq(Key(x), Key(s[0])) then [x] + s
    else [s[0]] + Insert(x, s[1..])
  }

  /** `sorted(results, key=lambda x: x[0].lower())`, as an insertion sort from the back. */
  function SortByName(s: seq<Verdict>): seq<Verdict> {
    if s == [] then [] else Insert(s[0], SortByName(s[1..]))
  }

  lemma {:induction false} InsertFront(x: Verdict, s: seq<Verdict>)
    ensures |Insert(x, s)| == |s| + 1
    ensures Insert(x, s)[0] == x || (s != [] && Insert(x, s)[0] == s[0])
  {
    if s != [] && !LessEq(Key(x), Key(s[0])) {
      InsertFront(x, s[1..]);
    }
  }

  lemma {:induction false} InsertSorted(x: Verdict, s: seq<Verdict>)
    requires SortedByKey(s)
    ensures SortedByKey(Insert(x, s))
  {
    if s != [] && !LessEq(Key(x), Key(s[0])) {
      LessEqTotal(Key(x), Key(s[0]));
      InsertSorted(x, s[1..]);
      InsertFront(x, s[1..]);
      var r := Insert(x, s[1..]);
      if s[1..] != [] {
        assert s[1..][0] == s[1];
      }
      assert Insert(x, s) == [s[0]] + r;
      forall i | 0 < i < |r| + 1
        ensures LessEq(Key(([s[0]] + r)[i - 1]), Key(([s[0]] + r)[i]))
      {
        if i > 1 {
          assert ([s[0]] + r)[i - 1] == r[i - 2] && ([s[0]] + r)[i] == r[i - 1];
        }
      }
    }
  }

  lemma {:induction false} InsertPermutes(x: Verdict, s: seq<Verdict>)
    ensures multiset(Insert(x, s)) == multiset(s) + multiset{x}
  {
    if s != [] && !LessEq(Key(x), Key(s[0])) {
      InsertPermutes(x, s[1..]);
      assert s == [s[0]] + s[1..];
    }
  }

  /** The rows whose key is `k`, in order. */
  function WithKey(k: string, s: seq<Verdict>): seq<Verdict> {
    if s == [] then []
    else if Key(s[0]) == k then [s[0]] + WithKey(k, s[1..])
    else WithKey(k, s[1..])
  }

  lemma {:induction false} InsertWithKey(k: string, x: Verdict, s: seq<Verdict>)
    ensures WithKey(k, Insert(x, s)) == if Key(x) == k then [x] + WithKey(k, s) else WithKey(k, s)
  {
    if s == [] || LessEq(Key(x), Key(s[0])) {
      assert ([x] + s)[1..] == s;
    } else {
      InsertWithKey(k, x, s[1..]);
      assert ([s[0]] + Insert(x, s[1..]))[1..] == Insert(x, s[1..]);
      if Key(x) == k {
        LessEqReflexive(k);
      }
    }
  }

  /** The rows come out ordered by lower-cased name and are the same rows. */
  lemma {:induction false} SortByNameSortsAndPermutes(s: seq<Verdict>)
    ensures SortedByKey(SortByName(s))
    ensures multiset(SortByName(s)) == multiset(s)
  {
    if s != [] {
      SortByNameSortsAndPermutes(s[1..]);
      InsertSorted(s[0], SortByName(s[1..]));
      InsertPermutes(s[0], SortByName(s[1..]));
      assert s == [s[0]] + s[1..];
    }
  }

  /** The sort is stable: rows whose names differ only in letter case keep their order. */
  lemma {:induction false} SortByNameIsStable(k: string, s: seq<Verdict>)
    ensures WithKey(k, SortByName(s)) == WithKey(k, s)
  {
    if s != [] {
      SortByNameIsStable(k, s[1..]);
      InsertWithKey(k, s[0], SortByName(s[1..]));
    }
  }

  /** Number of rows whose status is `mark`. */
  function CountStatus(s: seq<Verdict>, mark: string): nat {
    if s == [] then 0 else (if s[0].status == mark then 1 else 0) + CountStatus(s[1..], mark)
  }

  /** Number of rows whose status is neither the correct nor the wrong mark. */
  function CountOther(s: seq<Verdict>): nat {
    if s == [] then 0
    else (if s[0].status != OkMark && s[0].status != BadMark then 1 else 0) + CountOther(s[1..])
  }

  /** The closing line's numbers. */
  datatype Tally = Tally(total: nat, ok: nat, bad: nat, unknown: int)

  lemma CountStatusAppend(a: seq<Verdict>, b: seq<Verdict>, mark: string)
    ensures CountStatus(a + b, mark) == CountStatus(a, mark) + CountStatus(b, mark)
  {
    if a != [] {
      assert (a + b)[1..] == a[1..] + b;
    } else {
      assert a + b == b;
    }
  }

  /** The two sums of `print_table`, as one loop over the rows; `unk` is what is left over. */
  method Summarize(results: seq<Verdict>) returns (t: Tally)
    ensures t.total == |results|
    ensures t.ok == CountStatus(results, OkMark) && t.bad == CountStatus(results, BadMark)
    ensures t.unknown == t.total - t.ok - t.bad
  {
    var ok, bad := 0, 0;
    for i := 0 to |results|
      invariant ok == CountStatus(results[..i], OkMark)
      invariant bad == CountStatus(results[..i], BadMark)
    {
      assert results[..i + 1] == results[..i] + [results[i]];
      CountStatusAppend(results[..i], [results[i]], OkMark);
      CountStatusAppend(results[..i], [results[i]], BadMark);
      if results[i].status == OkMark {
        ok := ok + 1;
      } else if results[i].status == BadMark {
        bad := bad + 1;
      }
    }
    assert results[..|results|] == results;
    t := Tally(|results|, ok, bad, |results| - ok - bad);
  }

  /** The remainder counts exactly the rows with neither mark, so it is never negative. */
  lemma {:induction false} UnknownIsRemainder(s: seq<Verdict>)
    ensures |s| - CountStatus(s, OkMark) - CountStatus(s, BadMark) == CountOther(s)
  {
    if s != [] {
      UnknownIsRemainder(s[1..]);
    }
  }

  /** Rows the classifier produced carry one of the three marks, so the remainder is the number of
      unknown verdicts. */
  lemma {:induction false} UnknownCountsUnknownMarks(s: seq<Verdict>)
    requires forall i :: 0 <= i < |s| ==> s[i].status in {OkMark, BadMark, UnknownMark}
    ensures CountOther(s) == CountStatus(s, UnknownMark)
  {
    if s != [] {
      assert forall i :: 0 <= i < |s[1..]| ==> s[1..][i] == s[i + 1];
      UnknownCountsUnknownMarks(s[1..]);
    }
  }

  lemma {:induction false} InsertCount(x: Verdict, s: seq<Verdict>, mark: string)
    ensures CountStatus(Insert(x, s), mark) == CountStatus([x], mark) + CountStatus(s, mark)
  {
    if s != [] && !LessEq(Key(x), Key(s[0])) {
      InsertCount(x, s[1..], mark);
      assert ([s[0]] + Insert(x, s[1..]))[1..] == Insert(x, s[1..]);
    } else {
      assert ([x] + s)[1..] == s;
    }
  }

  /** The tally is taken over the unsorted results; the printed rows give the same numbers. */
  lemma {:induction false} SortKeepsCounts(s: seq<Verdict>, mark: string)
    ensures CountStatus(SortByName(s), mark) == CountStatus(s, mark)
  {
    if s != [] {
      SortKeepsCounts(s[1..], mark);
      InsertCount(s[0], SortByName(s[1..]), mark);
    }
  }

  const NameWidth: nat := 48
  const SuggestionWidth: nat := 10

  /** The name column: the name truncated to 48 cells and padded to 48. Every name, however
      long, fills the column exactly, so the columns after it line up. */
  function NameCell(name: string): (cell: string)
    ensures Width(cell) == NameWidth
    ensures Width(name) <= NameWidth ==> cell == PadToWidth(name, NameWidth)
  {
    var shortened := Truncated(name, NameWidth);
    TruncatedFitsColumn(name, NameWidth);
    TruncatedShape(name, NameWidth);
    PadToWidth(shortened, NameWidth)
  }

  /** The suggestion column: the suggestion padded to 10 cells. */
  function SuggestionCell(suggestion: string): (cell: string)
    ensures suggestion <= cell
    ensures Width(suggestion) <= SuggestionWidth ==> Width(cell) == SuggestionWidth
  {
    PadToWidth(suggestion, SuggestionWidth)
  }

  /** The suggestions the classifier makes all fit their column. */
  lemma SuggestionCellWidth(fileName: string, file: Option<seq<byte>>, displayName: string)
    ensures Width(SuggestionCell(CheckRom(fileName, file, displayName).suggestion)) == SuggestionWidth
  {
    var s := CheckRom(fileName, file, displayName).suggestion;
    WidthBounds(s);
  }
}
