/** Extraction of ROM entries from a zip archive into the archive's own work directory
    (`extract_gb_gbc_from_zip`): choosing a collision-free name for each entry, and where each
    entry's bytes end up.

    The work directory is modelled as a map from file name (relative to the directory) to the
    index of the entry whose bytes the file holds; the archive as the sequence of its entry names. */
module ZipCollect {
  import opened Text
  import opened RomPaths

  /** The `k`-th name tried for `filename`: the name itself, then stem + "_k" + suffix. */
  function Candidate(filename: string, k: nat): string {
    if k == 0 then filename
    else
      var parts := SplitExt(filename);
      parts.0 + "_" + Decimal(k) + parts.1
  }

  lemma CandidateLength(filename: string, k: nat)
    requires k > 0
    ensures |Candidate(filename, k)| == |filename| + 1 + |Decimal(k)|
  {
    var parts := SplitExt(filename);
    assert |parts.0| + |parts.1| == |filename|;
  }

  /** Different counters give different names, so the search cannot cycle. */
  lemma CandidatesDistinct(filename: string, j: nat, k: nat)
    requires j != k
    ensures Candidate(filename, j) != Candidate(filename, k)
  {
    if j == 0 || k == 0 {
      CandidateLength(filename, if j == 0 then k else j);
    } else if Candidate(filename, j) == Candidate(filename, k) {
      var parts := SplitExt(filename);
      var a, b := Decimal(j), Decimal(k);
      var cj, ck := Candidate(filename, j), Candidate(filename, k);
      CandidateLength(filename, j);
      CandidateLength(filename, k);
      assert |a| == |b|;
      var lo := |parts.0| + 1;
      assert cj == parts.0 + "_" + a + parts.1;
      assert cj[lo..lo + |a|] == a;
      assert ck[lo..lo + |b|] == b;
      DecimalInjective(j, k);
    }
  }

  /** The first `k` candidates are all taken. */
  ghost predicate AllTaken(filename: string, existing: set<string>, k: nat) {
    forall j :: 0 <= j < k ==> Candidate(filename, j) in existing
  }

  function CandidateSet(filename: string, k: nat): (s: set<string>)
    ensures |s| == k
    ensures forall j :: 0 <= j < k ==> Candidate(filename, j) in s
    ensures forall x :: x in s ==> exists j :: 0 <= j < k && x == Candidate(filename, j)
  {
    if k == 0 then {}
    else
      var s := CandidateSet(filename, k - 1);
      assert Candidate(filename, k - 1) !in s by {
        forall j | 0 <= j < k - 1 ensures Candidate(filename, j) != Candidate(filename, k - 1) {
          CandidatesDistinct(filename, j, k - 1);
        }
      }
      s + {Candidate(filename, k - 1)}
  }

  /** Only as many candidates as there are existing names can be taken. */
  lemma TakenBound(filename: string, existing: set<string>, k: nat)
    requires AllTaken(filename, existing, k)
    ensures k <= |existing|
  {
    var s := CandidateSet(filename, k);
    assert s <= existing;
    assert |s| <= |existing| by {
      var rest := existing - s;
      assert existing == s + rest;
    }
  }

  /** Index of the first free candidate, searching from `k`. */
  function FirstFree(filename: string, existing: set<string>, k: nat): (n: nat)
    requires AllTaken(filename, existing, k)
    ensures k <= n
    decreases |existing| - k
  {
    if Candidate(filename, k) !in existing then k
    else
      TakenBound(filename, existing, k + 1);
      FirstFree(filename, existing, k + 1)
  }

  /** The name the dedup loop settles on. */
  function ChosenName(filename: string, existing: set<string>): (name: string)
    ensures name !in existing
  {
    FirstFreeIsFirst(filename, existing, 0);
    Candidate(filename, FirstFree(filename, existing, 0))
  }

  /** The chosen name is the first of `filename`, stem_1 + suffix, stem_2 + suffix, ... that is
      not taken; in particular it never collides with an existing file. */
  lemma {:induction false} FirstFreeIsFirst(filename: string, existing: set<string>, k: nat)
    requires AllTaken(filename, existing, k)
    ensures var n := FirstFree(filename, existing, k);
      Candidate(filename, n) !in existing && AllTaken(filename, existing, n)
    decreases |existing| - k
  {
    if Candidate(filename, k) in existing {
      TakenBound(filename, existing, k + 1);
      FirstFreeIsFirst(filename, existing, k + 1);
    }
  }

  lemma ChosenNameIsFirstFree(filename: string, existing: set<string>)
    ensures ChosenName(filename, existing) !in existing
    ensures exists n :: ChosenName(filename, existing) == Candidate(filename, n) && AllTaken(filename, existing, n)
  {
    FirstFreeIsFirst(filename, existing, 0);
  }

  /** The first free candidate is unique: any free candidate preceded only by taken ones is it. */
  lemma {:induction false} FirstFreeUnique(filename: string, existing: set<string>, k: nat, n: nat)
    requires k <= n && AllTaken(filename, existing, n) && Candidate(filename, n) !in existing
    ensures FirstFree(filename, existing, k) == n
    decreases n - k
  {
    if k < n {
      TakenBound(filename, existing, k + 1);
      FirstFreeUnique(filename, existing, k + 1, n);
    }
  }

  /** The dedup loop: starting from the entry's own name, counter 1, the name is replaced by
      stem_counter + suffix while a file of that name exists. */
  method ChooseOutputName(filename: string, existing: set<string>) returns (outName: string)
    ensures outName !in existing
    ensures outName == ChosenName(filename, existing)
  {
    outName := filename;
    var counter := 1;
    var parts := SplitExt(filename);
    var stem, suffix := parts.0, parts.1;
    while outName in existing
      invariant 1 <= counter && outName == Candidate(filename, counter - 1)
      invariant AllTaken(filename, existing, counter - 1)
      decreases |existing| - counter
    {
      TakenBound(filename, existing, counter);
      outName := stem + "_" + Decimal(counter) + suffix;
      counter := counter + 1;
    }
    FirstFreeUnique(filename, existing, 0, counter - 1);
  }

  /** What a file in the work directory holds: bytes that were there before extraction began, or
      the bytes of the archive's ROM entry with the given index. */
  datatype FileData = Prior | FromEntry(index: nat)

  /** A directory: file name -> what the file holds. */
  type Dir = map<string, FileData>

  /** The archive's ROM entries, in archive order. */
  function RomEntries(names: seq<string>): (roms: seq<string>)
    ensures forall i :: 0 <= i < |roms| ==> HasRomExtension(roms[i]) && roms[i] in names
    ensures forall n :: n in names && HasRomExtension(n) ==> n in roms
  {
    if names == [] then []
    else
      var rest := RomEntries(names[1..]);
      if HasRomExtension(names[0]) then [names[0]] + rest else rest
  }

  /** Filtering distributes over concatenation: the kept entries of two runs of names are the
      kept entries of the first run followed by those of the second. */
  lemma {:induction false} RomEntriesAppend(a: seq<string>, b: seq<string>)
    ensures RomEntries(a + b) == RomEntries(a) + RomEntries(b)
  {
    if a == [] {
      assert a + b == b;
    } else {
      assert (a + b)[0] == a[0] && (a + b)[1..] == a[1..] + b;
      RomEntriesAppend(a[1..], b);
    }
  }

  /** A single name is kept exactly when it has a ROM extension. With `RomEntriesAppend` this fixes
      the result: the archive's ROM names in archive order, duplicates included. */
  lemma RomEntriesSingle(n: string)
    ensures RomEntries([n]) == if HasRomExtension(n) then [n] else []
  {
    assert [n][1..] == [];
  }

  /** The entry `zf.extract(name, ...)` reads: the archive's lookup by name keeps the last entry of
      that name, so a repeated name always yields the bytes of its last occurrence. */
  function LastIndex(roms: seq<string>, name: string): (k: nat)
    requires name in roms
    ensures k < |roms| && roms[k] == name
    ensures forall j :: k < j < |roms| ==> roms[j] != name
  {
    if roms[|roms| - 1] == name then |roms| - 1
    else
      assert roms == roms[..|roms| - 1] + [roms[|roms| - 1]];
      LastIndex(roms[..|roms| - 1], name)
  }

  /** The extraction loop as written, from entry `i` on: the entry of that name is extracted under
      its full name, overwriting any file of that name, and then renamed to the chosen name. */
  function ExtractAsWritten(roms: seq<string>, i: nat, dir: Dir, outs: seq<string>): (seq<string>, Dir)
    requires i <= |roms|
    decreases |roms| - i
  {
    if i == |roms| then (outs, dir)
    else
      var name := roms[i];
      var outName := ChosenName(Basename(name), dir.Keys);
      ExtractAsWritten(roms, i + 1, ExtractThenRename(dir, name, outName, LastIndex(roms, name)), outs + [outName])
  }

  /** `zf.extract` of entry `i` under its full name `name`, then `rename` to `outName` when the two
      differ. */
  function ExtractThenRename(dir: Dir, name: string, outName: string, i: nat): Dir {
    var extracted := dir[name := FromEntry(i)];
    if name != outName then (extracted - {name})[outName := FromEntry(i)] else extracted
  }

  lemma ExtractAsWrittenStep(roms: seq<string>, i: nat, dir: Dir, outs: seq<string>, outName: string, k: nat)
    requires i < |roms| && outName == ChosenName(Basename(roms[i]), dir.Keys)
    requires k == LastIndex(roms, roms[i])
    ensures ExtractAsWritten(roms, i, dir, outs) ==
      ExtractAsWritten(roms, i + 1, ExtractThenRename(dir, roms[i], outName, k), outs + [outName])
  {
  }

  /** In a list without repetitions the entry read for a name is the entry itself. */
  lemma LastIndexOfDistinct(roms: seq<string>, i: nat)
    requires i < |roms| && forall j :: i < j < |roms| ==> roms[j] != roms[i]
    ensures LastIndex(roms, roms[i]) == i
  {
  }

  /** An entry in a folder followed by an entry of the same base name at the top of the archive:
      the second is extracted over the file the first was renamed to, and that file is then moved
      to the second candidate name, so the first ROM is lost and its reported path names no file. */
  lemma {:induction false} ExtractAsWrittenLosesNestedEntry(nested: string, name: string)
    requires Basename(nested) == name && Basename(name) == name && nested != name
    ensures var (outs, dir) := ExtractAsWritten([nested, name], 0, map[], []);
      outs == [name, Candidate(name, 1)] && name !in dir && dir == map[Candidate(name, 1) := FromEntry(1)]
  {
    var roms := [nested, name];
    var second := Candidate(name, 1);
    NestedFirstStep(nested, name);
    NestedSecondStep(nested, name, FromEntry(0));
    CandidatesDistinct(name, 0, 1);
    assert ExtractAsWritten(roms, 2, map[second := FromEntry(1)], [name, second]) ==
      ([name, second], map[second := FromEntry(1)]);
  }

  /** First entry: nothing exists yet, so it is renamed to its base name. */
  lemma NestedFirstStep(nested: string, name: string)
    requires Basename(nested) == name && nested != name
    ensures ExtractAsWritten([nested, name], 0, map[], []) ==
      ExtractAsWritten([nested, name], 1, map[name := FromEntry(0)], [name])
  {
    var roms := [nested, name];
    var e: Dir := map[];
    var outs: seq<string> := [];
    assert roms[0] == nested;
    assert e.Keys == {};
    ChosenWhenFree(name, {});
    LastIndexOfDistinct(roms, 0);
    calc {
      ExtractAsWritten(roms, 0, e, outs);
      { ExtractAsWrittenStep(roms, 0, e, outs, name, 0); }
      ExtractAsWritten(roms, 1, ExtractThenRename(e, nested, name, 0), outs + [name]);
      { RenamedIntoEmpty(nested, name); assert outs + [name] == [name]; }
      ExtractAsWritten(roms, 1, map[name := FromEntry(0)], [name]);
    }
  }

  lemma ChosenWhenFree(name: string, existing: set<string>)
    requires name !in existing
    ensures ChosenName(name, existing) == name
  {
    FirstFreeUnique(name, existing, 0, 0);
  }

  lemma RenamedIntoEmpty(nested: string, name: string)
    requires nested != name
    ensures ExtractThenRename(map[], nested, name, 0) == map[name := FromEntry(0)]
  {
  }

  /** Second entry: its base name is taken, so it goes to the second candidate, after being
      extracted over the first entry's file. */
  lemma NestedSecondStep(nested: string, name: string, first: FileData)
    requires Basename(name) == name
    ensures ExtractAsWritten([nested, name], 1, map[name := first], [name]) ==
      ExtractAsWritten([nested, name], 2, map[Candidate(name, 1) := FromEntry(1)], [name, Candidate(name, 1)])
  {
    var d1: Dir := map[name := first];
    var second := Candidate(name, 1);
    assert d1.Keys == {name};
    CandidatesDistinct(name, 0, 1);
    assert AllTaken(name, {name}, 1);
    FirstFreeUnique(name, {name}, 0, 1);
    LastIndexOfDistinct([nested, name], 1);
    ExtractAsWrittenStep([nested, name], 1, d1, [name], second, 1);
    assert ExtractThenRename(d1, name, second, 1) == map[second := FromEntry(1)];
    assert [name] + [second] == [name, second];
  }

  lemma BasenamesOfExample()
    ensures Basename("sub/a.gb") == "a.gb" && Basename("a.gb") == "a.gb"
  {
    var p := "sub/a.gb";
    RFindIs(p, '/', 3);
    assert p[4..] == "a.gb";
    assert '/' !in "a.gb";
    assert "a.gb"[0..] == "a.gb";
  }

  lemma SplitExtOfExample()
    ensures SplitExt("a.gb") == ("a", ".gb")
  {
    var n := "a.gb";
    RFindIs(n, '.', 1);
    assert '/' !in n;
    assert n[0..1][0] == 'a';
    assert !AllDots(n[0..1]);
    assert n[..1] == "a" && n[1..] == ".gb";
  }

  lemma SecondCandidateOfExample()
    ensures Candidate("a.gb", 1) == "a_1.gb"
  {
    SplitExtOfExample();
    DecimalOfOne();
    CandidateOfParts("a.gb", "a", ".gb", 1, "1");
    SpelledSecondCandidate();
  }

  lemma SpelledSecondCandidate()
    ensures "a" + "_" + "1" + ".gb" == "a_1.gb"
  {
    var s := "a" + "_" + "1" + ".gb";
    assert |s| == 6;
    assert s[0] == 'a' && s[1] == '_' && s[2] == '1' && s[3] == '.' && s[4] == 'g' && s[5] == 'b';
  }

  lemma CandidateOfParts(filename: string, stem: string, ext: string, k: nat, digits: string)
    requires k > 0 && SplitExt(filename) == (stem, ext) && Decimal(k) == digits
    ensures Candidate(filename, k) == stem + "_" + digits + ext
  {
  }

  lemma DecimalOfOne()
    ensures Decimal(1) == "1"
  {
  }

  /** Archive order "sub/a.gb" then "a.gb": the ROM from "sub/a.gb" is lost, "a.gb" is reported
      for it though no such file is left, and "a_1.gb" holds the second entry. */
  lemma ExtractAsWrittenLosesFirstEntry()
    ensures var (outs, dir) := ExtractAsWritten(["sub/a.gb", "a.gb"], 0, map[], []);
      outs == ["a.gb", "a_1.gb"] && "a.gb" !in dir && dir == map["a_1.gb" := FromEntry(1)]
  {
    BasenamesOfExample();
    SecondCandidateOfExample();
    ExtractAsWrittenLosesNestedEntry("sub/a.gb", "a.gb");
  }

  /** The same name twice: both extractions read the second entry, the first file is moved to the
      second candidate name, so the first ROM is lost and the reported `name` names no file. */
  lemma {:induction false} ExtractAsWrittenLosesRepeatedEntry(name: string)
    requires Basename(name) == name
    ensures var (outs, dir) := ExtractAsWritten([name, name], 0, map[], []);
      outs == [name, Candidate(name, 1)] && name !in dir && dir == map[Candidate(name, 1) := FromEntry(1)]
  {
    var roms := [name, name];
    var second := Candidate(name, 1);
    RepeatedFirstStep(name);
    NestedSecondStep(name, name, FromEntry(1));
    CandidatesDistinct(name, 0, 1);
    assert ExtractAsWritten(roms, 2, map[second := FromEntry(1)], [name, second]) ==
      ([name, second], map[second := FromEntry(1)]);
  }

  /** First of two equal names: it is written in place, but with the bytes of the second entry. */
  lemma RepeatedFirstStep(name: string)
    requires Basename(name) == name
    ensures ExtractAsWritten([name, name], 0, map[], []) ==
      ExtractAsWritten([name, name], 1, map[name := FromEntry(1)], [name])
  {
    var roms := [name, name];
    var e: Dir := map[];
    var outs: seq<string> := [];
    assert e.Keys == {};
    ChosenWhenFree(name, {});
    LastIndexOfDistinct(roms, 1);
    calc {
      ExtractAsWritten(roms, 0, e, outs);
      { ExtractAsWrittenStep(roms, 0, e, outs, name, 1); }
      ExtractAsWritten(roms, 1, ExtractThenRename(e, name, name, 1), outs + [name]);
      { assert outs + [name] == [name]; }
      ExtractAsWritten(roms, 1, map[name := FromEntry(1)], [name]);
    }
  }

  /** Archive entries "a.gb" and "a.gb": "a.gb" and "a_1.gb" are reported, only "a_1.gb" exists, and
      it holds the second entry. */
  lemma ExtractAsWrittenLosesRepeatedA()
    ensures var (outs, dir) := ExtractAsWritten(["a.gb", "a.gb"], 0, map[], []);
      outs == ["a.gb", "a_1.gb"] && "a.gb" !in dir && dir == map["a_1.gb" := FromEntry(1)]
  {
    BasenamesOfExample();
    SecondCandidateOfExample();
    ExtractAsWrittenLosesRepeatedEntry("a.gb");
  }

  /** The entries were all extracted with no loss: the reported names are pairwise distinct, each
      holds its own entry, and files that were there before are untouched. */
  ghost predicate NoLoss(before: Dir, roms: seq<string>, outs: seq<string>, after: Dir) {
    |outs| == |roms| &&
    (forall i :: 0 <= i < |outs| ==> outs[i] in after && after[outs[i]] == FromEntry(i)) &&
    (forall i, j :: 0 <= i < j < |outs| ==> outs[i] != outs[j]) &&
    (forall f :: f in before ==> f in after && after[f] == before[f]) &&
    after.Keys == before.Keys + (set n | n in outs)
  }

  /** Each reported name is the one the name-choosing loop picks for its entry's base name, given
      the files present before extraction and the names reported for the earlier entries. */
  ghost predicate NamedByLoop(before: Dir, roms: seq<string>, outs: seq<string>) {
    |outs| <= |roms| &&
    forall j :: 0 <= j < |outs| ==>
      outs[j] == ChosenName(Basename(roms[j]), before.Keys + (set n | n in outs[..j]))
  }

  /** Naming entry `i` by the loop's choice extends the naming by one entry. */
  lemma NamedByLoopStep(before: Dir, roms: seq<string>, outs: seq<string>, outName: string)
    requires |outs| < |roms| && NamedByLoop(before, roms, outs)
    requires outName == ChosenName(Basename(roms[|outs|]), before.Keys + (set n | n in outs))
    ensures NamedByLoop(before, roms, outs + [outName])
  {
    var outs' := outs + [outName];
    forall j | 0 <= j < |outs'|
      ensures outs'[j] == ChosenName(Basename(roms[j]), before.Keys + (set n | n in outs'[..j]))
    {
      if j < |outs| {
        assert outs'[..j] == outs[..j];
      } else {
        assert outs'[..j] == outs;
      }
    }
  }

  /** Result of `extract_gb_gbc_from_zip` apart from its exceptions. */
  datatype ZipOutcome = NoRomEntries | Extracted(outs: seq<string>)

  /** The extraction loop with each entry's own bytes written straight to its chosen name, so that
      neither a later entry's full name nor a repeated entry name can overwrite an earlier ROM. */
  method ExtractFromZip(names: seq<string>, before: Dir) returns (outcome: ZipOutcome, after: Dir)
    ensures RomEntries(names) == [] <==> outcome == NoRomEntries
    ensures outcome == NoRomEntries ==> after == before
    ensures outcome.Extracted? ==> NoLoss(before, RomEntries(names), outcome.outs, after)
    ensures outcome.Extracted? ==> NamedByLoop(before, RomEntries(names), outcome.outs)
  {
    var roms := RomEntries(names);
    if roms == [] {
      return NoRomEntries, before;
    }
    var outs: seq<string> := [];
    after := before;
    assert (set n | n in outs) == {};
    assert NamedByLoop(before, roms, outs);
    for i := 0 to |roms|
      invariant NoLoss(before, roms[..i], outs, after)
      invariant |outs| == i && NamedByLoop(before, roms, outs)
    {
      var outName := ChooseOutputName(Basename(roms[i]), after.Keys);
      NoLossStep(before, roms, i, outs, after, outName);
      NamedByLoopStep(before, roms, outs, outName);
      after := after[outName := FromEntry(i)];
      outs := outs + [outName];
    }
    assert roms[..|roms|] == roms;
    return Extracted(outs), after;
  }

  /** Writing entry `i` to a name no file has yet keeps every earlier entry and every prior file. */
  lemma NoLossStep(before: Dir, roms: seq<string>, i: nat, outs: seq<string>, after: Dir, outName: string)
    requires i < |roms|
    requires NoLoss(before, roms[..i], outs, after) && outName !in after
    ensures NoLoss(before, roms[..i + 1], outs + [outName], after[outName := FromEntry(i)])
  {
    var outs', after' := outs + [outName], after[outName := FromEntry(i)];
    assert (set n | n in outs') == (set n | n in outs) + {outName};
    forall j | 0 <= j < |outs'|
      ensures outs'[j] in after' && after'[outs'[j]] == FromEntry(j)
    {
      if j < |outs| {
        assert outs'[j] == outs[j] && outs[j] in after;
      }
    }
    forall j, k | 0 <= j < k < |outs'|
      ensures outs'[j] != outs'[k]
    {
      if k < |outs| {
        assert outs'[j] == outs[j] && outs'[k] == outs[k];
      } else {
        assert outs'[j] == outs[j] && outs[j] in after;
      }
    }
  }
}
