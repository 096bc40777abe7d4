/** The ROM classifier: the hardware type a cartridge header declares (`detect_gb_type`) and the
    verdict on a file's extension (`check_rom`). */
module Classifier {
  import opened Text
  import opened RomPaths

  newtype byte = x: int | 0 <= x < 256

  datatype Option<T> = None | Some(value: T)

  /** Offset of the header byte that declares colour compatibility. */
  const HeaderTypeOffset: nat := 0x143

  datatype HeaderType = GB | GBC

  /** Header byte values that declare each hardware type. */
  function HeaderBytes(t: HeaderType): set<byte> {
    match t
    case GB => {0x00}
    case GBC => {0x80, 0xC0}
  }

  /** `detect_gb_type`. `file` is the file's contents, or None when it cannot be opened or read. */
  function DetectGbType(file: Option<seq<byte>>): Option<HeaderType> {
    if file.None? || |file.value| <= HeaderTypeOffset then None
    else
      var v := file.value[HeaderTypeOffset];
      if v == 0x00 then Some(GB) else if v == 0x80 || v == 0xC0 then Some(GBC) else None
  }

  /** A type is detected exactly when the file has a byte at 0x143 and that byte is one the type
      declares; no type is detected for a missing file, a short file or any other byte. */
  lemma DetectGbTypeCharacterized(file: Option<seq<byte>>)
    ensures forall t :: DetectGbType(file) == Some(t) <==>
      file.Some? && |file.value| > HeaderTypeOffset && file.value[HeaderTypeOffset] in HeaderBytes(t)
    ensures DetectGbType(file) == None <==>
      file.None? || |file.value| <= HeaderTypeOffset ||
      file.value[HeaderTypeOffset] !in HeaderBytes(GB) + HeaderBytes(GBC)
  {
  }

  const OkMark: string := "\U{2705}"
  const BadMark: string := "\U{274C}"
  const UnknownMark: string := "\U{26A0}\U{FE0F}"

  /** Suggestion given when no type is detected. */
  const UnknownSuggestion: string := "?"

  /** A verdict: display name, status mark and suggested extension. */
  datatype Verdict = Verdict(name: string, status: string, suggestion: string)

  function ExpectedExtension(t: HeaderType): string {
    match t
    case GB => ".gb"
    case GBC => ".gbc"
  }

  /** `check_rom`. `fileName` is the final component of the ROM's path, `file` its contents. */
  function CheckRom(fileName: string, file: Option<seq<byte>>, displayName: string): (v: Verdict)
    ensures v.name == displayName
    ensures DetectGbType(file) == None ==> v.status == UnknownMark && v.suggestion == UnknownSuggestion
    ensures DetectGbType(file) != None ==>
      var expected := ExpectedExtension(DetectGbType(file).value);
      (v.status == OkMark <==> Lower(PathSuffix(fileName)) == expected) &&
      (v.status == OkMark || v.status == BadMark) &&
      (v.suggestion == "" <==> v.status == OkMark) &&
      (v.status == BadMark ==> v.suggestion == expected)
  {
    var t := DetectGbType(file);
    if t.None? then Verdict(displayName, UnknownMark, UnknownSuggestion)
    else
      var current := Lower(PathSuffix(fileName));
      var expected := ExpectedExtension(t.value);
      var status := if current == expected then OkMark else BadMark;
      var suggestion := if status == OkMark then "" else expected;
      Verdict(displayName, status, suggestion)
  }

  /** Every verdict carries one of the three marks. */
  lemma CheckRomStatuses(fileName: string, file: Option<seq<byte>>, displayName: string)
    ensures CheckRom(fileName, file, displayName).status in {OkMark, BadMark, UnknownMark}
  {
  }

  /** Three headers: a GB header under ".gb" is accepted, a GBC header under ".gb" is flagged with
      ".gbc" as the suggestion, and a byte that declares nothing is unknown whatever the name. */
  lemma CheckRomExamples(data: seq<byte>, displayName: string)
    requires |data| > HeaderTypeOffset
    ensures data[HeaderTypeOffset] == 0x00 ==>
      CheckRom("game.gb", Some(data), displayName) == Verdict(displayName, OkMark, "")
    ensures data[HeaderTypeOffset] == 0xC0 ==>
      CheckRom("game.gb", Some(data), displayName) == Verdict(displayName, BadMark, ".gbc")
    ensures data[HeaderTypeOffset] == 0x55 ==>
      forall name :: CheckRom(name, Some(data), displayName) == Verdict(displayName, UnknownMark, UnknownSuggestion)
  {
    SuffixOfExample();
    ExpectedExtensionIsLowerCase(GB);
  }

  lemma SuffixOfExample()
    ensures PathSuffix("game.gb") == ".gb"
  {
    var n := "game.gb";
    RFindIs(n, '.', 4);
    assert n[4..] == ".gb";
  }

  /** `fileName` with its suffix replaced by `ext`. */
  function WithSuffix(fileName: string, ext: string): string {
    fileName[..|fileName| - |PathSuffix(fileName)|] + ext
  }

  lemma {:induction false} RFindAppend(a: string, b: string, c: char)
    requires c in b
    ensures RFind(a + b, c) == |a| + RFind(b, c)
  {
    var r := RFind(a + b, c);
    var r' := |a| + RFind(b, c);
    assert (a + b)[r'] == c;
  }

  lemma SuffixAfterRenaming(stem: string, ext: string)
    requires stem != []
    requires ext == ".gb" || ext == ".gbc"
    ensures PathSuffix(stem + ext) == ext
  {
    assert ext[0] == '.';
    RFindAppend(stem, ext, '.');
  }

  lemma ExpectedExtensionIsLowerCase(t: HeaderType)
    ensures Lower(ExpectedExtension(t)) == ExpectedExtension(t)
  {
    assert Lower(".gb") == ".gb";
    assert Lower(".gbc") == ".gbc";
  }

  /** A flagged file had its type detected, and the suggestion is that type's extension. */
  lemma FlaggedHasType(fileName: string, file: Option<seq<byte>>, displayName: string)
    requires CheckRom(fileName, file, displayName).status == BadMark
    ensures DetectGbType(file).Some?
    ensures CheckRom(fileName, file, displayName).suggestion == ExpectedExtension(DetectGbType(file).value)
  {
    assert BadMark != UnknownMark by {
      assert |BadMark| == 1 && |UnknownMark| == 2;
    }
  }

  /** Renaming a flagged file to the suggested extension makes the checker accept it. */
  lemma RenamingToSuggestionFixes(fileName: string, file: Option<seq<byte>>, displayName: string)
    requires fileName != []
    requires CheckRom(fileName, file, displayName).status == BadMark
    ensures var fixed := WithSuffix(fileName, CheckRom(fileName, file, displayName).suggestion);
      CheckRom(fixed, file, displayName).status == OkMark
  {
    FlaggedHasType(fileName, file, displayName);
    var t := DetectGbType(file).value;
    var ext := ExpectedExtension(t);
    var stem := fileName[..|fileName| - |PathSuffix(fileName)|];
    assert WithSuffix(fileName, ext) == stem + ext;
    SuffixAfterRenaming(stem, ext);
    ExpectedExtensionIsLowerCase(t);
  }
}
