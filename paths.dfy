/** The path and name handling the checker does with `os.path` and `pathlib`: the final component
    of an archive entry, stem and extension, a file's suffix, the ROM-extension filter, and the
    display name of a ROM found under a folder. */
module RomPaths {
  import opened Text

  /** The separator of archive entry names. */
  const Slash: char := '/'

  /** The glyph that replaces the path separator in a folder ROM's display name. */
  const Arrow: char := '→'

  /** `os.path.basename`: what follows the last separator. */
  function Basename(path: string): (name: string)
    ensures Slash !in name
    ensures EndsWith(path, name)
    ensures |name| == |path| || path[|path| - |name| - 1] == Slash
  {
    var slash := RFind(path, Slash);
    path[slash + 1..]
  }

  predicate AllDots(s: string) {
    forall i :: 0 <= i < |s| ==> s[i] == '.'
  }

  /** `os.path.splitext`: the extension starts at the last '.' after the last separator, unless
      only dots stand between that separator and the '.' (so ".gb" and "..gb" have no extension). */
  function SplitExt(path: string): (parts: (string, string))
    ensures parts.0 + parts.1 == path
  {
    var sep := RFind(path, Slash);
    var dot := RFind(path, '.');
    if dot > sep && !AllDots(path[sep + 1..dot]) then
      assert path[..dot] + path[dot..] == path;
      (path[..dot], path[dot..])
    else (path, "")
  }

  /** Stem and extension put back together give the path; an extension is split off exactly when
      the last '.' follows the last separator and something other than dots stands between them,
      and it is then one '.' followed by characters that are neither '.' nor a separator. */
  lemma SplitExtCharacterized(path: string)
    ensures var parts := SplitExt(path);
      parts.1 != [] <==>
        RFind(path, '.') > RFind(path, Slash) && !AllDots(path[RFind(path, Slash) + 1..RFind(path, '.')])
    ensures var ext := SplitExt(path).1;
      ext != [] ==> ext[0] == '.' && '.' !in ext[1..] && Slash !in ext
  {
    var sep := RFind(path, Slash);
    var dot := RFind(path, '.');
    if dot > sep && !AllDots(path[sep + 1..dot]) {
      ExtensionAt(path, dot);
    }
  }

  /** Cutting a path at its last '.', when that '.' follows its last separator. */
  lemma ExtensionAt(path: string, dot: int)
    requires 0 <= dot < |path| && path[dot] == '.'
    requires RFind(path, '.') == dot && RFind(path, Slash) < dot
    ensures path[dot..][0] == '.' && '.' !in path[dot..][1..] && Slash !in path[dot..]
  {
    assert path[dot..][1..] == path[dot + 1..];
    assert forall k :: 0 <= k < |path[dot..]| ==> path[dot..][k] == path[dot + k];
  }

  /** `PurePath.suffix` of a file name: from the last '.', provided that '.' is neither the first
      nor the last character. */
  function PathSuffix(name: string): (suffix: string)
    ensures suffix == [] <==> RFind(name, '.') <= 0 || RFind(name, '.') == |name| - 1
    ensures suffix != [] ==>
      EndsWith(name, suffix) && |suffix| >= 2 && |suffix| < |name| &&
      suffix[0] == '.' && '.' !in suffix[1..]
  {
    var i := RFind(name, '.');
    if 0 < i < |name| - 1 then
      assert name[i..][1..] == name[i + 1..];
      name[i..]
    else ""
  }

  /** The names the checker collects: those ending, in any letter case, with ".gb" or ".gbc". */
  predicate HasRomExtension(name: string) {
    EndsWith(Lower(name), ".gb") || EndsWith(Lower(name), ".gbc")
  }

  /** Replaces every `from` in `s` by `to` (`str.replace` for one character). */
  function ReplaceChar(s: string, from: char, to: char): string {
    seq(|s|, i requires 0 <= i < |s| => if s[i] == from then to else s[i])
  }

  /** Display name of a ROM found under a folder: its path relative to the folder, with the
      platform separator `sep` shown as an arrow. */
  function FolderDisplayName(relative: string, sep: char): string {
    ReplaceChar(relative, sep, Arrow)
  }

  /** The display name keeps every other character in place and shows no separator; when the
      relative path holds no arrow of its own, the path can be read back from it. */
  lemma FolderDisplayNameRoundTrip(relative: string, sep: char)
    requires sep != Arrow
    ensures |FolderDisplayName(relative, sep)| == |relative|
    ensures sep !in FolderDisplayName(relative, sep)
    ensures Arrow !in relative ==> ReplaceChar(FolderDisplayName(relative, sep), Arrow, sep) == relative
  {
  }

  lemma FolderDisplayNameExample()
    ensures FolderDisplayName("x/y.gb", '/') == "x→y.gb"
  {
  }
}
