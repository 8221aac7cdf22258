/** File-name logic of the monitor: ASCII lowercasing, pathlib's `suffix`,
    `stem`, `name` and `/`, the dispatch filter of `on_created`, the
    "contains a symbol file" test and the destination paths. */
module PathNames {

  /** A path as the sequence of its components (`LIB_ROOT / part` appends one). */
  type Path = seq<string>

  // ---------------------------------------------------------------------------
  // Lowercasing (ASCII only)

  function LowerChar(c: char): char {
    if 'A' <= c <= 'Z' then (c as int + 32) as char else c
  }

  predicate IsLowerChar(c: char) {
    !('A' <= c <= 'Z')
  }

  /** `str.lower()` restricted to ASCII letters. */
  function Lower(s: string): (r: string)
    ensures |r| == |s|
    ensures forall i :: 0 <= i < |s| ==> IsLowerChar(r[i])
    ensures forall i :: 0 <= i < |s| ==> LowerChar(r[i]) == LowerChar(s[i])
  {
    seq(|s|, i requires 0 <= i < |s| => LowerChar(s[i]))
  }

  predicate IsLower(s: string) {
    forall i :: 0 <= i < |s| ==> IsLowerChar(s[i])
  }

  /** Lowercasing an already lowercase string changes nothing, so lowering twice is lowering once. */
  lemma LowerFixesLowercase(s: string)
    requires IsLower(s)
    ensures Lower(s) == s
  {
  }

  /** Lowercasing commutes with taking a slice. */
  lemma LowerSlice(s: string, i: nat)
    requires i <= |s|
    ensures Lower(s[i..]) == Lower(s)[i..]
    ensures Lower(s[..i]) == Lower(s)[..i]
  {
  }

  /** `s.endswith(suf)`. */
  predicate EndsWith(s: string, suf: string) {
    |suf| <= |s| && s[|s| - |suf|..] == suf
  }

  // ---------------------------------------------------------------------------
  // pathlib: name, suffix, stem and `/`

  /** `str.rfind(c)`: the index of the last `c`, or -1. */
  function LastIndexOf(s: string, c: char): (r: int)
    ensures -1 <= r < |s|
    ensures r >= 0 ==> s[r] == c
    ensures forall j :: r < j < |s| ==> s[j] != c
  {
    if |s| == 0 then -1
    else if s[|s| - 1] == c then |s| - 1
    else LastIndexOf(s[..|s| - 1], c)
  }

  /** `Path.name`: the final component. */
  function Name(p: Path): string {
    if |p| == 0 then "" else p[|p| - 1]
  }

  /** `PurePath.suffix` of a file name: from the last dot on, except that a
      leading dot or a trailing dot gives no suffix. */
  function Suffix(name: string): string {
    var i := LastIndexOf(name, '.');
    if 0 < i < |name| - 1 then name[i..] else ""
  }

  /** `PurePath.stem` of a file name. */
  function Stem(name: string): string {
    var i := LastIndexOf(name, '.');
    if 0 < i < |name| - 1 then name[..i] else name
  }

  /** Stem and suffix split the name: the suffix is empty or a dot followed by
      at least one dot-free character, and the stem is then non-empty. */
  lemma StemSuffixSplit(name: string)
    ensures Stem(name) + Suffix(name) == name
    ensures Suffix(name) == "" || (|Suffix(name)| >= 2 && Suffix(name)[0] == '.' && Stem(name) != "")
    ensures forall j :: 0 < j < |Suffix(name)| ==> Suffix(name)[j] != '.'
  {
  }

  /** A dot strictly inside the name with no dot after it starts the suffix
      and ends the stem. */
  lemma {:induction false} SuffixAtLastDot(name: string, i: nat)
    requires 0 < i < |name| - 1 && name[i] == '.'
    requires forall j :: i < j < |name| ==> name[j] != '.'
    ensures Suffix(name) == name[i..] && Stem(name) == name[..i]
  {
    var k := LastIndexOf(name, '.');
    assert k >= i;
  }

  /** A path as pathlib stores it: no empty and no "." components. */
  predicate IsNormalPath(p: Path) {
    forall k :: 0 <= k < |p| ==> p[k] != "" && p[k] != "."
  }

  /** `p / c`: pathlib drops an empty or "." component, so a normal path
      stays normal; otherwise `(p / c).parent == p` and `(p / c).name == c`. */
  function Join(p: Path, c: string): (r: Path)
    ensures c == "" || c == "." ==> r == p
    ensures IsNormalPath(p) ==> IsNormalPath(r)
    ensures c != "" && c != "." ==> |r| == |p| + 1 && r[..|p|] == p && Name(r) == c
  {
    if c == "" || c == "." then p else p + [c]
  }

  // ---------------------------------------------------------------------------
  // The monitor's predicates

  /** The filter of `ZipMonitor.on_created`: not a directory and the
      lowercased last suffix equals the (already lowercased) archive extension. */
  predicate IsArchiveEvent(isDirectory: bool, p: Path, extArchive: string) {
    !isDirectory && Lower(Suffix(Name(p))) == extArchive
  }

  /** An extension as configured: a dot followed by at least one character and no further dot. */
  predicate IsPlainExtension(ext: string) {
    |ext| >= 2 && ext[0] == '.' && forall j :: 1 <= j < |ext| ==> ext[j] != '.'
  }

  /** For a plain lowercase extension, the dispatch filter accepts a file
      exactly when its name is longer than the extension and ends with it,
      ignoring case: a bare ".zip" is not an archive, "A.ZIP" is. */
  lemma {:induction false} ArchiveEventIff(isDirectory: bool, p: Path, ext: string)
    requires IsPlainExtension(ext) && IsLower(ext)
    ensures IsArchiveEvent(isDirectory, p, ext) <==>
      !isDirectory && |Name(p)| > |ext| && EndsWith(Lower(Name(p)), ext)
  {
    var name := Name(p);
    var i := LastIndexOf(name, '.');
    if IsArchiveEvent(isDirectory, p, ext) {
      assert Suffix(name) != "";
      assert 0 < i < |name| - 1;
      LowerSlice(name, i);
      assert |name[i..]| == |ext|;
    }
    if !isDirectory && |name| > |ext| && EndsWith(Lower(name), ext) {
      var k := |name| - |ext|;
      LowerSlice(name, k);
      assert name[k] == '.' by {
        assert Lower(name)[k] == ext[0];
        assert LowerChar(name[k]) == '.';
      }
      forall j | k < j < |name|
        ensures name[j] != '.'
      {
        assert Lower(name)[j] == ext[j - k];
        assert LowerChar(name[j]) != '.';
      }
      assert i == k;
      assert Suffix(name) == name[k..];
    }
  }

  /** The qualification test of `process_zip`: some entry name, lowercased, ends with the symbol extension. */
  function Qualifies(entryNames: seq<string>, extSymbol: string): (r: bool)
    ensures r <==> exists k :: 0 <= k < |entryNames| && EndsWith(Lower(entryNames[k]), extSymbol)
  {
    if |entryNames| == 0 then false
    else
      EndsWith(Lower(entryNames[0]), extSymbol) || Qualifies(entryNames[1..], extSymbol)
  }

  /** `LIB_ROOT / zip_path.stem`. */
  function DestFolder(libRoot: Path, zipPath: Path): Path {
    Join(libRoot, Stem(Name(zipPath)))
  }

  /** `dest_folder / zip_path.name`. */
  function DestZip(libRoot: Path, zipPath: Path): Path {
    Join(DestFolder(libRoot, zipPath), Name(zipPath))
  }

  /** For every file the filter accepts, the archive lands one level below its
      folder under its own name, and the folder is the library root extended by
      the stem, except that a stem of "." (a file named "..zip") names the root itself. */
  lemma {:induction false} DestinationOfArchive(libRoot: Path, zipPath: Path, ext: string)
    requires IsArchiveEvent(false, zipPath, ext) && ext != ""
    ensures DestZip(libRoot, zipPath) == DestFolder(libRoot, zipPath) + [Name(zipPath)]
    ensures Stem(Name(zipPath)) != "."
      ==> DestFolder(libRoot, zipPath) == libRoot + [Stem(Name(zipPath))]
    ensures Stem(Name(zipPath)) == "." ==> DestFolder(libRoot, zipPath) == libRoot
  {
  }
}
