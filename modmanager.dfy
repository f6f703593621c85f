/** The file handling of the Total War: Warhammer II mod manager: the list of
    standard packs, the mods named in the game's user script, and the mod packs
    of the game's `data` directory that come with a preview image. */
module ModManager {
  import opened FileSystem
  import opened PyStr
  import opened NtPath
  import opened Collections

  /** The extension of the game's content packages. */
  const PackExt: string := ".pack"
  /** The extension of a pack's preview image. */
  const ImageExt: string := ".png"

  // ---------------------------------------------------------------------------
  // load_standard_packs: one stripped entry per line of the list file
  // ---------------------------------------------------------------------------

  function LoadStandardPacks(file: Node): Result<seq<string>> {
    match file
    case Missing => Ok([])
    case Directory(_) => Err(OpenedDirectory)
    case File(lines) => Ok(seq(|lines|, i requires 0 <= i < |lines| => Strip(lines[i])))
  }

  /** A missing list gives no packs; otherwise there is exactly one entry per
      line, in line order, each the line without surrounding whitespace, and
      an entry is empty exactly when its line is blank. */
  lemma StandardPackEntries(file: Node)
    ensures file.Missing? ==> LoadStandardPacks(file) == Ok([])
    ensures file.Directory? ==> LoadStandardPacks(file) == Err(OpenedDirectory)
    ensures file.File? ==>
      var r := LoadStandardPacks(file);
      && r.Ok? && |r.value| == |file.lines|
      && forall i :: 0 <= i < |file.lines| ==>
           && Trimmed(r.value[i])
           && (r.value[i] == "" <==> AllSpace(file.lines[i]))
           && r.value[i] == Strip(file.lines[i])
  {
    if file.File? {
      forall i | 0 <= i < |file.lines| ensures Strip(file.lines[i]) == "" <==> AllSpace(file.lines[i]) {
        StripEmptyIffBlank(file.lines[i]);
      }
    }
  }

  /** Writing the loaded entries back one per line, each ended by a newline,
      and loading again gives the same entries. */
  lemma StandardPacksReload(lines: seq<string>)
    ensures var r := LoadStandardPacks(File(lines));
            var written := seq(|r.value|, i requires 0 <= i < |r.value| => r.value[i] + "\n");
            LoadStandardPacks(File(written)) == r
  {
    var r := LoadStandardPacks(File(lines));
    var written := seq(|r.value|, i requires 0 <= i < |r.value| => r.value[i] + "\n");
    forall i | 0 <= i < |lines| ensures Strip(written[i]) == r.value[i] {
      assert written[i] == [] + r.value[i] + "\n";
      StripOf([], r.value[i], "\n");
    }
    assert LoadStandardPacks(File(written)).value == r.value;
  }

  // ---------------------------------------------------------------------------
  // get_active_mods: the set of pack file names listed in the user script
  // ---------------------------------------------------------------------------

  /** A script line names an active mod when, stripped, it is non-empty and
      ends in `.pack` (the emptiness test is implied by the suffix test). */
  predicate IsModLine(line: string) {
    var t := Strip(line);
    t != "" && EndsWith(t, PackExt)
  }

  /** The mod a line names: the file name part of the stripped line. */
  function ModName(line: string): string {
    Basename(Strip(line))
  }

  /** The set `get_active_mods` builds: the name of every mod line. */
  function ActiveModsOf(lines: seq<string>): set<string> {
    Collect(lines, IsModLine, ModName)
  }

  method GetActiveMods(script: Node) returns (r: Result<set<string>>)
    ensures script.Missing? ==> r == Ok({})
    ensures script.Directory? ==> r == Err(OpenedDirectory)
    ensures script.File? ==> r == Ok(ActiveModsOf(script.lines))
  {
    match script
    case Missing =>
      r := Ok({});
    case Directory(_) =>
      r := Err(OpenedDirectory);
    case File(lines) =>
      var active: set<string> := {};
      for i := 0 to |lines|
        invariant active == ActiveModsOf(lines[..i])
      {
        CollectSnoc(lines[..i], lines[i], IsModLine, ModName);
        assert lines[..i + 1] == lines[..i] + [lines[i]];
        var line := Strip(lines[i]);
        assert IsModLine(lines[i]) == (line != "" && EndsWith(line, PackExt));
        if line != "" && EndsWith(line, PackExt) {
          assert ModName(lines[i]) == Basename(line);
          active := active + {Basename(line)};
        }
      }
      assert lines[..|lines|] == lines;
      r := Ok(active);
  }

  /** A name is active exactly when some line of the script is a mod line naming it. */
  lemma ActiveModsMembership(lines: seq<string>, x: string)
    ensures x in ActiveModsOf(lines) <==> exists i :: 0 <= i < |lines| && IsModLine(lines[i]) && ModName(lines[i]) == x
  {
    CollectMembership(lines, IsModLine, ModName, x);
  }

  /** The name a mod line gives is a bare file name ending in `.pack`. */
  lemma ModLineName(line: string)
    requires IsModLine(line)
    ensures EndsWith(ModName(line), PackExt) && NoSep(ModName(line))
  {
    BasenameKeepsSuffix(Strip(line), PackExt);
  }

  /** Every active mod is a bare file name ending in `.pack`. */
  lemma ActiveModNames(lines: seq<string>, x: string)
    requires x in ActiveModsOf(lines)
    ensures EndsWith(x, PackExt) && NoSep(x)
  {
    CollectMembership(lines, IsModLine, ModName, x);
    var i :| 0 <= i < |lines| && IsModLine(lines[i]) && ModName(lines[i]) == x;
    ModLineName(lines[i]);
  }

  /** The active set ignores the order and the repetition of lines: two
      scripts with the same lines, in any order and number, give the same set. */
  lemma ActiveModsIgnoreOrder(lines1: seq<string>, lines2: seq<string>)
    requires forall l :: l in lines1 <==> l in lines2
    ensures ActiveModsOf(lines1) == ActiveModsOf(lines2)
  {
    CollectIgnoresOrder(lines1, lines2, IsModLine, ModName);
  }

  /** A line that is not a mod line (a blank line, a comment, any line whose
      stripped text does not end in `.pack`) adds nothing wherever it stands;
      a mod line always adds its name. */
  lemma LineContribution(before: seq<string>, line: string, after: seq<string>)
    ensures !IsModLine(line) ==> ActiveModsOf(before + [line] + after) == ActiveModsOf(before + after)
    ensures IsModLine(line) ==> ModName(line) in ActiveModsOf(before + [line] + after)
  {
    CollectInsert(before, line, after, IsModLine, ModName);
  }

  /** The game writes its load order as lines `mod "<file>";`. Such a line,
      however indented and with its line ending, does not end in `.pack`
      once stripped, so it never names an active mod. */
  lemma DeclarationLineIgnored(indent: string, name: string, ending: string)
    requires AllSpace(indent) && AllSpace(ending)
    ensures !IsModLine(indent + ("mod \"" + name + "\";") + ending)
  {
    var declaration := "mod \"" + name + "\";";
    StripOf(indent, declaration, ending);
  }

  // ---------------------------------------------------------------------------
  // scan_mods: the packs of the data directory that have a preview image
  // ---------------------------------------------------------------------------

  predicate IsPack(name: string) {
    EndsWith(name, PackExt)
  }

  /** `[f for f in listing if f.endswith(".pack")]`. */
  function PackFiles(names: seq<string>): seq<string> {
    Filter(names, IsPack)
  }

  /** The image looked for beside a pack: the pack's `splitext` root plus `.png`. */
  function PreviewName(pack: string): string {
    SplitExt(pack).0 + ImageExt
  }

  /** Whether a pack's preview image is among the present names. */
  function HasPreview(present: set<string>): string -> bool {
    pack => PreviewName(pack) in present
  }

  /** The packs whose preview image is present, in their order. */
  function WithPreview(packs: seq<string>, present: set<string>): seq<string> {
    Filter(packs, HasPreview(present))
  }

  /** `data` is the game's data directory; `present` holds the names for which
      a path inside that directory exists. */
  method ScanMods(data: Node, present: set<string>) returns (r: Result<seq<string>>)
    ensures data.Missing? ==> r == Ok([])
    ensures data.File? ==> r == Err(ListedFile)
    ensures data.Directory? ==> r == Ok(WithPreview(PackFiles(data.names), present))
  {
    match data
    case Missing =>
      r := Ok([]);
    case File(_) =>
      r := Err(ListedFile);
    case Directory(names) =>
      var allPacks := PackFiles(names);
      var modsWithImage: seq<string> := [];
      for i := 0 to |allPacks|
        invariant modsWithImage == WithPreview(allPacks[..i], present)
      {
        var pack := allPacks[i];
        FilterSnoc(allPacks[..i], pack, HasPreview(present));
        assert allPacks[..i + 1] == allPacks[..i] + [pack];
        var stem := SplitExt(pack).0;
        assert HasPreview(present)(pack) == (stem + ImageExt in present);
        if stem + ImageExt in present {
          modsWithImage := modsWithImage + [pack];
        }
      }
      assert allPacks[..|allPacks|] == allPacks;
      r := Ok(modsWithImage);
  }

  /** A name of the listing is in the scan result exactly when it ends in
      `.pack` and its preview image is present. */
  lemma ScanModsMembership(names: seq<string>, present: set<string>, x: string)
    ensures x in WithPreview(PackFiles(names), present) <==> x in names && IsPack(x) && PreviewName(x) in present
  {
    FilterMembership(PackFiles(names), HasPreview(present), x);
    FilterMembership(names, IsPack, x);
  }

  /** The scan result keeps the listing's order: nothing is sorted or moved. */
  lemma ScanModsInListingOrder(names: seq<string>, present: set<string>)
    ensures IsSubsequence(WithPreview(PackFiles(names), present), names)
  {
    FilterInOrder(names, IsPack);
    FilterInOrder(PackFiles(names), HasPreview(present));
    SubsequenceTransitive(WithPreview(PackFiles(names), present), PackFiles(names), names);
  }

  /** The preview of `x.pack` is `x.png`, unless the file name before `.pack`
      is only dots (`.pack`, `..pack`), where `splitext` finds no extension
      and the preview looked for is `<whole name>.png`. */
  lemma PreviewNameOfPack(pack: string)
    requires IsPack(pack)
    ensures var start, stemEnd := SepEnd(pack, |pack|), |pack| - |PackExt|;
            && start <= stemEnd
            && (!AllDotsIn(pack, start, stemEnd) ==> PreviewName(pack) == pack[..stemEnd] + ImageExt)
            && (AllDotsIn(pack, start, stemEnd) ==> PreviewName(pack) == pack + ImageExt)
  {
    PackExtShape();
    SplitExtRootOfSuffix(pack, PackExt);
  }

  /** `.pack` is a dot followed by neither a dot nor a separator. */
  lemma PackExtShape()
    ensures |PackExt| > 0 && PackExt[0] == '.' && NoSep(PackExt)
    ensures forall i :: 1 <= i < |PackExt| ==> PackExt[i] != '.'
  {
  }
}
