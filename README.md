# Total War: Warhammer II mod manager — file-handling core in Dafny

The mod manager is a small desktop tool. Under its user interface sit three
functions that read the file system:

- `load_standard_packs` reads the list of standard packs, one entry per line,
  each line stripped of surrounding whitespace.
- `get_active_mods` reads the game's user script and collects the set of pack
  file names it lists. A line counts when, stripped, it ends in `.pack`. The
  name kept is the line's final path component, as `os.path.basename` gives
  it (UNC drives aside; see "Left out").
- `scan_mods` lists the game's `data` directory. It keeps the `.pack` files
  whose sibling `<stem>.png` preview image exists, in listing order.

The model passes the file system in as data (`FileSystem.Node`). A path is
`Missing`, a `File` given by its lines, or a `Directory` given by its listing.
Each operation returns a `Result`. A missing path gives the empty value, as in
the source. A path of the wrong kind gives the error that Python raises there:
`open` on a directory, or `os.listdir` on a file.

Modules:

- `PyStr` models Python's `str.isspace`, `str.strip` and `str.endswith`.
- `NtPath` models Windows `os.path.basename` and `os.path.splitext`. The
  separators are `\` and `/`, and a two-character drive prefix `X:` is dropped
  by `basename`.
- `Collections` holds the comprehensions as functions: `Filter` for
  `[x for x in s if p(x)]` and `Collect` for a set built element by element.
  It also holds their lemmas: membership, order, and independence from order
  and repetition.
- `ModManager` holds the three operations. `get_active_mods` and `scan_mods`
  are methods with loops, as in the source. Each is proved against a
  specification function (`ActiveModsOf`, and `WithPreview` of `PackFiles`),
  and lemmas state what those functions promise. `load_standard_packs` is a
  single comprehension, so it is a function.

Three facts about the code deserve a note:

- `get_active_mods` tests `endswith(".pack")` on the whole stripped line.
  `ModManager.DeclarationLineIgnored` proves that a `mod "<name>";` line is
  therefore never counted.
- `scan_mods` matches `.pack` case-sensitively.
- `scan_mods` does not sort its result, keeps standard packs, and drops packs
  that have no preview image.

## Model

| member | source | states |
|---|---|---|
| `PyStr.TrimStartSuffix` | main.py:38 | the leading-whitespace strip returns a suffix of the line; everything it removes is whitespace, and the rest does not start with whitespace |
| `PyStr.TrimEndPrefix` | main.py:38 | the trailing-whitespace strip returns a prefix of the line; everything it removes is whitespace, and the rest does not end with whitespace |
| `PyStr.Strip` | main.py:38 | a stripped line neither starts nor ends with a character that Python's `str.isspace` accepts |
| `PyStr.StripSlice` | main.py:38 | the stripped line is the slice of the line that starts after its leading whitespace; everything cut off on either side is whitespace |
| `PyStr.TrimStartOf` | main.py:38 | the leading strip of whitespace followed by text not starting with whitespace is exactly that text |
| `PyStr.TrimEndOf` | main.py:38 | the trailing strip of text not ending with whitespace, followed by whitespace, is exactly that text |
| `PyStr.StripOf` | main.py:38 | strip is fully determined: for any line written as whitespace, a trimmed middle and whitespace, strip returns that middle |
| `PyStr.StripOfTrimmed` | main.py:38 | a line that neither starts nor ends with whitespace is left unchanged by strip |
| `PyStr.StripIdempotent` | main.py:29 | stripping a stripped line changes nothing |
| `PyStr.StripEmptyIffBlank` | main.py:29 | a line strips to the empty string exactly when every character of it is whitespace |
| `NtPath.SepEndIsLast` | main.py:41 | the index where the final component starts has no `\` or `/` at or after it, and has a separator just before it unless it is 0 |
| `NtPath.AfterLastSepSuffix` | main.py:41 | the text after the last `\` or `/` is a separator-free suffix of the path, preceded by a separator whenever it is shorter than the path |
| `NtPath.Basename` | main.py:41 | `basename` returns a name that contains no path separator |
| `NtPath.BasenameSlice` | main.py:41 | the basename is a suffix of the path, and what precedes it ends in a separator or is exactly the drive prefix |
| `NtPath.AfterLastSepKeepsSuffix` | main.py:41 | a separator-free suffix of a path is also a suffix of its last component |
| `NtPath.BasenameKeepsSuffix` | main.py:39-41 | a suffix without separators or colons, such as `.pack`, is kept by `basename` |
| `NtPath.LastDotIsLast` | main.py:59 | the index found is a dot with no dot after it, or -1 when the name has no dot |
| `NtPath.SplitExtParts` | main.py:59 | `splitext` splits the path into root and extension that concatenate back to the path; the extension is empty or a dot followed by no dot and no separator |
| `NtPath.LastDotOfSuffix` | main.py:59 | in a name ending in `.pack`, the last dot is the one that starts `.pack` |
| `NtPath.SplitExtOfSuffix` | main.py:59 | in a name ending in an extension such as `.pack`, `splitext` splits exactly where that extension starts, unless the final component is only dots before it, in which case it finds no extension |
| `NtPath.SplitExtRootOfSuffix` | main.py:59 | the root `splitext` gives for a name ending in such an extension is the name without it, or the whole name when only dots precede it in the final component |
| `Collections.FilterMembership` | main.py:54 | a list comprehension keeps an element exactly when it occurs in the input and passes the test |
| `Collections.FilterInOrder` | main.py:54 | a list comprehension's result is a subsequence of its input, in input order |
| `Collections.CollectMembership` | main.py:34-41 | a value is in the built set exactly when some element passes the test and maps to it |
| `Collections.CollectMonotonic` | main.py:34-41 | building the set from a sequence whose elements all occur in another gives a subset |
| `Collections.CollectIgnoresOrder` | main.py:34-41 | the built set depends only on which elements occur, not on their order or repetition |
| `Collections.CollectInsert` | main.py:37-41 | an element failing the test adds nothing wherever it is inserted; one passing it adds its image |
| `ModManager.StandardPackEntries` | main.py:25-29 | a missing list file gives `[]`; a directory gives an error; otherwise there is one entry per line, in order, each the stripped line, and an entry is `""` exactly when its line is blank |
| `ModManager.StandardPacksReload` | main.py:25-29 | writing the loaded entries back one per line, each followed by a newline, and loading that file again returns the same entries |
| `ModManager.GetActiveMods` | main.py:32-42 | a missing script gives the empty set; a directory gives an error; otherwise the loop returns the set `ActiveModsOf` of the script's lines |
| `ModManager.ActiveModsMembership` | main.py:37-41 | a name is active exactly when some line, once stripped, is non-empty, ends in `.pack` and has that basename |
| `ModManager.ModLineName` | main.py:39-41 | the name taken from a mod line ends in `.pack` and contains no path separator |
| `ModManager.ActiveModNames` | main.py:39-41 | every active mod ends in `.pack` and contains no path separator |
| `ModManager.ActiveModsIgnoreOrder` | main.py:34-41 | two scripts with the same lines, in any order and number, give the same active set |
| `ModManager.LineContribution` | main.py:38-41 | a line that is blank or does not end in `.pack` once stripped leaves the active set unchanged wherever it stands; a mod line always adds its name |
| `ModManager.DeclarationLineIgnored` | main.py:39 | a load-order line `mod "<name>";`, with any indentation and line ending, never names an active mod, whatever the name |
| `ModManager.ScanMods` | main.py:45-64 | a missing data directory gives `[]`; a file there gives an error; otherwise the loop returns the `.pack` names of the listing filtered by preview presence |
| `ModManager.ScanModsMembership` | main.py:54-62 | a listed name is in the scan result exactly when it ends in `.pack` (case-sensitive) and its `<stem>.png` is present |
| `ModManager.ScanModsInListingOrder` | main.py:54-64 | the scan result is a subsequence of the listing, in listing order; nothing is sorted |
| `ModManager.PreviewNameOfPack` | main.py:59-61 | the preview looked for beside `x.pack` is `x.png`, except when the name before `.pack` is only dots, where it is `<whole name>.png` |

## Left out

- `load_config` and `save_config` (main.py:9-17) read and write JSON through Python's `json` library; they are outside the core.
- `select_game_folder` (main.py:19-23), `main` and `choose_folder` (main.py:66-138) are the tkinter dialog and the Flet interface.
- The file reads themselves (`open`, `os.listdir`, `os.path.exists`) are inputs: a `FileSystem.Node` per path and the set of present names in the data directory. The expansion of `%APPDATA%` (main.py:33) and `os.path.join` (main.py:50, 60) only build those paths.
- Text decoding and line splitting are not modelled: a file is given as its decoded lines. A file that is not valid UTF-8 makes Python raise `UnicodeDecodeError`, and the model has no such case.
- A path that exists but cannot be read, for lack of permission, is not modelled. Windows raises `PermissionError` for `open` on a directory; the model reports every such case as the single error `OpenedDirectory`.
- ModManager.ScanMods takes the existence of `<stem>.png` from the `present` set. It does not derive it from the listing, because on Windows the lookup is case-insensitive and may also find directories. Whatever `present` contains is what exists.
- `NtPath.Basename`: does not model UNC prefixes (`\\server\share`), which Python's `ntpath` treats as a drive; the model cuts at the last separator instead.
- `ModManager.ModLineName`: holds of the modelled `basename` only. For a stripped line `\\server\x.pack`, Python takes `\\server\x.pack` whole as a UNC drive, so `os.path.basename` returns `""` and main.py:41 adds `""`, which does not end in `.pack`; the model's name is `x.pack`.
- `ModManager.ActiveModNames`: for the same reason, a script with the line `\\server\x.pack` makes Python's active set contain `""`, which neither ends in `.pack` nor is promised by this lemma about the model, whose active set holds `x.pack` instead.
- `NtPath.Basename`: treats `X:` as a drive whenever the second character is a colon, as `ntpath` does up to Python 3.11; from Python 3.12 a path that starts with a separator has no drive, so the two differ on names such as `\:a.pack`.
