# WO Files: a Dafny model of the explorer core

WO Files is a small GTK file manager written in C. This project models the
logic under its widgets and proves properties of that model:

- the directory lister of `src/utils.c`. It drops `.`, hides dotfiles unless
  sudo mode is on, skips entries `lstat` fails on, and builds
  `dir + "/" + name` paths.
- the icon choice of `src/utils.c`: folder icon, extension icon or fallback
  icon.
- the case-insensitive search of `src/ui.c`. It runs a shallow filter for
  queries shorter than two bytes and a recursive pre-order search otherwise.
- the `.wo` theme-file format of `src/explorer.c`:
  - the payload extractor, a line-by-line state machine over `fgets` lines;
  - the name extractor, which reads the first line with `sscanf`;
  - the file-name sanitiser of `save_wo_file`.
- the navigation state of `src/explorer.c`: the back and forward stacks,
  recorded navigation, and going up to the parent path.
- the window's smaller pure pieces:
  - the clipboard;
  - the sidebar shortcut label;
  - the theme combo box, both its de-duplicated filling and its selection;
  - the mapping from a chosen theme to the style that gets loaded.

Strings are C byte strings: each `char` stands for one byte, so "length" is
`strlen`. Three things are given to the model instead of being read from the
machine:

- The filesystem is a finite tree of raw `readdir` entries. Each entry carries
  its `lstat` result.
- The icon lookup takes the set of paths that exist.
- Theme files are a map from paths to their bytes. The theme directory
  `assets/themes/` is relative to the working directory, while a dropped file
  arrives under an absolute path. So whether a copy lands on the dropped file
  itself is given to the model (`sameFile`); equal path strings always count
  as the same file.

Files:

| file | module | models |
|---|---|---|
| `base.dfy` | `Base` | option type, sequence reversal and flattening |
| `text.dfy` | `Text` | ASCII case folding, `strcasestr`, prefix and suffix tests, `strrchr` |
| `listing.dfy` | `Listing` | `make_entry`, `utils_list_dir`, `utils_filter_local`, `utils_get_icon`, `utils_read_directory` |
| `search.dfy` | `Search` | `deep`, `ui_filter_search`, `ui_load_directory`, `on_search` |
| `theme_file.dfy` | `ThemeFile` | `fgets` lines, `extract_css_from_wo`, `extract_theme_name_from_wo`, the sanitiser and file name of `save_wo_file`, `g_path_get_basename` |
| `history.dfy` | `History` | `push_back` … `clear_forward`, `load_path`, `on_back`, `on_forward`, `on_up` |
| `explorer.dfy` | `Explorer` | `do_copy`, `do_cut`, `file_paste`, the `add_shortcut` label, `load_saved_wo_themes`, `apply_wo_theme`, `load_theme`, `on_theme` |

## Model

| member | source | states |
|---|---|---|
| Text.StrCaseStr | src/utils.c:146 | finds a case-insensitive occurrence exactly when one exists, and returns the first one |
| Text.LastIndex | src/utils.c:39 | `None` exactly when the byte is absent; otherwise an index holding the byte, with no occurrence after it |
| Listing.MakeEntry | src/utils.c:67-78 | the entry keeps the raw name, is a directory exactly when `lstat` saw one, and its path is `dir/` followed by the name |
| Listing.MakeEntryPaths | src/utils.c:67-78 | within one directory two entries share a path exactly when they share a name |
| Listing.ListEntries | src/utils.c:88-105 | at most one entry per raw entry; never `.`; every path is `dir/name`; no dotfile unless sudo |
| Listing.ListDir | src/utils.c:80-109 | an unopenable directory lists nothing; entries are never `.`; paths are `dir/name`; no dotfiles without sudo |
| Listing.ListEntriesAppend | src/utils.c:88-108 | listing is a homomorphism of the enumeration, so enumeration order is kept |
| Listing.ListEntriesMembers | src/utils.c:67-78 | an entry is listed iff some raw entry passes the three skips and `make_entry` builds it, with `is_dir` from `lstat` |
| Listing.DotDotListedOnlyInSudo | src/utils.c:90-94 | a `..` entry that `lstat` accepts is listed with sudo on and hidden with sudo off |
| Listing.HideDotfiles | src/utils.c:92-94 | the dotfile filter keeps exactly the entries whose name does not start with `.` |
| Listing.SudoOnlyRevealsDotfiles | src/utils.c:92-94 | the non-sudo listing is the sudo listing with the dotfiles removed, in the same order |
| Listing.ListDirectory | src/utils.c:80-109 | the prepend-then-reverse loop yields exactly the declarative listing |
| Listing.MatchingEntries | src/utils.c:146 | keeps exactly the entries whose name contains the query, ignoring case |
| Listing.MatchingEmptyQuery | src/utils.c:146 | the empty query keeps every entry |
| Listing.FilterLocal | src/utils.c:137-162 | holds exactly the listed entries whose name matches the query, no more of them than the listing has |
| Listing.FilterLocalMembers | src/utils.c:137-162 | the local filter yields exactly the listed raw entries whose name matches the query |
| Listing.FilterLocalAppend | src/utils.c:142-159 | the local filter keeps listing order |
| Listing.Extension | src/utils.c:39-43 | an extension exists iff the name has a `.` and does not end with one; it is the dot-free tail after the last `.` |
| Listing.ExtensionAt | src/utils.c:39-43 | a last `.` with text after it determines the extension |
| Listing.IconFor | src/utils.c:36-55 | a directory always gets the folder icon; an extension icon is only chosen for the text after the last `.`, and only when `assets/<ext>.png` exists |
| Listing.IconForFile | src/utils.c:39-55 | a file gets an extension icon iff its last-dot tail is non-empty and its icon file exists; otherwise the fallback |
| Listing.IconExamples | src/utils.c:39-55 | `foo.` falls back; `photo.JPG` looks up `JPG` case-sensitively; `notes.tar.gz` uses `gz` |
| Listing.RowsOf | src/utils.c:121-128 | one row per entry, in order, with that entry's icon |
| Listing.ReadDirectory | src/utils.c:112-134 | appends one row per listed entry and leaves the existing rows untouched |
| Search.Deep | src/ui.c:41-69 | every emitted entry's name contains the query (soundness) |
| Search.DeepBelow | src/ui.c:62-63 | the recursive call emits only matching entries |
| Search.WalkAppend | src/ui.c:46-66 | the subtree walk is a homomorphism of the enumeration |
| Search.WalkAt | src/ui.c:46-66 | pre-order: an entry, then its subtree, between its earlier and later siblings |
| Search.WalkMembers | src/ui.c:41-69 | the walk holds exactly the entries of the subtree |
| Search.DeepIsFilteredWalk | src/ui.c:41-69 | deep search is the pre-order walk with the non-matching entries removed |
| Search.DeepMembers | src/ui.c:41-69 | an entry is emitted iff it lies in the subtree and its name matches (soundness and completeness) |
| Search.DeepAppend | src/ui.c:46-66 | deep search of two runs of siblings is the search of each in turn |
| Search.DeepAt | src/ui.c:50-63 | the search recurses into every listed directory, matching or not, right after the directory itself |
| Search.ShallowWithinDeep | src/ui.c:76-82 | every entry the shallow filter finds, deep search finds too |
| Search.FilterSearch | src/ui.c:71-83 | every result matches; a query under two bytes is exactly the local filter |
| Search.FilterSearchMembers | src/ui.c:71-83 | by mode: shallow results are matching children, deep results are matching subtree entries |
| Search.OneWideCharacterSearchesDeep | src/ui.c:76-82 | a single two-byte character already selects deep search |
| Search.LoadDirectory | src/ui.c:28-33 | after the clear, the store holds exactly one row per listed entry, in order |
| Search.SearchRows | src/ui.c:71-83 | after the clear, the store holds one row per search result, the i-th row holding the i-th result |
| Search.OnSearch | src/explorer.c:536-545 | the grid shows exactly the search results for the query, in order, for the empty query too |
| Search.OnSearchIsSearch | src/explorer.c:536-545 | the empty-query reload shows the same rows as a search for the empty query |
| ThemeFile.PieceLength | src/explorer.c:72 | `fgets` reads up to and including the first newline, capped by the buffer |
| ThemeFile.PieceLengthUnique | src/explorer.c:72 | the `fgets` piece length is the only length satisfying that rule |
| ThemeFile.Lines | src/explorer.c:72 | the `fgets` pieces concatenate back to the file, each within the cap |
| ThemeFile.LinesAfterLine | src/explorer.c:72 | a complete short line is read as one piece, followed by the pieces of the rest |
| ThemeFile.Step | src/explorer.c:72-95 | once the payload has begun every line is appended; before that a line begins it exactly when it is no `THEMENAME:` line and is a separator or follows one, and the opening separator is dropped while an opening ordinary line is kept; a `THEMENAME:` line arms the scan; a line that opens nothing adds nothing |
| ThemeFile.Run | src/explorer.c:72-96 | once in the payload, every later line is appended verbatim |
| ThemeFile.ExtractCss | src/explorer.c:62-106 | a payload is only returned when it is non-empty; an unreadable file gives none |
| ThemeFile.RunOpened | src/explorer.c:72-96 | the payload is the concatenation of every line after the line that opens it |
| ThemeFile.RunNeverOpened | src/explorer.c:72-96 | when no line opens the payload, nothing is collected |
| ThemeFile.ExtractCssSpec | src/explorer.c:62-106 | the result is the lines after the first opening line: a `---` line is dropped, a line after `THEMENAME:` is kept |
| ThemeFile.NoMarkerNoContent | src/explorer.c:100-103 | with no `THEMENAME:` line and no `---` line, extraction fails |
| ThemeFile.ExtractCssIsSuffix | src/explorer.c:62-106 | the payload is a suffix of the file |
| ThemeFile.FirstOpener | src/explorer.c:75-87 | finds the first line that opens the payload |
| ThemeFile.SkipSpaces | src/explorer.c:122 | the format's space skips a maximal run of white space: every skipped byte is white space and the rest does not start with one |
| ThemeFile.TakeUntilNewline | src/explorer.c:122 | `%127[^\n]` takes the longest newline-free prefix of at most 127 bytes |
| ThemeFile.ThemeName | src/explorer.c:109-130 | a name comes only from a readable, non-empty file whose first `fgets` line starts with `THEMENAME:`; it has 1 to 127 bytes, no newline and no leading white space |
| ThemeFile.ThemeNameFirstLineOnly | src/explorer.c:119-125 | only the first line is read: what follows a complete first line does not change the name |
| ThemeFile.NoHeaderNoName | src/explorer.c:119-125 | a file whose first line is no `THEMENAME:` line declares no name |
| ThemeFile.HeaderIsLine | src/explorer.c:119-120 | a header line is one `fgets` line with the `THEMENAME:` prefix |
| ThemeFile.TakeName | src/explorer.c:122 | the conversion reads a whole valid name up to its newline |
| ThemeFile.ThemeNameOfHeader | src/explorer.c:109-130 | reading a file that starts with a header gives its name |
| ThemeFile.ThemeTextLines | src/explorer.c:72 | a theme file's lines are its header, its separator, then its payload's lines |
| ThemeFile.RunAfterHeader | src/explorer.c:75-87 | after a name line and a `---` line, everything following is collected |
| ThemeFile.ThemeNameRoundTrip | src/explorer.c:109-130 | the name written in the header is the name read back |
| ThemeFile.CssRoundTrip | src/explorer.c:62-106 | the payload written after the separator is the payload read back |
| ThemeFile.MidnightExample | src/explorer.c:62-130 | `THEMENAME: Midnight`, `---`, `.x{color:red}` gives name `Midnight` and payload `.x{color:red}\n` |
| ThemeFile.Sanitize | src/explorer.c:192-203 | the sanitised name is no longer than the name and holds only `[A-Za-z0-9_-]` |
| ThemeFile.CopySafe | src/explorer.c:190-204 | the loop only appends to what was written, appends safe bytes only, and stops at 251 bytes |
| ThemeFile.CopySafeIsTruncatedSanitize | src/explorer.c:190-205 | the bounded copy loop writes the first bytes of the sanitised name, up to 251 |
| ThemeFile.SafeFileName | src/explorer.c:190-209 | the file name is the sanitised name cut to 251 bytes plus `.wo`, at most 254 bytes, safe bytes before the suffix |
| ThemeFile.SanitizeIdempotent | src/explorer.c:192-203 | sanitising twice is sanitising once |
| ThemeFile.SanitizeAppend | src/explorer.c:192-203 | the sanitiser works byte by byte |
| ThemeFile.SanitizeSafe | src/explorer.c:193-197 | a name of safe bytes is kept as it is |
| ThemeFile.SanitizeCons | src/explorer.c:193-201 | a safe byte is kept, a space becomes `_`, any other byte is dropped |
| ThemeFile.SafeFileNameOfShort | src/explorer.c:190-209 | a name whose sanitised form fits in 251 bytes is stored under that form plus `.wo` |
| ThemeFile.SanitizeExample | src/explorer.c:192-203 | `a b!` sanitises to `a_b`: the space becomes `_` and the `!` is dropped |
| ThemeFile.SafeFileNameExample | src/explorer.c:190-209 | `a b!` is stored as `a_b.wo` |
| ThemeFile.SafeFileNameKeepsOnlySafeNames | src/explorer.c:190-209 | the file name is `name.wo` iff the name has at most 251 bytes, all safe |
| ThemeFile.StripTrailingSlashes | src/explorer.c:183-186 | removes exactly the trailing `/` bytes: a prefix that does not end in `/`, followed in the path only by `/` bytes |
| ThemeFile.Basename | src/explorer.c:183-186 | never empty; `/` exactly for a path of slashes; a path without `/` is its own base name; otherwise, without trailing `/`, the text after the last `/` |
| ThemeFile.BasenameOfJoin | src/explorer.c:183-186 | the base name of `dir/name` is `name` |
| ThemeFile.SavedFileName | src/explorer.c:182-209 | the sanitised declared name, or without one the sanitised base name of the source path; it ends in `.wo` and has no `/` |
| ThemeFile.SavedUnderOwnName | src/explorer.c:182-186 | a file `dir/name` declaring no theme name is stored under its own sanitised name |
| ThemeFile.SaveWoFile | src/explorer.c:177-222 | a file is stored exactly when the source is readable and the copy succeeds; under the sanitised declared name, or the sanitised base name without one; it ends in `.wo` and has no `/` |
| History.Start | src/explorer.c:825-828 | the window starts at the home directory, alone on its timeline |
| History.TimelineDeterminesState | src/explorer.c:473-494 | the timeline and the position determine both stacks |
| History.Navigate | src/explorer.c:496-503 | the new path becomes current, the forward part of the timeline is discarded, and an empty current path is not pushed |
| History.Back | src/explorer.c:505-510 | with an empty back stack nothing changes; otherwise the timeline stays and the position moves one step back to the top of `back` |
| History.Forward | src/explorer.c:512-517 | the mirror image of Back |
| History.BackForwardInverse | src/explorer.c:505-517 | Back then Forward, and Forward then Back, restore the state |
| History.BacksAlongTimeline | src/explorer.c:505-510 | `k` Backs walk `k` steps back along the same timeline |
| History.ForwardsAlongTimeline | src/explorer.c:512-517 | `k` Forwards walk `k` steps forward along the same timeline |
| History.BacksThenForwards | src/explorer.c:505-517 | `k` Backs then `k` Forwards restore the state |
| History.NavigateThenBack | src/explorer.c:496-510 | Back after a navigation returns to the old path, with only the abandoned path ahead |
| History.ThreeFoldersExample | src/explorer.c:496-517 | A, open B, open C, Back, Back, Forward: B is current, with A behind and C ahead |
| History.Parent | src/explorer.c:519-526 | the parent is a non-empty prefix, strictly shorter except for `/`, absolute if the path is, and cut at the last `/`; `/` only when no `/` follows the first two bytes |
| History.ParentOfJoin | src/explorer.c:521-525 | the parent of `dir/name` is `dir`, or `/` directly under the root |
| History.Up | src/explorer.c:519-526 | nothing on `/`; otherwise a recorded navigation to a strictly shorter prefix |
| History.EnterThenUp | src/explorer.c:519-526 | opening a sub-directory and going up returns to the directory, the root included |
| History.Ups | src/explorer.c:519-526 | going up from an absolute path stays absolute |
| History.UpsReachRoot | src/explorer.c:519-526 | as many Ups as the path has bytes reach `/` |
| History.PathEnter | src/explorer.c:528-534 | a directory is navigated to as typed; anything else changes nothing |
| History.UpAsWritten | src/explorer.c:519-526 | as written, `on_up` fails exactly on a current path that is not `/` and holds no `/` |
| History.RelativePathCrashesUp | src/explorer.c:519-534 | entering the relative directory `docs` and pressing Up reaches that failure |
| History.PathEnterFixed | src/explorer.c:528-534 | corrected: the typed path is resolved against the working directory, so the current path is absolute; absolute input is taken as typed |
| History.PathEnterFixedKeepsUpDefined | src/explorer.c:519-534 | corrected: from an absolute current path the current path stays absolute and `on_up` never fails |
| Explorer.Copy | src/explorer.c:589-592 | copy holds the path in copy mode |
| Explorer.Cut | src/explorer.c:594-597 | cut holds the path in move mode |
| Explorer.Paste | src/explorer.c:600-621 | with nothing held nothing happens; otherwise the held path is moved after a cut and copied after a copy, into `dest/`, and the clipboard is emptied |
| Explorer.PasteKeepsName | src/explorer.c:603-605 | an item from `dir/name` is pasted as `dest/name` |
| Explorer.PasteOnce | src/explorer.c:616-617 | a second paste does nothing |
| Explorer.ShortcutLabel | src/explorer.c:769-772 | names up to 14 bytes are kept; longer ones become their first 12 bytes and an ellipsis, 15 bytes |
| Explorer.ShortcutLabelIdempotent | src/explorer.c:769-772 | a label is its own label |
| Explorer.ShortcutLabelCollisions | src/explorer.c:769-772 | long names sharing 12 bytes collide; short names collide only when equal |
| Explorer.ShortcutLabelOfFolder | src/explorer.c:766-772 | the label of folder `dir/name` is the label of `name` |
| Explorer.AddThemeName | src/explorer.c:236-258 | the name is present afterwards, the old entries are a prefix, nothing else is added, no duplicates are created |
| Explorer.SavedThemeName | src/explorer.c:283-290 | a directory entry contributes a name exactly when it is a `.wo` file whose first line declares one, and then that name |
| Explorer.AddSavedTheme | src/explorer.c:286-317 | one directory entry adds exactly the name it declares, if any; the old entries stay a prefix and no duplicate is created |
| Explorer.AddSavedThemes | src/explorer.c:282-319 | the old entries are kept as a prefix and no duplicates are created |
| Explorer.LoadSavedThemes | src/explorer.c:278-322 | an unopenable directory leaves the combo box unchanged |
| Explorer.AddSavedThemesAppend | src/explorer.c:282-319 | the entries are taken in enumeration order: reading the directory in two parts is reading the second part after the first |
| Explorer.AddSavedThemesLast | src/explorer.c:282-319 | a later entry's new name is appended after every name the earlier entries added |
| Explorer.AddSavedThemesMembers | src/explorer.c:282-319 | exactly the old entries and the saved themes' names end up in the combo box |
| Explorer.StartupCombo | src/explorer.c:854-858 | the start-up combo box is `OLED`, `Red`, `Blue`, then saved themes, with no duplicates |
| Explorer.SavedThemeListedLater | src/explorer.c:278-322 | a dropped theme that declares a name is listed at the next start-up once its saved copy is in the theme directory |
| Explorer.SelectTheme | src/explorer.c:261-268 | selects the first entry equal to the name; without one, the last entry |
| Explorer.LoadWo | src/explorer.c:133-175 | a style is applied iff the file has a payload, and that payload is applied |
| Explorer.LoadTheme | src/explorer.c:416-433 | a `.wo` file is read as a theme file from `assets/themes/`, so a style is applied exactly when that file has a payload, and it is that payload; any other file is loaded as a style sheet from there |
| Explorer.BuiltinFile | src/explorer.c:799-804 | exactly the three built-in names have style sheet files |
| Explorer.BuiltinFileIsStyleSheet | src/explorer.c:799-804 | no built-in style sheet file ends in `.wo`, so `load_theme` hands it over as a style sheet |
| Explorer.OnTheme | src/explorer.c:787-810 | as written: no active text changes nothing; a name with a `<name>.wo` in the working directory, or no built-in name, loads `assets/themes/<name>.wo`; otherwise a built-in name loads its style sheet |
| Explorer.BuiltinThemeFiles | src/explorer.c:799-804 | a built-in name loads its style sheet unless a `.wo` file of that name exists |
| Explorer.OnThemeMissesSavedTheme | src/explorer.c:791-809 | as written, a saved theme whose name has a byte the sanitiser changes is never applied |
| Explorer.OnThemeCounterexample | src/explorer.c:787-810 | with `a b!` saved under its sanitised file name, choosing it applies nothing as written, and its payload when corrected |
| Explorer.OnThemeFails | src/explorer.c:791-809 | as written, choosing a saved theme whose name has a byte the sanitiser changes leaves the style unchanged |
| Explorer.OnThemeFixed | src/explorer.c:787-810 | corrected lookup: a file stored under the sanitised name is loaded from the theme directory |
| Explorer.OnThemeFixedFindsSavedTheme | src/explorer.c:177-222 | corrected lookup: choosing a saved theme applies its payload, whatever bytes its name has |
| Explorer.OnThemeFixedBuiltins | src/explorer.c:799-804 | corrected lookup: the built-in names still load their style sheets |
| Explorer.SaveTheme | src/explorer.c:39-59 | the theme is saved exactly when the source can be read and the destination opened; an unsaved theme changes no file; a saved copy ends in `.wo` and holds the source's bytes, unless it is the source itself, which is then left empty |
| Explorer.SelfDropEmptiesTheme | src/explorer.c:39-59 | dropping the theme directory's own copy of a theme truncates it: the copy is empty, nothing is applied and no name is declared |
| Explorer.SavedCopyDeclaresName | src/explorer.c:229-236 | the saved copy declares a name iff the source does and is not its own destination; that name gives the stored file name |
| Explorer.ApplyWoTheme | src/explorer.c:225-275 | a failed save changes nothing; otherwise the payload of the saved copy is applied, whether or not it declares a name; the combo box is untouched or gains the declared name once, which is selected, and re-choosing it reloads the applied style under the corrected lookup |

## Left out

- GTK plumbing is not modelled. This covers widgets, list stores as objects,
  CSS providers, signals, dialogs and the drag-and-drop URI handling and
  widget walk of `on_theme_drop`. Stores and the combo box are sequences.
- Explorer.ApplyWoTheme: `style` is the style set from the saved copy at
  src/explorer.c:233. Selecting an entry afterwards fires the combo box's
  `changed` signal, which calls `on_theme` for each entry tried and replaces
  that style. The emission is not modelled, so the window's final style is
  not the returned `style`.
- Explorer.SaveTheme: the map has one entry per path string. When the
  destination is the dropped file under another path (`sameFile`), both
  paths are emptied; any other aliasing between paths (links, `..`,
  `./`) is not tracked.
- Explorer.OnTheme: the test for `<name>.wo` in the working directory is
  `g_file_test(…, G_FILE_TEST_EXISTS)` (src/explorer.c:795). The map holds
  readable files only, so a file that exists but cannot be read counts as
  absent. For a built-in name the model then loads its style sheet, where
  the source would take the `.wo` branch and load nothing.
- Explorer.LoadWo: a payload that `gtk_css_provider_load_from_data` rejects
  (src/explorer.c:145-151) is treated like any other payload. The CSS parser
  is GTK's and is not modelled.
- Shell-outs and syscalls are not modelled: `xdg-open`, `rm -rf`, `cp -r`,
  `mv`, `rename`, `mkdir` in `ensure_theme_directory`, and `file_delete` and
  `file_rename`. A paste returns the transfer it would run.
- `get_free`, `get_human_size` and `update_status` are left out. They are
  floating-point formatting and counting widgets.
- Pixbuf loading and scaling are left out, as are the grey placeholder square,
  the icon caches and thumbnails. `utils_load_scaled` never returns NULL, so
  an icon is its decision.
- The real filesystem is not modelled: the lister sees a tree.
  - In sudo mode a listed `..` makes `deep` search the parent again, so the
    real walk does not terminate. A tree cannot express that.
  - `DotDotListedOnlyInSudo` shows that `..` gets through the filter.
- Fixed buffers are not modelled:
  - the 4096-byte paths of `make_entry`, `utils_list_dir`, `on_up` and
    `file_paste`;
  - the 256-byte icon path;
  - the 512-byte theme paths;
  - the 256-byte `wo_file` of `on_theme`;
  - the 64-byte shortcut label;
  - the `g_strlcpy` into `current_path` and `clipboard_path`.

  Paths are assumed to fit. The `fgets` line buffers (4096 and 256 bytes) and
  the 256-byte `safe_name` ARE modelled.
- `strcasestr` folds ASCII case only. Other locales are not modelled.
- Strings hold no NUL byte.
- `History.Parent` requires the path to contain `/`. `on_up` writes through
  the result of `g_strrstr`, so a path without `/` is undefined behaviour in
  the source. `History.UpAsWritten` marks that case as a failure; see
  "Findings".
- `sidebar_open` is a recorded navigation to the shortcut's path:
  `History.Navigate`. What `g_file_test` reports for the typed text of the
  address bar is a parameter of `History.PathEnter`.
- `src/main.c` is not part of this model.

## Findings

| source | as written | input that shows it | evidently intended | confidence | as-written member | corrected member |
|---|---|---|---|---|---|---|
| src/explorer.c:787-810 | `on_theme` looks for `<name>.wo` in the working directory and loads `assets/themes/<name>.wo` from the raw combo-box text. `save_wo_file` stores a dropped theme under the sanitised name. | A theme declaring `THEMENAME: a b!` is saved as `assets/themes/a_b.wo`. Choosing `a b!` later reads `assets/themes/a b!.wo`, which does not exist, and the style does not change. | Choosing a saved theme loads the file it was saved as: `assets/themes/` plus the sanitised name. | medium, not executed | Explorer.OnThemeCounterexample | Explorer.OnThemeFixedFindsSavedTheme |
| src/explorer.c:519-534 | `on_path_enter` navigates to the typed text as it is whenever it names a directory, relative paths included. `on_up` then looks for the last `/` with `g_strrstr` and writes through the result without a NULL check. | From `/home`, type `docs` in the address bar while the working directory holds a `docs` directory, then press Up: the current path `docs` holds no `/` and `on_up` writes through NULL. | The current path is always absolute, as every other navigation keeps it: a typed relative path is resolved against the working directory. | low, not executed | History.RelativePathCrashesUp | History.PathEnterFixedKeepsUpDefined |
