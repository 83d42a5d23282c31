/** The smaller pieces of window logic in src/explorer.c that are pure once
    the widgets are replaced by values: the clipboard, the label of a
    sidebar shortcut, the theme combo box (filled from the saved themes and
    extended when a theme file is dropped) and the mapping from the chosen
    theme to the style that is loaded.

    Files are a map from paths relative to the working directory to their
    bytes; a path that is not a key does not exist or cannot be read. */
module Explorer {
  import opened Base
  import opened Text
  import opened ThemeFile

  // ---------------------------------------------------------------------
  // Clipboard: do_copy, do_cut, file_paste
  // ---------------------------------------------------------------------

  /** `clipboard_path` (empty when nothing is held) and `clipboard_cut`. */
  datatype Clipboard = Clipboard(path: string, cut: bool)

  /** The file operation a paste hands to the shell. */
  datatype Transfer = MoveTo(src: string, dst: string) | CopyTo(src: string, dst: string)

  const EmptyClipboard := Clipboard("", false)

  /** `do_copy`: hold `p` for copying. */
  function Copy(p: string): (c: Clipboard)
    ensures c.path == p && !c.cut
  {
    Clipboard(p, false)
  }

  /** `do_cut`: hold `p` for moving. */
  function Cut(p: string): (c: Clipboard)
    ensures c.path == p && c.cut
  {
    Clipboard(p, true)
  }

  /** `file_paste`: with nothing held, nothing happens; otherwise the held
      item is moved (after a cut) or copied (after a copy) to `dest/` plus
      its base name, and the clipboard is emptied. */
  function Paste(c: Clipboard, dest: string): (r: (Clipboard, Option<Transfer>))
    ensures c.path == "" ==> r == (c, None)
    ensures c.path != "" ==> r.0 == EmptyClipboard && r.1.Some?
    ensures r.1.Some? ==> r.1.value.src == c.path
    ensures r.1.Some? ==> (r.1.value.MoveTo? <==> c.cut)
    ensures r.1.Some? ==> var d := r.1.value.dst;
                          && HasPrefix(d, dest + "/") && d[|dest| + 1..] != []
                          && (d[|dest| + 1..] == "/" || '/' !in d[|dest| + 1..])
  {
    if c.path == "" then (c, None)
    else
      var base := Basename(c.path);
      var out := dest + "/" + base;
      assert out[|dest| + 1..] == base;
      (EmptyClipboard, Some(if c.cut then MoveTo(c.path, out) else CopyTo(c.path, out)))
  }

  /** Pasting an item taken from a listing of `dir` puts it under the same
      name in `dest`. */
  lemma PasteKeepsName(dir: string, name: string, cut: bool, dest: string)
    requires name != [] && '/' !in name
    ensures Paste(Clipboard(dir + "/" + name, cut), dest).1.value.dst == dest + "/" + name
  {
    BasenameOfJoin(dir, name);
  }

  /** A paste empties the clipboard, so pasting again does nothing. */
  lemma PasteOnce(c: Clipboard, dest1: string, dest2: string)
    ensures Paste(Paste(c, dest1).0, dest2).1 == None
  {
  }

  // ---------------------------------------------------------------------
  // add_shortcut: the button label
  // ---------------------------------------------------------------------

  /** The UTF-8 bytes of U+2026 HORIZONTAL ELLIPSIS. */
  const Ellipsis: string := ['\U{E2}', '\U{80}', '\U{A6}']

  /** The label of a sidebar shortcut: a base name of more than 14 bytes is
      cut to its first 12 bytes followed by an ellipsis. */
  function ShortcutLabel(base: string): (r: string)
    ensures |base| <= 14 ==> r == base
    ensures |base| > 14 ==> |r| == 15 && HasPrefix(base, r[..12]) && HasSuffix(r, Ellipsis)
  {
    if |base| > 14 then base[..12] + Ellipsis else base
  }

  /** A label is its own label: shortening never needs to be done twice. */
  lemma ShortcutLabelIdempotent(base: string)
    ensures ShortcutLabel(ShortcutLabel(base)) == ShortcutLabel(base)
  {
    if |base| > 14 {
      var r := ShortcutLabel(base);
      assert r[..12] == base[..12];
    }
  }

  /** Two long names agreeing on their first 12 bytes get the same label;
      two short names get the same label only when they are equal. */
  lemma ShortcutLabelCollisions(a: string, b: string)
    ensures |a| > 14 && |b| > 14 && a[..12] == b[..12] ==> ShortcutLabel(a) == ShortcutLabel(b)
    ensures |a| <= 14 && |b| <= 14 ==> (ShortcutLabel(a) == ShortcutLabel(b) <==> a == b)
  {
  }

  /** The label of the shortcut added for the folder `dir/name`. */
  lemma ShortcutLabelOfFolder(dir: string, name: string)
    requires name != [] && '/' !in name
    ensures ShortcutLabel(Basename(dir + "/" + name)) == ShortcutLabel(name)
  {
    BasenameOfJoin(dir, name);
  }

  // ---------------------------------------------------------------------
  // The theme combo box
  // ---------------------------------------------------------------------

  /** The three built-in themes the combo box starts with. */
  const BuiltinThemes: seq<string> := ["OLED", "Red", "Blue"]

  predicate NoDuplicates(s: seq<string>) {
    forall i, j :: 0 <= i < j < |s| ==> s[i] != s[j]
  }

  /** The de-duplicating append: `name` is added at the end unless an
      entry already equals it. */
  function AddThemeName(combo: seq<string>, name: string): (r: seq<string>)
    ensures combo <= r && |r| <= |combo| + 1
    ensures name in r
    ensures forall x :: x in r <==> x in combo || x == name
    ensures NoDuplicates(combo) ==> NoDuplicates(r)
  {
    if name in combo then combo else combo + [name]
  }

  /** One entry of the theme directory: its file name and its bytes, or
      None when it cannot be read. */
  datatype DirEntry = DirEntry(fileName: string, content: Option<string>)

  /** The theme name a directory entry contributes: only `.wo` files whose
      first line declares a name do. */
  function SavedThemeName(e: DirEntry): (r: Option<string>)
    ensures r.Some? <==> HasSuffix(e.fileName, ".wo") && ThemeName(e.content).Some?
    ensures r.Some? ==> ThemeName(e.content) == r
  {
    if HasSuffix(e.fileName, ".wo") then ThemeName(e.content) else None
  }

  /** One turn of the loop of `load_saved_wo_themes`: the name entry `e`
      declares, if any, is added without duplicates. */
  function AddSavedTheme(combo: seq<string>, e: DirEntry): (r: seq<string>)
    ensures combo <= r
    ensures NoDuplicates(combo) ==> NoDuplicates(r)
    ensures forall x :: x in r <==> x in combo || SavedThemeName(e) == Some(x)
  {
    match SavedThemeName(e)
    case Some(n) => AddThemeName(combo, n)
    case None => combo
  }

  /** The loop of `load_saved_wo_themes` over the directory entries in
      enumeration order. */
  function AddSavedThemes(combo: seq<string>, entries: seq<DirEntry>): (r: seq<string>)
    ensures combo <= r
    ensures NoDuplicates(combo) ==> NoDuplicates(r)
    decreases |entries|
  {
    if entries == [] then combo
    else AddSavedThemes(AddSavedTheme(combo, entries[0]), entries[1..])
  }

  /** `load_saved_wo_themes`: an unopenable directory leaves the combo box
      as it is. */
  function LoadSavedThemes(combo: seq<string>, dir: Option<seq<DirEntry>>): (r: seq<string>)
    ensures dir.None? ==> r == combo
    ensures combo <= r
  {
    match dir
    case None => combo
    case Some(entries) => AddSavedThemes(combo, entries)
  }

  /** Exactly the old entries and the names of the saved themes end up in
      the combo box. */
  lemma {:induction false} AddSavedThemesMembers(combo: seq<string>, entries: seq<DirEntry>, x: string)
    ensures x in AddSavedThemes(combo, entries)
        <==> x in combo || exists i :: 0 <= i < |entries| && SavedThemeName(entries[i]) == Some(x)
    decreases |entries|
  {
    if entries != [] {
      var rest := entries[1..];
      var next := AddSavedTheme(combo, entries[0]);
      assert AddSavedThemes(combo, entries) == AddSavedThemes(next, rest);
      AddSavedThemesMembers(next, rest, x);
      ExistsCons(entries, e => SavedThemeName(e) == Some(x));
    }
  }

  /** The entries are taken in enumeration order: the directory read in two
      parts gives the combo box the second part leaves after the first. */
  lemma {:induction false} AddSavedThemesAppend(combo: seq<string>, a: seq<DirEntry>, b: seq<DirEntry>)
    ensures AddSavedThemes(combo, a + b) == AddSavedThemes(AddSavedThemes(combo, a), b)
    decreases |a|
  {
    if a == [] {
      assert a + b == b;
    } else {
      assert (a + b)[0] == a[0] && (a + b)[1..] == a[1..] + b;
      AddSavedThemesAppend(AddSavedTheme(combo, a[0]), a[1..], b);
    }
  }

  /** The name of a later entry, when new, goes after every name the
      earlier entries added. */
  lemma AddSavedThemesLast(combo: seq<string>, entries: seq<DirEntry>, e: DirEntry)
    ensures AddSavedThemes(combo, entries + [e]) == AddSavedTheme(AddSavedThemes(combo, entries), e)
  {
    AddSavedThemesAppend(combo, entries, [e]);
    assert [e][1..] == [];
  }

  /** The combo box after start-up: the built-in themes, then each saved
      theme once, with no name listed twice. */
  lemma StartupCombo(dir: Option<seq<DirEntry>>)
    ensures BuiltinThemes <= LoadSavedThemes(BuiltinThemes, dir)
    ensures NoDuplicates(LoadSavedThemes(BuiltinThemes, dir))
  {
    assert NoDuplicates(BuiltinThemes);
  }

  /** The theme directory as `load_saved_wo_themes` reads it from the
      files `fs`: `names` are the file names `g_dir_read_name` yields. */
  function DirEntries(fs: map<string, string>, names: seq<string>): (r: seq<DirEntry>)
    ensures |r| == |names|
    ensures forall i :: 0 <= i < |r| ==> r[i] == DirEntry(names[i], Read(fs, ThemeDir + names[i]))
  {
    seq(|names|, i requires 0 <= i < |names| => DirEntry(names[i], Read(fs, ThemeDir + names[i])))
  }

  /** A dropped theme that declares a name is offered at the next start-up:
      once its saved copy is among the files of the theme directory, the
      combo box lists the name. */
  lemma SavedThemeListedLater(fs: map<string, string>, srcPath: string, n: string,
                              names: seq<string>, combo: seq<string>)
    requires srcPath in fs && ThemeName(Some(fs[srcPath])) == Some(n)
    requires SafeFileName(n) in names && ThemeDir + SafeFileName(n) != srcPath
    ensures n in LoadSavedThemes(combo, Some(DirEntries(SaveTheme(fs, srcPath, true, false).0, names)))
  {
    var (fs', stored) := SaveTheme(fs, srcPath, true, false);
    SavedCopyDeclaresName(fs, srcPath, true, false);
    assert stored == Some(SafeFileName(n));
    var entries := DirEntries(fs', names);
    var i :| 0 <= i < |names| && names[i] == SafeFileName(n);
    assert SavedThemeName(entries[i]) == Some(n);
    AddSavedThemesMembers(combo, entries, n);
  }

  /** The selection loop of `apply_wo_theme`: every entry is made active in
      turn until the active text equals `name`. With no match the last
      entry stays active; with no entries the selection is not touched
      (None). */
  method SelectTheme(combo: seq<string>, name: string) returns (active: Option<nat>)
    ensures name in combo ==> && active.Some? && active.value < |combo|
                              && combo[active.value] == name
                              && name !in combo[..active.value]
    ensures name !in combo ==> active == (if combo == [] then None else Some(|combo| - 1))
  {
    active := None;
    var i := 0;
    while i < |combo|
      invariant 0 <= i <= |combo|
      invariant name !in combo[..i]
      invariant active == (if i == 0 then None else Some(i - 1))
    {
      active := Some(i);
      if combo[i] == name {
        return;
      }
      assert combo[..i + 1] == combo[..i] + [combo[i]];
      i := i + 1;
    }
    assert combo[..i] == combo;
  }

  // ---------------------------------------------------------------------
  // Loading a theme
  // ---------------------------------------------------------------------

  /** What a theme action does to the window's style: nothing, a style
      sheet from a theme file's payload, or a style sheet file to load. */
  datatype Style = Unchanged | Css(text: string) | CssFile(path: string)

  function Read(fs: map<string, string>, path: string): (r: Option<string>)
    ensures r.Some? <==> path in fs
  {
    if path in fs then Some(fs[path]) else None
  }

  /** `load_theme_from_wo`: the payload of the file, or no change when it
      has none (or cannot be read). */
  function LoadWo(fs: map<string, string>, path: string): (r: Style)
    ensures r.Css? <==> path in fs && ExtractCss(Some(fs[path])).Some?
    ensures r.Css? ==> r.text == ExtractCss(Some(fs[path])).value
    ensures !r.CssFile?
  {
    match ExtractCss(Read(fs, path))
    case Some(css) => Css(css)
    case None => Unchanged
  }

  /** `load_theme`: a file in `assets/themes/`, read as a theme file when
      its name ends in `.wo` and handed over as a style sheet file
      otherwise. */
  function LoadTheme(file: string, fs: map<string, string>): (r: Style)
    ensures HasSuffix(file, ".wo") ==> !r.CssFile?
    ensures HasSuffix(file, ".wo")
            ==> (r.Css? <==> ThemeDir + file in fs && ExtractCss(Some(fs[ThemeDir + file])).Some?)
    ensures !HasSuffix(file, ".wo") ==> r == CssFile(ThemeDir + file)
    ensures r.Css? ==> ThemeDir + file in fs && ExtractCss(Some(fs[ThemeDir + file])) == Some(r.text)
  {
    if HasSuffix(file, ".wo") then LoadWo(fs, ThemeDir + file) else CssFile(ThemeDir + file)
  }

  /** The style sheet file of a built-in theme, if `name` is one. */
  function BuiltinFile(name: string): (r: Option<string>)
    ensures r.Some? <==> name in BuiltinThemes
  {
    if name == "OLED" then Some("oled.css")
    else if name == "Red" then Some("red.css")
    else if name == "Blue" then Some("blue.css")
    else None
  }

  /** `on_theme` as written: when `<name>.wo` exists in the working
      directory, or the name is no built-in one, `assets/themes/<name>.wo`
      is loaded; otherwise the built-in style sheet. */
  function OnTheme(t: Option<string>, fs: map<string, string>): (r: Style)
    ensures t.None? ==> r == Unchanged
    ensures t.Some? && (t.value + ".wo" in fs || BuiltinFile(t.value).None?)
            ==> r == LoadWo(fs, ThemeDir + t.value + ".wo")
    ensures t.Some? && t.value + ".wo" !in fs && BuiltinFile(t.value).Some?
            ==> r == CssFile(ThemeDir + BuiltinFile(t.value).value)
  {
    match t
    case None => Unchanged
    case Some(name) =>
      var wo := name + ".wo";
      SuffixOfAppend(name, ".wo");
      BuiltinFileIsStyleSheet(name);
      assert ThemeDir + wo == ThemeDir + name + ".wo";
      if wo in fs then LoadTheme(wo, fs)
      else match BuiltinFile(name)
        case Some(css) => LoadTheme(css, fs)
        case None => LoadTheme(wo, fs)
  }

  /** The built-in themes load their style sheet files from
      `assets/themes/` unless a `.wo` file of the same name shadows them. */
  lemma BuiltinThemeFiles(name: string, fs: map<string, string>)
    requires name in BuiltinThemes && name + ".wo" !in fs
    ensures OnTheme(Some(name), fs) == CssFile(ThemeDir + BuiltinFile(name).value)
  {
    BuiltinFileIsStyleSheet(name);
  }

  /** `on_theme` looks for `<name>.wo` in the theme directory, but a saved
      theme is stored under its sanitised name. For a name with a byte the
      sanitiser changes or drops, the saved theme is never applied: the
      lookup reads a file that is not there. */
  lemma OnThemeMissesSavedTheme(name: string, css: string, fs: map<string, string>)
    requires ValidThemeName(name) && css != []
    requires exists i :: 0 <= i < |name| && !IsSafeChar(name[i])
    requires ThemeDir + name + ".wo" !in fs
    ensures var saved := fs[ThemeDir + SafeFileName(name) := ThemeText(name, css)];
            !OnTheme(Some(name), saved).Css?
  {
    var file := SafeFileName(name);
    var wo := name + ".wo";
    SafeFileNameKeepsOnlySafeNames(name);
    assert file != wo;
    JoinCancels(ThemeDir, file, wo);
    assert ThemeDir + wo == ThemeDir + name + ".wo";
    var saved := fs[ThemeDir + file := ThemeText(name, css)];
    assert ThemeDir + wo !in saved;
    BuiltinFileIsStyleSheet(name);
  }

  /** A built-in theme's file is a style sheet, never a `.wo` file. */
  lemma BuiltinFileIsStyleSheet(name: string)
    ensures BuiltinFile(name).Some? ==> !HasSuffix(BuiltinFile(name).value, ".wo")
  {
    var f := BuiltinFile(name);
    if f.Some? {
      assert f.value[|f.value| - 3] == 'c';
    }
  }

  /** A small case of the discrepancy: a theme named `a b!` is saved under
      the sanitised name `a_b.wo`; choosing it applies nothing as written,
      and its payload with the corrected lookup. */
  lemma OnThemeCounterexample()
    ensures var fs := map[ThemeDir + SafeFileName("a b!") := ThemeText("a b!", "x\n")];
            OnTheme(Some("a b!"), fs) == Unchanged && OnThemeFixed(Some("a b!"), fs) == Css("x\n")
  {
    var name := "a b!";
    assert name[1] == ' ' && !IsSafeChar(name[1]);
    assert ValidThemeName(name);
    assert name !in BuiltinThemes;
    OnThemeFails(name, "x\n");
    OnThemeFixedFindsSavedTheme(name, "x\n", map[]);
  }

  lemma OnThemeFails(name: string, css: string)
    requires ValidThemeName(name) && css != []
    requires exists i :: 0 <= i < |name| && !IsSafeChar(name[i])
    requires BuiltinFile(name).None?
    ensures var fs := map[ThemeDir + SafeFileName(name) := ThemeText(name, css)];
            OnTheme(Some(name), fs) == Unchanged
  {
    var fs := map[ThemeDir + SafeFileName(name) := ThemeText(name, css)];
    assert fs == map[][ThemeDir + SafeFileName(name) := ThemeText(name, css)];
    OnThemeMissesSavedTheme(name, css, map[]);
    var r := OnTheme(Some(name), fs);
    assert r == LoadWo(fs, ThemeDir + name + ".wo");
    assert !r.Css? && !r.CssFile?;
  }

  /** `on_theme` with the lookup corrected: the theme directory is searched
      for the file name `save_wo_file` gives the theme, before the built-in
      names. */
  function OnThemeFixed(t: Option<string>, fs: map<string, string>): (r: Style)
    ensures t.None? ==> r == Unchanged
    ensures t.Some? && ThemeDir + SafeFileName(t.value) in fs
            ==> r == LoadWo(fs, ThemeDir + SafeFileName(t.value))
  {
    match t
    case None => Unchanged
    case Some(name) =>
      var wo := SafeFileName(name);
      assert HasSuffix(wo, ".wo");
      if ThemeDir + wo in fs then LoadTheme(wo, fs)
      else match BuiltinFile(name)
        case Some(css) => LoadTheme(css, fs)
        case None => LoadTheme(wo, fs)
  }

  /** With the corrected lookup, choosing a saved theme applies its
      payload, whatever bytes its name contains. */
  lemma OnThemeFixedFindsSavedTheme(name: string, css: string, fs: map<string, string>)
    requires ValidThemeName(name) && css != []
    ensures var saved := fs[ThemeDir + SafeFileName(name) := ThemeText(name, css)];
            OnThemeFixed(Some(name), saved) == Css(css)
  {
    CssRoundTrip(name, css);
  }

  /** The built-in names keep working with the corrected lookup while no
      saved theme takes their file name. */
  lemma OnThemeFixedBuiltins(name: string, fs: map<string, string>)
    requires name in BuiltinThemes && ThemeDir + SafeFileName(name) !in fs
    ensures OnThemeFixed(Some(name), fs) == CssFile(ThemeDir + BuiltinFile(name).value)
  {
    BuiltinFileIsStyleSheet(name);
  }

  // ---------------------------------------------------------------------
  // Dropping a theme file: apply_wo_theme
  // ---------------------------------------------------------------------

  /** Whether the copy of `save_wo_file` writes onto the dropped file
      itself. The dropped path is absolute and the destination is relative
      to the working directory, so the two strings do not tell; `sameFile`
      says it, and equal strings always name the same file. */
  predicate SelfCopy(srcPath: string, stored: string, sameFile: bool) {
    sameFile || ThemeDir + stored == srcPath
  }

  /** `copy_file` followed by the bookkeeping of `save_wo_file`: the files
      after the copy, and the stored file name. Reading the source
      (`srcPath in fs`) and opening the destination for writing
      (`canWrite`) may fail. When the destination is the source itself,
      opening it for writing truncates it before it is read, so the file
      ends up empty under both of its paths. */
  function SaveTheme(fs: map<string, string>, srcPath: string, canWrite: bool, sameFile: bool)
    : (r: (map<string, string>, Option<string>))
    ensures r.1.Some? <==> srcPath in fs && canWrite
    ensures r.1.None? ==> r.0 == fs
    ensures r.1.Some? ==> ThemeDir + r.1.value in r.0
    ensures r.1.Some? ==> HasSuffix(r.1.value, ".wo") && '/' !in r.1.value
    ensures r.1.Some? && !SelfCopy(srcPath, r.1.value, sameFile)
            ==> r.0 == fs[ThemeDir + r.1.value := fs[srcPath]]
    ensures r.1.Some? && SelfCopy(srcPath, r.1.value, sameFile)
            ==> r.0 == fs[ThemeDir + r.1.value := ""][srcPath := ""]
  {
    match SaveWoFile(srcPath, Read(fs, srcPath), canWrite)
    case None => (fs, None)
    case Some(stored) =>
      var dst := ThemeDir + stored;
      if SelfCopy(srcPath, stored, sameFile) then (fs[dst := ""][srcPath := ""], Some(stored))
      else (fs[dst := fs[srcPath]], Some(stored))
  }

  /** Dropping the theme directory's own copy of a theme leaves that copy
      empty: nothing is applied and no name is declared. */
  lemma SelfDropEmptiesTheme(fs: map<string, string>, srcPath: string)
    requires srcPath in fs
    ensures var (fs', stored) := SaveTheme(fs, srcPath, true, true);
            && stored.Some?
            && Read(fs', ThemeDir + stored.value) == Some("")
            && LoadWo(fs', ThemeDir + stored.value) == Unchanged
            && ThemeName(Read(fs', ThemeDir + stored.value)).None?
  {
    var (fs', stored) := SaveTheme(fs, srcPath, true, true);
    assert ExtractCss(Some("")) == None by {
      assert Lines("", CssLineCap) == [];
    }
  }

  /** A saved copy that declares a theme name holds the bytes of the
      source, which declares the same name, and is stored under the
      sanitised form of that name. */
  lemma SavedCopyDeclaresName(fs: map<string, string>, srcPath: string, canWrite: bool, sameFile: bool)
    requires srcPath in fs && canWrite
    ensures var (fs', stored) := SaveTheme(fs, srcPath, canWrite, sameFile);
            var path := ThemeDir + stored.value;
            ThemeName(Read(fs', path)).Some? <==>
              !SelfCopy(srcPath, stored.value, sameFile) && ThemeName(Read(fs, srcPath)).Some?
    ensures var (fs', stored) := SaveTheme(fs, srcPath, canWrite, sameFile);
            var path := ThemeDir + stored.value;
            ThemeName(Read(fs', path)).Some? ==>
              && ThemeName(Read(fs', path)) == ThemeName(Read(fs, srcPath))
              && stored.value == SafeFileName(ThemeName(Read(fs, srcPath)).value)
  {
  }

  /** `apply_wo_theme`: save the dropped file, apply the payload of the
      saved copy, and add the theme name of the saved copy to the combo box
      (once) and select it. Returns the files, the combo box entries, the
      entry made active (None: untouched) and the style applied. */
  method ApplyWoTheme(fs: map<string, string>, srcPath: string, canWrite: bool, sameFile: bool,
                      combo: seq<string>)
    returns (fs': map<string, string>, combo': seq<string>, active: Option<nat>, style: Style)
    ensures SaveTheme(fs, srcPath, canWrite, sameFile).1.None?
            ==> fs' == fs && combo' == combo && active.None? && style == Unchanged
    ensures fs' == SaveTheme(fs, srcPath, canWrite, sameFile).0
    ensures var stored := SaveTheme(fs, srcPath, canWrite, sameFile).1;
            stored.Some? ==> style == LoadWo(fs', ThemeDir + stored.value)
    ensures combo' == combo
            || (ThemeName(Read(fs, srcPath)).Some?
                && combo' == AddThemeName(combo, ThemeName(Read(fs, srcPath)).value))
    ensures combo <= combo' && |combo'| <= |combo| + 1
    ensures NoDuplicates(combo) ==> NoDuplicates(combo')
    ensures active.Some? ==> active.value < |combo'|
    ensures active.Some? ==> ThemeName(Read(fs, srcPath)) == Some(combo'[active.value])
    ensures active.Some? ==> OnThemeFixed(Some(combo'[active.value]), fs') == style
    ensures var stored := SaveTheme(fs, srcPath, canWrite, sameFile).1;
            stored.Some? && !SelfCopy(srcPath, stored.value, sameFile) && ThemeName(Read(fs, srcPath)).Some?
            ==> active.Some?
  {
    var saved := SaveTheme(fs, srcPath, canWrite, sameFile);
    fs' := saved.0;
    combo' := combo;
    active := None;
    style := Unchanged;
    if saved.1.Some? {
      var path := ThemeDir + saved.1.value;
      style := LoadWo(fs', path);
      var name := ThemeName(Read(fs', path));
      SavedCopyDeclaresName(fs, srcPath, canWrite, sameFile);
      if name.Some? {
        var n := name.value;
        assert ThemeDir + SafeFileName(n) == path && path in fs';
        combo' := AddThemeName(combo, n);
        active := SelectTheme(combo', n);
      }
    }
  }
}
