/** The directory lister and icon resolver of src/utils.c.

    The filesystem is a finite tree. A directory's contents are what
    `opendir`/`readdir` yield for it: nothing when it cannot be opened,
    otherwise its raw entries in enumeration order, `.` and `..` included.
    Each raw entry carries what `lstat` reports for it. */
module Listing {
  import opened Base
  import opened Text

  /** What `lstat` says about one raw entry. `lstat` classifies an entry by
      its own type, so a symbolic link to a directory is a `Symlink`. */
  datatype Kind =
    | StatFailed
    | Directory(contents: Contents)
    | Symlink
    | Regular  // every other type S_ISDIR rejects: files, devices, sockets

  /** A directory as `opendir`/`readdir` see it. */
  datatype Contents = Unopenable | Enumerated(entries: seq<Node>)

  /** One raw `readdir` result. */
  datatype Node = Node(name: string, kind: Kind)

  /** `UtilsEntry` of src/utils.h: the name, the full path, and whether
      `lstat` saw a directory. */
  datatype Entry = Entry(name: string, path: string, isDir: bool)

  /** A dotfile: the first byte of the name is `.`. */
  predicate IsHidden(name: string) {
    |name| > 0 && name[0] == '.'
  }

  /** The three skips of the listing loop: the self entry `.`, dotfiles
      unless `sudo` is on, and entries `lstat` fails on. */
  predicate Listed(n: Node, sudo: bool) {
    && n.name != "."
    && (sudo || !IsHidden(n.name))
    && !n.kind.StatFailed?
  }

  /** `make_entry`: the path is the directory, a slash, and the name. */
  function MakeEntry(dir: string, n: Node): (r: Entry)
    ensures r.name == n.name && (r.isDir <==> n.kind.Directory?)
    ensures HasPrefix(r.path, dir + "/") && r.path[|dir| + 1..] == n.name
  {
    Entry(n.name, dir + "/" + n.name, n.kind.Directory?)
  }

  /** Within one directory, two entries have the same path exactly when
      they have the same name. */
  lemma MakeEntryPaths(dir: string, n: Node, m: Node)
    ensures MakeEntry(dir, n).path == MakeEntry(dir, m).path <==> n.name == m.name
  {
    JoinCancels(dir + "/", n.name, m.name);
  }

  /** The entries listed from the raw entries `raw` of directory `dir`. */
  function ListEntries(dir: string, raw: seq<Node>, sudo: bool): (r: seq<Entry>)
    ensures |r| <= |raw|
    ensures forall e :: e in r ==> e.name != "." && e.path == dir + "/" + e.name
    ensures !sudo ==> forall e :: e in r ==> !IsHidden(e.name)
  {
    if raw == [] then []
    else
      (if Listed(raw[0], sudo) then [MakeEntry(dir, raw[0])] else [])
      + ListEntries(dir, raw[1..], sudo)
  }

  /** `utils_list_dir`: the listing of directory `dir` whose contents are `c`. */
  function ListDir(dir: string, c: Contents, sudo: bool): (r: seq<Entry>)
    ensures c.Unopenable? ==> r == []
    ensures forall e :: e in r ==> e.name != "." && e.path == dir + "/" + e.name
    ensures !sudo ==> forall e :: e in r ==> !IsHidden(e.name)
  {
    match c
    case Unopenable => []
    case Enumerated(raw) => ListEntries(dir, raw, sudo)
  }

  /** The listing is a homomorphism of the enumeration: listing two runs of
      raw entries one after the other lists each run in turn, so the
      listing keeps the enumeration order. */
  lemma {:induction false} ListEntriesAppend(dir: string, a: seq<Node>, b: seq<Node>, sudo: bool)
    ensures ListEntries(dir, a + b, sudo) == ListEntries(dir, a, sudo) + ListEntries(dir, b, sudo)
  {
    if a == [] {
      assert a + b == b;
    } else {
      var h := if Listed(a[0], sudo) then [MakeEntry(dir, a[0])] else [];
      var x := ListEntries(dir, a[1..], sudo);
      var y := ListEntries(dir, b, sudo);
      assert (a + b)[0] == a[0];
      assert (a + b)[1..] == a[1..] + b;
      ListEntriesAppend(dir, a[1..], b, sudo);
      assert ListEntries(dir, a + b, sudo) == h + (x + y);
      assert ListEntries(dir, a, sudo) == h + x;
      AppendAssoc(h, x, y);
    }
  }

  /** An entry is listed exactly when some raw entry passes the three skips
      and `make_entry` builds it. */
  lemma {:induction false} ListEntriesMembers(dir: string, raw: seq<Node>, sudo: bool, e: Entry)
    ensures e in ListEntries(dir, raw, sudo)
        <==> exists i :: 0 <= i < |raw| && Listed(raw[i], sudo) && e == MakeEntry(dir, raw[i])
  {
    if raw != [] {
      ListEntriesMembers(dir, raw[1..], sudo, e);
      if e in ListEntries(dir, raw[1..], sudo) {
        var i :| 0 <= i < |raw[1..]| && Listed(raw[1..][i], sudo) && e == MakeEntry(dir, raw[1..][i]);
        assert raw[i + 1] == raw[1..][i];
      }
      if exists i :: 0 <= i < |raw| && Listed(raw[i], sudo) && e == MakeEntry(dir, raw[i]) {
        var i :| 0 <= i < |raw| && Listed(raw[i], sudo) && e == MakeEntry(dir, raw[i]);
        if i > 0 {
          assert raw[1..][i - 1] == raw[i];
        }
      }
    }
  }

  /** The listing with dotfiles shown: `..` is hidden only by the dotfile
      rule, so with `sudo` on a `..` entry `lstat` succeeds on is listed. */
  lemma DotDotListedOnlyInSudo(dir: string, raw: seq<Node>, i: nat)
    requires i < |raw| && raw[i].name == ".." && !raw[i].kind.StatFailed?
    ensures MakeEntry(dir, raw[i]) in ListDir(dir, Enumerated(raw), true)
    ensures MakeEntry(dir, raw[i]) !in ListDir(dir, Enumerated(raw), false)
  {
    ListEntriesMembers(dir, raw, true, MakeEntry(dir, raw[i]));
  }

  /** The entries of `es` that are not dotfiles, in order. */
  function HideDotfiles(es: seq<Entry>): (r: seq<Entry>)
    ensures forall e :: e in r <==> e in es && !IsHidden(e.name)
  {
    if es == [] then []
    else (if IsHidden(es[0].name) then [] else [es[0]]) + HideDotfiles(es[1..])
  }

  /** Turning `sudo` off reads the same enumeration and only adds the
      dotfile filter: the plain listing is the `sudo` listing with the
      dotfiles taken out, in the same order. */
  lemma {:induction false} SudoOnlyRevealsDotfiles(dir: string, raw: seq<Node>)
    ensures ListEntries(dir, raw, false) == HideDotfiles(ListEntries(dir, raw, true))
  {
    if raw != [] {
      SudoOnlyRevealsDotfiles(dir, raw[1..]);
      var head := if Listed(raw[0], true) then [MakeEntry(dir, raw[0])] else [];
      HideDotfilesAppend(head, ListEntries(dir, raw[1..], true));
      assert head != [] ==> head[1..] == [];
    }
  }

  lemma {:induction false} HideDotfilesAppend(a: seq<Entry>, b: seq<Entry>)
    ensures HideDotfiles(a + b) == HideDotfiles(a) + HideDotfiles(b)
  {
    if a == [] {
      assert a + b == b;
    } else {
      assert (a + b)[1..] == a[1..] + b;
      HideDotfilesAppend(a[1..], b);
    }
  }

  /** `utils_list_dir` as written: each kept entry is prepended to the list
      and the list is reversed once enumeration ends. */
  method ListDirectory(dir: string, c: Contents, sudo: bool) returns (list: seq<Entry>)
    ensures list == ListDir(dir, c, sudo)
  {
    if c.Unopenable? {
      return [];
    }
    var raw := c.entries;
    var acc: seq<Entry> := [];
    var i := 0;
    while i < |raw|
      invariant 0 <= i <= |raw|
      invariant Reverse(acc) == ListEntries(dir, raw[..i], sudo)
    {
      ListEntriesSnoc(dir, raw, i, sudo);
      if Listed(raw[i], sudo) {
        ReversePrepend(MakeEntry(dir, raw[i]), acc);
        acc := [MakeEntry(dir, raw[i])] + acc;
      }
      i := i + 1;
    }
    assert raw[..|raw|] == raw;
    list := Reverse(acc);
  }

  /** One more raw entry adds at most its own entry at the end. */
  lemma ListEntriesSnoc(dir: string, raw: seq<Node>, i: nat, sudo: bool)
    requires i < |raw|
    ensures ListEntries(dir, raw[..i + 1], sudo)
         == ListEntries(dir, raw[..i], sudo) + (if Listed(raw[i], sudo) then [MakeEntry(dir, raw[i])] else [])
  {
    assert raw[..i + 1] == raw[..i] + [raw[i]];
    ListEntriesAppend(dir, raw[..i], [raw[i]], sudo);
    assert [raw[i]][1..] == [];
  }

  /** The entries of `es` whose name contains `q` ignoring ASCII case, in
      order: the `strcasestr` test of the filter loops. */
  function MatchingEntries(es: seq<Entry>, q: string): (r: seq<Entry>)
    ensures |r| <= |es|
    ensures forall e :: e in r <==> e in es && Matches(e.name, q)
  {
    if es == [] then []
    else (if Matches(es[0].name, q) then [es[0]] else []) + MatchingEntries(es[1..], q)
  }

  lemma {:induction false} MatchingEntriesAppend(a: seq<Entry>, b: seq<Entry>, q: string)
    ensures MatchingEntries(a + b, q) == MatchingEntries(a, q) + MatchingEntries(b, q)
  {
    if a == [] {
      assert a + b == b;
    } else {
      assert (a + b)[1..] == a[1..] + b;
      MatchingEntriesAppend(a[1..], b, q);
    }
  }

  /** The empty query keeps every entry. */
  lemma {:induction false} MatchingEmptyQuery(es: seq<Entry>)
    ensures MatchingEntries(es, "") == es
  {
    if es != [] {
      EmptyQueryMatchesAll(es[0].name);
      MatchingEmptyQuery(es[1..]);
    }
  }

  /** The entries `utils_filter_local` puts in the store. */
  function FilterLocal(dir: string, c: Contents, q: string, sudo: bool): (r: seq<Entry>)
    ensures |r| <= |ListDir(dir, c, sudo)|
    ensures forall e :: e in r <==> e in ListDir(dir, c, sudo) && Matches(e.name, q)
  {
    MatchingEntries(ListDir(dir, c, sudo), q)
  }

  /** `utils_filter_local` yields exactly the listed raw entries whose name
      contains the query ignoring case. */
  lemma FilterLocalMembers(dir: string, raw: seq<Node>, q: string, sudo: bool, e: Entry)
    ensures e in FilterLocal(dir, Enumerated(raw), q, sudo)
        <==> Matches(e.name, q)
             && exists i :: 0 <= i < |raw| && Listed(raw[i], sudo) && e == MakeEntry(dir, raw[i])
  {
    ListEntriesMembers(dir, raw, sudo, e);
  }

  /** The filter keeps the listing order: filtering two runs of the
      enumeration is filtering each in turn. */
  lemma FilterLocalAppend(dir: string, a: seq<Node>, b: seq<Node>, q: string, sudo: bool)
    ensures FilterLocal(dir, Enumerated(a + b), q, sudo)
         == FilterLocal(dir, Enumerated(a), q, sudo) + FilterLocal(dir, Enumerated(b), q, sudo)
  {
    ListEntriesAppend(dir, a, b, sudo);
    MatchingEntriesAppend(ListEntries(dir, a, sudo), ListEntries(dir, b, sudo), q);
  }

  // ---------------------------------------------------------------------
  // Icon choice (`utils_get_icon`)
  // ---------------------------------------------------------------------

  /** The icon `utils_get_icon` picks: the cached folder icon, the icon file
      of an extension, or the cached fallback icon. */
  datatype Icon = FolderIcon | ExtensionIcon(ext: string) | FallbackIcon

  /** The text after the last `.` of a name, when there is a `.` and that
      text is not empty. */
  function Extension(name: string): (r: Option<string>)
    ensures r.Some? <==> '.' in name && name[|name| - 1] != '.'
    ensures r.Some? ==> && 0 < |r.value| < |name|
                        && name[|name| - |r.value| - 1] == '.'
                        && name[|name| - |r.value|..] == r.value
                        && '.' !in r.value
  {
    match LastIndex(name, '.')
    case None => None
    case Some(i) => if i + 1 < |name| then Some(name[i + 1..]) else None
  }

  /** Where the icon of an extension is looked for; the lookup is case
      sensitive, so `JPG` and `jpg` are different files. */
  function IconFile(ext: string): string {
    "assets/" + ext + ".png"
  }

  /** Any `.` with no later `.` and something after it determines the
      extension: the text after it. */
  lemma ExtensionAt(name: string, i: nat)
    requires i + 1 < |name| && name[i] == '.' && '.' !in name[i + 1..]
    ensures Extension(name) == Some(name[i + 1..])
  {
    assert name[|name| - 1] == name[i + 1..][|name| - i - 2];
  }

  /** `utils_get_icon`, with `assets` the set of paths that exist. */
  function IconFor(name: string, isDir: bool, assets: set<string>): (r: Icon)
    ensures isDir ==> r == FolderIcon
    ensures r.ExtensionIcon? ==> !isDir && HasSuffix(name, "." + r.ext) && IconFile(r.ext) in assets
    ensures r.ExtensionIcon? ==> Extension(name) == Some(r.ext)
  {
    if isDir then FolderIcon
    else match Extension(name)
      case Some(ext) => if IconFile(ext) in assets then ExtensionIcon(ext) else FallbackIcon
      case None => FallbackIcon
  }

  /** A file gets an extension icon exactly when its name has a `.` with a
      non-empty, dot-free tail after it whose icon file exists; otherwise
      it gets the fallback icon. */
  lemma IconForFile(name: string, assets: set<string>)
    ensures IconFor(name, false, assets).ExtensionIcon? <==>
              exists i :: && 0 <= i < |name| - 1
                          && name[i] == '.'
                          && '.' !in name[i + 1..]
                          && IconFile(name[i + 1..]) in assets
    ensures !IconFor(name, false, assets).ExtensionIcon? ==> IconFor(name, false, assets) == FallbackIcon
  {
    var r := IconFor(name, false, assets);
    if r.ExtensionIcon? {
      var i := |name| - |r.ext| - 1;
      assert name[i + 1..] == r.ext;
    }
    if exists i :: && 0 <= i < |name| - 1 && name[i] == '.' && '.' !in name[i + 1..]
                   && IconFile(name[i + 1..]) in assets {
      var i :| && 0 <= i < |name| - 1 && name[i] == '.' && '.' !in name[i + 1..]
               && IconFile(name[i + 1..]) in assets;
      ExtensionAt(name, i);
    }
  }

  /** The examples of the icon rule: a name ending in `.` has no extension,
      and the lookup does not fold case. */
  lemma IconExamples()
    ensures IconFor("foo.", false, {"assets/.png"}) == FallbackIcon
    ensures IconFor("photo.JPG", false, {"assets/jpg.png"}) == FallbackIcon
    ensures IconFor("photo.JPG", false, {"assets/JPG.png"}) == ExtensionIcon("JPG")
    ensures IconFor("notes.tar.gz", false, {"assets/gz.png"}) == ExtensionIcon("gz")
  {
    assert "foo."[3] == '.';
    ExtensionAt("photo.JPG", 5);
    assert "photo.JPG"[6..] == "JPG";
    assert IconFile("JPG") == "assets/JPG.png";
    assert "assets/JPG.png"[7] != "assets/jpg.png"[7];
    ExtensionAt("notes.tar.gz", 9);
    assert "notes.tar.gz"[10..] == "gz";
    assert IconFile("gz") == "assets/gz.png";
  }

  // ---------------------------------------------------------------------
  // The store rows of `utils_read_directory`
  // ---------------------------------------------------------------------

  /** One row of the grid's list store: icon, name, path, directory flag. */
  datatype Row = Row(icon: Icon, entry: Entry)

  function RowOf(e: Entry, assets: set<string>): Row {
    Row(IconFor(e.name, e.isDir, assets), e)
  }

  function RowsOf(es: seq<Entry>, assets: set<string>): (r: seq<Row>)
    ensures |r| == |es|
    ensures forall i :: 0 <= i < |es| ==> r[i] == RowOf(es[i], assets)
  {
    if es == [] then [] else [RowOf(es[0], assets)] + RowsOf(es[1..], assets)
  }

  /** `utils_read_directory`: appends one row per listed entry to the rows
      already in the store, leaving those untouched. */
  function ReadDirectory(store: seq<Row>, dir: string, c: Contents, sudo: bool, assets: set<string>): (r: seq<Row>)
    ensures |r| == |store| + |ListDir(dir, c, sudo)|
    ensures r[..|store|] == store
    ensures forall i :: 0 <= i < |ListDir(dir, c, sudo)| ==>
              r[|store| + i].entry == ListDir(dir, c, sudo)[i]
  {
    store + RowsOf(ListDir(dir, c, sudo), assets)
  }
}
