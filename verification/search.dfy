/** The search of src/ui.c: `deep`, the dispatch of `ui_filter_search` on
    the query's byte length, and the clear-then-fill shape of
    `ui_load_directory`. */
module Search {
  import opened Base
  import opened Text
  import opened Listing

  /** Every listed entry of the subtree whose raw entries are `raw`, in the
      order `deep` visits them: an entry, then (for a directory) everything
      below it, then its later siblings. */
  function Walk(dir: string, raw: seq<Node>, sudo: bool): seq<Entry>
    decreases raw
  {
    if raw == [] then []
    else
      var n := raw[0];
      (if Listed(n, sudo) then [MakeEntry(dir, n)] + Below(dir, n, sudo) else [])
      + Walk(dir, raw[1..], sudo)
  }

  /** What lies below raw entry `n` of `dir`: the walk of its contents when
      `lstat` saw a directory that `opendir` can open, nothing otherwise. */
  function Below(dir: string, n: Node, sudo: bool): seq<Entry>
    decreases n, 0
  {
    if n.kind.Directory? && n.kind.contents.Enumerated? then
      Walk(dir + "/" + n.name, n.kind.contents.entries, sudo)
    else []
  }

  /** `deep(store, dir, q)`: for each listed entry in order, the entry when
      its name contains `q` ignoring case, then, for every directory whether
      or not it matched, the recursive search of that directory. */
  function Deep(dir: string, raw: seq<Node>, q: string, sudo: bool): (r: seq<Entry>)
    ensures forall e :: e in r ==> Matches(e.name, q)
    decreases raw
  {
    if raw == [] then []
    else
      var n := raw[0];
      (if Listed(n, sudo) then
         (if Matches(n.name, q) then [MakeEntry(dir, n)] else []) + DeepBelow(dir, n, q, sudo)
       else [])
      + Deep(dir, raw[1..], q, sudo)
  }

  /** The recursive call of `deep` for raw entry `n` of `dir`: made for
      every entry `lstat` saw as a directory; it finds nothing when
      `opendir` fails. */
  function DeepBelow(dir: string, n: Node, q: string, sudo: bool): (r: seq<Entry>)
    ensures forall e :: e in r ==> Matches(e.name, q)
    decreases n, 0
  {
    if n.kind.Directory? && n.kind.contents.Enumerated? then
      Deep(dir + "/" + n.name, n.kind.contents.entries, q, sudo)
    else []
  }

  /** Entry `e` is listed somewhere in the subtree: directly in `dir`, or
      in the subtree of a listed directory of `dir`. */
  ghost predicate InSubtree(e: Entry, dir: string, raw: seq<Node>, sudo: bool)
    decreases raw
  {
    exists i :: 0 <= i < |raw| && InNode(e, dir, raw[i], sudo)
  }

  /** Entry `e` is raw entry `n` of `dir` (when it is listed) or lies in the
      subtree of `n`. */
  ghost predicate InNode(e: Entry, dir: string, n: Node, sudo: bool)
    decreases n, 0
  {
    && Listed(n, sudo)
    && (|| e == MakeEntry(dir, n)
        || (&& n.kind.Directory?
            && n.kind.contents.Enumerated?
            && InSubtree(e, dir + "/" + n.name, n.kind.contents.entries, sudo)))
  }

  lemma {:induction false} WalkAppend(dir: string, a: seq<Node>, b: seq<Node>, sudo: bool)
    ensures Walk(dir, a + b, sudo) == Walk(dir, a, sudo) + Walk(dir, b, sudo)
  {
    if a == [] {
      assert a + b == b;
    } else {
      var n := a[0];
      var h := if Listed(n, sudo) then [MakeEntry(dir, n)] + Below(dir, n, sudo) else [];
      var x := Walk(dir, a[1..], sudo);
      var y := Walk(dir, b, sudo);
      assert (a + b)[0] == n;
      assert (a + b)[1..] == a[1..] + b;
      WalkAppend(dir, a[1..], b, sudo);
      assert Walk(dir, a + b, sudo) == h + (x + y);
      assert Walk(dir, a, sudo) == h + x;
      AppendAssoc(h, x, y);
    }
  }

  /** The walk is pre-order: a listed entry comes right before everything
      below it, and that block sits between the earlier and the later
      siblings. */
  lemma WalkAt(dir: string, raw: seq<Node>, sudo: bool, i: nat)
    requires i < |raw| && Listed(raw[i], sudo)
    ensures Walk(dir, raw, sudo)
         == Walk(dir, raw[..i], sudo) + [MakeEntry(dir, raw[i])] + Below(dir, raw[i], sudo)
            + Walk(dir, raw[i + 1..], sudo)
  {
    var pre, tail := raw[..i], [raw[i]] + raw[i + 1..];
    var a, below, rest := Walk(dir, pre, sudo), Below(dir, raw[i], sudo), Walk(dir, raw[i + 1..], sudo);
    assert Walk(dir, raw, sudo) == a + Walk(dir, tail, sudo) by {
      assert raw == pre + tail;
      WalkAppend(dir, pre, tail, sudo);
    }
    assert Walk(dir, tail, sudo) == [MakeEntry(dir, raw[i])] + below + rest by {
      assert tail[0] == raw[i] && tail[1..] == raw[i + 1..];
    }
    AppendRegroup(a, [MakeEntry(dir, raw[i])], below, rest);
  }

  /** The walk holds exactly the entries of the subtree. */
  lemma {:induction false} WalkMembers(dir: string, raw: seq<Node>, sudo: bool, e: Entry)
    ensures e in Walk(dir, raw, sudo) <==> InSubtree(e, dir, raw, sudo)
    decreases raw
  {
    if raw != [] {
      var n := raw[0];
      WalkMembers(dir, raw[1..], sudo, e);
      if n.kind.Directory? && n.kind.contents.Enumerated? {
        WalkMembers(dir + "/" + n.name, n.kind.contents.entries, sudo, e);
      }
      assert e in Walk(dir, raw, sudo) <==> InNode(e, dir, n, sudo) || e in Walk(dir, raw[1..], sudo);
      ExistsCons(raw, m => InNode(e, dir, m, sudo));
    }
  }

  /** Deep search is the pre-order walk with the non-matching entries taken
      out: same entries, same order. */
  lemma {:induction false} DeepIsFilteredWalk(dir: string, raw: seq<Node>, q: string, sudo: bool)
    ensures Deep(dir, raw, q, sudo) == MatchingEntries(Walk(dir, raw, sudo), q)
    decreases raw
  {
    if raw != [] {
      var n := raw[0];
      DeepIsFilteredWalk(dir, raw[1..], q, sudo);
      var below := Below(dir, n, sudo);
      if n.kind.Directory? && n.kind.contents.Enumerated? {
        DeepIsFilteredWalk(dir + "/" + n.name, n.kind.contents.entries, q, sudo);
      }
      assert DeepBelow(dir, n, q, sudo) == MatchingEntries(below, q);
      var head := if Listed(n, sudo) then [MakeEntry(dir, n)] + below else [];
      MatchingEntriesAppend(head, Walk(dir, raw[1..], sudo), q);
      if Listed(n, sudo) {
        MatchingEntriesAppend([MakeEntry(dir, n)], below, q);
        assert ([MakeEntry(dir, n)])[1..] == [];
      }
    }
  }

  /** Soundness and completeness of deep search: an entry is emitted exactly
      when it lies in the subtree and its name contains the query. */
  lemma DeepMembers(dir: string, raw: seq<Node>, q: string, sudo: bool, e: Entry)
    ensures e in Deep(dir, raw, q, sudo) <==> InSubtree(e, dir, raw, sudo) && Matches(e.name, q)
  {
    DeepIsFilteredWalk(dir, raw, q, sudo);
    WalkMembers(dir, raw, sudo, e);
  }

  lemma {:induction false} DeepAppend(dir: string, a: seq<Node>, b: seq<Node>, q: string, sudo: bool)
    ensures Deep(dir, a + b, q, sudo) == Deep(dir, a, q, sudo) + Deep(dir, b, q, sudo)
  {
    if a == [] {
      assert a + b == b;
    } else {
      assert (a + b)[1..] == a[1..] + b;
      DeepAppend(dir, a[1..], b, q, sudo);
    }
  }

  /** Deep search recurses into every listed directory, matching or not:
      the search of a listed directory's contents is a contiguous block of
      the result, right after the directory itself when it matches. */
  lemma DeepAt(dir: string, raw: seq<Node>, q: string, sudo: bool, i: nat)
    requires i < |raw| && Listed(raw[i], sudo)
    ensures Deep(dir, raw, q, sudo)
         == Deep(dir, raw[..i], q, sudo)
            + (if Matches(raw[i].name, q) then [MakeEntry(dir, raw[i])] else [])
            + DeepBelow(dir, raw[i], q, sudo)
            + Deep(dir, raw[i + 1..], q, sudo)
  {
    var pre, tail := raw[..i], [raw[i]] + raw[i + 1..];
    var a, hit := Deep(dir, pre, q, sudo), if Matches(raw[i].name, q) then [MakeEntry(dir, raw[i])] else [];
    var below, rest := DeepBelow(dir, raw[i], q, sudo), Deep(dir, raw[i + 1..], q, sudo);
    assert Deep(dir, raw, q, sudo) == a + Deep(dir, tail, q, sudo) by {
      assert raw == pre + tail;
      DeepAppend(dir, pre, tail, q, sudo);
    }
    assert Deep(dir, tail, q, sudo) == hit + below + rest by {
      assert tail[0] == raw[i] && tail[1..] == raw[i + 1..];
      DeepListedHead(dir, tail, q, sudo);
    }
    AppendRegroup(a, hit, below, rest);
  }

  /** One step of `deep` on a listed first entry: its own match, then the
      search below it, then the rest of the directory. */
  lemma DeepListedHead(dir: string, raw: seq<Node>, q: string, sudo: bool)
    requires raw != [] && Listed(raw[0], sudo)
    ensures Deep(dir, raw, q, sudo)
         == (if Matches(raw[0].name, q) then [MakeEntry(dir, raw[0])] else [])
            + DeepBelow(dir, raw[0], q, sudo)
            + Deep(dir, raw[1..], q, sudo)
  {
  }

  /** Every entry shallow filtering finds, deep search finds too. */
  lemma ShallowWithinDeep(dir: string, raw: seq<Node>, q: string, sudo: bool, e: Entry)
    requires e in FilterLocal(dir, Enumerated(raw), q, sudo)
    ensures e in Deep(dir, raw, q, sudo)
  {
    FilterLocalMembers(dir, raw, q, sudo, e);
    DeepMembers(dir, raw, q, sudo, e);
  }

  /** The entries `ui_filter_search` puts in the (cleared) store: a query
      shorter than two bytes filters the immediate children only; a longer
      one searches the whole subtree. */
  function FilterSearch(dir: string, c: Contents, q: string, sudo: bool): (r: seq<Entry>)
    ensures forall e :: e in r ==> Matches(e.name, q)
    ensures |q| < 2 ==> r == FilterLocal(dir, c, q, sudo)
  {
    if |q| < 2 then FilterLocal(dir, c, q, sudo)
    else match c
      case Unopenable => []
      case Enumerated(raw) => Deep(dir, raw, q, sudo)
  }

  /** What the search finds, by mode. */
  lemma FilterSearchMembers(dir: string, raw: seq<Node>, q: string, sudo: bool, e: Entry)
    ensures e in FilterSearch(dir, Enumerated(raw), q, sudo)
        <==> && Matches(e.name, q)
             && if |q| < 2 then exists i :: 0 <= i < |raw| && Listed(raw[i], sudo) && e == MakeEntry(dir, raw[i])
                else InSubtree(e, dir, raw, sudo)
  {
    FilterLocalMembers(dir, raw, q, sudo, e);
    DeepMembers(dir, raw, q, sudo, e);
  }

  /** The UTF-8 encoding of a code point that takes two bytes. */
  function Utf8TwoBytes(cp: int): (s: string)
    requires 0x80 <= cp < 0x800
    ensures |s| == 2
  {
    [(0xC0 + cp / 64) as char, (0x80 + cp % 64) as char]
  }

  /** The dispatch counts bytes, not characters: a single character such as
      `é` that UTF-8 encodes in two bytes already selects deep search. */
  lemma OneWideCharacterSearchesDeep(dir: string, raw: seq<Node>, cp: int, sudo: bool)
    requires 0x80 <= cp < 0x800
    ensures FilterSearch(dir, Enumerated(raw), Utf8TwoBytes(cp), sudo) == Deep(dir, raw, Utf8TwoBytes(cp), sudo)
  {
  }

  /** `ui_load_directory`: the store is cleared, then refilled with one row
      per entry of the listing, so nothing from before survives. */
  function LoadDirectory(dir: string, c: Contents, sudo: bool, assets: set<string>): (r: seq<Row>)
    ensures |r| == |ListDir(dir, c, sudo)|
    ensures forall i :: 0 <= i < |r| ==> r[i].entry == ListDir(dir, c, sudo)[i]
  {
    ReadDirectory([], dir, c, sudo, assets)
  }

  /** `ui_filter_search`: the store is cleared, then refilled with one row
      per search result. */
  function SearchRows(dir: string, c: Contents, q: string, sudo: bool, assets: set<string>): (r: seq<Row>)
    ensures |r| == |FilterSearch(dir, c, q, sudo)|
    ensures forall i :: 0 <= i < |r| ==> Matches(r[i].entry.name, q)
    ensures forall i :: 0 <= i < |r| ==> r[i].entry == FilterSearch(dir, c, q, sudo)[i]
  {
    RowsOf(FilterSearch(dir, c, q, sudo), assets)
  }

  /** `on_search` (src/explorer.c): an empty query reloads the directory,
      any other query searches. */
  function OnSearch(dir: string, c: Contents, q: string, sudo: bool, assets: set<string>): (r: seq<Row>)
    ensures |r| == |FilterSearch(dir, c, q, sudo)|
    ensures forall i :: 0 <= i < |r| ==> r[i].entry == FilterSearch(dir, c, q, sudo)[i]
  {
    if q == "" then
      MatchingEmptyQuery(ListDir(dir, c, sudo));
      LoadDirectory(dir, c, sudo, assets)
    else SearchRows(dir, c, q, sudo, assets)
  }

  /** The empty-query special case of `on_search` changes nothing: the
      search would have shown the whole listing as well. */
  lemma OnSearchIsSearch(dir: string, c: Contents, q: string, sudo: bool, assets: set<string>)
    ensures OnSearch(dir, c, q, sudo, assets) == SearchRows(dir, c, q, sudo, assets)
  {
    if q == "" {
      MatchingEmptyQuery(ListDir(dir, c, sudo));
      assert [] + RowsOf(ListDir(dir, c, sudo), assets) == RowsOf(ListDir(dir, c, sudo), assets);
    }
  }
}
