/** Byte-string operations the C code takes from libc and GLib: ASCII case
    folding and `strcasestr`, `g_str_has_prefix`/`g_str_has_suffix`, and
    `strrchr`/`g_strrstr` for a single character. A `string` here is a C
    byte string: every `char` stands for one byte. */
module Text {
  import opened Base

  /** `tolower` in the C locale: only the 26 ASCII capitals change. */
  function Lower(c: char): char {
    if 'A' <= c <= 'Z' then (c as int + 32) as char else c
  }

  /** `needle` occurs in `hay` at offset `i`, ignoring ASCII case. */
  predicate OccursAt(hay: string, needle: string, i: int) {
    && 0 <= i
    && i + |needle| <= |hay|
    && forall k :: 0 <= k < |needle| ==> Lower(hay[i + k]) == Lower(needle[k])
  }

  /** What `strcasestr(hay, needle) != NULL` decides. */
  predicate Matches(hay: string, needle: string) {
    exists i :: 0 <= i <= |hay| - |needle| && OccursAt(hay, needle, i)
  }

  /** `strcasestr`: the offset of the first case-insensitive occurrence of
      `needle` in `hay`, scanning left to right, or None (NULL). */
  method StrCaseStr(hay: string, needle: string) returns (found: Option<nat>)
    ensures found.Some? <==> Matches(hay, needle)
    ensures found.Some? ==> OccursAt(hay, needle, found.value)
    ensures found.Some? ==> forall j :: 0 <= j < found.value ==> !OccursAt(hay, needle, j)
  {
    var i := 0;
    while i + |needle| <= |hay|
      invariant 0 <= i
      invariant |needle| <= |hay| ==> i <= |hay| - |needle| + 1
      invariant forall j :: 0 <= j < i ==> !OccursAt(hay, needle, j)
    {
      var k := 0;
      while k < |needle| && Lower(hay[i + k]) == Lower(needle[k])
        invariant 0 <= k <= |needle|
        invariant forall m :: 0 <= m < k ==> Lower(hay[i + m]) == Lower(needle[m])
      {
        k := k + 1;
      }
      if k == |needle| {
        assert OccursAt(hay, needle, i);
        return Some(i);
      }
      i := i + 1;
    }
    return None;
  }

  /** The empty query is found in every name (`strcasestr` returns its first
      argument), so it filters nothing out. */
  lemma EmptyQueryMatchesAll(hay: string)
    ensures Matches(hay, "")
  {
    assert OccursAt(hay, "", 0);
  }

  predicate HasPrefix(s: string, p: string) {
    |p| <= |s| && s[..|p|] == p
  }

  predicate HasSuffix(s: string, p: string) {
    |p| <= |s| && s[|s| - |p|..] == p
  }

  /** `strrchr(s, c)`: the index of the last occurrence of `c` in `s`. */
  function LastIndex(s: string, c: char): (r: Option<nat>)
    ensures r.None? <==> c !in s
    ensures r.Some? ==> r.value < |s| && s[r.value] == c && c !in s[r.value + 1..]
  {
    if s == [] then None
    else if s[|s| - 1] == c then Some(|s| - 1)
    else
      var r := LastIndex(s[..|s| - 1], c);
      assert r.Some? ==> s[r.value + 1..] == s[..|s| - 1][r.value + 1..] + [s[|s| - 1]];
      assert s == s[..|s| - 1] + [s[|s| - 1]];
      r
  }

  /** The last occurrence is the one with no `c` after it. */
  lemma LastIndexAt(s: string, c: char, i: nat)
    requires i < |s| && s[i] == c && c !in s[i + 1..]
    ensures LastIndex(s, c) == Some(i)
  {
  }

  /** The second half of a concatenation is a suffix of it. */
  lemma SuffixOfAppend(a: string, b: string)
    ensures HasSuffix(a + b, b)
  {
    assert (a + b)[|a|..] == b;
  }

  /** Two paths in the same directory are equal only for equal names. */
  lemma JoinCancels(dir: string, a: string, b: string)
    ensures dir + a == dir + b ==> a == b
  {
    if dir + a == dir + b {
      assert (dir + a)[|dir|..] == a;
      assert (dir + b)[|dir|..] == b;
    }
  }
}
