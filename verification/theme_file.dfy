/** The theme-file format of src/explorer.c: the style payload extractor
    (`extract_css_from_wo`), the name extractor
    (`extract_theme_name_from_wo`), the file-name sanitiser of
    `save_wo_file`, and `g_path_get_basename`, which supplies the fallback
    name. A file is its text; `None` stands for a file `fopen` cannot open. */
module ThemeFile {
  import opened Base
  import opened Text

  // ---------------------------------------------------------------------
  // Reading line by line with fgets
  // ---------------------------------------------------------------------

  /** `char line[4096]` in `extract_css_from_wo`: one `fgets` reads at most
      4095 bytes. */
  const CssLineCap: nat := 4095
  /** `char line[256]` in `extract_theme_name_from_wo`. */
  const NameLineCap: nat := 255

  /** How many bytes one `fgets` call with room for `cap` bytes takes from
      the unread text: through the first newline, but never more than `cap`
      bytes, and never past the end of the file. */
  function PieceLength(text: string, cap: nat): (n: nat)
    requires text != [] && cap >= 1
    ensures 1 <= n <= |text| && n <= cap
    ensures '\n' !in text[..n - 1]
    ensures n == |text| || n == cap || text[n - 1] == '\n'
  {
    if text[0] == '\n' || cap == 1 || |text| == 1 then 1
    else
      var m := PieceLength(text[1..], cap - 1);
      assert text[..m] == [text[0]] + text[1..][..m - 1];
      1 + m
  }

  /** The three properties of a piece pin down its length. */
  lemma PieceLengthUnique(text: string, cap: nat, m: nat)
    requires text != [] && cap >= 1
    requires 1 <= m <= |text| && m <= cap
    requires '\n' !in text[..m - 1]
    requires m == |text| || m == cap || text[m - 1] == '\n'
    ensures PieceLength(text, cap) == m
  {
    var n := PieceLength(text, cap);
  }

  /** The successive strings `fgets(line, cap + 1, f)` returns until end of
      file. */
  function Lines(text: string, cap: nat): (ls: seq<string>)
    requires cap >= 1
    ensures Concat(ls) == text
    ensures forall l :: l in ls ==> 1 <= |l| <= cap
    decreases |text|
  {
    if text == [] then []
    else
      var n := PieceLength(text, cap);
      assert text == text[..n] + text[n..];
      [text[..n]] + Lines(text[n..], cap)
  }

  /** A complete line: it ends with its only newline. */
  predicate IsLine(l: string) {
    |l| >= 1 && l[|l| - 1] == '\n' && '\n' !in l[..|l| - 1]
  }

  /** A complete line that fits the buffer is read by one `fgets`. */
  lemma LinesAfterLine(l: string, rest: string, cap: nat)
    requires cap >= 1 && IsLine(l) && |l| <= cap
    ensures Lines(l + rest, cap) == [l] + Lines(rest, cap)
  {
    assert (l + rest)[..|l| - 1] == l[..|l| - 1];
    PieceLengthUnique(l + rest, cap, |l|);
    assert (l + rest)[..|l|] == l;
    assert (l + rest)[|l|..] == rest;
  }

  // ---------------------------------------------------------------------
  // The payload extractor
  // ---------------------------------------------------------------------

  /** A `THEMENAME:` line. */
  predicate IsNameLine(l: string) {
    HasPrefix(l, "THEMENAME:")
  }

  /** A separator line: one that starts with `---`. */
  predicate IsMarkerLine(l: string) {
    HasPrefix(l, "---")
  }

  /** The extractor's state: whether the payload has begun (`in_css`),
      whether a `THEMENAME:` line has been seen (`has_theme_name`), and the
      payload collected so far. */
  datatype Scan = Scan(inCss: bool, armed: bool, css: string)

  /** One turn of the extractor's loop. Once the payload has begun every
      line is appended; before that a line begins it exactly when it is no
      `THEMENAME:` line and is a separator or follows one, and only whole
      lines are ever collected. */
  function Step(s: Scan, line: string): (r: Scan)
    ensures s.inCss ==> r.inCss && r.css == s.css + line
    ensures !s.inCss ==> (r.inCss <==> !IsNameLine(line) && (IsMarkerLine(line) || s.armed))
    ensures !s.inCss ==> (r.armed <==> s.armed || IsNameLine(line))
    ensures r.css == s.css || r.css == s.css + line
    ensures !s.inCss && r.inCss ==> r.css == (if IsMarkerLine(line) then s.css else s.css + line)
    ensures !s.inCss && !r.inCss ==> r.css == s.css
  {
    if s.inCss then s.(css := s.css + line)
    else if IsNameLine(line) then s.(armed := true)
    else if IsMarkerLine(line) then s.(inCss := true)
    else if s.armed then s.(inCss := true, css := s.css + line)
    else s
  }

  /** The loop over all the lines. Once the payload has begun, every line
      is appended as it is. */
  function Run(s: Scan, ls: seq<string>): (r: Scan)
    ensures s.inCss ==> r.css == s.css + Concat(ls)
    decreases |ls|
  {
    if ls == [] then s else Run(Step(s, ls[0]), ls[1..])
  }

  /** `extract_css_from_wo`: the payload, or None when the file cannot be
      opened or no payload byte was collected. */
  function ExtractCss(file: Option<string>): (r: Option<string>)
    ensures file.None? ==> r.None?
    ensures r.Some? ==> r.value != []
  {
    match file
    case None => None
    case Some(text) =>
      var s := Run(Scan(false, false, ""), Lines(text, CssLineCap));
      if |s.css| == 0 then None else Some(s.css)
  }

  /** Line `k` opens the payload: it is not a `THEMENAME:` line, and it is a
      separator or follows a `THEMENAME:` line (or `armed` says one was seen
      before `ls`). */
  ghost predicate Opens(ls: seq<string>, k: int, armed: bool) {
    && 0 <= k < |ls|
    && !IsNameLine(ls[k])
    && (IsMarkerLine(ls[k]) || armed || exists j :: 0 <= j < k && IsNameLine(ls[j]))
  }

  /** The payload once line `k` has opened it: the lines after it when it
      is a separator, the lines from it on otherwise. */
  function PayloadFrom(ls: seq<string>, k: nat): string
    requires k < |ls|
  {
    if IsMarkerLine(ls[k]) then Concat(ls[k + 1..]) else Concat(ls[k..])
  }

  lemma {:induction false} RunOpened(ls: seq<string>, armed: bool, k: nat)
    requires Opens(ls, k, armed)
    requires forall j :: 0 <= j < k ==> !Opens(ls, j, armed)
    ensures Run(Scan(false, armed, ""), ls).css == PayloadFrom(ls, k)
    decreases |ls|
  {
    var s := Scan(false, armed, "");
    var l := ls[0];
    if k == 0 {
      if IsMarkerLine(l) {
        assert Step(s, l) == Scan(true, armed, "");
      } else {
        assert Step(s, l) == Scan(true, armed, l);
        assert Concat(ls[0..]) == l + Concat(ls[1..]) by { assert ls[0..] == ls; }
      }
    } else {
      assert !Opens(ls, 0, armed);
      var armed' := armed || IsNameLine(l);
      assert Step(s, l) == Scan(false, armed', "");
      var tail := ls[1..];
      assert Opens(tail, k - 1, armed') by {
        if exists j :: 0 <= j < k && IsNameLine(ls[j]) {
          var j :| 0 <= j < k && IsNameLine(ls[j]);
          if j > 0 { assert tail[j - 1] == ls[j]; }
        }
        assert tail[k - 1] == ls[k];
      }
      forall j | 0 <= j < k - 1
        ensures !Opens(tail, j, armed')
      {
        assert !Opens(ls, j + 1, armed);
        assert tail[j] == ls[j + 1];
        if exists i :: 0 <= i < j && IsNameLine(tail[i]) {
          var i :| 0 <= i < j && IsNameLine(tail[i]);
          assert ls[i + 1] == tail[i];
        }
      }
      RunOpened(tail, armed', k - 1);
      assert tail[k - 1..] == ls[k..];
      assert tail[k..] == ls[k + 1..];
    }
  }

  lemma {:induction false} RunNeverOpened(ls: seq<string>, armed: bool)
    requires forall j :: 0 <= j < |ls| ==> !Opens(ls, j, armed)
    ensures Run(Scan(false, armed, ""), ls).css == ""
    decreases |ls|
  {
    if ls != [] {
      var l := ls[0];
      assert !Opens(ls, 0, armed);
      var armed' := armed || IsNameLine(l);
      var tail := ls[1..];
      forall j | 0 <= j < |tail|
        ensures !Opens(tail, j, armed')
      {
        assert !Opens(ls, j + 1, armed);
        assert tail[j] == ls[j + 1];
        if exists i :: 0 <= i < j && IsNameLine(tail[i]) {
          var i :| 0 <= i < j && IsNameLine(tail[i]);
          assert ls[i + 1] == tail[i];
        }
      }
      RunNeverOpened(tail, armed');
    }
  }

  /** The extractor's result, stated without its state machine: the first
      line that opens the payload decides it, and with no such line there is
      no payload. */
  lemma ExtractCssSpec(text: string)
    ensures forall k :: Opens(Lines(text, CssLineCap), k, false)
                        && (forall j :: 0 <= j < k ==> !Opens(Lines(text, CssLineCap), j, false))
                        ==> ExtractCss(Some(text))
                            == (var p := PayloadFrom(Lines(text, CssLineCap), k); if p == [] then None else Some(p))
    ensures (forall k :: 0 <= k < |Lines(text, CssLineCap)| ==> !Opens(Lines(text, CssLineCap), k, false))
            ==> ExtractCss(Some(text)) == None
  {
    var ls := Lines(text, CssLineCap);
    forall k | Opens(ls, k, false) && (forall j :: 0 <= j < k ==> !Opens(ls, j, false))
      ensures ExtractCss(Some(text)) == (var p := PayloadFrom(ls, k); if p == [] then None else Some(p))
    {
      RunOpened(ls, false, k);
    }
    if forall k :: 0 <= k < |ls| ==> !Opens(ls, k, false) {
      RunNeverOpened(ls, false);
    }
  }

  /** A file with neither a `THEMENAME:` line nor a separator has no
      payload. */
  lemma NoMarkerNoContent(text: string)
    requires forall l :: l in Lines(text, CssLineCap) ==> !IsNameLine(l) && !IsMarkerLine(l)
    ensures ExtractCss(Some(text)) == None
  {
    var ls := Lines(text, CssLineCap);
    forall j | 0 <= j < |ls|
      ensures !IsNameLine(ls[j]) && !IsMarkerLine(ls[j])
    {
      assert ls[j] in ls;
    }
    RunNeverOpened(ls, false);
  }

  /** Whatever the extractor returns is the tail of the file, byte for
      byte. */
  lemma ExtractCssIsSuffix(text: string)
    ensures ExtractCss(Some(text)).Some? ==> HasSuffix(text, ExtractCss(Some(text)).value)
  {
    var ls := Lines(text, CssLineCap);
    var r := ExtractCss(Some(text));
    if r.Some? {
      if forall k :: 0 <= k < |ls| ==> !Opens(ls, k, false) {
        RunNeverOpened(ls, false);
        assert false;
      }
      var k := FirstOpener(ls);
      RunOpened(ls, false, k);
      var m := if IsMarkerLine(ls[k]) then k + 1 else k;
      assert r.value == Concat(ls[m..]);
      ConcatOfDropIsSuffix(ls, m);
    }
  }

  /** Dropping the first `m` lines leaves a suffix of the text. */
  lemma ConcatOfDropIsSuffix(ls: seq<string>, m: nat)
    requires m <= |ls|
    ensures HasSuffix(Concat(ls), Concat(ls[m..]))
  {
    assert ls == ls[..m] + ls[m..];
    ConcatAppend(ls[..m], ls[m..]);
    SuffixOfAppend(Concat(ls[..m]), Concat(ls[m..]));
  }

  /** The least line that opens the payload, given that one does. */
  lemma FirstOpener(ls: seq<string>) returns (k: nat)
    requires exists k :: 0 <= k < |ls| && Opens(ls, k, false)
    ensures Opens(ls, k, false) && forall j :: 0 <= j < k ==> !Opens(ls, j, false)
  {
    var k0 :| 0 <= k0 < |ls| && Opens(ls, k0, false);
    k := 0;
    while !Opens(ls, k, false)
      invariant 0 <= k <= k0
      invariant forall j :: 0 <= j < k ==> !Opens(ls, j, false)
      decreases k0 - k
    {
      k := k + 1;
    }
  }

  // ---------------------------------------------------------------------
  // The name extractor
  // ---------------------------------------------------------------------

  /** `isspace` in the C locale. */
  predicate IsSpace(c: char) {
    c == ' ' || c == '\t' || c == '\n' || c == '\U{B}' || c == '\U{C}' || c == '\r'
  }

  /** The space directive of a `sscanf` format: skips any run of white
      space. */
  function SkipSpaces(s: string): (r: string)
    ensures r == [] || !IsSpace(r[0])
    ensures |r| <= |s| && r == s[|s| - |r|..]
    ensures forall i :: 0 <= i < |s| - |r| ==> IsSpace(s[i])
  {
    if s != [] && IsSpace(s[0]) then SkipSpaces(s[1..]) else s
  }

  /** The `%127[^\n]` conversion: the longest run of at most `limit` bytes
      that are not newlines. */
  function TakeUntilNewline(s: string, limit: nat): (r: string)
    ensures |r| <= limit && |r| <= |s|
    ensures r == s[..|r|] && '\n' !in r
    ensures |r| == limit || |r| == |s| || s[|r|] == '\n'
  {
    if s == [] || limit == 0 || s[0] == '\n' then []
    else [s[0]] + TakeUntilNewline(s[1..], limit - 1)
  }

  /** The longest theme name `extract_theme_name_from_wo` returns. */
  const NameLimit: nat := 127

  /** `extract_theme_name_from_wo`: from the first line only, when it starts
      with `THEMENAME:`, the name after any white space; None when the file
      cannot be opened or is empty, the line has no prefix, or nothing
      follows the white space. */
  function ThemeName(file: Option<string>): (r: Option<string>)
    ensures r.Some? ==> && 1 <= |r.value| <= NameLimit
                        && '\n' !in r.value
                        && !IsSpace(r.value[0])
    ensures r.Some? ==> file.Some? && file.value != [] && IsNameLine(Lines(file.value, NameLineCap)[0])
  {
    match file
    case None => None
    case Some(text) =>
      if text == [] then None
      else
        var first := Lines(text, NameLineCap)[0];
        if !IsNameLine(first) then None
        else
          var name := TakeUntilNewline(SkipSpaces(first[10..]), NameLimit);
          if name == [] then None else Some(name)
  }

  /** Only the first line counts: whatever follows a complete first line
      does not change the name read. */
  lemma ThemeNameFirstLineOnly(l: string, rest1: string, rest2: string)
    requires IsLine(l) && |l| <= NameLineCap
    ensures ThemeName(Some(l + rest1)) == ThemeName(Some(l + rest2))
  {
    LinesAfterLine(l, rest1, NameLineCap);
    LinesAfterLine(l, rest2, NameLineCap);
  }

  /** A file whose first line is no `THEMENAME:` line declares no name,
      whatever its later lines hold. */
  lemma NoHeaderNoName(l: string, rest: string)
    requires IsLine(l) && |l| <= NameLineCap && !IsNameLine(l)
    ensures ThemeName(Some(l + rest)) == None
  {
    LinesAfterLine(l, rest, NameLineCap);
  }

  /** The header line a theme file starts with. */
  function Header(name: string): string {
    "THEMENAME: " + name + "\n"
  }

  /** A name that survives the round trip through the header line. */
  predicate ValidThemeName(name: string) {
    1 <= |name| <= NameLimit && '\n' !in name && !IsSpace(name[0])
  }

  /** The text of a theme file: the header, a separator, the payload. */
  function ThemeText(name: string, payload: string): string {
    Header(name) + "---\n" + payload
  }

  lemma HeaderIsLine(name: string)
    requires ValidThemeName(name)
    ensures IsLine(Header(name)) && |Header(name)| <= NameLineCap
    ensures IsNameLine(Header(name))
  {
    var h := Header(name);
    assert h[..|h| - 1] == "THEMENAME: " + name;
    assert h[..10] == "THEMENAME:";
  }

  /** The name conversion reads a whole valid name up to its newline. */
  lemma TakeName(name: string)
    requires ValidThemeName(name)
    ensures TakeUntilNewline(name + "\n", NameLimit) == name
  {
    var s := name + "\n";
    var t := TakeUntilNewline(s, NameLimit);
    assert s[..|name|] == name;
    assert s[|name|] == '\n';
    assert forall i :: 0 <= i < |name| ==> s[i] == name[i] && s[i] != '\n';
  }

  lemma HeaderTail(name: string)
    requires ValidThemeName(name)
    ensures SkipSpaces(Header(name)[10..]) == name + "\n"
  {
    var tail := Header(name)[10..];
    assert tail == " " + name + "\n";
    assert tail[1..] == name + "\n";
    assert !IsSpace(tail[1..][0]);
  }

  /** Reading back the name of a header line gives the name. */
  lemma ThemeNameOfHeader(name: string, rest: string)
    requires ValidThemeName(name)
    ensures ThemeName(Some(Header(name) + rest)) == Some(name)
  {
    HeaderIsLine(name);
    LinesAfterLine(Header(name), rest, NameLineCap);
    assert Lines(Header(name) + rest, NameLineCap)[0] == Header(name);
    HeaderTail(name);
    TakeName(name);
  }

  /** The lines of a theme file: its header, its separator, then the lines
      of its payload. */
  lemma ThemeTextLines(name: string, payload: string)
    requires ValidThemeName(name)
    ensures Lines(ThemeText(name, payload), CssLineCap)
         == [Header(name), "---\n"] + Lines(payload, CssLineCap)
  {
    var h := Header(name);
    var sep := "---\n";
    assert ThemeText(name, payload) == h + (sep + payload);
    HeaderIsLine(name);
    assert IsLine(sep);
    TwoLines(h, sep, payload, CssLineCap);
  }

  lemma TwoLines(a: string, b: string, rest: string, cap: nat)
    requires cap >= 1 && IsLine(a) && |a| <= cap && IsLine(b) && |b| <= cap
    ensures Lines(a + (b + rest), cap) == [a, b] + Lines(rest, cap)
  {
    LinesAfterLine(a, b + rest, cap);
    LinesAfterLine(b, rest, cap);
  }

  /** A name line followed by a separator line opens the payload right
      after the separator: everything after the two lines is collected. */
  lemma RunAfterHeader(a: string, b: string, rest: seq<string>)
    requires IsNameLine(a) && IsMarkerLine(b) && !IsNameLine(b)
    ensures Run(Scan(false, false, ""), [a, b] + rest).css == Concat(rest)
  {
    var ls := [a, b] + rest;
    var s1 := Step(Scan(false, false, ""), a);
    assert s1 == Scan(false, true, "");
    var s2 := Step(s1, b);
    assert s2 == Scan(true, true, "");
    assert ls[1..] == [b] + rest;
    assert ls[1..][1..] == rest;
  }

  /** Theme files round-trip, name half: the name written in the header
      is the name read back. */
  lemma ThemeNameRoundTrip(name: string, payload: string)
    requires ValidThemeName(name)
    ensures ThemeName(Some(ThemeText(name, payload))) == Some(name)
  {
    assert ThemeText(name, payload) == Header(name) + ("---\n" + payload);
    ThemeNameOfHeader(name, "---\n" + payload);
  }

  /** Theme files round-trip, payload half: the payload written after the
      separator is the style sheet read back. */
  lemma CssRoundTrip(name: string, payload: string)
    requires ValidThemeName(name) && payload != []
    ensures ExtractCss(Some(ThemeText(name, payload))) == Some(payload)
  {
    ThemeTextLines(name, payload);
    HeaderIsLine(name);
    assert IsMarkerLine("---\n") && !IsNameLine("---\n");
    RunAfterHeader(Header(name), "---\n", Lines(payload, CssLineCap));
  }

  /** The worked example: `THEMENAME: Midnight`, a separator, one rule. */
  lemma MidnightExample()
    ensures ThemeName(Some("THEMENAME: Midnight\n---\n.x{color:red}\n")) == Some("Midnight")
    ensures ExtractCss(Some("THEMENAME: Midnight\n---\n.x{color:red}\n")) == Some(".x{color:red}\n")
  {
    assert "THEMENAME: Midnight\n---\n.x{color:red}\n" == ThemeText("Midnight", ".x{color:red}\n");
    ThemeNameRoundTrip("Midnight", ".x{color:red}\n");
    CssRoundTrip("Midnight", ".x{color:red}\n");
  }

  // ---------------------------------------------------------------------
  // The file-name sanitiser of save_wo_file
  // ---------------------------------------------------------------------

  /** `safe_name[256]` with room left for `.wo` and the terminator: the loop
      stops once 251 bytes are written. */
  const SafeNameLimit: nat := 251

  /** Bytes the sanitiser copies as they are. */
  predicate IsSafeChar(c: char) {
    ('a' <= c <= 'z') || ('A' <= c <= 'Z') || ('0' <= c <= '9') || c == '-' || c == '_'
  }

  /** The sanitised form of the whole name, with no length limit: safe
      bytes kept, spaces turned into `_`, everything else dropped. */
  function Sanitize(name: string): (r: string)
    ensures |r| <= |name|
    ensures forall c :: c in r ==> IsSafeChar(c)
  {
    if name == [] then []
    else
      (if IsSafeChar(name[0]) then [name[0]] else if name[0] == ' ' then ['_'] else [])
      + Sanitize(name[1..])
  }

  /** The sanitiser's loop as written: it reads `src` and writes after `out`
      until the name ends or 251 bytes are written. */
  function CopySafe(src: string, out: string): (r: string)
    ensures HasPrefix(r, out)
    ensures |out| <= SafeNameLimit ==> |r| <= SafeNameLimit
    ensures |out| > SafeNameLimit ==> r == out
    ensures forall i :: |out| <= i < |r| ==> IsSafeChar(r[i])
    decreases |src|
  {
    if src == [] || |out| >= SafeNameLimit then out
    else if IsSafeChar(src[0]) then CopySafe(src[1..], out + [src[0]])
    else if src[0] == ' ' then CopySafe(src[1..], out + ['_'])
    else CopySafe(src[1..], out)
  }

  /** The loop writes the first bytes of the sanitised name, as many as fit. */
  lemma {:induction false} CopySafeIsTruncatedSanitize(src: string, out: string)
    requires |out| <= SafeNameLimit
    ensures CopySafe(src, out) == out + Sanitize(src)[..Min(|Sanitize(src)|, SafeNameLimit - |out|)]
    decreases |src|
  {
    if src != [] && |out| < SafeNameLimit {
      var rest := Sanitize(src[1..]);
      if IsSafeChar(src[0]) || src[0] == ' ' {
        var c := if IsSafeChar(src[0]) then src[0] else '_';
        CopySafeIsTruncatedSanitize(src[1..], out + [c]);
        TakeAfterCons(out, c, rest, SafeNameLimit - |out|);
        assert Sanitize(src) == [c] + rest;
      } else {
        CopySafeIsTruncatedSanitize(src[1..], out);
        assert Sanitize(src) == rest;
      }
    }
  }

  /** Writing `c` and then at most `k - 1` bytes of `rest` writes at most
      `k` bytes of `[c] + rest`. */
  lemma TakeAfterCons(out: string, c: char, rest: string, k: nat)
    requires k >= 1
    ensures (out + [c]) + rest[..Min(|rest|, k - 1)] == out + ([c] + rest)[..Min(|rest| + 1, k)]
  {
    var n := Min(|rest|, k - 1);
    assert Min(|rest| + 1, k) == n + 1;
    assert ([c] + rest)[..n + 1] == [c] + rest[..n];
  }

  function Min(a: int, b: int): int {
    if a < b then a else b
  }

  /** `save_wo_file`'s file name: the sanitised theme name, with `.wo`
      appended when it does not already end that way. */
  function SafeFileName(name: string): (r: string)
    ensures var stem := Sanitize(name)[..Min(|Sanitize(name)|, SafeNameLimit)];
            r == stem + ".wo"
    ensures |r| <= SafeNameLimit + 3
    ensures forall i :: 0 <= i < |r| - 3 ==> IsSafeChar(r[i])
    ensures HasSuffix(r, ".wo") && '/' !in r
  {
    var base := CopySafe(name, []);
    CopySafeIsTruncatedSanitize(name, []);
    SafeStemTakesSuffix(base);
    if HasSuffix(base, ".wo") then base else base + ".wo"
  }

  /** A stem of safe bytes never ends in `.wo`, and appending `.wo` to it
      gives a name with no `/`. */
  lemma SafeStemTakesSuffix(base: string)
    requires forall i :: 0 <= i < |base| ==> IsSafeChar(base[i])
    ensures !HasSuffix(base, ".wo")
    ensures HasSuffix(base + ".wo", ".wo") && '/' !in base + ".wo"
  {
    if |base| >= 3 {
      assert IsSafeChar(base[|base| - 3]);
    }
    var r := base + ".wo";
    forall i | 0 <= i < |r|
      ensures r[i] != '/'
    {
      if i < |base| {
        assert IsSafeChar(base[i]);
      }
    }
    SuffixOfAppend(base, ".wo");
  }

  /** Sanitising a sanitised name changes nothing. */
  lemma {:induction false} SanitizeIdempotent(name: string)
    ensures Sanitize(Sanitize(name)) == Sanitize(name)
  {
    if name != [] {
      SanitizeIdempotent(name[1..]);
      var head := if IsSafeChar(name[0]) then [name[0]] else if name[0] == ' ' then ['_'] else [];
      SanitizeAppend(head, Sanitize(name[1..]));
      if head != [] {
        assert head[1..] == [];
        assert Sanitize(head) == head;
      }
    }
  }

  lemma {:induction false} SanitizeAppend(a: string, b: string)
    ensures Sanitize(a + b) == Sanitize(a) + Sanitize(b)
  {
    if a == [] {
      assert a + b == b;
    } else {
      assert (a + b)[1..] == a[1..] + b;
      SanitizeAppend(a[1..], b);
    }
  }

  /** A name made of safe bytes only is its own sanitised form. */
  lemma {:induction false} SanitizeSafe(name: string)
    requires forall i :: 0 <= i < |name| ==> IsSafeChar(name[i])
    ensures Sanitize(name) == name
  {
    if name != [] {
      SanitizeSafe(name[1..]);
    }
  }

  /** One byte of the name in front of the rest: it is kept, turned into
      `_` or dropped, and the rest is sanitised on its own. */
  lemma SanitizeCons(c: char, rest: string)
    ensures IsSafeChar(c) ==> Sanitize([c] + rest) == [c] + Sanitize(rest)
    ensures c == ' ' ==> Sanitize([c] + rest) == "_" + Sanitize(rest)
    ensures !IsSafeChar(c) && c != ' ' ==> Sanitize([c] + rest) == Sanitize(rest)
  {
    assert ([c] + rest)[1..] == rest;
  }

  /** A small worked example: the space becomes `_`, the `!` is dropped and
      `.wo` is appended. */
  lemma SafeFileNameExample()
    ensures SafeFileName("a b!") == "a_b" + ".wo"
  {
    SanitizeExample();
    SafeFileNameOfStem("a b!", "a_b");
  }

  /** `SafeFileNameOfShort` with the sanitised form given by the caller. */
  lemma SafeFileNameOfStem(name: string, stem: string)
    requires Sanitize(name) == stem && |stem| <= SafeNameLimit
    ensures SafeFileName(name) == stem + ".wo"
  {
    SafeFileNameOfShort(name);
  }

  /** A name whose sanitised form fits is stored under that form plus
      `.wo`. */
  lemma SafeFileNameOfShort(name: string)
    requires |Sanitize(name)| <= SafeNameLimit
    ensures SafeFileName(name) == Sanitize(name) + ".wo"
  {
    var s := Sanitize(name);
    CopySafeIsTruncatedSanitize(name, []);
    assert s[..Min(|s|, SafeNameLimit)] == s;
    assert CopySafe(name, []) == s;
    assert !HasSuffix(s, ".wo") by {
      if |s| >= 3 {
        assert s[|s| - 3] in s;
      }
    }
  }

  lemma SanitizeExample()
    ensures Sanitize("a b!") == "a_b"
  {
    SanitizeTailExample();
    SanitizeCons(' ', "b!");
    assert Sanitize(" b!") == "_b" by { assert " b!" == [' '] + "b!"; }
    SanitizeCons('a', " b!");
    assert "a b!" == ['a'] + " b!";
  }

  lemma SanitizeTailExample()
    ensures Sanitize("b!") == "b"
  {
    SanitizeCons('!', "");
    assert Sanitize("!") == "" by { assert "!" == ['!'] + ""; }
    SanitizeCons('b', "!");
    assert "b!" == ['b'] + "!";
  }

  /** A name with a byte the sanitiser changes or drops is not stored
      under `name + ".wo"`; a name of safe bytes only (up to 251 of them)
      is. */
  lemma SafeFileNameKeepsOnlySafeNames(name: string)
    ensures SafeFileName(name) == name + ".wo"
        <==> |name| <= SafeNameLimit && forall i :: 0 <= i < |name| ==> IsSafeChar(name[i])
  {
    var r := SafeFileName(name);
    if |name| <= SafeNameLimit && forall i :: 0 <= i < |name| ==> IsSafeChar(name[i]) {
      SanitizeSafe(name);
    }
    if r == name + ".wo" {
      assert |name| == |r| - 3;
      forall i | 0 <= i < |name| ensures IsSafeChar(name[i]) {
        assert r[i] == name[i];
      }
    }
  }

  // ---------------------------------------------------------------------
  // g_path_get_basename and the saved file
  // ---------------------------------------------------------------------

  /** The trailing `/` bytes of a path removed. */
  function StripTrailingSlashes(s: string): (r: string)
    ensures HasPrefix(s, r)
    ensures r == [] || r[|r| - 1] != '/'
    ensures forall i :: |r| <= i < |s| ==> s[i] == '/'
  {
    if s != [] && s[|s| - 1] == '/' then StripTrailingSlashes(s[..|s| - 1]) else s
  }

  /** `g_path_get_basename`: the last component of a path, ignoring
      trailing slashes; `/` for a path of slashes only, `.` for the empty
      path. */
  function Basename(path: string): (r: string)
    ensures r != []
    ensures r == "/" || '/' !in r
    ensures path != [] && '/' !in path ==> r == path
    ensures path != [] && path[|path| - 1] != '/' && '/' in path ==> HasSuffix(path, "/" + r)
    ensures r == "/" <==> path != [] && forall i :: 0 <= i < |path| ==> path[i] == '/'
  {
    if path == [] then "."
    else
      var t := StripTrailingSlashes(path);
      if t == [] then "/"
      else match LastIndex(t, '/')
        case None => t
        case Some(i) =>
          assert t[i..] == "/" + t[i + 1..];
          t[i + 1..]
  }

  /** The base name of `dir/name` is `name`. */
  lemma BasenameOfJoin(dir: string, name: string)
    requires name != [] && '/' !in name
    ensures Basename(dir + "/" + name) == name
  {
    var p := dir + "/" + name;
    assert p[|p| - 1] == name[|name| - 1];
    assert StripTrailingSlashes(p) == p;
    assert p[|dir|] == '/';
    assert p[|dir| + 1..] == name;
    LastIndexAt(p, '/', |dir|);
  }

  /** The directory imported themes are copied into. */
  const ThemeDir := "assets/themes/"

  /** The file name `save_wo_file` stores a theme under: from the declared
      name, or from the base name of the source path when there is none. */
  function SavedFileName(srcPath: string, file: Option<string>): (r: string)
    ensures ThemeName(file).Some? ==> r == SafeFileName(ThemeName(file).value)
    ensures ThemeName(file).None? ==> r == SafeFileName(Basename(srcPath))
    ensures HasSuffix(r, ".wo") && '/' !in r
  {
    SafeFileName(ThemeName(file).GetOr(Basename(srcPath)))
  }

  /** A file `dir/name` that declares no theme name is stored under its
      own sanitised name. */
  lemma SavedUnderOwnName(dir: string, name: string, file: Option<string>)
    requires name != [] && '/' !in name && ThemeName(file).None?
    ensures SavedFileName(dir + "/" + name, file) == SafeFileName(name)
  {
    BasenameOfJoin(dir, name);
  }

  /** `save_wo_file`, with the outcome of the byte copy (`copy_file`) given:
      the stored file name when the copy succeeds. */
  function SaveWoFile(srcPath: string, file: Option<string>, copied: bool): (r: Option<string>)
    ensures r.Some? ==> HasSuffix(r.value, ".wo") && '/' !in r.value
    ensures r.Some? <==> copied && file.Some?
    ensures r.Some? && ThemeName(file).Some? ==> r.value == SafeFileName(ThemeName(file).value)
    ensures r.Some? && ThemeName(file).None? ==> r.value == SafeFileName(Basename(srcPath))
  {
    if copied && file.Some? then Some(SavedFileName(srcPath, file)) else None
  }
}
