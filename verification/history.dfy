/** The navigation state of the explorer window (src/explorer.c): the
    current path and the two history stacks, `back` and `forward`, each
    with its most recent path last. `load_path(p, TRUE)` is a recorded
    navigation, `on_back` and `on_forward` replay the history, and `on_up`
    navigates to the parent of the current path. */
module History {
  import opened Base
  import opened Text

  datatype History = History(current: string, back: seq<string>, forward: seq<string>)

  /** The state `explorer_create_window` sets up: the home directory is
      current and both stacks are empty. */
  function Start(home: string): (r: History)
    ensures Timeline(r) == [home] && Position(r) == 0
  {
    History(home, [], [])
  }

  /** Every path the window can reach with Back and Forward, oldest first:
      the back stack, the current path, then the forward stack from its
      top down. */
  function Timeline(h: History): seq<string> {
    h.back + [h.current] + Reverse(h.forward)
  }

  /** Where the current path sits in the timeline. */
  function Position(h: History): nat {
    |h.back|
  }

  /** The state a timeline and a position in it stand for. */
  function AtPosition(t: seq<string>, i: nat): History
    requires i < |t|
  {
    History(t[i], t[..i], Reverse(t[i + 1..]))
  }

  /** The timeline and the position determine the whole state: the two
      stacks are exactly what lies before and after the current path. */
  lemma TimelineDeterminesState(h: History)
    ensures Position(h) < |Timeline(h)|
    ensures AtPosition(Timeline(h), Position(h)) == h
  {
    var t := Timeline(h);
    var i := Position(h);
    assert t[..i] == h.back;
    assert t[i] == h.current;
    assert t[i + 1..] == Reverse(h.forward);
    ReverseReverse(h.forward);
  }

  /** `load_path(p, TRUE)`: the old current path is pushed onto `back` when
      it is not empty, `p` becomes current and `forward` is emptied. On the
      timeline: everything up to the current path stays, the forward part
      is discarded, and `p` follows. */
  function Navigate(h: History, p: string): (r: History)
    ensures r.current == p && r.forward == []
    ensures h.current != "" ==> Timeline(r) == Timeline(h)[..Position(h) + 1] + [p]
    ensures h.current != "" ==> Position(r) == Position(h) + 1
    ensures h.current == "" ==> Timeline(r) == Timeline(h)[..Position(h)] + [p]
    ensures h.current == "" ==> Position(r) == Position(h)
  {
    var t := Timeline(h);
    assert t[..Position(h)] == h.back;
    assert t[..Position(h) + 1] == h.back + [h.current];
    History(p, if h.current != "" then h.back + [h.current] else h.back, [])
  }

  /** `on_back`: nothing happens when `back` is empty; otherwise its top
      becomes current and the old current path goes onto `forward`. The
      timeline does not change; the position moves one step back. */
  function Back(h: History): (r: History)
    ensures h.back == [] ==> r == h
    ensures h.back != [] ==> Timeline(r) == Timeline(h) && Position(r) == Position(h) - 1
    ensures h.back != [] ==> r.current == h.back[|h.back| - 1]
  {
    if h.back == [] then h
    else
      var n := |h.back|;
      var r := History(h.back[n - 1], h.back[..n - 1], h.forward + [h.current]);
      ReversePrepend(h.current, Reverse(h.forward));
      assert Reverse(h.forward + [h.current]) == [h.current] + Reverse(h.forward) by {
        ReverseAppendLast(h.forward + [h.current]);
        assert (h.forward + [h.current])[..|h.forward|] == h.forward;
      }
      assert h.back[..n - 1] + [h.back[n - 1]] == h.back;
      r
  }

  /** `on_forward`, the mirror image of `on_back`. */
  function Forward(h: History): (r: History)
    ensures h.forward == [] ==> r == h
    ensures h.forward != [] ==> Timeline(r) == Timeline(h) && Position(r) == Position(h) + 1
    ensures h.forward != [] ==> r.current == h.forward[|h.forward| - 1]
  {
    if h.forward == [] then h
    else
      var n := |h.forward|;
      var r := History(h.forward[n - 1], h.back + [h.current], h.forward[..n - 1]);
      assert Reverse(h.forward) == [h.forward[n - 1]] + Reverse(h.forward[..n - 1]) by {
        ReverseAppendLast(h.forward);
      }
      r
  }

  /** Back undoes Forward and Forward undoes Back. */
  lemma BackForwardInverse(h: History)
    ensures h.back != [] ==> Forward(Back(h)) == h
    ensures h.forward != [] ==> Back(Forward(h)) == h
  {
    if h.back != [] {
      var b := Back(h);
      TimelineDeterminesState(h);
      TimelineDeterminesState(Forward(b));
    }
    if h.forward != [] {
      var f := Forward(h);
      TimelineDeterminesState(h);
      TimelineDeterminesState(Back(f));
    }
  }

  /** `k` presses of the Back button. */
  function Backs(h: History, k: nat): History
    decreases k
  {
    if k == 0 then h else Backs(Back(h), k - 1)
  }

  /** `k` presses of the Forward button. */
  function Forwards(h: History, k: nat): History
    decreases k
  {
    if k == 0 then h else Forwards(Forward(h), k - 1)
  }

  /** Going back `k` times (no more than there is history) walks `k` steps
      back along the same timeline. */
  lemma {:induction false} BacksAlongTimeline(h: History, k: nat)
    requires k <= Position(h)
    ensures Timeline(Backs(h, k)) == Timeline(h)
    ensures Position(Backs(h, k)) == Position(h) - k
    ensures Backs(h, k).current == Timeline(h)[Position(h) - k]
    decreases k
  {
    if k == 0 {
      CurrentOnTimeline(h);
    } else {
      var g := Back(h);
      assert Timeline(g) == Timeline(h) && Position(g) == Position(h) - 1;
      assert Backs(h, k) == Backs(g, k - 1);
      BacksAlongTimeline(g, k - 1);
    }
  }

  /** The current path sits at the position in the timeline. */
  lemma CurrentOnTimeline(h: History)
    ensures |Timeline(h)| == Position(h) + 1 + |h.forward|
    ensures Timeline(h)[Position(h)] == h.current
  {
  }

  /** Going forward `k` times walks `k` steps forward along the timeline. */
  lemma {:induction false} ForwardsAlongTimeline(h: History, k: nat)
    requires Position(h) + k < |Timeline(h)|
    ensures Timeline(Forwards(h, k)) == Timeline(h)
    ensures Position(Forwards(h, k)) == Position(h) + k
    ensures Forwards(h, k).current == Timeline(h)[Position(h) + k]
    decreases k
  {
    if k == 0 {
      CurrentOnTimeline(h);
    } else {
      assert h.forward != [] by {
        CurrentOnTimeline(h);
      }
      var g, t := Forward(h), Timeline(h);
      assert Timeline(g) == t && Position(g) == Position(h) + 1;
      ForwardsAlongTimeline(g, k - 1);
      var f := Forwards(g, k - 1);
      assert Forwards(h, k) == f;
      assert Timeline(f) == t && Position(f) == Position(h) + k && f.current == t[Position(h) + k];
    }
  }

  /** Going back `k` times and then forward `k` times returns to the state
      the window started from. */
  lemma BacksThenForwards(h: History, k: nat)
    requires k <= Position(h)
    ensures Forwards(Backs(h, k), k) == h
  {
    var b := Backs(h, k);
    BacksAlongTimeline(h, k);
    ForwardsAlongTimeline(b, k);
    TimelineDeterminesState(h);
    TimelineDeterminesState(Forwards(b, k));
  }

  /** A recorded navigation followed by Back returns to the old current
      path and leaves only the abandoned path to go forward to. */
  lemma NavigateThenBack(h: History, p: string)
    requires h.current != ""
    ensures Back(Navigate(h, p)) == History(h.current, h.back, [p])
  {
  }

  /** Start at A, open B, open C, go back twice, go forward once: B is
      current, A can be gone back to and C gone forward to. */
  lemma ThreeFoldersExample()
    ensures Forward(Back(Back(Navigate(Navigate(Start("A"), "B"), "C"))))
         == History("B", ["A"], ["C"])
    ensures Back(Back(Navigate(Navigate(Start("A"), "B"), "C")))
         == History("A", [], ["C", "B"])
  {
    var h2 := Navigate(Navigate(Start("A"), "B"), "C");
    assert h2 == History("C", ["A", "B"], []);
    assert Back(h2) == History("B", ["A"], ["C"]);
    assert Back(Back(h2)) == History("A", [], ["C", "B"]);
  }

  // ---------------------------------------------------------------------
  // on_up
  // ---------------------------------------------------------------------

  /** The path `on_up` goes to: cut at the last `/`, keeping the `/` itself
      when it is the first byte. The C code dereferences the result of
      `g_strrstr`, so a path without `/` is outside its domain. */
  function Parent(p: string): (r: string)
    requires '/' in p
    ensures HasPrefix(p, r) && r != []
    ensures p != "/" ==> |r| < |p|
    ensures p[0] == '/' ==> r[0] == '/'
    ensures r != "/" ==> p[|r|] == '/' && '/' !in p[|r| + 1..]
    ensures r == "/" && |p| >= 2 ==> '/' !in p[2..]
  {
    var i := LastIndex(p, '/').value;
    if i == 0 then p[..1] else p[..i]
  }

  /** The parent of `dir/name` is `dir`; for a name directly under the root
      (`dir` empty, or `dir` the root itself) it is the root. */
  lemma {:induction false} ParentOfJoin(dir: string, name: string)
    requires name != [] && '/' !in name
    ensures Parent(dir + "/" + name) == (if dir == "" then "/" else dir)
  {
    var p := dir + "/" + name;
    assert p[|dir|] == '/';
    assert p[|dir| + 1..] == name;
    LastIndexAt(p, '/', |dir|);
    assert p[..|dir|] == dir;
    assert p[..1] == "/" <== dir == "";
  }

  /** `on_up`: nothing on the root; otherwise a recorded navigation to the
      parent path, which is a strictly shorter prefix of the current one. */
  function Up(h: History): (r: History)
    requires h.current == "/" || '/' in h.current
    ensures h.current == "/" ==> r == h
    ensures h.current != "/" ==> HasPrefix(h.current, r.current) && |r.current| < |h.current|
    ensures h.current != "/" ==> r.back == h.back + [h.current] && r.forward == []
  {
    if h.current == "/" then h else Navigate(h, Parent(h.current))
  }

  /** Opening a sub-directory and pressing Up comes back to the directory,
      with the sub-directory left on the back stack. */
  lemma EnterThenUp(h: History, name: string)
    requires h.current != "" && name != [] && '/' !in name
    ensures Up(Navigate(h, h.current + "/" + name)).current == h.current
  {
    ParentOfJoin(h.current, name);
  }

  /** `k` presses of the Up button. */
  function Ups(p: string, k: nat): (r: string)
    requires p != [] && p[0] == '/'
    ensures r != [] && r[0] == '/'
  {
    if k == 0 || p == "/" then p else Ups(Parent(p), k - 1)
  }

  /** From any absolute path, pressing Up as many times as the path has
      bytes arrives at the root. */
  lemma {:induction false} UpsReachRoot(p: string, k: nat)
    requires p != [] && p[0] == '/' && k >= |p|
    ensures Ups(p, k) == "/"
  {
    if p != "/" {
      var q := Parent(p);
      assert |q| < |p|;
      UpsReachRoot(q, k - 1);
    } else {
      assert k >= 1;
    }
  }

  // ---------------------------------------------------------------------
  // on_path_enter
  // ---------------------------------------------------------------------

  /** An absolute path: one that starts at the root. */
  predicate IsAbsolute(p: string) {
    p != [] && p[0] == '/'
  }

  /** `on_path_enter`: the typed text becomes current, through a recorded
      navigation, when `g_file_test` reports a directory there (`isDir`);
      otherwise nothing changes. The text is taken as typed, so the name
      of a directory in the working directory is accepted as it is. */
  function PathEnter(h: History, t: string, isDir: bool): (r: History)
    ensures !isDir ==> r == h
    ensures isDir ==> r.current == t && r.forward == []
  {
    if isDir then Navigate(h, t) else h
  }

  /** `on_up` as written. On a current path that is not `/` and holds no
      `/`, `g_strrstr` returns NULL and the code writes through it; `None`
      stands for that crash. Otherwise it is `Up`. */
  function UpAsWritten(h: History): (r: Option<History>)
    ensures r.None? <==> h.current != "/" && '/' !in h.current
    ensures r.Some? ==> r.value.current == h.current || HasPrefix(h.current, r.value.current)
  {
    if h.current != "/" && '/' !in h.current then None else Some(Up(h))
  }

  /** From the home directory, entering `docs` (a directory of the working
      directory) and pressing Up crashes. */
  lemma RelativePathCrashesUp()
    ensures UpAsWritten(PathEnter(Start("/home"), "docs", true)) == None
  {
    assert PathEnter(Start("/home"), "docs", true).current == "docs";
    assert '/' !in "docs";
  }

  /** The typed text resolved against the working directory `cwd`, which
      `getcwd` always reports as an absolute path. */
  function Resolve(cwd: string, t: string): (r: string)
    requires IsAbsolute(cwd)
    ensures IsAbsolute(r)
    ensures IsAbsolute(t) ==> r == t
  {
    if IsAbsolute(t) then t else cwd + "/" + t
  }

  /** `on_path_enter` corrected: a relative path is resolved against the
      working directory before it is navigated to. */
  function PathEnterFixed(h: History, cwd: string, t: string, isDir: bool): (r: History)
    requires IsAbsolute(cwd)
    ensures !isDir ==> r == h
    ensures isDir ==> IsAbsolute(r.current) && r.forward == []
    ensures IsAbsolute(t) ==> r == PathEnter(h, t, isDir)
  {
    PathEnter(h, Resolve(cwd, t), isDir)
  }

  /** With the corrected address bar the current path stays absolute, so
      `on_up` never meets a path without `/`. */
  lemma PathEnterFixedKeepsUpDefined(h: History, cwd: string, t: string, isDir: bool)
    requires IsAbsolute(cwd) && IsAbsolute(h.current)
    ensures IsAbsolute(PathEnterFixed(h, cwd, t, isDir).current)
    ensures UpAsWritten(PathEnterFixed(h, cwd, t, isDir)).Some?
  {
    var c := PathEnterFixed(h, cwd, t, isDir).current;
    assert c[0] == '/';
  }
}
