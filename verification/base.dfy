/** Generic helpers shared by every module of the model: an optional value,
    sequence reversal and flattening. */
module Base {

  /** A value that may be absent; stands for the C code's NULL returns. */
  datatype Option<T> = None | Some(value: T) {

    /** The carried value, or `default` when there is none. */
    function GetOr(default: T): T {
      match this
      case Some(v) => v
      case None => default
    }
  }

  /** The elements of `s` in the opposite order. */
  function Reverse<T>(s: seq<T>): (r: seq<T>)
    ensures |r| == |s|
    ensures forall i :: 0 <= i < |s| ==> r[i] == s[|s| - 1 - i]
  {
    if s == [] then [] else Reverse(s[1..]) + [s[0]]
  }

  /** Reversing a sequence with one element put in front of it puts that
      element at the end of the reversed sequence. */
  lemma ReversePrepend<T>(x: T, s: seq<T>)
    ensures Reverse([x] + s) == Reverse(s) + [x]
  {
    assert ([x] + s)[1..] == s;
  }

  /** Reversal is its own inverse. */
  lemma {:induction false} ReverseReverse<T>(s: seq<T>)
    ensures Reverse(Reverse(s)) == s
  {
    if s != [] {
      ReverseReverse(s[1..]);
      ReversePrepend(s[0], Reverse(Reverse(s[1..])));
      assert Reverse(s) == Reverse(s[1..]) + [s[0]];
      var r := Reverse(s);
      assert r[..|r| - 1] == Reverse(s[1..]);
      assert Reverse(r) == [r[|r| - 1]] + Reverse(r[..|r| - 1]) by {
        ReverseAppendLast(r);
      }
    }
  }

  /** Reversing puts the last element first. */
  lemma {:induction false} ReverseAppendLast<T>(r: seq<T>)
    requires r != []
    ensures Reverse(r) == [r[|r| - 1]] + Reverse(r[..|r| - 1])
  {
    var rest := r[1..];
    assert r == [r[0]] + rest;
    if rest == [] {
      assert r[..|r| - 1] == [];
    } else {
      ReverseAppendLast(rest);
      var mid := rest[..|rest| - 1];
      assert r[..|r| - 1] == [r[0]] + mid;
      ReversePrepend(r[0], mid);
      ReversePrepend(r[0], rest);
      assert rest[|rest| - 1] == r[|r| - 1];
      assert Reverse(r) == ([r[|r| - 1]] + Reverse(mid)) + [r[0]];
    }
  }

  /** The pieces of `ss` joined end to end, in order. */
  function Concat<T>(ss: seq<seq<T>>): seq<T>
  {
    if ss == [] then [] else ss[0] + Concat(ss[1..])
  }

  /** Flattening distributes over joining two sequences of pieces. */
  lemma {:induction false} ConcatAppend<T>(a: seq<seq<T>>, b: seq<seq<T>>)
    ensures Concat(a + b) == Concat(a) + Concat(b)
  {
    if a == [] {
      assert a + b == b;
    } else {
      assert (a + b)[1..] == a[1..] + b;
      ConcatAppend(a[1..], b);
    }
  }

  /** Concatenation is associative, stated once at a generic type. */
  lemma AppendAssoc<T>(a: seq<T>, b: seq<T>, c: seq<T>)
    ensures a + (b + c) == (a + b) + c
  {
  }

  /** Regrouping a four-part concatenation, stated once at a generic type so
      that callers do not redo the sequence algebra on their own types. */
  lemma AppendRegroup<T>(a: seq<T>, b: seq<T>, c: seq<T>, d: seq<T>)
    ensures a + (b + c + d) == a + b + c + d
  {
  }

  /** Some element satisfies `p` exactly when the first does or some
      element of the rest does. */
  lemma {:induction false} ExistsCons<T>(s: seq<T>, p: T -> bool)
    requires s != []
    ensures (exists i :: 0 <= i < |s| && p(s[i]))
        <==> p(s[0]) || exists i :: 0 <= i < |s[1..]| && p(s[1..][i])
  {
    var rest := s[1..];
    if exists i :: 0 <= i < |s| && p(s[i]) {
      var i :| 0 <= i < |s| && p(s[i]);
      if i > 0 {
        assert rest[i - 1] == s[i];
      }
    }
    if exists i :: 0 <= i < |rest| && p(rest[i]) {
      var i :| 0 <= i < |rest| && p(rest[i]);
      assert s[i + 1] == rest[i];
    }
  }
}
