/** Splitting a sequence on a separator and joining pieces with one, as
    `String.prototype.split`, `Array.prototype.join` and the byte-sequence split of the
    URL Standard do it. */
module Sequences {
  import opened Wrappers

  /** The pieces of `s` between occurrences of `sep`: `n` separators give `n + 1`
      pieces, so the empty sequence gives one empty piece. */
  function SplitOn<T(==)>(s: seq<T>, sep: T): (parts: seq<seq<T>>)
    ensures |parts| >= 1
    ensures forall i :: 0 <= i < |parts| ==> sep !in parts[i]
  {
    if s == [] then [[]]
    else
      var rest := SplitOn(s[1..], sep);
      if s[0] == sep then [[]] + rest else [[s[0]] + rest[0]] + rest[1..]
  }

  /** The pieces written one after the other with `sep` between neighbours. */
  function JoinWith<T>(parts: seq<seq<T>>, sep: T): seq<T> {
    if parts == [] then []
    else if |parts| == 1 then parts[0]
    else parts[0] + [sep] + JoinWith(parts[1..], sep)
  }

  /** Joining the pieces of a split gives back the original sequence. */
  lemma {:induction false} JoinSplit<T>(s: seq<T>, sep: T)
    ensures JoinWith(SplitOn(s, sep), sep) == s
  {
    if s != [] {
      var rest := SplitOn(s[1..], sep);
      JoinSplit(s[1..], sep);
      if s[0] == sep {
        assert SplitOn(s, sep) == [[]] + rest;
      } else {
        var parts := SplitOn(s, sep);
        assert parts == [[s[0]] + rest[0]] + rest[1..];
        if |rest| == 1 {
          assert JoinWith(parts, sep) == [s[0]] + rest[0];
        } else {
          assert parts[1..] == rest[1..];
          assert JoinWith(rest, sep) == rest[0] + [sep] + JoinWith(rest[1..], sep);
        }
      }
    }
  }

  /** A piece without separators followed by a separator splits off as one piece. */
  lemma {:induction false} SplitPrefix<T>(p: seq<T>, sep: T, t: seq<T>)
    requires sep !in p
    ensures SplitOn(p + [sep] + t, sep) == [p] + SplitOn(t, sep)
  {
    if p == [] {
      assert [] + [sep] + t == [sep] + t;
      assert ([sep] + t)[1..] == t;
    } else {
      assert (p + [sep] + t)[1..] == p[1..] + [sep] + t;
      SplitPrefix(p[1..], sep, t);
      assert [p[0]] + p[1..] == p;
    }
  }

  /** Splitting at a separator splits the two sides independently. */
  lemma {:induction false} SplitAppend<T>(a: seq<T>, sep: T, b: seq<T>)
    ensures SplitOn(a + [sep] + b, sep) == SplitOn(a, sep) + SplitOn(b, sep)
  {
    if a == [] {
      assert [] + [sep] + b == [sep] + b;
      assert ([sep] + b)[1..] == b;
    } else {
      assert (a + [sep] + b)[1..] == a[1..] + [sep] + b;
      SplitAppend(a[1..], sep, b);
      var left := SplitOn(a[1..], sep);
      if a[0] != sep {
        assert (left + SplitOn(b, sep))[0] == left[0];
        assert (left + SplitOn(b, sep))[1..] == left[1..] + SplitOn(b, sep);
      }
    }
  }

  /** A sequence without separators is a single piece. */
  lemma {:induction false} SplitNoSeparator<T>(p: seq<T>, sep: T)
    requires sep !in p
    ensures SplitOn(p, sep) == [p]
  {
    if p != [] {
      SplitNoSeparator(p[1..], sep);
      assert [p[0]] + p[1..] == p;
    }
  }

  /** Splitting a join of separator-free pieces gives back the pieces. */
  lemma {:induction false} SplitJoin<T>(parts: seq<seq<T>>, sep: T)
    requires |parts| >= 1
    requires forall i :: 0 <= i < |parts| ==> sep !in parts[i]
    ensures SplitOn(JoinWith(parts, sep), sep) == parts
  {
    if |parts| == 1 {
      SplitNoSeparator(parts[0], sep);
    } else {
      SplitJoin(parts[1..], sep);
      SplitPrefix(parts[0], sep, JoinWith(parts[1..], sep));
      assert [parts[0]] + parts[1..] == parts;
    }
  }

  /** Every element of a join is the separator or comes from one of the pieces. */
  lemma {:induction false} JoinElements<T>(parts: seq<seq<T>>, sep: T, x: T)
    requires x in JoinWith(parts, sep)
    ensures x == sep || exists i :: 0 <= i < |parts| && x in parts[i]
  {
    if |parts| > 1 {
      var tail := JoinWith(parts[1..], sep);
      assert JoinWith(parts, sep) == parts[0] + [sep] + tail;
      if x in tail {
        JoinElements(parts[1..], sep, x);
        if x != sep {
          var i :| 0 <= i < |parts[1..]| && x in parts[1..][i];
          assert x in parts[i + 1];
        }
      }
    }
  }

  /** The part of `s` before the first `sep` and the part after it; all of `s` and
      nothing when `sep` does not occur. */
  function SplitAtFirst<T(==)>(s: seq<T>, sep: T): (r: (seq<T>, seq<T>))
    ensures sep !in s ==> r == (s, [])
    ensures sep in s ==> s == r.0 + [sep] + r.1 && sep !in r.0
  {
    if s == [] then ([], [])
    else if s[0] == sep then ([], s[1..])
    else
      var (before, after) := SplitAtFirst(s[1..], sep);
      assert s == [s[0]] + s[1..];
      ([s[0]] + before, after)
  }

  /** Splitting at the first separator undoes writing a separator-free part, the
      separator and anything after it. */
  lemma {:induction false} SplitAtFirstAfter<T>(a: seq<T>, sep: T, b: seq<T>)
    requires sep !in a
    ensures SplitAtFirst(a + [sep] + b, sep) == (a, b)
  {
    var s := a + [sep] + b;
    if a == [] {
      assert s == [sep] + b;
    } else {
      assert s[0] == a[0] && s[1..] == a[1..] + [sep] + b;
      SplitAtFirstAfter(a[1..], sep, b);
      assert [a[0]] + a[1..] == a;
    }
  }

  /** `xs.some(x => ys.includes(x))`. */
  function SomeIn<T(==)>(xs: seq<T>, ys: seq<T>): (b: bool)
    ensures b <==> exists x :: x in xs && x in ys
  {
    if xs == [] then false
    else if xs[0] in ys then true
    else
      assert forall x :: x in xs ==> x == xs[0] || x in xs[1..];
      SomeIn(xs[1..], ys)
  }

  /** `findIndex`: the index of the first element satisfying `p`, if any. */
  function IndexWhere<T>(s: seq<T>, p: T -> bool): (r: Option<nat>)
    ensures r.Some? ==> r.value < |s| && p(s[r.value]) && forall j :: 0 <= j < r.value ==> !p(s[j])
    ensures r.None? ==> forall j :: 0 <= j < |s| ==> !p(s[j])
  {
    if s == [] then None
    else if p(s[0]) then Some(0)
    else
      match IndexWhere(s[1..], p)
      case None => None
      case Some(k) => Some(k + 1)
  }

  /** `f` applied to every element, in order (`Array.prototype.map`). */
  function Map<T, U>(f: T -> U, s: seq<T>): (r: seq<U>)
    ensures |r| == |s| && forall i :: 0 <= i < |s| ==> r[i] == f(s[i])
  {
    if s == [] then [] else [f(s[0])] + Map(f, s[1..])
  }

  /** The sequences written one after the other. */
  function Concat<T>(ss: seq<seq<T>>): seq<T> {
    if ss == [] then [] else ss[0] + Concat(ss[1..])
  }

  /** Concatenation distributes over appending lists of sequences. */
  lemma {:induction false} ConcatAppend<T>(a: seq<seq<T>>, b: seq<seq<T>>)
    ensures Concat(a + b) == Concat(a) + Concat(b)
  {
    if a != [] {
      assert (a + b)[0] == a[0] && (a + b)[1..] == a[1..] + b;
      ConcatAppend(a[1..], b);
      assert Concat(a + b) == a[0] + Concat(a[1..] + b);
    } else {
      assert a + b == b;
    }
  }
}
