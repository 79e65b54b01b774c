// Maximal runs of the elements of a sequence that belong to a class: the
// word finder shared by the trainers (bytes that may be part of a word in
// the C++ trainer, Devanagari code points in the Python one).

module Tokens {
  /** The length of the leading stretch of `s` whose elements are in the class. */
  function Lead<T>(s: seq<T>, p: T -> bool): (n: nat)
    ensures n <= |s|
    ensures forall i :: 0 <= i < n ==> p(s[i])
    ensures n < |s| ==> !p(s[n])
  {
    if s == [] || !p(s[0]) then 0 else 1 + Lead(s[1..], p)
  }

  /** The maximal runs of class elements of `s`, left to right. */
  function Runs<T>(s: seq<T>, p: T -> bool): (r: seq<seq<T>>)
    decreases |s|
  {
    if s == [] then []
    else
      var n := Lead(s, p);
      if n == 0 then Runs(s[1..], p) else [s[..n]] + Runs(s[n..], p)
  }

  /** The class elements of `s`, in order. */
  function Filter<T>(s: seq<T>, p: T -> bool): (r: seq<T>)
    ensures |r| <= |s|
    ensures forall i :: 0 <= i < |r| ==> p(r[i])
  {
    if s == [] then [] else (if p(s[0]) then [s[0]] else []) + Filter(s[1..], p)
  }

  function Flatten<T>(ss: seq<seq<T>>): (r: seq<T>)
  {
    if ss == [] then [] else ss[0] + Flatten(ss[1..])
  }

  /** How many times `x` occurs in `s`. */
  function Count<T(==)>(x: T, s: seq<T>): (r: nat)
    decreases |s|
  {
    if s == [] then 0 else Count(x, s[..|s| - 1]) + (if s[|s| - 1] == x then 1 else 0)
  }

  /** A run of class elements. */
  predicate AllIn<T>(r: seq<T>, p: T -> bool)
  {
    forall i :: 0 <= i < |r| ==> p(r[i])
  }

  lemma {:induction false} FlattenAppend<T>(ss: seq<seq<T>>, ts: seq<seq<T>>)
    ensures Flatten(ss + ts) == Flatten(ss) + Flatten(ts)
  {
    if ss == [] {
      assert ss + ts == ts;
    } else {
      assert (ss + ts)[1..] == ss[1..] + ts;
      FlattenAppend(ss[1..], ts);
    }
  }

  lemma FlattenSnoc<T>(ss: seq<seq<T>>, s: seq<T>)
    ensures Flatten(ss + [s]) == Flatten(ss) + s
  {
    FlattenAppend(ss, [s]);
    assert [s][1..] == [];
    assert Flatten([s]) == s + Flatten<T>([]);
    assert s + [] == s;
  }

  /** Every run is non-empty and made of class elements only. */
  lemma {:induction false} RunsShape<T>(s: seq<T>, p: T -> bool)
    ensures forall k :: 0 <= k < |Runs(s, p)| ==> Runs(s, p)[k] != [] && AllIn(Runs(s, p)[k], p)
    decreases |s|
  {
    if s != [] {
      var n := Lead(s, p);
      if n == 0 {
        RunsShape(s[1..], p);
      } else {
        RunsShape(s[n..], p);
      }
    }
  }

  /** Taken together the runs hold exactly the class elements, in order. */
  lemma {:induction false} RunsFlatten<T>(s: seq<T>, p: T -> bool)
    ensures Flatten(Runs(s, p)) == Filter(s, p)
    decreases |s|
  {
    if s != [] {
      var n := Lead(s, p);
      if n == 0 {
        RunsFlatten(s[1..], p);
      } else {
        RunsFlatten(s[n..], p);
        assert Runs(s, p)[1..] == Runs(s[n..], p);
        FilterAllIn(s[..n], s[n..], p);
        assert s[..n] + s[n..] == s;
      }
    }
  }

  lemma {:induction false} FilterAllIn<T>(r: seq<T>, rest: seq<T>, p: T -> bool)
    requires AllIn(r, p)
    ensures Filter(r + rest, p) == r + Filter(rest, p)
  {
    if r == [] {
      assert r + rest == rest;
    } else {
      assert (r + rest)[1..] == r[1..] + rest;
      FilterAllIn(r[1..], rest, p);
    }
  }

  lemma {:induction false} FilterConcat<T>(a: seq<T>, b: seq<T>, p: T -> bool)
    ensures Filter(a + b, p) == Filter(a, p) + Filter(b, p)
  {
    if a == [] {
      assert a + b == b;
    } else {
      assert (a + b)[1..] == a[1..] + b;
      FilterConcat(a[1..], b, p);
    }
  }

  /** The class elements of each piece, found one piece at a time. */
  function FilterEach<T>(pieces: seq<seq<T>>, p: T -> bool): (r: seq<seq<T>>)
    ensures |r| == |pieces|
    ensures forall k :: 0 <= k < |r| ==> r[k] == Filter(pieces[k], p)
  {
    if pieces == [] then [] else [Filter(pieces[0], p)] + FilterEach(pieces[1..], p)
  }

  /** Filtering piece by piece and joining gives what filtering the whole gives. */
  lemma {:induction false} FilterPieces<T>(pieces: seq<seq<T>>, p: T -> bool)
    ensures Flatten(FilterEach(pieces, p)) == Filter(Flatten(pieces), p)
  {
    if pieces != [] {
      FilterPieces(pieces[1..], p);
      FilterConcat(pieces[0], Flatten(pieces[1..]), p);
    }
  }

  lemma {:induction false} LeadSeparated<T>(a: seq<T>, x: T, b: seq<T>, p: T -> bool)
    requires !p(x)
    ensures Lead(a + [x] + b, p) == Lead(a, p)
  {
    if a != [] && p(a[0]) {
      assert (a + [x] + b)[1..] == a[1..] + [x] + b;
      LeadSeparated(a[1..], x, b, p);
    }
  }

  /** An element outside the class splits the runs: none crosses it. */
  lemma {:induction false} RunsSeparated<T>(a: seq<T>, x: T, b: seq<T>, p: T -> bool)
    requires !p(x)
    ensures Runs(a + [x] + b, p) == Runs(a, p) + Runs(b, p)
    decreases |a|
  {
    var s := a + [x] + b;
    if a == [] {
      assert s[1..] == b;
    } else {
      LeadSeparated(a, x, b, p);
      var n := Lead(a, p);
      if n == 0 {
        assert s[1..] == a[1..] + [x] + b;
        RunsSeparated(a[1..], x, b, p);
      } else {
        assert s[..n] == a[..n];
        assert s[n..] == a[n..] + [x] + b;
        RunsSeparated(a[n..], x, b, p);
      }
    }
  }

  /** A non-empty stretch of class elements is one run. */
  lemma RunsWhole<T>(r: seq<T>, p: T -> bool)
    requires r != [] && AllIn(r, p)
    ensures Runs(r, p) == [r]
  {
    assert Lead(r, p) == |r|;
    assert r[..|r|] == r;
    assert r[|r|..] == [];
    assert Runs<T>([], p) == [];
  }

  /** A stretch of class elements after a boundary (or at the start) is the last run. */
  lemma RunsEndRun<T>(a: seq<T>, r: seq<T>, p: T -> bool)
    requires AllIn(r, p) && (a == [] || !p(a[|a| - 1]))
    ensures Runs(a + r, p) == Runs(a, p) + (if r == [] then [] else [r])
  {
    if r != [] {
      RunsWhole(r, p);
    }
    if a == [] {
      assert a + r == r;
    } else {
      var front := a[..|a| - 1];
      var x := a[|a| - 1];
      RunsSeparated(front, x, r, p);
      RunsSeparated(front, x, [], p);
      assert front + [x] + r == a + r;
      assert front + [x] + [] == a;
    }
  }

  /** An element outside the class closes the run in progress. */
  lemma RunsCloseRun<T>(a: seq<T>, r: seq<T>, x: T, p: T -> bool)
    requires AllIn(r, p) && (a == [] || !p(a[|a| - 1])) && !p(x)
    ensures Runs(a + r + [x], p) == Runs(a, p) + (if r == [] then [] else [r])
  {
    RunsSeparated(a + r, x, [], p);
    assert a + r + [x] + [] == a + r + [x];
    RunsEndRun(a, r, p);
  }

  /** Pieces cut right before elements outside the class have, together, the runs of the whole. */
  lemma {:induction false} RunsOfPieces<T>(pieces: seq<seq<T>>, p: T -> bool)
    requires forall k :: 1 <= k < |pieces| ==> pieces[k] == [] || !p(pieces[k][0])
    ensures Flatten(RunsEach(pieces, p)) == Runs(Flatten(pieces), p)
  {
    if pieces != [] {
      RunsOfPieces(pieces[1..], p);
      var rest := Flatten(pieces[1..]);
      assert Flatten(pieces) == pieces[0] + rest;
      if rest != [] {
        PiecesStart(pieces[1..], p);
        RunsSeparated(pieces[0], rest[0], rest[1..], p);
        assert pieces[0] + rest == pieces[0] + [rest[0]] + rest[1..];
        assert Runs(rest, p) == Runs([] + [rest[0]] + rest[1..], p) by {
          RunsSeparated([], rest[0], rest[1..], p);
          assert [] + [rest[0]] + rest[1..] == rest;
        }
      } else {
        assert pieces[0] + rest == pieces[0];
      }
      FlattenAppend([Runs(pieces[0], p)], RunsEach(pieces[1..], p));
      assert RunsEach(pieces, p) == [Runs(pieces[0], p)] + RunsEach(pieces[1..], p);
    }
  }

  lemma {:induction false} PiecesStart<T>(pieces: seq<seq<T>>, p: T -> bool)
    requires forall k :: 0 <= k < |pieces| ==> pieces[k] == [] || !p(pieces[k][0])
    requires Flatten(pieces) != []
    ensures !p(Flatten(pieces)[0])
  {
    if pieces[0] == [] {
      PiecesStart(pieces[1..], p);
    }
  }

  /** The runs of each piece, found one piece at a time. */
  function RunsEach<T>(pieces: seq<seq<T>>, p: T -> bool): (r: seq<seq<seq<T>>>)
    ensures |r| == |pieces|
    ensures forall k :: 0 <= k < |r| ==> r[k] == Runs(pieces[k], p)
  {
    if pieces == [] then [] else [Runs(pieces[0], p)] + RunsEach(pieces[1..], p)
  }
}
