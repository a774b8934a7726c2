/**
 * The lists a loop builds by pushing, one input at a time: one value per
 * input (`MapSeq`), one value per input that passes a test (`FilterMap`),
 * or any number of values per input (`FlatMap`).
 */
module Seqs {
  /** The list a loop builds by pushing `f(x)` for each `x` of `s` in turn. */
  function MapSeq<A, B>(s: seq<A>, f: A -> B): (r: seq<B>)
    ensures |r| == |s|
    ensures forall i :: 0 <= i < |s| ==> r[i] == f(s[i])
    decreases |s|
  {
    if s == [] then [] else MapSeq(s[..|s| - 1], f) + [f(s[|s| - 1])]
  }

  lemma MapSeqStep<A, B>(s: seq<A>, f: A -> B, i: nat)
    requires i < |s|
    ensures MapSeq(s[..i + 1], f) == MapSeq(s[..i], f) + [f(s[i])]
  {
    assert s[..i + 1][..i] == s[..i];
  }

  lemma MapSeqMembers<A, B>(s: seq<A>, f: A -> B, y: B)
    ensures y in MapSeq(s, f) <==> exists x :: x in s && y == f(x)
  {
    var r := MapSeq(s, f);
    if y in r {
      var i :| 0 <= i < |r| && r[i] == y;
      assert s[i] in s;
    }
    if exists x :: x in s && y == f(x) {
      var x :| x in s && y == f(x);
      var i :| 0 <= i < |s| && s[i] == x;
      assert r[i] == y;
    }
  }

  /** The list a loop builds by pushing `f(x)` for each `x` of `s` that passes `p`, skipping the others. */
  function FilterMap<A, B>(s: seq<A>, p: A -> bool, f: A -> B): (r: seq<B>)
    ensures |r| <= |s|
    decreases |s|
  {
    if s == [] then []
    else FilterMap(s[..|s| - 1], p, f) + (if p(s[|s| - 1]) then [f(s[|s| - 1])] else [])
  }

  lemma FilterMapStep<A, B>(s: seq<A>, p: A -> bool, f: A -> B, i: nat)
    requires i < |s|
    ensures FilterMap(s[..i + 1], p, f) == FilterMap(s[..i], p, f) + (if p(s[i]) then [f(s[i])] else [])
  {
    assert s[..i + 1][..i] == s[..i];
  }

  lemma {:induction false} FilterMapMembers<A, B>(s: seq<A>, p: A -> bool, f: A -> B, y: B)
    ensures y in FilterMap(s, p, f) <==> exists x :: x in s && p(x) && y == f(x)
    decreases |s|
  {
    if s != [] {
      var init, last := s[..|s| - 1], s[|s| - 1];
      FilterMapMembers(init, p, f, y);
      assert s == init + [last];
      if exists x :: x in s && p(x) && y == f(x) {
        var x :| x in s && p(x) && y == f(x);
        if x != last {
          assert x in init;
        }
      }
      if exists x :: x in init && p(x) && y == f(x) {
        var x :| x in init && p(x) && y == f(x);
        assert x in s;
      }
    }
  }

  lemma {:induction false} FilterMapAll<A, B>(s: seq<A>, p: A -> bool, f: A -> B)
    requires forall x :: x in s ==> p(x)
    ensures FilterMap(s, p, f) == MapSeq(s, f)
    decreases |s|
  {
    if s != [] {
      assert s[|s| - 1] in s;
      assert forall x :: x in s[..|s| - 1] ==> x in s;
      FilterMapAll(s[..|s| - 1], p, f);
    }
  }

  /** The list a loop builds by pushing the values `f(x)` for each `x` of `s` in turn. */
  function FlatMap<A, B>(s: seq<A>, f: A -> seq<B>): seq<B>
    decreases |s|
  {
    if s == [] then [] else FlatMap(s[..|s| - 1], f) + f(s[|s| - 1])
  }

  lemma FlatMapStep<A, B>(s: seq<A>, f: A -> seq<B>, i: nat)
    requires i < |s|
    ensures FlatMap(s[..i + 1], f) == FlatMap(s[..i], f) + f(s[i])
  {
    assert s[..i + 1][..i] == s[..i];
  }

  /** Concatenation is associative; stated for any element type, so the solver needs no element-wise reasoning where it is used. */
  lemma AppendAssoc<T>(a: seq<T>, b: seq<T>, c: seq<T>)
    ensures a + b + c == a + (b + c)
  {
  }

  lemma AppendNil<T>(a: seq<T>)
    ensures a + [] == a && [] + a == a
  {
  }
}
