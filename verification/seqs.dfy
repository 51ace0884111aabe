/** Mapping, flattening and first-occurrence de-duplication of sequences:
    `array.map(f)`, `array.flatMap(f)` and `[...new Set(array)]`. */
module Seqs {

  predicate Distinct<T(==)>(s: seq<T>) {
    forall i, j :: 0 <= i < j < |s| ==> s[i] != s[j]
  }

  /** `s.map(f)` */
  function Map<A, B>(f: A -> B, s: seq<A>): (r: seq<B>)
    ensures |r| == |s| && forall i :: 0 <= i < |s| ==> r[i] == f(s[i])
  {
    seq(|s|, i requires 0 <= i < |s| => f(s[i]))
  }

  /** Mapping two runs one after the other is mapping each. */
  lemma MapConcat<A, B>(f: A -> B, a: seq<A>, b: seq<A>)
    ensures Map(f, a + b) == Map(f, a) + Map(f, b)
  {
    forall i | 0 <= i < |a + b|
      ensures Map(f, a + b)[i] == (Map(f, a) + Map(f, b))[i]
    {
      if i < |a| {
        assert (a + b)[i] == a[i];
      } else {
        assert (a + b)[i] == b[i - |a|];
      }
    }
  }

  /** The concatenation of the pieces, in order. */
  function Flatten<T(!new)>(pieces: seq<seq<T>>): (r: seq<T>)
    ensures forall x :: x in r <==> exists i :: 0 <= i < |pieces| && x in pieces[i]
  {
    if |pieces| == 0 then []
    else
      var front := pieces[..|pieces| - 1];
      assert forall i :: 0 <= i < |front| ==> front[i] == pieces[i];
      Flatten(front) + pieces[|pieces| - 1]
  }

  /** Flattening distributes over concatenation: the pieces are laid out
      in order. */
  lemma {:induction false} FlattenConcat<T(!new)>(a: seq<seq<T>>, b: seq<seq<T>>)
    ensures Flatten(a + b) == Flatten(a) + Flatten(b)
    decreases |b|
  {
    if |b| == 0 {
      assert a + b == a;
    } else {
      var front := b[..|b| - 1];
      assert (a + b)[..|a + b| - 1] == a + front;
      FlattenConcat(a, front);
    }
  }

  /** A single piece flattens to itself. */
  lemma FlattenOne<T(!new)>(p: seq<T>)
    ensures Flatten([p]) == p
  {
    assert [p][..0] == [];
  }

  /** Two pieces flatten to the first followed by the second. */
  lemma FlattenPair<T(!new)>(pieces: seq<seq<T>>)
    requires |pieces| == 2
    ensures Flatten(pieces) == pieces[0] + pieces[1]
  {
    FlattenConcat([pieces[0]], [pieces[1]]);
    FlattenOne(pieces[0]);
    FlattenOne(pieces[1]);
    assert pieces == [pieces[0]] + [pieces[1]];
  }

  /** Each element in a piece of its own. */
  function Singletons<T>(s: seq<T>): (r: seq<seq<T>>)
    ensures |r| == |s| && forall i :: 0 <= i < |s| ==> r[i] == [s[i]]
  {
    seq(|s|, i requires 0 <= i < |s| => [s[i]])
  }

  /** Flattening one-element pieces gives back the elements. */
  lemma {:induction false} FlattenSingletons<T(!new)>(s: seq<T>)
    ensures Flatten(Singletons(s)) == s
    decreases |s|
  {
    if |s| > 0 {
      var front := s[..|s| - 1];
      assert Singletons(s)[..|s| - 1] == Singletons(front);
      FlattenSingletons(front);
      assert s == front + [s[|s| - 1]];
    }
  }

  /** The index of the first occurrence of `x` in `s`. */
  function FirstIndex<T(==)>(s: seq<T>, x: T): (i: nat)
    requires x in s
    ensures i < |s| && s[i] == x && x !in s[..i]
  {
    if s[0] == x then 0
    else
      var i := 1 + FirstIndex(s[1..], x);
      assert s[..i] == [s[0]] + s[1..][..i - 1];
      i
  }

  /** The elements of `q` occur in `s`, and `q` lists them in the order of
      their first occurrence in `s`. */
  predicate InFirstOccurrenceOrder<T(==)>(q: seq<T>, s: seq<T>) {
    forall i, j :: 0 <= i < j < |q| ==> q[i] in s && q[j] in s && FirstIndex(s, q[i]) < FirstIndex(s, q[j])
  }

  /** `[...new Set(s)]`: the elements of `s` without repeats, each where it
      first occurs. */
  function Dedup<T(==,!new)>(s: seq<T>): (d: seq<T>)
    ensures Distinct(d)
    ensures forall x :: x in d <==> x in s
    ensures |d| <= |s|
  {
    if |s| == 0 then []
    else
      var front := s[..|s| - 1];
      var last := s[|s| - 1];
      var d := Dedup(front);
      assert forall x :: x in s <==> x in front || x == last;
      if last in d then d else d + [last]
  }

  /** The de-duplicated sequence lists the elements in the order of their
      first occurrence in the input. */
  lemma {:induction false} DedupKeepsFirstOccurrenceOrder<T(!new)>(s: seq<T>)
    ensures forall i, j :: 0 <= i < j < |Dedup(s)| ==> FirstIndex(s, Dedup(s)[i]) < FirstIndex(s, Dedup(s)[j])
    ensures InFirstOccurrenceOrder(Dedup(s), s)
    decreases |s|
  {
    if |s| > 0 {
      var front := s[..|s| - 1];
      var last := s[|s| - 1];
      var d := Dedup(front);
      DedupKeepsFirstOccurrenceOrder(front);
      forall x | x in front
        ensures FirstIndex(s, x) == FirstIndex(front, x)
      {
        FirstIndexOfPrefix(front, s, x);
      }
      if last !in d {
        assert last !in front;
        var e := Dedup(s);
        assert e == d + [last];
        forall i, j | 0 <= i < j < |e|
          ensures FirstIndex(s, e[i]) < FirstIndex(s, e[j])
        {
          if j == |e| - 1 {
            assert FirstIndex(s, last) == |s| - 1 by {
              assert s[..|s| - 1] == front;
            }
            assert e[i] in front;
          } else {
            assert e[i] == d[i] && e[j] == d[j];
          }
        }
      }
    }
  }

  /** First occurrences in a prefix are first occurrences in the whole. */
  lemma FirstIndexOfPrefix<T>(front: seq<T>, s: seq<T>, x: T)
    requires x in front && |front| <= |s| && s[..|front|] == front
    ensures FirstIndex(s, x) == FirstIndex(front, x)
  {
  }

  /** De-duplicating a sequence that has no repeats leaves it unchanged, so
      `Dedup` is idempotent. */
  lemma {:induction false} DedupOfDistinct<T(!new)>(s: seq<T>)
    requires Distinct(s)
    ensures Dedup(s) == s
    decreases |s|
  {
    if |s| > 0 {
      var front := s[..|s| - 1];
      assert Distinct(front);
      DedupOfDistinct(front);
      assert s[|s| - 1] !in front;
      assert s == front + [s[|s| - 1]];
    }
  }
}
