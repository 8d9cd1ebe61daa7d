/**
 * Generic facts about sequences. They are stated over any element type so
 * that the proofs about lines, entries and assignments can use them without
 * reopening the definitions those sequences are built from.
 */
module Seqs {
  /** `f` applied to every element of `s`, in order. */
  function Map<A, B>(f: A -> B, s: seq<A>): (r: seq<B>)
    ensures |r| == |s|
  {
    if s == [] then [] else [f(s[0])] + Map(f, s[1..])
  }

  /** Mapping keeps every element's position. */
  lemma {:induction false} MapIndex<A, B>(f: A -> B, s: seq<A>, i: nat)
    requires i < |s|
    ensures Map(f, s)[i] == f(s[i])
  {
    if i > 0 {
      MapIndex(f, s[1..], i - 1);
    }
  }

  /** Mapping a sequence with a first element. */
  lemma MapCons<A, B>(f: A -> B, x: A, s: seq<A>)
    ensures Map(f, [x] + s) == [f(x)] + Map(f, s)
  {
    assert ([x] + s)[1..] == s;
  }

  /** Mapping distributes over concatenation. */
  lemma {:induction false} MapAppend<A, B>(f: A -> B, s: seq<A>, t: seq<A>)
    ensures Map(f, s + t) == Map(f, s) + Map(f, t)
  {
    if s == [] {
      assert s + t == t;
    } else {
      assert (s + t)[1..] == s[1..] + t;
      MapAppend(f, s[1..], t);
      assert [f(s[0])] + (Map(f, s[1..]) + Map(f, t)) == ([f(s[0])] + Map(f, s[1..])) + Map(f, t);
    }
  }

  /** Mapping a one-element sequence. */
  lemma MapSingle<A, B>(f: A -> B, x: A)
    ensures Map(f, [x]) == [f(x)]
  {
    MapCons(f, x, []);
    assert [f(x)] + Map(f, []) == [f(x)];
  }

  /** Appending the empty sequence changes nothing. */
  lemma AppendNil<T>(s: seq<T>)
    ensures s + [] == s && [] + s == s
  {
  }

  /** Concatenation regroups. */
  lemma AppendAssoc<T>(s: seq<T>, t: seq<T>, u: seq<T>)
    ensures s + (t + u) == (s + t) + u
  {
  }

  /** Equal heads followed by equal tails. */
  lemma ConsAppend<T>(v: seq<T>, x: seq<T>, w: seq<T>, y: seq<T>, z: seq<T>, h: T)
    requires v == [h] + w && x == [h] + y && w == y + z
    ensures v == x + z
  {
    assert [h] + (y + z) == ([h] + y) + z;
  }

  /** Regrouping a concatenation of a split sequence. */
  lemma JoinAssoc<T>(t: seq<T>, a: seq<T>, b: seq<T>, rest: seq<T>, v: seq<T>, term: seq<T>)
    requires t == a + b + rest
    requires rest == v + term
    ensures t == a + b + v + term
  {
  }

  /** A sequence is its prefix followed by its suffix. */
  lemma SplitJoin<T>(s: seq<T>, k: nat)
    requires k <= |s|
    ensures s[..k] + s[k..] == s
  {
  }

  /** Taking every element gives the sequence back. */
  lemma TakeAll<T>(s: seq<T>)
    ensures s[..|s|] == s
  {
  }

  /** Slicing past a prefix of `a` commutes with appending `b`. */
  lemma DropAppend<T>(a: seq<T>, b: seq<T>, n: nat)
    requires n <= |a|
    ensures (a + b)[n..] == a[n..] + b
  {
  }

  /** A value absent from both sides and from the separator is absent from the join. */
  lemma NotInJoin<T>(a: seq<T>, x: T, b: seq<T>, c: T)
    requires c !in a && c !in b && x != c
    ensures c !in a + [x] + b
  {
  }
}
