/** Generic facts about sequences that the relay model relies on. */
module Sequences {

  /** `t` is obtained from `s` by deleting elements: nothing inserted, changed or reordered. */
  predicate IsSubsequence<T(==)>(t: seq<T>, s: seq<T>)
    decreases |s|
  {
    if t == [] then true
    else if s == [] then false
    else (t[0] == s[0] && IsSubsequence(t[1..], s[1..])) || IsSubsequence(t, s[1..])
  }

  lemma {:induction false} SubsequenceReflexive<T>(s: seq<T>)
    ensures IsSubsequence(s, s)
    decreases |s|
  {
    if s != [] {
      SubsequenceReflexive(s[1..]);
    }
  }

  /** Deleting a prefix of the larger sequence keeps the relation. */
  lemma {:induction false} SubsequenceDrop<T>(t: seq<T>, s: seq<T>, k: nat)
    requires k <= |s|
    requires IsSubsequence(t, s[k..])
    ensures IsSubsequence(t, s)
    decreases k
  {
    if k > 0 {
      assert s[1..][k - 1..] == s[k..];
      SubsequenceDrop(t, s[1..], k - 1);
    }
  }

  lemma {:induction false} SubsequenceTransitive<T>(a: seq<T>, b: seq<T>, c: seq<T>)
    requires IsSubsequence(a, b) && IsSubsequence(b, c)
    ensures IsSubsequence(a, c)
    decreases |c|
  {
    if a != [] {
      if IsSubsequence(b, c[1..]) {
        SubsequenceTransitive(a, b, c[1..]);
      } else if a[0] == b[0] && IsSubsequence(a[1..], b[1..]) {
        SubsequenceTransitive(a[1..], b[1..], c[1..]);
      } else {
        SubsequenceTransitive(a, b[1..], c[1..]);
      }
    }
  }

  /** Deletions in two pieces combine into deletions in their concatenation. */
  lemma {:induction false} SubsequenceConcat<T>(t1: seq<T>, s1: seq<T>, t2: seq<T>, s2: seq<T>)
    requires IsSubsequence(t1, s1) && IsSubsequence(t2, s2)
    ensures IsSubsequence(t1 + t2, s1 + s2)
    decreases |s1|
  {
    if t1 == [] {
      assert t1 + t2 == t2;
      assert (s1 + s2)[|s1|..] == s2;
      SubsequenceDrop(t2, s1 + s2, |s1|);
    } else if t1[0] == s1[0] && IsSubsequence(t1[1..], s1[1..]) {
      SubsequenceConcat(t1[1..], s1[1..], t2, s2);
      assert (t1 + t2)[1..] == t1[1..] + t2;
      assert (s1 + s2)[1..] == s1[1..] + s2;
    } else {
      SubsequenceConcat(t1, s1[1..], t2, s2);
      assert (s1 + s2)[1..] == s1[1..] + s2;
    }
  }

  lemma SubsequenceOfExtension<T>(t: seq<T>, s: seq<T>)
    ensures IsSubsequence(t, t + s)
  {
    SubsequenceReflexive(t);
    assert t + [] == t;
    SubsequenceConcat(t, t, [], s);
  }

  /** The concatenation of all pieces, in order. */
  function Flatten<T>(ss: seq<seq<T>>): seq<T>
  {
    if ss == [] then [] else Flatten(ss[..|ss| - 1]) + ss[|ss| - 1]
  }

  lemma FlattenSnoc<T>(ss: seq<seq<T>>, x: seq<T>)
    ensures Flatten(ss + [x]) == Flatten(ss) + x
  {
  }

  /** The empty sequence is a left unit of concatenation. */
  lemma EmptyPrefix<T>(s: seq<T>)
    ensures [] + s == s
  {
  }

  /** The empty sequence is a right unit of concatenation. */
  lemma EmptySuffix<T>(s: seq<T>)
    ensures s + [] == s
  {
  }

  /** Concatenation is associative. */
  lemma ConcatAssoc<T>(a: seq<T>, b: seq<T>, c: seq<T>)
    ensures (a + b) + c == a + (b + c)
  {
  }
}
