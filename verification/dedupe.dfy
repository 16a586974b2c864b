/**
 * Order-preserving removal of duplicates: keep the first occurrence of every
 * value and drop the later ones.
 */
module Dedupe {

  predicate NoDuplicates<T(==)>(s: seq<T>)
  {
    forall i, j :: 0 <= i < j < |s| ==> s[i] != s[j]
  }

  /** The duplicate-free version of `s`: the prefix without the last element is
      deduplicated, and the last element is kept only if it was not seen before. */
  function Dedup<T(==,!new)>(s: seq<T>): (r: seq<T>)
    ensures NoDuplicates(r)
    ensures forall x :: x in r <==> x in s
    ensures |r| <= |s|
  {
    if s == [] then []
    else
      var prefix, last := s[..|s| - 1], s[|s| - 1];
      assert forall x :: x in s <==> x in prefix || x == last;
      if last in prefix then Dedup(prefix) else Dedup(prefix) + [last]
  }

  /** The index of the first occurrence of `x` in `s`. */
  function FirstIndex<T(==)>(s: seq<T>, x: T): (k: nat)
    requires x in s
    ensures k < |s| && s[k] == x && x !in s[..k]
  {
    if s[0] == x then 0
    else
      var k := FirstIndex(s[1..], x);
      assert s[..k + 1] == [s[0]] + s[1..][..k];
      k + 1
  }

  /** Any index that holds `x` and is preceded by no `x` is the first index. */
  lemma FirstIndexUnique<T(!new)>(s: seq<T>, x: T, k: nat)
    requires k < |s| && s[k] == x && x !in s[..k]
    ensures FirstIndex(s, x) == k
  {
  }

  /** `r` holds only values of `s`, listed in the order of their first occurrence in `s`. */
  ghost predicate InFirstOccurrenceOrder<T(!new)>(r: seq<T>, s: seq<T>)
  {
    && (forall x :: x in r ==> x in s)
    && forall i, j :: 0 <= i < j < |r| ==> FirstIndex(s, r[i]) < FirstIndex(s, r[j])
  }

  /** Deduplication lists each value at the place of its first occurrence: a
      later duplicate is dropped and never moves a value. */
  lemma {:induction false} DedupFirstOccurrenceOrder<T(!new)>(s: seq<T>)
    ensures InFirstOccurrenceOrder(Dedup(s), s)
  {
    if s != [] {
      var prefix, last := s[..|s| - 1], s[|s| - 1];
      assert s == prefix + [last];
      DedupFirstOccurrenceOrder(prefix);
      var d := Dedup(prefix);
      forall x | x in prefix
        ensures FirstIndex(s, x) == FirstIndex(prefix, x) < |prefix|
      {
        var k := FirstIndex(prefix, x);
        assert s[..k] == prefix[..k];
        FirstIndexUnique(s, x, k);
      }
      if last !in prefix {
        assert s[..|prefix|] == prefix;
        FirstIndexUnique(s, last, |prefix|);
        var r := d + [last];
        forall i, j | 0 <= i < j < |r|
          ensures FirstIndex(s, r[i]) < FirstIndex(s, r[j])
        {
          if j < |d| {
            assert r[i] == d[i] && r[j] == d[j];
          } else {
            assert r[i] == d[i];
          }
        }
      }
    }
  }

  /** `idx` embeds `r` into `s`: strictly increasing indices of `s` that spell `r`. */
  ghost predicate IsEmbedding<T>(idx: seq<nat>, r: seq<T>, s: seq<T>)
  {
    && |idx| == |r|
    && (forall k :: 0 <= k < |idx| ==> idx[k] < |s| && s[idx[k]] == r[k])
    && (forall i, j :: 0 <= i < j < |idx| ==> idx[i] < idx[j])
  }

  ghost predicate IsSubsequence<T>(r: seq<T>, s: seq<T>)
  {
    exists idx: seq<nat> :: IsEmbedding(idx, r, s)
  }

  /** The deduplicated sequence is a subsequence of its input: the first
      occurrences, taken in place. */
  lemma DedupSubsequence<T(!new)>(s: seq<T>)
    ensures IsEmbedding(seq(|Dedup(s)|, k requires 0 <= k < |Dedup(s)| => FirstIndex(s, Dedup(s)[k])), Dedup(s), s)
    ensures IsSubsequence(Dedup(s), s)
  {
    var r := Dedup(s);
    DedupFirstOccurrenceOrder(s);
    var idx := seq(|r|, k requires 0 <= k < |r| => FirstIndex(s, r[k]));
    assert IsEmbedding(idx, r, s);
  }

  /** A sequence without members is empty. */
  lemma EmptyWithoutMembers<T>(b: seq<T>)
    requires forall x :: x !in b
    ensures b == []
  {
    if b != [] {
      FirstIsMember(b);
    }
  }

  /** The first element of a non-empty sequence is a member of it. */
  lemma FirstIsMember<T>(b: seq<T>)
    requires b != []
    ensures b[0] in b
  {
  }

  /** Of two sequences with the same values in order of first occurrence in
      `s`, neither can start with a value the other has later on. */
  lemma {:induction false} SameFirst<T(!new)>(a: seq<T>, b: seq<T>, s: seq<T>)
    requires a != [] && NoDuplicates(b)
    requires forall x :: x in a <==> x in b
    requires InFirstOccurrenceOrder(a, s) && InFirstOccurrenceOrder(b, s)
    ensures b != [] && a[0] == b[0]
  {
    assert a[0] in a;
    var j :| 0 <= j < |b| && b[j] == a[0];
    assert b[0] in a;
  }

  /** Dropping the first value of a duplicate-free sequence keeps it duplicate-free
      and in order, and removes exactly that value. */
  lemma {:induction false} DropFirst<T(!new)>(a: seq<T>, s: seq<T>)
    requires a != [] && NoDuplicates(a) && InFirstOccurrenceOrder(a, s)
    ensures NoDuplicates(a[1..]) && InFirstOccurrenceOrder(a[1..], s)
    ensures forall x :: x in a[1..] <==> x in a && x != a[0]
  {  }

  /** Two duplicate-free sequences with the same values, both in order of first
      occurrence in `s`, are equal. */
  lemma {:induction false} FirstOccurrenceOrderUnique<T(!new)>(a: seq<T>, b: seq<T>, s: seq<T>)
    requires NoDuplicates(a) && NoDuplicates(b)
    requires forall x :: x in a <==> x in b
    requires InFirstOccurrenceOrder(a, s) && InFirstOccurrenceOrder(b, s)
    ensures a == b
    decreases |a|
  {
    if a == [] {
      EmptyWithoutMembers(b);
    } else {
      SameFirst(a, b, s);
      DropFirst(a, s);
      DropFirst(b, s);
      FirstOccurrenceOrderUnique(a[1..], b[1..], s);
      assert a == [a[0]] + a[1..] && b == [b[0]] + b[1..];
    }
  }

  /** Deduplication is characterised by three properties: no duplicates, the
      same values as the input, and the order of first occurrence. */
  lemma DedupCharacterization<T(!new)>(s: seq<T>, r: seq<T>)
    ensures r == Dedup(s) <==>
      NoDuplicates(r) && (forall x :: x in r <==> x in s) && InFirstOccurrenceOrder(r, s)
  {
    DedupFirstOccurrenceOrder(s);
    if NoDuplicates(r) && (forall x :: x in r <==> x in s) && InFirstOccurrenceOrder(r, s) {
      FirstOccurrenceOrderUnique(r, Dedup(s), s);
    }
  }

  /** Deduplicating twice is deduplicating once. */
  lemma {:induction false} DedupIdempotent<T(!new)>(s: seq<T>)
    ensures Dedup(Dedup(s)) == Dedup(s)
  {
    var d := Dedup(s);
    DedupFirstOccurrenceOrder(d);
    DedupFirstOccurrenceOrder(s);
    forall i | 0 <= i < |d|
      ensures FirstIndex(d, d[i]) == i
    {
      assert d[i] !in d[..i];
      FirstIndexUnique(d, d[i], i);
    }
    FirstOccurrenceOrderUnique(Dedup(d), d, d);
  }

  /** A duplicate-free input comes out unchanged. */
  lemma {:induction false} DedupNoDuplicates<T(!new)>(s: seq<T>)
    requires NoDuplicates(s)
    ensures Dedup(s) == s
  {
    DedupFirstOccurrenceOrder(s);
    forall i | 0 <= i < |s|
      ensures FirstIndex(s, s[i]) == i
    {
      FirstIndexUnique(s, s[i], i);
    }
    FirstOccurrenceOrderUnique(Dedup(s), s, s);
  }
}
