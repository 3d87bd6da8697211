/** Order facts about sequences used to state "relative order is preserved". */
module SeqFacts {

  /** No value occurs twice. */
  ghost predicate Distinct<T>(s: seq<T>) {
    forall i, j :: 0 <= i < j < |s| ==> s[i] != s[j]
  }

  /** `idx` picks, in strictly increasing order, positions of `b` that spell out `a`. */
  ghost predicate Embeds<T>(a: seq<T>, b: seq<T>, idx: seq<int>) {
    && |idx| == |a|
    && (forall k :: 0 <= k < |idx| ==> 0 <= idx[k] < |b| && b[idx[k]] == a[k])
    && (forall k, l :: 0 <= k < l < |idx| ==> idx[k] < idx[l])
  }

  /** `a` is `b` with some elements dropped and the rest left in their order. */
  ghost predicate IsSubsequence<T>(a: seq<T>, b: seq<T>) {
    exists idx :: Embeds(a, b, idx)
  }

  lemma SubsequenceRefl<T>(s: seq<T>)
    ensures IsSubsequence(s, s)
  {
    var idx := seq(|s|, k => k);
    assert Embeds(s, s, idx);
  }

  lemma SubsequenceTrans<T>(a: seq<T>, b: seq<T>, c: seq<T>)
    requires IsSubsequence(a, b) && IsSubsequence(b, c)
    ensures IsSubsequence(a, c)
  {
    var i1 :| Embeds(a, b, i1);
    var i2 :| Embeds(b, c, i2);
    var idx := seq(|a|, k requires 0 <= k < |a| => i2[i1[k]]);
    assert Embeds(a, c, idx);
  }

  /** Deleting the element at `k` keeps the others in order. */
  lemma DropOneIsSubsequence<T>(s: seq<T>, k: int)
    requires 0 <= k < |s|
    ensures IsSubsequence(s[..k] + s[k + 1..], s)
  {
    var a := s[..k] + s[k + 1..];
    var idx := seq(|a|, j => if j < k then j else j + 1);
    assert Embeds(a, s, idx);
  }

  /** Inserting `x` at `p` keeps the old elements in order. */
  lemma InsertOneIsSubsequence<T>(s: seq<T>, p: int, x: T)
    requires 0 <= p <= |s|
    ensures IsSubsequence(s, s[..p] + [x] + s[p..])
  {
    var b := s[..p] + [x] + s[p..];
    var idx := seq(|s|, j => if j < p then j else j + 1);
    assert Embeds(s, b, idx);
  }

  /** Distinctness read off the multiset: every value occurs at most once. */
  lemma {:induction false} DistinctFromMultiset<T>(s: seq<T>)
    requires forall v :: multiset(s)[v] <= 1
    ensures Distinct(s)
  {
    if |s| > 0 {
      var t := s[1..];
      assert s == [s[0]] + t;
      assert multiset(s) == multiset{s[0]} + multiset(t);
      forall v ensures multiset(t)[v] <= 1 {
        assert multiset(s)[v] == (if v == s[0] then 1 else 0) + multiset(t)[v];
      }
      DistinctFromMultiset(t);
      assert multiset(s)[s[0]] == 1 + multiset(t)[s[0]];
      assert s[0] !in t;
    }
  }

  /** Conversely, a distinct sequence holds each value at most once. */
  lemma {:induction false} MultisetOfDistinct<T>(s: seq<T>)
    requires Distinct(s)
    ensures forall v :: multiset(s)[v] <= 1
  {
    if |s| > 0 {
      var t := s[1..];
      assert s == [s[0]] + t;
      assert Distinct(t);
      MultisetOfDistinct(t);
      assert s[0] !in t;
      forall v ensures multiset(s)[v] <= 1 {
        assert multiset(s)[v] == (if v == s[0] then 1 else 0) + multiset(t)[v];
      }
    }
  }

  /** Slotting an element in anywhere adds exactly it to the bag. */
  lemma {:induction false} MultisetInsert<T>(x: seq<T>, a: int, e: T)
    requires 0 <= a <= |x|
    ensures multiset(x[..a] + [e] + x[a..]) == multiset(x) + multiset{e}
  {
    assert x == x[..a] + x[a..];
  }

  /** The bag of a non-empty sequence is the bag of all but its last element, plus that one. */
  lemma {:induction false} MultisetSnoc<T>(b: seq<T>)
    requires |b| > 0
    ensures multiset(b) == multiset(b[..|b| - 1]) + multiset{b[|b| - 1]}
  {
    assert b == b[..|b| - 1] + [b[|b| - 1]];
  }

  /** A rearrangement of a distinct sequence is distinct, as long, and holds the same values. */
  lemma {:induction false} PermutationOfDistinct<T>(a: seq<T>, b: seq<T>)
    requires multiset(a) == multiset(b) && Distinct(a)
    ensures Distinct(b) && |b| == |a|
    ensures forall x :: x in a <==> x in b
  {
    MultisetOfDistinct(a);
    DistinctFromMultiset(b);
    assert |multiset(a)| == |multiset(b)|;
    forall x ensures x in a <==> x in b {
      assert x in a <==> x in multiset(a);
      assert x in b <==> x in multiset(b);
    }
  }

  /** Indexing into the second part of a concatenation. */
  lemma {:induction false} ConcatIndex<T>(a: seq<T>, b: seq<T>, m: int)
    requires 0 <= m < |b|
    ensures (a + b)[|a| + m] == b[m]
  {
  }

  /** A prefix and the sequence it starts agree on its indices. */
  lemma {:induction false} PrefixIndex<T>(a: seq<T>, b: seq<T>, k: int)
    requires a <= b && 0 <= k < |a|
    ensures k < |b| && b[k] == a[k]
  {
  }

  /** Taking out index `i` twice takes out `i` and `i + 1`. */
  lemma {:induction false} DropTwiceAt<T>(s: seq<T>, i: int)
    requires 0 <= i && i + 1 < |s|
    ensures var once := s[..i] + s[i + 1..]; once[..i] + once[i + 1..] == s[..i] + s[i + 2..]
  {
    var once := s[..i] + s[i + 1..];
    assert once[..i] == s[..i];
    assert once[i + 1..] == s[i + 2..];
  }

  /** A two-element sequence without its second element. */
  lemma {:induction false} DropSecondOfTwo<T>(s: seq<T>)
    requires |s| == 2
    ensures s[..1] + s[2..] == [s[0]]
  {
  }

  /** A two-element sequence is its two elements in order. */
  lemma {:induction false} PairOf<T>(s: seq<T>)
    requires |s| == 2
    ensures [s[0]] + [s[1]] == s
  {
  }

  /** A three-element sequence with one element taken out. */
  lemma {:induction false} DropOfThree<T>(s: seq<T>, k: int)
    requires |s| == 3 && 0 <= k < 3
    ensures s[..k] + s[k + 1..] == if k == 0 then [s[1], s[2]] else if k == 1 then [s[0], s[2]] else [s[0], s[1]]
  {
  }

  /** Taking out the head. */
  lemma {:induction false} DropHead<T>(s: seq<T>)
    requires |s| > 0
    ensures s[..0] + s[1..] == s[1..]
  {
  }
}
