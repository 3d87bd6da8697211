/**
 * The three JavaScript array operations the bot relies on, written out with the
 * semantics ECMAScript gives them: `indexOf` with strict equality, `splice` with
 * its clamping of a negative or oversized start, and `sort` with the numeric
 * comparator `(a, b) => a - b`.
 */
module JsArray {

  /** `Array.prototype.indexOf`: the first index holding `x`, or -1 when there is none. */
  function IndexOf<T(==)>(s: seq<T>, x: T): (r: int)
    ensures -1 <= r < |s|
    ensures r == -1 <==> x !in s
    ensures 0 <= r ==> s[r] == x && x !in s[..r]
  {
    if |s| == 0 then -1
    else if s[0] == x then 0
    else
      var k := IndexOf(s[1..], x);
      if k < 0 then -1
      else
        assert s[..k + 1] == [s[0]] + s[1..][..k];
        k + 1
  }

  /** Any index that holds `x` with no earlier `x` is the one `indexOf` reports. */
  lemma IndexOfIsFirst<T>(s: seq<T>, x: T, k: int)
    requires 0 <= k < |s| && s[k] == x && x !in s[..k]
    ensures IndexOf(s, x) == k
  {
  }

  /** The start position `splice` actually uses: a negative start counts back from
      the end of the array, and the outcome is clamped to 0..len. */
  function SpliceStart(len: nat, start: int): (a: nat)
    ensures a <= len
    ensures 0 <= start <= len ==> a == start
    ensures start < 0 && -start <= len ==> a == len + start
  {
    if start < 0 then (if len + start < 0 then 0 else len + start)
    else if start > len then len
    else start
  }

  /** `Array.prototype.splice(start, deleteCount, ...items)`, returning the array it
      leaves behind (the removed elements are not used by the bot). */
  function Splice<T>(s: seq<T>, start: int, deleteCount: int, items: seq<T>): (r: seq<T>)
    ensures |s| - (if deleteCount < 0 then 0 else deleteCount) + |items| <= |r| <= |s| + |items|
    ensures deleteCount <= 0 ==> multiset(r) == multiset(s) + multiset(items)
  {
    var a := SpliceStart(|s|, start);
    var d := if deleteCount < 0 then 0 else if deleteCount > |s| - a then |s| - a else deleteCount;
    assert deleteCount <= 0 ==> s == s[..a] + s[a + d..];
    s[..a] + items + s[a + d..]
  }

  /** `splice(k, 1)` at a valid index removes exactly the element at `k`. */
  lemma SpliceRemoveAt<T>(s: seq<T>, k: int)
    requires 0 <= k < |s|
    ensures Splice(s, k, 1, []) == s[..k] + s[k + 1..]
  {
  }

  /** `splice(p, 0, x)` at 0 <= p <= |s| puts `x` at index `p` and shifts the rest right. */
  lemma SpliceInsertAt<T>(s: seq<T>, p: int, x: T)
    requires 0 <= p <= |s|
    ensures Splice(s, p, 0, [x]) == s[..p] + [x] + s[p..]
  {
  }

  /** `splice(k, 1)` at or past the end of the array removes nothing. */
  lemma SplicePastEnd<T>(s: seq<T>, k: int)
    requires |s| <= k
    ensures Splice(s, k, 1, []) == s
  {
    assert s[..|s|] + [] + s[|s|..] == s;
  }

  /** `splice(-1, 1)` on a non-empty array removes its last element. */
  lemma SpliceMinusOneDropsLast<T>(s: seq<T>)
    requires |s| > 0
    ensures Splice(s, -1, 1, []) == s[..|s| - 1]
  {
  }

  ghost predicate Ascending(s: seq<int>) {
    forall i, j :: 0 <= i < j < |s| ==> s[i] <= s[j]
  }

  function InsertAscending(x: int, s: seq<int>): (r: seq<int>)
    requires Ascending(s)
    ensures Ascending(r)
    ensures multiset(r) == multiset(s) + multiset{x}
  {
    if |s| == 0 then [x]
    else if x <= s[0] then [x] + s
    else
      var t := InsertAscending(x, s[1..]);
      InsertBehindHead(x, s, t);
      [s[0]] + t
  }

  /** Putting back the head in front of the tail's insertion keeps the order. */
  lemma {:induction false} InsertBehindHead(x: int, s: seq<int>, t: seq<int>)
    requires |s| > 0 && Ascending(s) && s[0] < x
    requires Ascending(t) && multiset(t) == multiset(s[1..]) + multiset{x}
    ensures Ascending([s[0]] + t)
    ensures multiset([s[0]] + t) == multiset(s) + multiset{x}
  {
    assert s == [s[0]] + s[1..];
    HeadBelowTail(s);
    forall j | 0 <= j < |t| ensures s[0] <= t[j] {
      assert t[j] in multiset(t);
      assert t[j] == x || t[j] in multiset(s[1..]);
    }
    var r := [s[0]] + t;
    forall i, j | 0 <= i < j < |r| ensures r[i] <= r[j] {
      assert r[j] == t[j - 1];
      if i > 0 {
        assert r[i] == t[i - 1];
      }
    }
  }

  lemma {:induction false} HeadBelowTail(s: seq<int>)
    requires |s| > 0 && Ascending(s)
    ensures forall y :: y in s[1..] ==> s[0] <= y
  {
    forall y | y in s[1..] ensures s[0] <= y {
      var k :| 0 <= k < |s[1..]| && s[1..][k] == y;
      assert s[k + 1] == y;
    }
  }

  /** `sort((a, b) => a - b)`: the same integers in ascending numeric order. */
  function SortNumeric(s: seq<int>): (r: seq<int>)
    ensures Ascending(r)
    ensures multiset(r) == multiset(s)
  {
    if |s| == 0 then []
    else
      assert s == [s[0]] + s[1..];
      InsertAscending(s[0], SortNumeric(s[1..]))
  }

  /** Sorting a repeated index leaves it as it is. */
  lemma {:induction false} SortNumericTwice(i: int)
    ensures SortNumeric([i, i]) == [i, i]
  {
    assert [i, i][1..] == [i];
    assert [i][1..] == [];
    assert SortNumeric([i]) == InsertAscending(i, SortNumeric([])) == [i];
  }
}
