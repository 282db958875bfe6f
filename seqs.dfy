/**
 * Pure sequence operations behind Rust's `Vec` methods (`position`, `remove`,
 * `swap`) and the position-by-position descriptions used to specify them.
 */
module Seqs {
  import opened Common

  /** `iter().position(pred)`: the first index whose element satisfies `pred`. */
  function FirstMatch<T>(s: seq<T>, pred: T -> bool): (r: Option<nat>)
    ensures r.None? <==> forall k :: 0 <= k < |s| ==> !pred(s[k])
    ensures r.Some? ==> r.value < |s| && pred(s[r.value])
    ensures r.Some? ==> forall k :: 0 <= k < r.value ==> !pred(s[k])
  {
    if s == [] then None
    else if pred(s[0]) then Some(0)
    else match FirstMatch(s[1..], pred)
      case None => None
      case Some(i) => Some(i + 1)
  }

  /** `iter().position(|y| y == x).unwrap()`: the first index holding `x`. */
  function IndexOf<T(==)>(s: seq<T>, x: T): (i: nat)
    requires x in s
    ensures i < |s| && s[i] == x && x !in s[..i]
    ensures forall k :: 0 <= k < i ==> s[k] != x
    ensures s[0] == x ==> i == 0
  {
    if s[0] == x then 0
    else
      var i := IndexOf(s[1..], x);
      assert s[..i + 1] == [s[0]] + s[1..][..i];
      i + 1
  }

  /** An element found before index `i` is first found before `i`. */
  lemma IndexOfBefore<T>(s: seq<T>, x: T, i: nat)
    requires i <= |s| && x in s[..i]
    ensures IndexOf(s, x) < i
  {
    var j :| 0 <= j < i && s[..i][j] == x;
  }

  /** `Vec::remove(i)`: every later element moves one place towards the front. */
  function RemoveAt<T>(s: seq<T>, i: nat): (r: seq<T>)
    requires i < |s|
    ensures |r| == |s| - 1
    ensures forall k :: 0 <= k < i ==> r[k] == s[k]
    ensures forall k :: i <= k < |r| ==> r[k] == s[k + 1]
    ensures multiset(r) == multiset(s) - multiset{s[i]}
  {
    assert s == s[..i] + [s[i]] + s[i + 1..];
    s[..i] + s[i + 1..]
  }

  /** Removing the first copy of the head drops the head. */
  lemma RemoveHead<T>(s: seq<T>)
    requires s != []
    ensures RemoveAt(s, IndexOf(s, s[0])) == s[1..]
  {
    assert s[..0] == [];
  }

  /** Moving the head of `b` to the end of `a` keeps `a + b`. */
  lemma MoveHead<T>(a: seq<T>, b: seq<T>)
    requires b != []
    ensures (a + [b[0]]) + RemoveAt(b, IndexOf(b, b[0])) == a + b
  {
    RemoveHead(b);
    assert [b[0]] + b[1..] == b;
  }

  /** Removing one copy of `x` leaves every other value where it was. */
  lemma RemoveAtKeeps<T>(s: seq<T>, i: nat, y: T)
    requires i < |s| && y in s && y != s[i]
    ensures y in RemoveAt(s, i)
  {
    var k :| 0 <= k < |s| && s[k] == y;
    if k < i {
      assert RemoveAt(s, i)[k] == y;
    } else {
      assert RemoveAt(s, i)[k - 1] == y;
    }
  }

  /** Removing by index only takes away the element that was there. */
  lemma RemoveAtSubset<T>(s: seq<T>, i: nat, y: T)
    requires i < |s| && y in RemoveAt(s, i)
    ensures y in s
  {
    assert multiset(RemoveAt(s, i)) <= multiset(s);
    assert y in multiset(RemoveAt(s, i));
  }

  /** A sub-multiset is no larger. */
  lemma SubMultisetCard<T>(a: multiset<T>, b: multiset<T>)
    requires a <= b
    ensures |a| <= |b|
  {
    assert b == a + (b - a);
  }

  /** `Vec::swap(i, j)`. */
  function SwapAt<T>(s: seq<T>, i: nat, j: nat): (r: seq<T>)
    requires i < |s| && j < |s|
    ensures |r| == |s|
    ensures r[i] == s[j] && r[j] == s[i]
    ensures forall k :: 0 <= k < |s| && k != i && k != j ==> r[k] == s[k]
  {
    s[i := s[j]][j := s[i]]
  }

  lemma UpdateMultiset<T>(s: seq<T>, i: nat, v: T)
    requires i < |s|
    ensures multiset(s[i := v]) == multiset(s) - multiset{s[i]} + multiset{v}
  {
    assert s == s[..i] + [s[i]] + s[i + 1..];
    assert s[i := v] == s[..i] + [v] + s[i + 1..];
  }

  /** A swap only rearranges the elements. */
  lemma SwapAtPermutes<T>(s: seq<T>, i: nat, j: nat)
    requires i < |s| && j < |s|
    ensures multiset(SwapAt(s, i, j)) == multiset(s)
  {
    if i == j {
      assert SwapAt(s, i, j) == s;
    } else {
      var t := s[i := s[j]];
      UpdateMultiset(s, i, s[j]);
      UpdateMultiset(t, j, s[i]);
    }
  }

  /** Applies `f` to every element: `iter_mut().for_each(..)` over a pure update. */
  function MapSeq<T>(s: seq<T>, f: T -> T): (r: seq<T>)
    ensures |r| == |s|
    ensures forall k :: 0 <= k < |s| ==> r[k] == f(s[k])
  {
    if s == [] then [] else [f(s[0])] + MapSeq(s[1..], f)
  }
}
