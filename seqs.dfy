/** Generic facts about sequences used by the service model: duplicate-free
    sequences (table scan orders, dictionary keys) and first-occurrence
    de-duplication (Python dictionary keys, SQL `DISTINCT`). */
module Seqs {

  /** No element occurs twice. */
  predicate Distinct<T(==)>(s: seq<T>)
  {
    forall i, j :: 0 <= i < j < |s| ==> s[i] != s[j]
  }

  /** `order` lists every element of `keys` exactly once. */
  ghost predicate ScanOrder<T(!new)>(order: seq<T>, keys: set<T>)
  {
    Distinct(order) && (forall k :: k in order <==> k in keys)
  }

  /** Position of the first occurrence of `x` in `s`. */
  function FirstIndex<T(==)>(s: seq<T>, x: T): (i: nat)
    requires x in s
    ensures i < |s| && s[i] == x
    ensures forall j :: 0 <= j < i ==> s[j] != x
  {
    if s[0] == x then 0 else 1 + FirstIndex(s[1..], x)
  }

  /** An element of a prefix occurs first where it occurs first in the prefix. */
  lemma FirstIndexPrefix<T>(s: seq<T>, n: nat, x: T)
    requires n <= |s| && x in s[..n]
    ensures FirstIndex(s, x) == FirstIndex(s[..n], x)
  {
    var a, b := FirstIndex(s, x), FirstIndex(s[..n], x);
    assert s[b] == x;
    assert a <= b;
    assert s[..n][a] == x;
  }

  /** Keeps the first occurrence of every element, in the order of first
      occurrence: the elements of `s`, each once, ordered by where they
      first occur in `s`. */
  function Dedup<T(==, !new)>(s: seq<T>): (r: seq<T>)
    ensures Distinct(r)
    ensures forall x :: x in r <==> x in s
    ensures forall i, j :: 0 <= i < j < |r| ==> FirstIndex(s, r[i]) < FirstIndex(s, r[j])
    ensures |r| <= |s|
  {
    if s == [] then []
    else
      var n := |s| - 1;
      var p := s[..n];
      var d := Dedup(p);
      assert forall x :: x in s <==> x in p || x == s[n];
      forall x | x in d
        ensures FirstIndex(s, x) == FirstIndex(p, x) && FirstIndex(s, x) < n
      {
        FirstIndexPrefix(s, n, x);
      }
      if s[n] in d then d
      else
        assert FirstIndex(s, s[n]) == n;
        d + [s[n]]
  }

  /** De-duplicating one more element adds it at the end unless it occurred. */
  lemma DedupSnoc<T(!new)>(s: seq<T>, y: T)
    ensures Dedup(s + [y]) == if y in s then Dedup(s) else Dedup(s) + [y]
  {
    assert (s + [y])[..|s|] == s;
  }

  /** The first element of the de-duplicated sequence is the first element. */
  lemma DedupHead<T(!new)>(s: seq<T>)
    requires s != []
    ensures Dedup(s) != [] && Dedup(s)[0] == s[0]
  {
    assert s[0] in Dedup(s);
  }

  /** The length of a duplicate-free sequence is the size of its element set. */
  lemma {:induction false} DistinctCard<T>(s: seq<T>)
    requires Distinct(s)
    ensures |set x | x in s| == |s|
  {
    if s != [] {
      var p := s[..|s| - 1];
      assert Distinct(p);
      DistinctCard(p);
      assert (set x | x in s) == (set x | x in p) + {s[|s| - 1]};
    }
  }

  /** A scan order lists as many elements as the table holds. */
  lemma ScanOrderCard<T(!new)>(order: seq<T>, keys: set<T>)
    requires ScanOrder(order, keys)
    ensures |order| == |keys|
  {
    DistinctCard(order);
    assert (set x | x in order) == keys;
  }

  /** `s` without the element `x`, the other elements in their order. */
  function Without<T(==, !new)>(s: seq<T>, x: T): (r: seq<T>)
    ensures forall y :: y in r <==> y in s && y != x
    ensures |r| <= |s|
  {
    if s == [] then []
    else if s[0] == x then Without(s[1..], x)
    else [s[0]] + Without(s[1..], x)
  }

  /** Removing an element keeps a sequence duplicate-free. */
  lemma {:induction false} WithoutDistinct<T(!new)>(s: seq<T>, x: T)
    requires Distinct(s)
    ensures Distinct(Without(s, x))
  {
    if s != [] {
      assert Distinct(s[1..]);
      WithoutDistinct(s[1..], x);
      assert s[0] !in s[1..];
    }
  }

  /** `s` with every `x` replaced by `y`, in place. */
  function Replace<T(==)>(s: seq<T>, x: T, y: T): (r: seq<T>)
    ensures |r| == |s|
    ensures forall i :: 0 <= i < |s| ==> r[i] == if s[i] == x then y else s[i]
  {
    seq(|s|, i requires 0 <= i < |s| => if s[i] == x then y else s[i])
  }

  /** Replacing a listed element by a new one keeps `s` duplicate-free and
      exchanges the one element for the other. */
  lemma ReplaceScanOrder<T(!new)>(s: seq<T>, keys: set<T>, x: T, y: T)
    requires ScanOrder(s, keys) && x in keys
    requires y == x || y !in keys
    ensures ScanOrder(Replace(s, x, y), keys - {x} + {y})
  {
    var r := Replace(s, x, y);
    forall k
      ensures k in r <==> k in keys - {x} + {y}
    {
      if k == y {
        var i :| 0 <= i < |s| && s[i] == x;
        assert r[i] == y;
      } else if k in keys - {x} {
        var i :| 0 <= i < |s| && s[i] == k;
        assert r[i] == k;
      }
    }
  }

  /** Appending, each once, the elements of `added` not yet listed gives a
      scan order of the enlarged set. */
  lemma ScanOrderAppend<T(!new)>(order: seq<T>, keys: set<T>, added: set<T>, extra: seq<T>)
    requires ScanOrder(order, keys) && Distinct(extra)
    requires forall x :: x in extra <==> x in added && x !in keys
    ensures ScanOrder(order + extra, keys + added)
  {
    var r := order + extra;
    forall i, j | 0 <= i < j < |r|
      ensures r[i] != r[j]
    {
      if i < |order| && j >= |order| {
        assert r[j] == extra[j - |order|];
        assert r[i] in keys;
      } else if i >= |order| {
        assert r[i] == extra[i - |order|] && r[j] == extra[j - |order|];
      }
    }
  }
}
