/** Stable sorting by a real key, as Python's `list.sort(key=...)` does it and
    as an exact flat index orders its hits. Every entry carries its position in
    the input; a stable sort is then the one ordering by key and, among equal
    keys, by position. `Rank` specifies that ordering (an insertion sort on
    sequences), and `SortInPlace` sorts an array in place and is proved to
    produce it. */
module Ranking {

  /** A sort key together with the position of its entry in the input. */
  datatype Keyed = Keyed(key: real, pos: nat)

  /** The order a stable ascending sort leaves entries in. */
  predicate Le(x: Keyed, y: Keyed)
  {
    x.key < y.key || (x.key == y.key && x.pos <= y.pos)
  }

  predicate Sorted(s: seq<Keyed>)
  {
    forall i, j :: 0 <= i < j < |s| ==> Le(s[i], s[j])
  }

  /** `keys` tagged with their positions. */
  function Tag(keys: seq<real>): seq<Keyed>
  {
    seq(|keys|, i requires 0 <= i < |keys| => Keyed(keys[i], i))
  }

  function Insert(x: Keyed, s: seq<Keyed>): (r: seq<Keyed>)
    ensures |r| == |s| + 1
  {
    if s == [] || Le(x, s[0]) then [x] + s else [s[0]] + Insert(x, s[1..])
  }

  /** The stably sorted order of `s`. */
  function Rank(s: seq<Keyed>): (r: seq<Keyed>)
    ensures |r| == |s|
  {
    if s == [] then [] else Insert(s[0], Rank(s[1..]))
  }

  lemma {:induction false} InsertPerm(x: Keyed, s: seq<Keyed>)
    ensures multiset(Insert(x, s)) == multiset(s) + multiset{x}
  {
    if s != [] && !Le(x, s[0]) {
      InsertPerm(x, s[1..]);
      assert s == [s[0]] + s[1..];
    }
  }

  lemma {:induction false} InsertSorted(x: Keyed, s: seq<Keyed>)
    requires Sorted(s)
    ensures Sorted(Insert(x, s))
  {
    if s != [] && !Le(x, s[0]) {
      InsertSorted(x, s[1..]);
      InsertPerm(x, s[1..]);
      var r := Insert(x, s[1..]);
      forall j | 0 <= j < |r| ensures Le(s[0], r[j]) {
        assert r[j] in multiset(r);
        if r[j] != x {
          assert r[j] in multiset(s[1..]);
          var k :| 0 <= k < |s[1..]| && s[1..][k] == r[j];
          assert s[k + 1] == r[j];
        }
      }
    }
  }

  /** `Rank` sorts, and it only reorders. */
  lemma {:induction false} RankSortedPerm(s: seq<Keyed>)
    ensures Sorted(Rank(s))
    ensures multiset(Rank(s)) == multiset(s)
  {
    if s != [] {
      RankSortedPerm(s[1..]);
      InsertSorted(s[0], Rank(s[1..]));
      InsertPerm(s[0], Rank(s[1..]));
      assert s == [s[0]] + s[1..];
    }
  }

  lemma TailMultiset(s: seq<Keyed>)
    requires s != []
    ensures multiset(s[1..]) == multiset(s) - multiset{s[0]}
  {
    assert s == [s[0]] + s[1..];
  }

  /** There is only one sorted arrangement of a multiset of entries. */
  lemma {:induction false} SortedUnique(a: seq<Keyed>, b: seq<Keyed>)
    requires Sorted(a) && Sorted(b) && multiset(a) == multiset(b)
    ensures a == b
  {
    if a == [] {
      assert |b| == |multiset(b)| == 0;
    } else {
      assert a[0] in multiset(b);
      assert b != [];
      assert b[0] in multiset(a);
      var i :| 0 <= i < |a| && a[i] == b[0];
      var j :| 0 <= j < |b| && b[j] == a[0];
      assert Le(a[0], a[i]) || i == 0;
      assert Le(b[0], b[j]) || j == 0;
      assert a[0] == b[0];
      TailMultiset(a);
      TailMultiset(b);
      SortedUnique(a[1..], b[1..]);
    }
  }

  /** Sorts `a` in place by key, keeping entries with equal keys in position order. */
  method SortInPlace(a: array<Keyed>)
    modifies a
    ensures a[..] == Rank(old(a[..]))
  {
    for i := 0 to a.Length
      invariant forall p, q :: 0 <= p < q < i ==> Le(a[p], a[q])
      invariant multiset(a[..]) == multiset(old(a[..]))
    {
      SinkLeft(a, i);
    }
    RankSortedPerm(old(a[..]));
    SortedUnique(a[..], Rank(old(a[..])));
  }

  /** One insertion step: moves `a[i]` left past every entry that must follow
      it, so that the first `i + 1` entries are sorted. */
  method SinkLeft(a: array<Keyed>, i: nat)
    requires i < a.Length
    requires forall p, q :: 0 <= p < q < i ==> Le(a[p], a[q])
    modifies a
    ensures forall p, q :: 0 <= p < q <= i ==> Le(a[p], a[q])
    ensures multiset(a[..]) == multiset(old(a[..]))
  {
    var j := i;
    while j > 0 && !Le(a[j - 1], a[j])
      invariant 0 <= j <= i
      invariant forall p, q :: 0 <= p < q <= i && p != j && q != j ==> Le(a[p], a[q])
      invariant forall q :: j < q <= i ==> Le(a[j], a[q])
      invariant multiset(a[..]) == multiset(old(a[..]))
    {
      a[j - 1], a[j] := a[j], a[j - 1];
      j := j - 1;
    }
  }

  lemma {:induction false} DistinctCount(s: seq<Keyed>, x: Keyed)
    requires forall i, j :: 0 <= i < j < |s| ==> s[i] != s[j]
    ensures multiset(s)[x] <= 1
  {
    if s != [] {
      DistinctCount(s[1..], x);
      assert s == [s[0]] + s[1..];
      if s[0] == x {
        assert x !in s[1..];
      }
    }
  }

  lemma DuplicateCount(s: seq<Keyed>, i: nat, j: nat)
    requires i < j < |s| && s[i] == s[j]
    ensures multiset(s)[s[i]] >= 2
  {
    assert s == s[..j] + s[j..];
    assert s[i] in s[..j];
    assert s[j] in s[j..];
  }

  /** The stable sort of `keys` lists every position exactly once, each with its
      own key, by non-decreasing key, and positions with equal keys in their
      original order. */
  lemma RankTagged(keys: seq<real>)
    ensures var r := Rank(Tag(keys));
      |r| == |keys|
      && (forall i :: 0 <= i < |r| ==> r[i].pos < |keys| && r[i].key == keys[r[i].pos])
      && (forall i, j :: 0 <= i < j < |r| ==>
            r[i].key < r[j].key || (r[i].key == r[j].key && r[i].pos < r[j].pos))
      && (forall p :: 0 <= p < |keys| ==> Keyed(keys[p], p) in r)
  {
    RankedEntries(keys);
    RankedStrict(keys);
  }

  /** The stable sort lists each position once, with its own key. */
  lemma RankedEntries(keys: seq<real>)
    ensures var r := Rank(Tag(keys));
      |r| == |keys|
      && (forall i :: 0 <= i < |r| ==> r[i].pos < |keys| && r[i].key == keys[r[i].pos])
      && (forall p :: 0 <= p < |keys| ==> Keyed(keys[p], p) in r)
  {
    var t := Tag(keys);
    var r := Rank(t);
    RankSortedPerm(t);
    forall i | 0 <= i < |r| ensures r[i].pos < |keys| && r[i].key == keys[r[i].pos] {
      assert r[i] in multiset(t);
    }
    forall p | 0 <= p < |keys| ensures Keyed(keys[p], p) in r {
      assert t[p] in multiset(r);
    }
  }

  /** The stable sort orders by key, and equal keys by position, without repeats. */
  lemma RankedStrict(keys: seq<real>)
    ensures var r := Rank(Tag(keys));
      forall i, j :: 0 <= i < j < |r| ==>
        r[i].key < r[j].key || (r[i].key == r[j].key && r[i].pos < r[j].pos)
  {
    var t := Tag(keys);
    var r := Rank(t);
    RankSortedPerm(t);
    forall i, j | 0 <= i < j < |r|
      ensures r[i].key < r[j].key || (r[i].key == r[j].key && r[i].pos < r[j].pos)
    {
      assert Le(r[i], r[j]);
      if r[i] == r[j] {
        DuplicateCount(r, i, j);
        DistinctCount(t, r[i]);
        assert false;
      }
    }
  }
}
