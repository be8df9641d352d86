/** The vector index `PolishRAGSystem` builds: a FAISS `IndexFlatL2`, which
    stores vectors in insertion order (their ids are their positions) and
    answers a query by exact brute force over squared Euclidean distance,
    nearest first. */
module FlatIndex {
  import opened Ranking

  type Vector = seq<real>

  /** Squared Euclidean distance, the metric of `IndexFlatL2`. */
  function SquaredL2(x: Vector, y: Vector): (d: real)
    requires |x| == |y|
    ensures d >= 0.0
  {
    if x == [] then 0.0
    else
      var diff := x[|x| - 1] - y[|y| - 1];
      SquaredL2(x[..|x| - 1], y[..|y| - 1]) + diff * diff
  }

  /** Every vector is at distance 0 from itself. */
  lemma {:induction false} SquaredL2Self(x: Vector)
    ensures SquaredL2(x, x) == 0.0
  {
    if x != [] {
      SquaredL2Self(x[..|x| - 1]);
    }
  }

  /** One search hit: its distance from the query and the id of the stored
      vector, `MissingId` on a padding entry. */
  datatype Hit = Hit(distance: real, id: int)

  /** The id FAISS reports in a result slot no stored vector fills. */
  const MissingId: int := -1

  /** The distance FAISS reports in such a slot: the largest 32-bit float. */
  const MaxDistance: real := 340282346638528859811704183484516925440.0

  /** Distances from the query to every stored vector, by id. */
  function Distances(vectors: seq<Vector>, q: Vector): seq<real>
    requires forall i :: 0 <= i < |vectors| ==> |vectors[i]| == |q|
  {
    seq(|vectors|, i requires 0 <= i < |vectors| => SquaredL2(vectors[i], q))
  }

  function ToHits(ks: seq<Keyed>): seq<Hit>
  {
    seq(|ks|, j requires 0 <= j < |ks| => Hit(ks[j].key, ks[j].pos))
  }

  function Padding(n: nat): seq<Hit>
  {
    seq(n, _ => Hit(MaxDistance, MissingId))
  }

  /** The `k` hits an exact flat search returns: all vectors ranked by distance,
      equal distances by id, cut after `k`, and padded with missing entries when
      fewer than `k` vectors are stored. */
  function Nearest(vectors: seq<Vector>, q: Vector, k: nat): seq<Hit>
    requires forall i :: 0 <= i < |vectors| ==> |vectors[i]| == |q|
  {
    var ranked := ToHits(Rank(Tag(Distances(vectors, q))));
    if k <= |ranked| then ranked[..k] else ranked + Padding(k - |ranked|)
  }

  /** The first `min(k, n)` hits are stored vectors with their true distances,
      nearest first, and the rest are missing entries. */
  lemma NearestOrdered(vectors: seq<Vector>, q: Vector, k: nat)
    requires forall i :: 0 <= i < |vectors| ==> |vectors[i]| == |q|
    ensures var hits := Nearest(vectors, q, k);
      |hits| == k
      && (forall j :: 0 <= j < k && j < |vectors| ==>
            0 <= hits[j].id < |vectors| && hits[j].distance == SquaredL2(vectors[hits[j].id], q))
      && (forall j :: |vectors| <= j < k ==> hits[j] == Hit(MaxDistance, MissingId))
      && (forall i, j :: 0 <= i < j < k && j < |vectors| ==>
            hits[i].distance < hits[j].distance
            || (hits[i].distance == hits[j].distance && hits[i].id < hits[j].id))
  {
    RankTagged(Distances(vectors, q));
  }

  /** No stored vector left out of the hits is nearer than one returned. */
  lemma NearestCovers(vectors: seq<Vector>, q: Vector, k: nat)
    requires forall i :: 0 <= i < |vectors| ==> |vectors[i]| == |q|
    ensures var hits := Nearest(vectors, q, k);
      forall id, j :: 0 <= id < |vectors| && 0 <= j < k && j < |vectors|
        && SquaredL2(vectors[id], q) < hits[j].distance
        ==> Hit(SquaredL2(vectors[id], q), id) in hits
  {
    var ds := Distances(vectors, q);
    var r := Rank(Tag(ds));
    RankTagged(ds);
    var hits := Nearest(vectors, q, k);
    forall id, j | 0 <= id < |vectors| && 0 <= j < k && j < |vectors| && SquaredL2(vectors[id], q) < hits[j].distance
      ensures Hit(SquaredL2(vectors[id], q), id) in hits
    {
      assert Keyed(ds[id], id) in r;
      var m :| 0 <= m < |r| && r[m] == Keyed(ds[id], id);
      if m >= k {
        assert false;
      }
      assert hits[m] == Hit(ds[id], id);
    }
  }

  /** Exact nearest-neighbour search: `k` hits; the first `min(k, n)` are
      distinct stored vectors, each with its true distance, nearest first (equal
      distances by id), and no vector left out is nearer than one returned; the
      rest are missing entries. */
  lemma NearestIsExact(vectors: seq<Vector>, q: Vector, k: nat)
    requires forall i :: 0 <= i < |vectors| ==> |vectors[i]| == |q|
    ensures var hits := Nearest(vectors, q, k);
      |hits| == k
      && (forall j :: 0 <= j < k && j < |vectors| ==>
            0 <= hits[j].id < |vectors| && hits[j].distance == SquaredL2(vectors[hits[j].id], q))
      && (forall j :: |vectors| <= j < k ==> hits[j] == Hit(MaxDistance, MissingId))
      && (forall i, j :: 0 <= i < j < k && j < |vectors| ==>
            hits[i].distance < hits[j].distance
            || (hits[i].distance == hits[j].distance && hits[i].id < hits[j].id))
      && (forall id, j :: 0 <= id < |vectors| && 0 <= j < k && j < |vectors|
            && SquaredL2(vectors[id], q) < hits[j].distance
            ==> Hit(SquaredL2(vectors[id], q), id) in hits)
  {
    NearestOrdered(vectors, q, k);
    NearestCovers(vectors, q, k);
  }

  class FlatL2Index {
    const dim: nat
    var vectors: seq<Vector>

    /** Every stored vector has the index's dimension. */
    ghost predicate Valid()
      reads this
    {
      forall i :: 0 <= i < |vectors| ==> |vectors[i]| == dim
    }

    /** `faiss.IndexFlatL2(d)`: an empty index of dimension `d`. */
    constructor (d: nat)
      ensures dim == d && vectors == [] && Valid()
    {
      dim := d;
      vectors := [];
    }

    /** `index.add(xb)`: appends the batch; the new vectors get the next ids. */
    method Add(xs: seq<Vector>)
      requires Valid()
      requires forall i :: 0 <= i < |xs| ==> |xs[i]| == dim
      modifies this
      ensures Valid()
      ensures vectors == old(vectors) + xs
    {
      vectors := vectors + xs;
    }

    /** `index.search(xq, k)` for one query: computes every distance, sorts, and
        keeps the first `k`, padding when fewer are stored. */
    method Search(q: Vector, k: int) returns (hits: seq<Hit>)
      requires Valid() && |q| == dim
      requires 0 < k
      ensures hits == Nearest(vectors, q, k)
    {
      var n := |vectors|;
      var scored := new Keyed[n];
      for i := 0 to n
        invariant forall m :: 0 <= m < i ==> scored[m] == Keyed(SquaredL2(vectors[m], q), m)
      {
        scored[i] := Keyed(SquaredL2(vectors[i], q), i);
      }
      assert scored[..] == Tag(Distances(vectors, q));
      SortInPlace(scored);
      if k <= n {
        hits := ToHits(scored[..k]);
      } else {
        hits := ToHits(scored[..]) + Padding(k - n);
      }
    }
  }
}
