/**
  The radius filters of Runtime/ZMethodsMath.cs on integer vectors: Where(...).ToList()
  over the squared distance to a centre, compared with the squared radius. The float radius
  is a real here, so radius * radius is exact.
*/
module ZMethodsMath {
  import opened UnityTypes

  /** (v - centerPoint).sqrMagnitude as a real, the float it is compared as. */
  function SqrDistance(v: Vector2Int, centerPoint: Vector2Int): real {
    SqrMagnitude(Sub(v, centerPoint)) as real
  }

  /** The vectors that stay when those inside the radius are dropped. */
  predicate OnOrOutside(v: Vector2Int, centerPoint: Vector2Int, radius: real) {
    SqrDistance(v, centerPoint) >= radius * radius
  }

  /** DropVectorsInsideRadius: keeps the vectors at squared distance at least radius * radius. */
  function DropVectorsInsideRadius(vectors: seq<Vector2Int>, centerPoint: Vector2Int, radius: real): (r: seq<Vector2Int>)
    ensures |r| <= |vectors|
    ensures forall v :: v in r <==> v in vectors && OnOrOutside(v, centerPoint, radius)
  {
    if vectors == [] then []
    else
      (if OnOrOutside(vectors[0], centerPoint, radius) then [vectors[0]] else []) +
      DropVectorsInsideRadius(vectors[1..], centerPoint, radius)
  }

  /** DropVectorsOutsideRadius: keeps the vectors at squared distance below radius * radius. */
  function DropVectorsOutsideRadius(vectors: seq<Vector2Int>, centerPoint: Vector2Int, radius: real): (r: seq<Vector2Int>)
    ensures |r| <= |vectors|
    ensures forall v :: v in r <==> v in vectors && !OnOrOutside(v, centerPoint, radius)
  {
    if vectors == [] then []
    else
      (if OnOrOutside(vectors[0], centerPoint, radius) then [] else [vectors[0]]) +
      DropVectorsOutsideRadius(vectors[1..], centerPoint, radius)
  }

  /** a can be obtained from b by deleting elements: the order of b is kept. */
  predicate IsSubsequence(a: seq<Vector2Int>, b: seq<Vector2Int>)
    decreases |b|
  {
    if b == [] then a == []
    else (a != [] && a[0] == b[0] && IsSubsequence(a[1..], b[1..])) || IsSubsequence(a, b[1..])
  }

  /** Both filters keep the order of the input. */
  lemma {:induction false} FiltersKeepOrder(vectors: seq<Vector2Int>, centerPoint: Vector2Int, radius: real)
    ensures IsSubsequence(DropVectorsInsideRadius(vectors, centerPoint, radius), vectors)
    ensures IsSubsequence(DropVectorsOutsideRadius(vectors, centerPoint, radius), vectors)
  {
    if vectors != [] {
      FiltersKeepOrder(vectors[1..], centerPoint, radius);
      var inside := DropVectorsInsideRadius(vectors[1..], centerPoint, radius);
      var outside := DropVectorsOutsideRadius(vectors[1..], centerPoint, radius);
      assert ([vectors[0]] + inside)[1..] == inside;
      assert ([vectors[0]] + outside)[1..] == outside;
      assert [] + inside == inside && [] + outside == outside;
    }
  }

  /** For one centre and radius the two results split the input: every vector lands in
      exactly one of them, as often as it occurs in the input. */
  lemma {:induction false} FiltersPartition(vectors: seq<Vector2Int>, centerPoint: Vector2Int, radius: real)
    ensures |DropVectorsInsideRadius(vectors, centerPoint, radius)| + |DropVectorsOutsideRadius(vectors, centerPoint, radius)| == |vectors|
    ensures multiset(DropVectorsInsideRadius(vectors, centerPoint, radius)) +
            multiset(DropVectorsOutsideRadius(vectors, centerPoint, radius)) == multiset(vectors)
  {
    if vectors != [] {
      FiltersPartition(vectors[1..], centerPoint, radius);
      assert vectors == [vectors[0]] + vectors[1..];
    }
  }
}
