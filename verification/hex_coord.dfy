/** Axial hex coordinates: the six neighbour offsets and the cube-derived hex
    distance, with the metric laws the rest of the board logic relies on. */
module Hex {

  /** An axial coordinate (q, r); equality is value equality on both fields. */
  datatype HexCoord = HexCoord(q: int, r: int)

  /** The six axial neighbour offsets, clockwise, indexed 0..5. */
  const NeighborDirections: seq<HexCoord> :=
    [HexCoord(1, 0), HexCoord(1, -1), HexCoord(0, -1),
     HexCoord(-1, 0), HexCoord(-1, 1), HexCoord(0, 1)]

  /** The direction table is closed under reversal: direction i + 3 undoes
      direction i, and every direction is one hex long. */
  lemma NeighborDirectionsOpposite()
    ensures |NeighborDirections| == 6
    ensures forall i | 0 <= i < 3 ::
              NeighborDirections[i + 3] == HexCoord(-NeighborDirections[i].q, -NeighborDirections[i].r)
    ensures forall i | 0 <= i < 6 :: Distance(HexCoord(0, 0), NeighborDirections[i]) == 1
  {
  }

  function Abs(x: int): (a: nat) {
    if x < 0 then -x else x
  }

  function Max(x: int, y: int): (m: int) {
    if x < y then y else x
  }

  /** Hex distance: half the sum of the absolute cube-coordinate differences,
      where the third cube coordinate is -dq - dr. The sum is always even,
      so the halving is exact. */
  function Distance(a: HexCoord, b: HexCoord): (d: int)
    ensures d >= 0
    ensures 2 * d == Abs(a.q - b.q) + Abs(-(a.q - b.q) - (a.r - b.r)) + Abs(a.r - b.r)
  {
    var dx := a.q - b.q;
    var dz := a.r - b.r;
    var dy := -dx - dz;
    (Abs(dx) + Abs(dy) + Abs(dz)) / 2
  }

  /** The neighbour of c in direction i (the source indexes a six-entry table). */
  function Neighbor(c: HexCoord, i: int): (n: HexCoord)
    requires 0 <= i < |NeighborDirections|
    ensures Distance(c, n) == 1
  {
    var dir := NeighborDirections[i];
    HexCoord(c.q + dir.q, c.r + dir.r)
  }

  /** Field-wise equality, as the source's Equals/==. */
  predicate Equals(left: HexCoord, right: HexCoord)
    ensures Equals(left, right) <==> left == right
  {
    left.q == right.q && left.r == right.r
  }

  /** The source's != operator: the negation of Equals. */
  predicate NotEquals(left: HexCoord, right: HexCoord)
    ensures NotEquals(left, right) <==> left != right
  {
    !Equals(left, right)
  }

  /** The hex distance is the largest of the three cube-coordinate differences. */
  lemma DistanceIsCubeMax(a: HexCoord, b: HexCoord)
    ensures Distance(a, b)
            == Max(Abs(a.q - b.q), Max(Abs(a.r - b.r), Abs(-(a.q - b.q) - (a.r - b.r))))
  {
  }

  /** Distance is zero exactly on equal coordinates. */
  lemma DistanceZeroIff(a: HexCoord, b: HexCoord)
    ensures Distance(a, a) == 0
    ensures Distance(a, b) == 0 <==> a == b
  {
  }

  lemma DistanceSymmetric(a: HexCoord, b: HexCoord)
    ensures Distance(a, b) == Distance(b, a)
  {
  }

  lemma DistanceTriangle(a: HexCoord, b: HexCoord, c: HexCoord)
    ensures Distance(a, c) <= Distance(a, b) + Distance(b, c)
  {
  }

  /** The six neighbours of c are pairwise distinct and all differ from c. */
  lemma NeighborsDistinct(c: HexCoord)
    ensures forall i | 0 <= i < 6 :: Neighbor(c, i) != c
    ensures forall i, j | 0 <= i < j < 6 :: Neighbor(c, i) != Neighbor(c, j)
  {
  }

  /** Conversely, every cell at distance 1 from c is one of its six neighbours. */
  lemma DistanceOneIsNeighbor(c: HexCoord, n: HexCoord)
    requires Distance(c, n) == 1
    ensures exists i | 0 <= i < 6 :: Neighbor(c, i) == n
  {
    var dq, dr := n.q - c.q, n.r - c.r;
    var i :=
      if dq == 1 && dr == 0 then 0
      else if dq == 1 && dr == -1 then 1
      else if dq == 0 && dr == -1 then 2
      else if dq == -1 && dr == 0 then 3
      else if dq == -1 && dr == 1 then 4
      else 5;
    assert Neighbor(c, i) == n;
  }
}
