/** One 7x8 hex board: its topology and the authoritative occupancy ledger
    that maps occupied cells to unit identifiers. */
module Board {
  import opened Hex

  const BoardWidth: int := 7
  const BoardHeight: int := 8
  /** The deploy zone is the bottom rows, r >= DeployStartRow. */
  const DeployStartRow: int := 4

  datatype Option<T> = None | Some(value: T)

  /** A unit's network identifier; 0 stands for the default (invalid) id. */
  type UnitId = nat
  const NoUnit: UnitId := 0

  /** Occupied cell -> occupant; a missing key is an empty cell. */
  type Ledger = map<HexCoord, UnitId>

  /** A cell is on the board exactly when its column is in range and its
      row-major index is one of the board's 56 slots. */
  predicate IsInside(c: HexCoord)
    ensures IsInside(c) <==> 0 <= c.q < BoardWidth && 0 <= c.r * BoardWidth + c.q < BoardWidth * BoardHeight
  {
    0 <= c.q < BoardWidth && 0 <= c.r < BoardHeight
  }

  /** The deploy zone is the back half of the board: the board cells whose
      row-major index is at least DeployStartRow * BoardWidth. */
  predicate IsDeployZone(c: HexCoord)
    ensures IsDeployZone(c) ==> IsInside(c)
    ensures IsDeployZone(c) <==> IsInside(c) && c.r * BoardWidth + c.q >= DeployStartRow * BoardWidth
  {
    IsInside(c) && c.r >= DeployStartRow
  }

  /** All cells of the board, as a set. */
  function InsideCells(): (cells: set<HexCoord>)
    ensures forall c :: c in cells <==> IsInside(c)
  {
    set q: int, r: int | 0 <= q < BoardWidth && 0 <= r < BoardHeight :: HexCoord(q, r)
  }

  /** The board invariant: only cells of the board are occupied, and only by valid ids. */
  ghost predicate WellPlaced(ledger: Ledger) {
    forall c | c in ledger :: IsInside(c) && ledger[c] != NoUnit
  }

  /** No unit id occupies two cells. */
  ghost predicate UniqueIds(ledger: Ledger) {
    forall a, b | a in ledger && b in ledger && a != b :: ledger[a] != ledger[b]
  }

  /** The ledger after the occupant of `from` has moved to the empty cell `to`. */
  function MoveEntry(ledger: Ledger, from: HexCoord, to: HexCoord): (moved: Ledger)
    requires from in ledger && to !in ledger
    ensures from !in moved && to in moved && moved[to] == ledger[from]
    ensures forall c | c != from && c != to :: (c in moved <==> c in ledger)
    ensures forall c | c in ledger && c != from :: moved[c] == ledger[c]
    ensures |moved| == |ledger|
  {
    var rest := ledger - {from};
    assert rest.Keys == ledger.Keys - {from};
    assert |rest| == |ledger| - 1;
    rest[to := ledger[from]]
  }

  /** A deploy keeps the board invariant when it targets the deploy zone with a valid id. */
  lemma DeployKeepsWellPlaced(ledger: Ledger, id: UnitId, c: HexCoord)
    requires WellPlaced(ledger) && id != NoUnit && IsDeployZone(c)
    ensures WellPlaced(ledger[c := id])
  {
  }

  /** A move keeps the board invariant and keeps unit ids unique. */
  lemma MoveKeepsInvariants(ledger: Ledger, from: HexCoord, to: HexCoord)
    requires from in ledger && to !in ledger && IsInside(to)
    ensures WellPlaced(ledger) ==> WellPlaced(MoveEntry(ledger, from, to))
    ensures UniqueIds(ledger) ==> UniqueIds(MoveEntry(ledger, from, to))
  {
    var moved := MoveEntry(ledger, from, to);
    if UniqueIds(ledger) {
      forall a, b | a in moved && b in moved && a != b ensures moved[a] != moved[b] {
        var a0 := if a == to then from else a;
        var b0 := if b == to then from else b;
        assert a0 in ledger && b0 in ledger && a0 != b0;
        assert moved[a] == ledger[a0] && moved[b] == ledger[b0];
      }
    }
  }

  /** A deploy onto an empty cell keeps ids unique exactly when the id is not already on the board. */
  lemma DeployUniqueIdsIff(ledger: Ledger, id: UnitId, c: HexCoord)
    requires UniqueIds(ledger) && c !in ledger
    ensures UniqueIds(ledger[c := id]) <==> id !in ledger.Values
  {
    var after := ledger[c := id];
    if id in ledger.Values {
      var other :| other in ledger && ledger[other] == id;
      assert other != c && after[other] == after[c];
    }
  }

  /** The cells of `cs`, in order, that lie on the board. */
  function InsideOnly(cs: seq<HexCoord>): (inside: seq<HexCoord>)
    ensures |inside| <= |cs|
    ensures forall c :: c in inside <==> c in cs && IsInside(c)
  {
    if cs == [] then []
    else
      var last := cs[|cs| - 1];
      var init := cs[..|cs| - 1];
      assert cs == init + [last];
      InsideOnly(init) + (if IsInside(last) then [last] else [])
  }

  /** The six neighbours of `origin`, in direction order. */
  function AllNeighbors(origin: HexCoord): (ns: seq<HexCoord>)
    ensures |ns| == 6
    ensures forall i | 0 <= i < 6 :: ns[i] == Neighbor(origin, i)
  {
    seq(6, i requires 0 <= i < 6 => Neighbor(origin, i))
  }

  /** The six neighbours of `origin` are pairwise distinct, and they are
      exactly the cells one hex away. */
  lemma AllNeighborsExact(origin: HexCoord)
    ensures forall i, j | 0 <= i < j < 6 :: AllNeighbors(origin)[i] != AllNeighbors(origin)[j]
    ensures forall n :: n in AllNeighbors(origin) <==> Distance(origin, n) == 1
  {
    NeighborsDistinct(origin);
    forall n | Distance(origin, n) == 1 ensures n in AllNeighbors(origin) {
      DistanceOneIsNeighbor(origin, n);
    }
  }

  class BoardManager {
    /** The occupancy ledger. */
    var occupants: Ledger
    /** Whether this participant may mutate the board. */
    var hasStateAuthority: bool

    ghost predicate Valid()
      reads this
    {
      WellPlaced(occupants)
    }

    constructor (authority: bool)
      ensures Valid() && occupants == map[] && hasStateAuthority == authority
    {
      occupants := map[];
      hasStateAuthority := authority;
    }

    /** Whether the ledger holds `coord`; on a valid board an occupied cell is
        a board cell holding a valid id. */
    predicate IsOccupied(coord: HexCoord)
      reads this
      ensures Valid() && IsOccupied(coord) ==> coord in occupants && IsInside(coord) && occupants[coord] != NoUnit
    {
      coord in occupants
    }

    /** The occupant of `coord`, if any; an occupied cell of a valid board never yields the default id. */
    function TryGetOccupant(coord: HexCoord): (occupant: Option<UnitId>)
      reads this
      ensures occupant.Some? <==> IsOccupied(coord)
      ensures occupant.Some? ==> occupant.value == occupants[coord]
      ensures Valid() && occupant.Some? ==> occupant.value != NoUnit
    {
      if coord in occupants then Some(occupants[coord]) else None
    }

    /** Places `unitId` on `coord` when the caller holds authority, the id is
        valid and `coord` is an empty deploy-zone cell; otherwise does nothing. */
    method TryDeployUnit(unitId: UnitId, coord: HexCoord) returns (ok: bool)
      requires Valid()
      modifies this`occupants
      ensures Valid()
      ensures ok <==> hasStateAuthority && unitId != NoUnit && IsDeployZone(coord)
                      && coord !in old(occupants)
      ensures occupants == if ok then old(occupants)[coord := unitId] else old(occupants)
    {
      if !hasStateAuthority {
        return false;
      }
      if unitId == NoUnit {
        return false;
      }
      if !IsDeployZone(coord) || IsOccupied(coord) {
        return false;
      }
      DeployKeepsWellPlaced(occupants, unitId, coord);
      occupants := occupants[coord := unitId];
      ok := true;
    }

    /** Moves the occupant of `from` to `to` when the caller holds authority,
        `to` is an empty board cell and `from` is occupied; otherwise does nothing. */
    method TryMoveUnit(from: HexCoord, to: HexCoord) returns (ok: bool)
      requires Valid()
      modifies this`occupants
      ensures Valid()
      ensures ok <==> hasStateAuthority && IsInside(to) && to !in old(occupants)
                      && from in old(occupants)
      ensures from == to ==> !ok
      ensures ok ==> occupants == MoveEntry(old(occupants), from, to)
      ensures !ok ==> occupants == old(occupants)
    {
      if !hasStateAuthority {
        return false;
      }
      if !IsInside(to) || IsOccupied(to) {
        return false;
      }
      if from !in occupants {
        return false;
      }
      MoveKeepsInvariants(occupants, from, to);
      var unitId := occupants[from];
      occupants := occupants - {from};
      occupants := occupants[to := unitId];
      ok := true;
    }

    /** Empties `coord` when the caller holds authority; reports whether it was occupied. */
    method RemoveUnit(coord: HexCoord) returns (removed: bool)
      requires Valid()
      modifies this`occupants
      ensures Valid()
      ensures removed <==> hasStateAuthority && coord in old(occupants)
      ensures occupants == if hasStateAuthority then old(occupants) - {coord} else old(occupants)
    {
      if !hasStateAuthority {
        return false;
      }
      removed := coord in occupants;
      occupants := occupants - {coord};
    }

    /** The neighbours of `origin` that lie on the board, in direction order,
        whether occupied or not. */
    method GetNeighbors(origin: HexCoord) returns (ns: seq<HexCoord>)
      ensures ns == InsideOnly(AllNeighbors(origin))
      ensures |ns| <= 6
      ensures forall n :: n in ns <==> IsInside(n) && Distance(origin, n) == 1
    {
      ns := [];
      var all := AllNeighbors(origin);
      for i := 0 to 6
        invariant ns == InsideOnly(all[..i])
      {
        var next := Neighbor(origin, i);
        assert all[..i + 1] == all[..i] + [next];
        if IsInside(next) {
          ns := ns + [next];
        }
      }
      assert all[..6] == all;
      forall n | IsInside(n) && Distance(origin, n) == 1 ensures n in ns {
        DistanceOneIsNeighbor(origin, n);
        var i :| 0 <= i < 6 && Neighbor(origin, i) == n;
        assert all[i] == n;
      }
    }
  }

  /** The ledger checks only the target cell on a deploy: one unit id deployed
      twice onto two empty deploy-zone cells is accepted both times, and the id
      then occupies two cells. */
  method DuplicateIdDeployment() returns (first: bool, second: bool, ledger: Ledger)
    ensures first && second
    ensures ledger == map[HexCoord(0, 4) := 1, HexCoord(1, 4) := 1]
    ensures !UniqueIds(ledger)
  {
    var board := new BoardManager(true);
    first := board.TryDeployUnit(1, HexCoord(0, 4));
    second := board.TryDeployUnit(1, HexCoord(1, 4));
    ledger := board.occupants;
    assert ledger[HexCoord(0, 4)] == ledger[HexCoord(1, 4)];
  }
}
