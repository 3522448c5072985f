/** The movement slice of a unit: where it stands, how it is placed on its
    board, and the one-cell-per-tick step toward a target. */
module Units {
  import opened Hex
  import opened Board
  import opened Pathfinding

  class UnitController {
    /** The unit's network object id. */
    const id: UnitId
    /** Whether this participant may change the unit's state. */
    var hasStateAuthority: bool
    /** The board the unit stands on, if one was found. */
    var boardManager: BoardManager?
    /** The cell the unit believes it occupies. */
    var cell: HexCoord
    /** The combat target; only reset here. */
    var targetId: UnitId

    constructor (id: UnitId, authority: bool, board: BoardManager?)
      ensures this.id == id && hasStateAuthority == authority && boardManager == board
      ensures cell == HexCoord(0, 0) && targetId == NoUnit
    {
      this.id := id;
      hasStateAuthority := authority;
      boardManager := board;
      cell := HexCoord(0, 0);
      targetId := NoUnit;
    }

    /** The unit and its board agree: the board records this unit on `cell`. */
    ghost predicate OnBoard()
      reads this, boardManager
    {
      boardManager != null && cell in boardManager.occupants && boardManager.occupants[cell] == id
    }

    /** Deploys the unit on `spawnCell` through the board and resets its target;
        fails, changing nothing, without authority, without a board, or when the
        board refuses the deploy. */
    method InitializeAt(spawnCell: HexCoord) returns (ok: bool)
      requires boardManager != null ==> boardManager.Valid()
      modifies this`cell, this`targetId, boardManager
      ensures boardManager != null ==> boardManager.Valid()
                                       && boardManager.hasStateAuthority == old(boardManager.hasStateAuthority)
      ensures ok <==> hasStateAuthority && boardManager != null && boardManager.hasStateAuthority
                      && id != NoUnit && IsDeployZone(spawnCell)
                      && spawnCell !in old(boardManager.occupants)
      ensures ok ==> cell == spawnCell && targetId == NoUnit && OnBoard()
                     && boardManager.occupants == old(boardManager.occupants)[spawnCell := id]
      ensures !ok ==> cell == old(cell) && targetId == old(targetId)
                      && (boardManager != null ==> boardManager.occupants == old(boardManager.occupants))
    {
      if !hasStateAuthority || boardManager == null {
        return false;
      }
      var deployed := boardManager.TryDeployUnit(id, spawnCell);
      if !deployed {
        return false;
      }
      cell := spawnCell;
      targetId := NoUnit;
      ok := true;
    }

    /** Moves the unit one cell along a freshly computed path toward
        `targetCell`. Succeeds exactly when the unit and its board hold
        authority, the unit's cell is occupied on the board, the unit is not
        already at the target and a board path to the target exists; the unit
        then stands on the second cell of a board path to the target and the
        board's entry has moved with it. */
    method TryMoveOneStep(targetCell: HexCoord) returns (ok: bool)
      requires boardManager != null ==> boardManager.Valid()
      modifies this`cell, boardManager
      ensures boardManager != null ==> boardManager.Valid()
                                       && boardManager.hasStateAuthority == old(boardManager.hasStateAuthority)
      ensures ok <==> hasStateAuthority && boardManager != null && boardManager.hasStateAuthority
                      && old(cell) != targetCell && old(cell) in old(boardManager.occupants)
                      && exists p :: IsBoardPath(old(boardManager.occupants), p, old(cell), targetCell)
      ensures ok ==> exists p :: IsBoardPath(old(boardManager.occupants), p, old(cell), targetCell)
                                 && |p| >= 2 && p[1] == cell
      ensures ok ==> Distance(old(cell), cell) == 1 && IsInside(cell)
                     && cell !in old(boardManager.occupants)
                     && boardManager.occupants == MoveEntry(old(boardManager.occupants), old(cell), cell)
      ensures !ok ==> cell == old(cell)
                      && (boardManager != null ==> boardManager.occupants == old(boardManager.occupants))
      ensures old(OnBoard()) ==> OnBoard()
    {
      if !hasStateAuthority || boardManager == null {
        return false;
      }
      var found, path := TryFindPath(boardManager, cell, targetCell);
      if !found {
        return false;
      }
      if |path| < 2 {
        return false;
      }
      var next := path[1];
      assert UnitStepAt(path, 0);
      var moved := boardManager.TryMoveUnit(cell, next);
      if !moved {
        return false;
      }
      cell := next;
      ok := true;
    }
  }
}
