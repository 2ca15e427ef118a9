/**
  ChessModel of python/ui/chess_model.py: the board, the selected square and the observer list.
  Observers are of any type with equality (the source compares them with `in` and `remove`).
*/
module ChessBoardModel {
  import opened Wrappers
  import opened Board

  class ChessModel<O(==)> {
    /** board[row][col]. */
    var board: Cells
    /** selected_piece: the (row, col) of the selected square, if any. */
    var selectedPiece: Option<(int, int)>
    /** observers, in attachment order. */
    var observers: seq<O>

    /** The board is 8×8, a selection is always on the board, and no observer is attached twice. */
    ghost predicate Valid()
      reads this
    {
      && IsGrid(board)
      && (selectedPiece.Some? ==> OnBoard(selectedPiece.value.0, selectedPiece.value.1))
      && NoDup(observers)
    }

    constructor ()
      ensures Valid()
      ensures board == DefaultBoard() && selectedPiece == None && observers == []
    {
      board := DefaultBoard();
      selectedPiece := None;
      observers := [];
    }

    /** get_piece_at: the cell's content, or None off the board. */
    function GetPieceAt(row: int, col: int): (p: Option<string>)
      reads this
      requires Valid()
      ensures p.None? <==> !OnBoard(row, col)
      ensures p.Some? ==> p.value == board[row][col]
    {
      if 0 <= row < 8 && 0 <= col < 8 then Some(board[row][col]) else None
    }

    /** set_piece_at: writes one on-board cell; off the board nothing changes. */
    method SetPieceAt(row: int, col: int, piece: string)
      requires Valid()
      modifies this
      ensures Valid()
      ensures board == WithCell(old(board), row, col, piece)
      ensures selectedPiece == old(selectedPiece) && observers == old(observers)
    {
      if 0 <= row < 8 && 0 <= col < 8 {
        board := board[row := board[row][col := piece]];
      }
    }

    /**
      select_piece: succeeds exactly on an on-board cell holding a piece, and then selects it;
      otherwise the selection is left as it was.
    */
    method SelectPiece(row: int, col: int) returns (selected: bool)
      requires Valid()
      modifies this
      ensures Valid()
      ensures selected <==> OnBoard(row, col) && IsPiece(board[row][col])
      ensures selectedPiece == if selected then Some((row, col)) else old(selectedPiece)
      ensures board == old(board) && observers == old(observers)
    {
      if 0 <= row < 8 && 0 <= col < 8 {
        if board[row][col] != "_" && board[row][col] != "" {
          selectedPiece := Some((row, col));
          return true;
        }
      }
      return false;
    }

    /**
      move_piece: fails, changing nothing, when a coordinate is off the board or the source holds no
      piece; otherwise makes the move of Moved and clears the selection.
    */
    method MovePiece(fromRow: int, fromCol: int, toRow: int, toCol: int) returns (moved: bool)
      requires Valid()
      modifies this
      ensures Valid()
      ensures moved <==> OnBoard(fromRow, fromCol) && OnBoard(toRow, toCol) && IsPiece(old(board)[fromRow][fromCol])
      ensures moved ==> board == Moved(old(board), fromRow, fromCol, toRow, toCol) && selectedPiece == None
      ensures !moved ==> board == old(board) && selectedPiece == old(selectedPiece)
      ensures observers == old(observers)
    {
      if !(0 <= fromRow < 8 && 0 <= fromCol < 8 && 0 <= toRow < 8 && 0 <= toCol < 8) {
        return false;
      }
      var piece := board[fromRow][fromCol];
      if piece == "_" || piece == "" {
        return false;
      }
      board := board[toRow := board[toRow][toCol := piece]];
      board := board[fromRow := board[fromRow][fromCol := "_"]];
      selectedPiece := None;
      return true;
    }

    /** reset_board: the starting position and no selection. */
    method ResetBoard()
      requires Valid()
      modifies this
      ensures Valid()
      ensures board == DefaultBoard() && selectedPiece == None && observers == old(observers)
    {
      board := DefaultBoard();
      selectedPiece := None;
    }

    /** deselect_piece: clears only the selection. */
    method DeselectPiece()
      requires Valid()
      modifies this
      ensures Valid()
      ensures selectedPiece == None && board == old(board) && observers == old(observers)
    {
      selectedPiece := None;
    }

    /** attach_observer: appends an observer not yet attached; attaching twice changes nothing. */
    method AttachObserver(observer: O)
      requires Valid()
      modifies this
      ensures Valid()
      ensures observers == if observer in old(observers) then old(observers) else old(observers) + [observer]
      ensures observer in observers
      ensures board == old(board) && selectedPiece == old(selectedPiece)
    {
      if observer !in observers {
        observers := observers + [observer];
      }
    }

    /** detach_observer: removes an attached observer; detaching an unknown one changes nothing. */
    method DetachObserver(observer: O)
      requires Valid()
      modifies this
      ensures Valid()
      ensures observers == RemoveFirst(old(observers), observer)
      ensures observer !in observers
      ensures forall o :: o in observers <==> o in old(observers) && o != observer
      ensures board == old(board) && selectedPiece == old(selectedPiece)
    {
      RemoveFirstNoDup(observers, observer);
      if observer in observers {
        observers := RemoveFirst(observers, observer);
      }
    }
  }
}
