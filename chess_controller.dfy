/** ChessController of python/ui/chess_controller.py: turning square clicks into model updates. */
module ChessBoardController {
  import opened Wrappers
  import opened Board
  import opened ChessBoardModel

  class ChessController<O(==)> {
    /** The model the controller updates. */
    const model: ChessModel<O>

    constructor (model: ChessModel<O>)
      ensures this.model == model
    {
      this.model := model;
    }

    /**
      handle_square_click. With no selection the click is select_piece(row, col). A click on the
      selected square deselects it. A click elsewhere, while the selected square holds a piece, is
      move_piece from the selection to the clicked square (which fails, leaving everything as it was,
      when the clicked square is off the board); while the selected square is empty nothing changes.
    */
    method HandleSquareClick(row: int, col: int)
      requires model.Valid()
      modifies model
      ensures model.Valid() && model.observers == old(model.observers)
      ensures old(model.selectedPiece).None? ==>
        && model.board == old(model.board)
        && model.selectedPiece == if OnBoard(row, col) && IsPiece(old(model.board)[row][col]) then Some((row, col)) else None
      ensures old(model.selectedPiece) == Some((row, col)) ==>
        model.board == old(model.board) && model.selectedPiece == None
      ensures old(model.selectedPiece).Some? && old(model.selectedPiece) != Some((row, col)) ==>
        var (sr, sc) := old(model.selectedPiece).value;
        if OnBoard(row, col) && IsPiece(old(model.board)[sr][sc]) then
          model.board == Moved(old(model.board), sr, sc, row, col) && model.selectedPiece == None
        else
          model.board == old(model.board) && model.selectedPiece == old(model.selectedPiece)
    {
      var selected := model.selectedPiece;
      if selected.None? {
        var _ := model.SelectPiece(row, col);
      } else {
        var (selectedRow, selectedCol) := selected.value;
        if (selectedRow, selectedCol) == (row, col) {
          model.DeselectPiece();
        } else {
          var piece := model.GetPieceAt(selectedRow, selectedCol);
          if piece.Some? && piece.value != "_" && piece.value != "" {
            var _ := model.MovePiece(selectedRow, selectedCol, row, col);
          }
        }
      }
    }

    /** reset_board: exactly the model's reset_board. */
    method ResetBoard()
      requires model.Valid()
      modifies model
      ensures model.Valid()
      ensures model.board == DefaultBoard() && model.selectedPiece == None
      ensures model.observers == old(model.observers)
    {
      model.ResetBoard();
    }
  }
}
