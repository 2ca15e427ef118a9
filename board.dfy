/**
  The 8×8 character board shared by python/ui/chess_model.py and python/UI.py: a list of eight rows of
  eight one-character strings, uppercase for White, lowercase for Black and "_" for an empty square.
  Rows are indexed from Black's back rank (row 0) to White's (row 7).
*/
module Board {

  type Cells = seq<seq<string>>

  /** The empty-square marker. */
  const Empty: string := "_"

  /** The board has eight rows of eight cells. */
  predicate IsGrid(b: Cells) {
    |b| == 8 && forall i :: 0 <= i < 8 ==> |b[i]| == 8
  }

  /** 0 <= row < 8 and 0 <= col < 8. */
  predicate OnBoard(row: int, col: int) {
    0 <= row < 8 && 0 <= col < 8
  }

  /** A cell holds a piece: it is neither "_" nor "". */
  predicate IsPiece(cell: string) {
    cell != Empty && cell != ""
  }

  /** list(s): the one-character strings of s. */
  function Chars(s: string): (r: seq<string>)
    ensures |r| == |s| && forall i :: 0 <= i < |s| ==> r[i] == [s[i]]
  {
    seq(|s|, i requires 0 <= i < |s| => [s[i]])
  }

  /** ASCII upper case of a letter; other characters are kept. */
  function UpperAscii(c: char): char {
    if 'a' <= c <= 'z' then (c as int - 32) as char else c
  }

  /** The starting position (_create_default_board and default_board). */
  function DefaultBoard(): (b: Cells)
    ensures IsGrid(b)
  {
    [Chars("rnbqkbnr"), Chars("pppppppp"),
     Chars("________"), Chars("________"), Chars("________"), Chars("________"),
     Chars("PPPPPPPP"), Chars("RNBQKBNR")]
  }

  /**
    The layout of the starting position: Black's pieces fill rows 0 and 1, rows 2 to 5 are empty, and
    White's rows 6 and 7 mirror Black's in upper case, kings on column 4.
  */
  lemma DefaultLayout()
    ensures var b := DefaultBoard();
      && (forall i, j :: 2 <= i < 6 && 0 <= j < 8 ==> b[i][j] == Empty)
      && (forall i, j :: (0 <= i < 2 || 6 <= i < 8) && 0 <= j < 8 ==> |b[i][j]| == 1 && IsPiece(b[i][j]))
      && (forall j :: 0 <= j < 8 ==> b[1][j] == "p" && b[6][j] == "P")
      && (forall j :: 0 <= j < 8 ==> b[7][j] == [UpperAscii(b[0][j][0])] && 'a' <= b[0][j][0] <= 'z')
      && b[0][4] == "k" && b[7][4] == "K"
  {
    var b := DefaultBoard();
    assert b[0] == Chars("rnbqkbnr") && b[1] == Chars("pppppppp");
    assert b[6] == Chars("PPPPPPPP") && b[7] == Chars("RNBQKBNR");
  }

  /** board[row][col] = piece for an on-board cell; an off-board write changes nothing. */
  function WithCell(b: Cells, row: int, col: int, piece: string): (r: Cells)
    requires IsGrid(b)
    ensures IsGrid(r)
    ensures forall i, j :: OnBoard(i, j) ==>
      r[i][j] == if OnBoard(row, col) && i == row && j == col then piece else b[i][j]
  {
    if OnBoard(row, col) then b[row := b[row][col := piece]] else b
  }

  /**
    The move both UIs make: the source cell's content is copied to the destination, then the source
    becomes "_" (so a move onto itself erases the piece); every other cell keeps its content.
  */
  function Moved(b: Cells, fromRow: int, fromCol: int, toRow: int, toCol: int): (r: Cells)
    requires IsGrid(b) && OnBoard(fromRow, fromCol) && OnBoard(toRow, toCol)
    ensures IsGrid(r)
    ensures r[fromRow][fromCol] == Empty
    ensures (toRow, toCol) != (fromRow, fromCol) ==> r[toRow][toCol] == b[fromRow][fromCol]
    ensures forall i, j :: OnBoard(i, j) && (i, j) != (fromRow, fromCol) && (i, j) != (toRow, toCol) ==>
      r[i][j] == b[i][j]
  {
    WithCell(WithCell(b, toRow, toCol, b[fromRow][fromCol]), fromRow, fromCol, Empty)
  }

  /** Moving a piece to an empty square and back restores the board. */
  lemma MoveBack(b: Cells, fromRow: int, fromCol: int, toRow: int, toCol: int)
    requires IsGrid(b) && OnBoard(fromRow, fromCol) && OnBoard(toRow, toCol)
    requires (toRow, toCol) != (fromRow, fromCol) && b[toRow][toCol] == Empty
    ensures Moved(Moved(b, fromRow, fromCol, toRow, toCol), toRow, toCol, fromRow, fromCol) == b
  {
    var r := Moved(Moved(b, fromRow, fromCol, toRow, toCol), toRow, toCol, fromRow, fromCol);
    forall i | 0 <= i < 8
      ensures r[i] == b[i]
    {
      assert forall j :: 0 <= j < 8 ==> r[i][j] == b[i][j];
    }
  }

  /** No duplicates in a list (observer lists). */
  predicate NoDup<T(==)>(s: seq<T>) {
    forall k, l :: 0 <= k < l < |s| ==> s[k] != s[l]
  }

  /** list.index(x): the position of the first occurrence of x. */
  function FirstIndex<T(==)>(s: seq<T>, x: T): (i: nat)
    requires x in s
    ensures i < |s| && s[i] == x && x !in s[..i]
  {
    if s[0] == x then 0 else FirstIndex(s[1..], x) + 1
  }

  /**
    list.remove(x): the list without the first occurrence of x. Python raises ValueError when x is
    absent; this function then returns the list unchanged, a case detach_observer never reaches, since
    it removes only after its `in` test.
  */
  function RemoveFirst<T(==)>(s: seq<T>, x: T): (r: seq<T>)
    ensures x in s ==> |r| == |s| - 1
    ensures x !in s ==> r == s
    ensures forall y :: y in r ==> y in s
    ensures forall y :: y in s && y != x ==> y in r
    ensures x in s ==> r == s[..FirstIndex(s, x)] + s[FirstIndex(s, x) + 1..]
  {
    if s == [] then []
    else if s[0] == x then s[1..]
    else [s[0]] + RemoveFirst(s[1..], x)
  }

  /** Removing from a duplicate-free list keeps it duplicate-free and removes x entirely. */
  lemma RemoveFirstNoDup<T>(s: seq<T>, x: T)
    requires NoDup(s)
    ensures NoDup(RemoveFirst(s, x)) && x !in RemoveFirst(s, x)
  {
    if x in s {
      var i := FirstIndex(s, x);
      var r := RemoveFirst(s, x);
      assert r == s[..i] + s[i + 1..];
      assert |r| == |s| - 1;
      // r[k] is s[k] before the removed position and s[k + 1] from it on.
      assert forall k :: 0 <= k < |r| ==> r[k] == if k < i then s[k] else s[k + 1];
      forall k, l | 0 <= k < l < |r|
        ensures r[k] != r[l]
      {
        assert r[k] == (if k < i then s[k] else s[k + 1]) && r[l] == (if l < i then s[l] else s[l + 1]);
      }
      forall k | 0 <= k < |r|
        ensures r[k] != x
      {
        assert r[k] == (if k < i then s[k] else s[k + 1]);
      }
    }
  }
}
