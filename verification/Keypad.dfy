/**
The key matrix scanner of kernel/linux_bast/reciva/reciva_keypad_generic.c and its sharing of the pins with the LCD.

The four row interrupts reach the processor through one line, so their handlers do not nest. The standalone key of
KEY_CONFIG_3x3_PLUS_1 and the power-on key are not part of this model.
 */
module Keypad {
  import opened KeyLog

  /** GPG8, the pin of the first row. */
  const FIRST_ROW := 8

  /**
   The board: whether a read of the row pins, the k-th of a scan, finds a row low while the given columns are
   driven low.
   */
  type Board = (nat, set<nat>, nat) -> bool

  // ---------------------------------------------------------------- the scan

  datatype Option<T> = None | Some(value: T)

  function AllColumns(numCols: nat): (all: set<nat>)
    ensures forall c: nat :: c in all <==> c < numCols
  {
    if numCols == 0 then {} else AllColumns(numCols - 1) + {(numCols - 1) as nat}
  }

  /** All three reads of turn i find the row low. */
  predicate ReadsLow(board: Board, i: nat, low: set<nat>, row: nat) {
    board(3 * i, low, row) && board(3 * i + 1, low, row) && board(3 * i + 2, low, row)
  }

  /** The column that the scan reports, from turn i on. */
  function Scan(board: Board, row: nat, numCols: nat, i: nat, column: nat, low: set<nat>): Option<nat>
    decreases 4 - i
  {
    if i >= 4 then None
    else if ReadsLow(board, i, low, row) then Some(column)
    else if column >= 1 then Scan(board, row, numCols, i + 1, column - 1, {(column - 1) as nat})
    else Scan(board, row, numCols, i + 1, column, AllColumns(numCols))
  }

  /** A row reads low when a pressed key of it lies in a driven column. */
  predicate Connected(pressed: set<Key>, low: set<nat>, row: nat) {
    exists c :: c in low && Key(row, c) in pressed
  }

  /** The matrix is at rest: every read of the row shows the same keys pressed. */
  ghost predicate Rests(board: Board, pressed: set<Key>, row: nat) {
    forall k, low :: board(k, low, row) == Connected(pressed, low, row)
  }

  /** The highest-numbered pressed column of the row below column n. */
  function Highest(pressed: set<Key>, row: nat, n: nat): (h: Option<nat>)
    ensures h == None ==> forall c: nat :: c < n ==> Key(row, c) !in pressed
    ensures h.Some? ==> h.value < n && Key(row, h.value) in pressed
    ensures h.Some? ==> forall c: nat :: h.value < c < n ==> Key(row, c) !in pressed
  {
    if n == 0 then None else if Key(row, n - 1) in pressed then Some(n - 1) else Highest(pressed, row, n - 1)
  }

  /** The columns that the first turn of a scan finds driven: a scan that was lent to the LCD finds all of them. */
  function FirstColumns(numCols: nat, lent: bool): set<nat>
    requires numCols >= 1
  {
    if lent then AllColumns(numCols) else {(numCols - 1) as nat}
  }

  /** With the matrix at rest a scan reports the highest-numbered pressed column of the row. */
  lemma StableScan(board: Board, pressed: set<Key>, row: nat, numCols: nat)
    requires 1 <= numCols <= 4 && Rests(board, pressed, row)
    ensures Scan(board, row, numCols, 0, numCols - 1, FirstColumns(numCols, false)) == Highest(pressed, row, numCols)
  {
    StableScanFrom(board, pressed, row, numCols, 0, numCols - 1);
  }

  lemma {:induction false} StableScanFrom(
      board: Board, pressed: set<Key>, row: nat, numCols: nat, i: nat, column: nat)
    requires 1 <= numCols <= 4 && column < numCols && i == numCols - 1 - column && Rests(board, pressed, row)
    requires forall c: nat :: column < c < numCols ==> Key(row, c) !in pressed
    ensures Scan(board, row, numCols, i, column, {column}) == Highest(pressed, row, column + 1)
    decreases column
  {
    assert Connected(pressed, {column}, row) <==> Key(row, column) in pressed;
    if Key(row, column) !in pressed {
      if column >= 1 {
        StableScanFrom(board, pressed, row, numCols, i + 1, column - 1);
      } else {
        NothingPressed(board, pressed, row, numCols, i + 1);
      }
    }
  }

  lemma {:induction false} NothingPressed(board: Board, pressed: set<Key>, row: nat, numCols: nat, i: nat)
    requires Rests(board, pressed, row)
    requires forall c: nat :: c < numCols ==> Key(row, c) !in pressed
    ensures Scan(board, row, numCols, i, 0, AllColumns(numCols)) == None
    decreases 4 - i
  {
    if i < 4 {
      assert !Connected(pressed, AllColumns(numCols), row);
      NothingPressed(board, pressed, row, numCols, i + 1);
    }
  }

  /** A scan that was lent takes any key of the row for the one of the last column. */
  lemma LentScan(board: Board, pressed: set<Key>, row: nat, numCols: nat)
    requires 2 <= numCols <= 4 && Rests(board, pressed, row)
    ensures Scan(board, row, numCols, 0, numCols - 1, FirstColumns(numCols, true))
         == if Highest(pressed, row, numCols) == None then None else Some((numCols - 1) as nat)
  {
    hide Highest;
    var all := AllColumns(numCols);
    if Highest(pressed, row, numCols) == None {
      assert !Connected(pressed, all, row);
      StableScanFrom(board, pressed, row, numCols, 1, numCols - 2);
      assert Highest(pressed, row, numCols - 1) == None;
    } else {
      assert Connected(pressed, all, row) by { assert Highest(pressed, row, numCols).value in all; }
    }
  }

  /**
   With the matrix at rest the scan is right if and only if it was not lent to the LCD, or the key in the last column
   is pressed, or no key of the row is.
   */
  lemma ScanIsRight(board: Board, pressed: set<Key>, row: nat, numCols: nat, lent: bool)
    requires 2 <= numCols <= 4 && Rests(board, pressed, row)
    ensures Scan(board, row, numCols, 0, numCols - 1, FirstColumns(numCols, lent)) == Highest(pressed, row, numCols)
       <==> !lent || Key(row, numCols - 1) in pressed || Highest(pressed, row, numCols) == None
  {
    hide Scan, Rests;
    StableScan(board, pressed, row, numCols);
    LentScan(board, pressed, row, numCols);
  }

  /** The three reads of a turn all find the key closed. */
  predicate Closed(contact: nat -> bool, i: nat) {
    contact(3 * i) && contact(3 * i + 1) && contact(3 * i + 2)
  }

  /**
   One key whose contact may bounce. With four columns the scan reports it or nothing; with three columns the
   scan has a fourth turn, with every column driven, that takes any key of the row for the one of column 0.
   */
  lemma BouncingScan(board: Board, contact: nat -> bool, row: nat, c: nat, numCols: nat)
    requires 3 <= numCols <= 4 && c < numCols
    requires forall k, low :: board(k, low, row) == (c in low && contact(k))
    ensures Scan(board, row, numCols, 0, numCols - 1, FirstColumns(numCols, false))
         == if Closed(contact, numCols - 1 - c) then Some(c)
            else if numCols == 3 && Closed(contact, 3) then Some(0)
            else None
  {
    BouncingScanFrom(board, contact, row, c, numCols, 0, numCols - 1);
  }

  /** What turn i of the scan reads. */
  lemma TurnReads(board: Board, contact: nat -> bool, row: nat, c: nat, i: nat, low: set<nat>)
    requires forall k, low :: board(k, low, row) == (c in low && contact(k))
    ensures ReadsLow(board, i, low, row) == (c in low && Closed(contact, i))
  {
  }

  lemma {:induction false} BouncingScanFrom(
      board: Board, contact: nat -> bool, row: nat, c: nat, numCols: nat, i: nat, column: nat)
    requires 3 <= numCols <= 4 && c < numCols && column < numCols && i == numCols - 1 - column
    requires forall k, low :: board(k, low, row) == (c in low && contact(k))
    requires column < c ==> !Closed(contact, numCols - 1 - c)
    ensures Scan(board, row, numCols, i, column, {column})
         == if Closed(contact, numCols - 1 - c) then Some(c)
            else if numCols == 3 && Closed(contact, 3) then Some(0)
            else None
    decreases column
  {
    hide ReadsLow, Closed;
    TurnReads(board, contact, row, c, i, {column});
    if !ReadsLow(board, i, {column}, row) {
      if column >= 1 {
        BouncingScanFrom(board, contact, row, c, numCols, i + 1, column - 1);
      } else {
        TurnReads(board, contact, row, c, 3, AllColumns(numCols));
        assert Scan(board, row, numCols, 4, 0, AllColumns(numCols)) == None;
      }
    }
  }

  /** A contact that closes in time for the fourth turn only: the key of column 2 is taken for that of column 0. */
  lemma LateContact()
    ensures var board: Board := (k, low, row) => 2 in low && k >= 9;
            Scan(board, FIRST_ROW, 3, 0, 2, FirstColumns(3, false)) == Some(0)
  {
    var board: Board, contact: nat -> bool := (k, low, row) => 2 in low && k >= 9, k => k >= 9;
    BouncingScan(board, contact, FIRST_ROW, 2, 3);
  }
}
