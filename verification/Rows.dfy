/**
 Result rows (src/query.rs): the encoding of a row, what a client can decode from it, and the stream
 that pulls rows one at a time from an asynchronous Python iterator.
 */
module Rows {
  import opened Wrappers
  import opened Bytes

  /** A cell; `None` is SQL NULL. */
  type Cell = Option<Text>

  datatype DataRow = DataRow(data: Text, fieldCount: int)

  const I16_MAX := 0x7FFF
  const I32_MAX := 0x7FFF_FFFF

  /** The bits of `n as i32`, and the value of `n as i16`. */
  function Low32(n: nat): nat {
    n % 0x1_0000_0000
  }

  function AsI16(n: nat): int {
    (n + 0x8000) % 0x1_0000 - 0x8000
  }

  function BigEndian(n: nat): (t: Text)
    requires n < 0x1_0000_0000
    ensures |t| == 4
  {
    [n / 0x100 / 0x100 / 0x100, n / 0x100 / 0x100 % 0x100, n / 0x100 % 0x100, n % 0x100]
  }

  function EncodeCell(cell: Cell): Text {
    match cell
    case None => BigEndian(0xFFFF_FFFF)
    case Some(bytes) => BigEndian(Low32(|bytes|)) + bytes
  }

  function EncodeCells(cells: seq<Cell>): Text {
    if cells == [] then [] else EncodeCell(cells[0]) + EncodeCells(cells[1..])
  }

  function EncodeRow(cells: seq<Cell>): DataRow {
    DataRow(EncodeCells(cells), AsI16(|cells|))
  }

  /** The capacity reserved for a row before it is written. */
  function Capacity(cells: seq<Cell>): nat {
    if cells == [] then 0 else
      var cell := cells[0];
      4 + (if cell.None? then 0 else |cell.value|) + Capacity(cells[1..])
  }

  lemma {:induction false} EncodeAppend(front: seq<Cell>, last: Cell)
    ensures EncodeCells(front + [last]) == EncodeCells(front) + EncodeCell(last)
  {
    if front == [] {
      assert front + [last] == [last] && [last][1..] == [];
    } else {
      EncodeAppend(front[1..], last);
      assert (front + [last])[1..] == front[1..] + [last];
      Associate(EncodeCell(front[0]), EncodeCells(front[1..]), EncodeCell(last));
    }
  }

  lemma {:induction false} CapacityIsLength(cells: seq<Cell>)
    ensures |EncodeCells(cells)| == Capacity(cells)
  {
    if cells != [] {
      CapacityIsLength(cells[1..]);
    }
  }

  method EncodeDataRow(cells: seq<Cell>) returns (row: DataRow)
    ensures row == EncodeRow(cells)
    ensures |row.data| == Capacity(cells)
  {
    var buffer := [];
    for i := 0 to |cells|
      invariant buffer == EncodeCells(cells[..i])
    {
      EncodeAppend(cells[..i], cells[i]);
      assert cells[..i + 1] == cells[..i] + [cells[i]];
      match cells[i] {
        case None =>
          buffer := buffer + BigEndian(0xFFFF_FFFF);
        case Some(bytes) =>
          Associate(buffer, BigEndian(Low32(|bytes|)), bytes);
          buffer := buffer + BigEndian(Low32(|bytes|));
          buffer := buffer + bytes;
      }
    }
    assert cells[..|cells|] == cells;
    CapacityIsLength(cells);
    row := DataRow(buffer, AsI16(|cells|));
  }

  // ---------- The client -------------------------------------------------

  function ReadI32(t: Text): int
    requires |t| >= 4
  {
    var n := ((t[0] as int * 0x100 + t[1] as int) * 0x100 + t[2] as int) * 0x100 + t[3] as int;
    if n > I32_MAX then n - 0x1_0000_0000 else n
  }

  /** Exactly `count` cells and nothing behind them. */
  function DecodeCells(data: Text, count: nat): Option<seq<Cell>>
    decreases count, 1
  {
    if count > 0 then DecodeNext(data, count) else if data == [] then Some([]) else None
  }

  function DecodeNext(data: Text, count: nat): Option<seq<Cell>>
    requires count > 0
    decreases count, 0
  {
    if |data| < 4 then None
    else
      var n := ReadI32(data);
      if n < -1 || (n >= 0 && |data| < 4 + n) then None
      else
        var cell := if n == -1 then None else Some(data[4..4 + n]);
        match DecodeCells(data[if n == -1 then 4 else 4 + n..], count - 1)
        case None => None
        case Some(cells) => Some([cell] + cells)
  }

  function DecodeRow(row: DataRow): Option<seq<Cell>> {
    if row.fieldCount < 0 then None else DecodeCells(row.data, row.fieldCount)
  }

  predicate CellFits(cell: Cell) {
    cell.Some? ==> |cell.value| <= I32_MAX
  }

  predicate Fits(cells: seq<Cell>) {
    forall c :: c in cells ==> CellFits(c)
  }

  lemma ReadBigEndian(n: nat, rest: Text)
    requires n < 0x1_0000_0000
    ensures ReadI32(BigEndian(n) + rest) == if n > I32_MAX then n - 0x1_0000_0000 else n
  {
  }

  lemma DecodeNull(rest: Text, count: nat)
    requires count > 0
    ensures DecodeCells(EncodeCell(None) + rest, count)
         == match DecodeCells(rest, count - 1) { case None => None case Some(cells) => Some([None] + cells) }
  {
    ReadBigEndian(0xFFFF_FFFF, rest);
    assert (EncodeCell(None) + rest)[4..] == rest;
  }

  lemma DecodeBytes(length: nat, body: Text, count: nat)
    requires count > 0 && length <= |body| && length <= I32_MAX
    ensures DecodeCells(BigEndian(length) + body, count)
         == match DecodeCells(body[length..], count - 1) {
              case None => None
              case Some(cells) => Some([Some(body[..length])] + cells) }
  {
    var data := BigEndian(length) + body;
    ReadBigEndian(length, body);
    assert data[4..4 + length] == body[..length] && data[4 + length..] == body[length..];
  }

  lemma DecodeFirst(cell: Cell, rest: Text, count: nat)
    requires count > 0 && CellFits(cell)
    ensures DecodeCells(EncodeCell(cell) + rest, count)
         == match DecodeCells(rest, count - 1) { case None => None case Some(cells) => Some([cell] + cells) }
  {
    if cell.None? {
      DecodeNull(rest, count);
    } else {
      var bytes := cell.value;
      DecodeBytes(|bytes|, bytes + rest, count);
      assert (bytes + rest)[..|bytes|] == bytes && (bytes + rest)[|bytes|..] == rest;
      CellIs(bytes);
      Associate(BigEndian(|bytes|), bytes, rest);
    }
  }

  lemma CellIs(bytes: Text)
    requires |bytes| <= I32_MAX
    ensures EncodeCell(Some(bytes)) == BigEndian(|bytes|) + bytes
  {
  }

  /** A cell whose length does not fit is never decoded as itself. */
  lemma DecodeOversized(bytes: Text, rest: Text, count: nat)
    requires count > 0 && |bytes| > I32_MAX
    ensures var d := DecodeCells(EncodeCell(Some(bytes)) + rest, count);
      d.Some? ==> d.value != [] && d.value[0] != Some(bytes)
  {
    var data := EncodeCell(Some(bytes)) + rest;
    assert data == BigEndian(Low32(|bytes|)) + (bytes + rest);
    ReadBigEndian(Low32(|bytes|), bytes + rest);
    assert ReadI32(data) < |bytes|;
  }

  lemma FitsFirst(cell: Cell, rest: seq<Cell>)
    ensures Fits([cell] + rest) <==> CellFits(cell) && Fits(rest)
  {
    assert ([cell] + rest)[0] == cell && ([cell] + rest)[1..] == rest;
  }

  lemma SameTail(cell: Cell, a: seq<Cell>, b: seq<Cell>)
    ensures [cell] + a == [cell] + b <==> a == b
  {
    assert ([cell] + a)[1..] == a && ([cell] + b)[1..] == b;
  }

  lemma FittingStep(cell: Cell, rest: seq<Cell>)
    requires CellFits(cell)
    ensures DecodeCells(EncodeCell(cell) + EncodeCells(rest), |rest| + 1) == Some([cell] + rest)
            <==> DecodeCells(EncodeCells(rest), |rest|) == Some(rest)
  {
    DecodeFirst(cell, EncodeCells(rest), |rest| + 1);
    var d := DecodeCells(EncodeCells(rest), |rest|);
    if d.Some? {
      SameTail(cell, d.value, rest);
    }
  }

  lemma OversizedStep(cell: Cell, rest: seq<Cell>)
    requires !CellFits(cell)
    ensures DecodeCells(EncodeCell(cell) + EncodeCells(rest), |rest| + 1) != Some([cell] + rest)
  {
    DecodeOversized(cell.value, EncodeCells(rest), |rest| + 1);
  }

  lemma {:induction false} DecodeEncodeCells(cells: seq<Cell>)
    ensures DecodeCells(EncodeCells(cells), |cells|) == Some(cells) <==> Fits(cells)
  {
    if cells != [] {
      var cell, rest := cells[0], cells[1..];
      DecodeEncodeCells(rest);
      DecodeEncodeStep(cells, cell, rest);
    }
  }

  lemma DecodeEncodeStep(cells: seq<Cell>, cell: Cell, rest: seq<Cell>)
    requires cells != [] && cell == cells[0] && rest == cells[1..]
    requires DecodeCells(EncodeCells(rest), |rest|) == Some(rest) <==> Fits(rest)
    ensures DecodeCells(EncodeCells(cells), |cells|) == Some(cells) <==> Fits(cells)
  {
    assert cells == [cell] + rest;
    FitsFirst(cell, rest);
    FirstStep(cell, rest);
    EncodeFirst(cells, cell, rest);
  }

  lemma EncodeFirst(cells: seq<Cell>, cell: Cell, rest: seq<Cell>)
    requires cells != [] && cell == cells[0] && rest == cells[1..]
    ensures EncodeCells(cells) == EncodeCell(cell) + EncodeCells(rest) && |cells| == |rest| + 1
  {
  }

  lemma FirstStep(cell: Cell, rest: seq<Cell>)
    ensures DecodeCells(EncodeCell(cell) + EncodeCells(rest), |rest| + 1) == Some([cell] + rest)
            <==> CellFits(cell) && DecodeCells(EncodeCells(rest), |rest|) == Some(rest)
  {
    if CellFits(cell) {
      FittingStep(cell, rest);
    } else {
      OversizedStep(cell, rest);
    }
  }

  lemma {:induction false} DecodedCount(data: Text, count: nat)
    requires DecodeCells(data, count).Some?
    ensures |DecodeCells(data, count).value| == count
    decreases count
  {
    if count > 0 {
      var n := ReadI32(data);
      DecodedCount(data[if n == -1 then 4 else 4 + n..], count - 1);
    }
  }

  lemma CountWraps(n: nat)
    ensures AsI16(n) == n <==> n <= I16_MAX
    ensures -0x8000 <= AsI16(n) <= I16_MAX
    ensures (n - AsI16(n)) % 0x1_0000 == 0
  {
  }

  /** A length is sent most significant byte first and read as the signed 32-bit number that is congruent
      to it; NULL is sent as -1. */
  lemma LengthWraps(n: nat)
    ensures NumberOf(BigEndian(Low32(n))) == Low32(n)
    ensures var sent := ReadI32(BigEndian(Low32(n)));
      && -0x8000_0000 <= sent <= I32_MAX && (n - sent) % 0x1_0000_0000 == 0
    ensures EncodeCell(None) == BigEndian(0xFFFF_FFFF) && ReadI32(EncodeCell(None)) == -1
  {
    var t := BigEndian(Low32(n));
    ReadBigEndian(Low32(n), []);
    ReadBigEndian(0xFFFF_FFFF, []);
    assert t + [] == t && BigEndian(0xFFFF_FFFF) + [] == BigEndian(0xFFFF_FFFF);
    NumberOfFour(t);
  }

  lemma NumberOfFour(t: Text)
    requires |t| == 4
    ensures NumberOf(t) == ((t[0] as int * 0x100 + t[1] as int) * 0x100 + t[2] as int) * 0x100 + t[3] as int
  {
    assert t[..3][..2] == t[..2] && t[..2][..1] == t[..1] && t[..1][..0] == [];
    assert NumberOf(t[..1]) == t[0] as int;
    assert NumberOf(t[..2]) == NumberOf(t[..1]) * 0x100 + t[1] as int;
    assert NumberOf(t[..3]) == NumberOf(t[..2]) * 0x100 + t[2] as int;
  }

  /** A client recovers the cells of a row exactly when their number and their lengths fit the signed
      fields of the message; NULL and the empty value stay apart. */
  lemma RowRoundTripIff(cells: seq<Cell>)
    ensures DecodeRow(EncodeRow(cells)) == Some(cells) <==> |cells| <= I16_MAX && Fits(cells)
  {
    CountWraps(|cells|);
    if |cells| <= I16_MAX {
      DecodeEncodeCells(cells);
    } else if DecodeRow(EncodeRow(cells)) == Some(cells) {
      DecodedCount(EncodeCells(cells), AsI16(|cells|));
    }
  }

  /** Two rows that are not recovered: one with a cell too many, and one with a byte too many. */
  lemma LostRows()
    ensures var cells: seq<Cell> := seq(0x8000, _ => None); DecodeRow(EncodeRow(cells)) != Some(cells)
    ensures var cells: seq<Cell> := [Some(seq(0x8000_0000, _ => 0))]; DecodeRow(EncodeRow(cells)) != Some(cells)
  {
    var many: seq<Cell> := seq(0x8000, _ => None);
    var long: seq<Cell> := [Some(seq(0x8000_0000, _ => 0))];
    RowRoundTripIff(many);
    assert long[0] in long && !CellFits(long[0]);
    RowRoundTripIff(long);
  }

  /** Rows that fit are told apart by what is sent. */
  lemma RowIsInjective(a: seq<Cell>, b: seq<Cell>)
    requires Fits(a) && Fits(b) && |a| <= I16_MAX && |b| <= I16_MAX
    ensures EncodeRow(a) == EncodeRow(b) ==> a == b
  {
    RowRoundTripIff(a);
    RowRoundTripIff(b);
  }

  // ---------- Streaming --------------------------------------------------

  type Error = int

  /** What one `__anext__` comes to. */
  datatype Pull =
    | Stopped | Row(cells: seq<Cell>) | CallFailed(error: Error) | AwaitFailed(error: Error) | NotARow(error: Error)

  type Item = Result<DataRow, Error>

  /** One step of the stream: its end, or the next item and whether the iterator is kept. */
  function Unfold(pull: Pull): Option<(Item, bool)> {
    match pull
    case Stopped => None
    case Row(cells) => Some((Ok(EncodeRow(cells)), true))
    case CallFailed(e) => Some((Err(e), false))
    case AwaitFailed(e) => Some((Err(e), false))
    case NotARow(e) => Some((Err(e), false))
  }

  /** What the stream has emitted, how often it called `__anext__`, and whether it has ended. */
  datatype Run = Run(items: seq<Item>, calls: nat, ended: bool)

  /** A stream polled to its end, or until the script of answers runs out. */
  function Drive(kept: bool, pulls: seq<Pull>): Run {
    if !kept then Run([], 0, true)
    else if pulls == [] then Run([], 0, false)
    else
      match Unfold(pulls[0])
      case None => Run([], 1, true)
      case Some((item, kept')) =>
        var rest := Drive(kept', pulls[1..]);
        Run([item] + rest.items, 1 + rest.calls, rest.ended)
  }

  /** The position of the first answer that is not a row. */
  function FirstEnd(pulls: seq<Pull>): (k: nat)
    ensures k <= |pulls|
    ensures forall i | 0 <= i < k :: pulls[i].Row?
    ensures k < |pulls| ==> !pulls[k].Row?
  {
    if pulls == [] || !pulls[0].Row? then 0 else 1 + FirstEnd(pulls[1..])
  }

  /** The stream emits the rows before the first answer that is none, then that answer's error unless
      it is the regular stop, and does not touch the iterator again. */
  lemma {:induction false} StreamEmits(pulls: seq<Pull>)
    ensures var k, run := FirstEnd(pulls), Drive(true, pulls);
      && run.ended == (k < |pulls|)
      && run.calls == (if k < |pulls| then k + 1 else k)
      && |run.items| == (if k < |pulls| && !pulls[k].Stopped? then k + 1 else k)
      && (forall i | 0 <= i < k :: run.items[i] == Ok(EncodeRow(pulls[i].cells)))
      && (k < |pulls| && !pulls[k].Stopped? ==> run.items[k] == Err(pulls[k].error))
  {
    if pulls != [] && pulls[0].Row? {
      StreamEmits(pulls[1..]);
      assert FirstEnd(pulls) == 1 + FirstEnd(pulls[1..]);
      assert Drive(true, pulls).items[1..] == Drive(true, pulls[1..]).items;
    }
  }

  /** The rows of a response that has them all at hand. */
  function QueryItems(rows: seq<seq<Cell>>): seq<Item> {
    seq(|rows|, i requires 0 <= i < |rows| => Ok(EncodeRow(rows[i])))
  }

  /** For an iterator that yields a list of rows and stops, the stream emits what the eager response
      with those rows does, and whatever the iterator would answer later is never asked for. */
  lemma StreamRefinesQuery(rows: seq<seq<Cell>>, later: seq<Pull>)
    ensures Drive(true, seq(|rows|, i requires 0 <= i < |rows| => Row(rows[i])) + [Stopped] + later)
         == Run(QueryItems(rows), |rows| + 1, true)
  {
    var pulls := seq(|rows|, i requires 0 <= i < |rows| => Row(rows[i])) + [Stopped] + later;
    assert pulls[|rows|] == Stopped;
    assert forall i | 0 <= i < |rows| :: pulls[i] == Row(rows[i]);
    var k := FirstEnd(pulls);
    assert k == |rows|;
    StreamEmits(pulls);
    assert Drive(true, pulls).items == QueryItems(rows);
  }
}
