/** Sheet-dimension checks and arrow-key navigation over cell addresses. */
module Grid {
  import opened Wrappers
  import opened Address

  datatype Direction = Up | Down | Left | Right

  /** isValidAddress (lib/grid.ts:44-55): the address parses and lies inside
      a sheet of maxRows rows and maxCols columns; a parse failure is caught
      and answered with false. */
  function IsValidAddress(addr: CellAddress, maxRows: int, maxCols: int): (valid: bool)
    ensures valid <==> && MatchesAddressPattern(addr)
                       && ParseAddress(addr).Ok?
                       && var p := ParseAddress(addr).value;
                          0 <= p.row < maxRows && 0 <= p.col < maxCols
  {
    ParseAddressMatches(addr);
    match ParseAddress(addr)
    case Err(_) => false
    case Ok(p) => p.row >= 0 && p.row < maxRows && p.col >= 0 && p.col < maxCols
  }

  /** Every address formatAddress writes for an in-bounds cell, with or
      without `$` markers, is valid. */
  lemma FormattedIsValid(col: int, row: int, absoluteCol: bool, absoluteRow: bool, maxRows: int, maxCols: int)
    requires 0 <= col < maxCols && 0 <= row < maxRows
    ensures FormatAddress(col, row, absoluteCol, absoluteRow).Ok?
    ensures IsValidAddress(FormatAddress(col, row, absoluteCol, absoluteRow).value, maxRows, maxCols)
  {
    FormatParseRoundTrip(col, row, absoluteCol, absoluteRow);
  }

  /** The column and row steps of a direction. */
  function Delta(d: Direction): (int, int)
  {
    match d
    case Up => (0, -1)
    case Down => (0, 1)
    case Left => (-1, 0)
    case Right => (1, 0)
  }

  /** getNeighbor (lib/grid.ts:58-83): moves one cell in the direction, or
      gives None when that leaves the sheet; an unparseable address fails. */
  function GetNeighbor(addr: CellAddress, d: Direction, maxRows: int, maxCols: int): (r: Result<Option<CellAddress>>)
    ensures ParseAddress(addr).Err? ==> r == Err("Invalid address: " + addr)
    ensures ParseAddress(addr).Ok? ==> r.Ok?
    ensures r.Ok? ==> var p := ParseAddress(addr).value;
                      var nc, nr := p.col + Delta(d).0, p.row + Delta(d).1;
                      (r.value.None? <==> !(0 <= nr < maxRows && 0 <= nc < maxCols))
    ensures r.Ok? && r.value.Some? ==> var p := ParseAddress(addr).value;
                      ParseAddress(r.value.value) == Ok(AddressParts(p.col + Delta(d).0, p.row + Delta(d).1, false, false))
    ensures r.Ok? && r.value.Some? ==> IsValidAddress(r.value.value, maxRows, maxCols)
  {
    var p :- ParseAddress(addr);
    var nc, nr := p.col + Delta(d).0, p.row + Delta(d).1;
    if nr < 0 || nr >= maxRows || nc < 0 || nc >= maxCols then Ok(None)
    else
      FormatParseRoundTrip(nc, nr, false, false);
      FormattedIsValid(nc, nr, false, false, maxRows, maxCols);
      Ok(Some(FormatAddress(nc, nr, false, false).value))
  }

  /** A neighbour differs from the address in exactly one coordinate, by one,
      the way the direction points. */
  lemma NeighborIsAdjacent(addr: CellAddress, d: Direction, maxRows: int, maxCols: int)
    requires GetNeighbor(addr, d, maxRows, maxCols).Ok?
    requires GetNeighbor(addr, d, maxRows, maxCols).value.Some?
    ensures var p := ParseAddress(addr).value;
            var q := ParseAddress(GetNeighbor(addr, d, maxRows, maxCols).value.value).value;
            && (d == Up ==> q.col == p.col && q.row == p.row - 1)
            && (d == Down ==> q.col == p.col && q.row == p.row + 1)
            && (d == Left ==> q.row == p.row && q.col == p.col - 1)
            && (d == Right ==> q.row == p.row && q.col == p.col + 1)
            && !q.absoluteCol && !q.absoluteRow
  {
  }
}
