/** Per-symbol positions and the running equity of a paper session. */
module Blotter {
  import opened Fills

  /** Net quantity (negative when short) and volume-weighted average entry price. */
  datatype Position = Position(netQty: real, avgEntry: real)

  const FLAT := Position(0.0, 0.0)

  /** One persisted fill: the trade row with its realised profit, the position row and the equity row. */
  datatype Row = Row(fill: Fill, realisedPnl: real, position: Position, equity: real)

  datatype State = State(equity: real, positions: map<Symbol, Position>, rows: seq<Row>)

  function PositionOf(ps: map<Symbol, Position>, s: Symbol): Position {
    if s in ps then ps[s] else FLAT
  }

  /** A fill on the opposite side of an open position. */
  predicate Closes(p: Position, side: Side) {
    if side == Buy then p.netQty < 0.0 else p.netQty > 0.0
  }

  /** The volume-weighted average of what is open and what is added. */
  function Vwap(open: real, avgEntry: real, qty: real, price: real): real
    requires open + qty != 0.0
  {
    (open * avgEntry + qty * price) / (open + qty)
  }

  /** Extending a position divides by the new open quantity.  That it is zero takes a negative fill quantity, and
      makes the decimal library panic. */
  predicate HasAverage(p: Position, side: Side, qty: real) {
    Closes(p, side) || p.netQty == 0.0 || Abs(p.netQty) + qty != 0.0
  }

  /** The position after a fill and the profit the fill realises, before its fee.  A fill that closes more
      than is open leaves the remainder at an average entry of zero. */
  function FillPosition(p: Position, side: Side, qty: real, price: real): (Position, real)
    requires HasAverage(p, side, qty)
  {
    var net := p.netQty + Signed(side, qty);
    if Closes(p, side) then
      var pnl := if side == Sell then (price - p.avgEntry) * qty else (p.avgEntry - price) * qty;
      var stillOpen := if side == Sell then net > 0.0 else net < 0.0;
      (Position(net, if stillOpen then p.avgEntry else 0.0), pnl)
    else if p.netQty == 0.0 then (Position(net, price), 0.0)
    else (Position(net, Vwap(Abs(p.netQty), p.avgEntry, qty, price)), 0.0)
  }

  /** What is left after persisting failed: the quantity is put back, the average entry is not. */
  function Undone(p: Position, side: Side, qty: real): Position {
    Position(p.netQty - Signed(side, qty), p.avgEntry)
  }

  function AddFill(s: State, f: Fill, stored: bool): State
    requires HasAverage(PositionOf(s.positions, f.symbol), f.side, f.qty)
  {
    var (p, pnl) := FillPosition(PositionOf(s.positions, f.symbol), f.side, f.qty, f.price);
    Settled(s, f, p, pnl, stored)
  }

  /** The books once the fill has moved the position to `p` and the store has answered. */
  function Settled(s: State, f: Fill, p: Position, pnl: real, stored: bool): State {
    if stored then
      var equity := s.equity + pnl - f.fee;
      State(equity, s.positions[f.symbol := p], s.rows + [Row(f, pnl, p, equity)])
    else s.(positions := s.positions[f.symbol := Undone(p, f.side, f.qty)])
  }

  /** A row of the positions table. */
  datatype PositionRow = PositionRow(symbol: Symbol, position: Position)

  function Seeded(ps: map<Symbol, Position>, rows: seq<PositionRow>): map<Symbol, Position> {
    if rows == [] then ps
    else Seeded(ps, rows[..|rows| - 1])[rows[|rows| - 1].symbol := rows[|rows| - 1].position]
  }

  class SymbolPosition {
    var netQty: real
    var avgEntry: real

    constructor ()
      ensures Value() == FLAT
    {
      netQty, avgEntry := 0.0, 0.0;
    }

    ghost function Value(): Position
      reads this
    {
      Position(netQty, avgEntry)
    }
  }

  method ApplyFill(pos: SymbolPosition, fill: Fill) returns (pnl: real)
    requires HasAverage(pos.Value(), fill.side, fill.qty)
    modifies pos
    ensures pos.Value() == FillPosition(old(pos.Value()), fill.side, fill.qty, fill.price).0
    ensures pnl == FillPosition(old(pos.Value()), fill.side, fill.qty, fill.price).1
  {
    if fill.side == Buy {
      pnl := ApplyBuy(pos, fill);
    } else {
      pnl := ApplySell(pos, fill);
    }
  }

  method ApplyBuy(pos: SymbolPosition, fill: Fill) returns (pnl: real)
    requires fill.side == Buy && HasAverage(pos.Value(), Buy, fill.qty)
    modifies pos
    ensures pos.Value() == FillPosition(old(pos.Value()), Buy, fill.qty, fill.price).0
    ensures pnl == FillPosition(old(pos.Value()), Buy, fill.qty, fill.price).1
  {
    if pos.netQty < 0.0 {
      pnl := CloseShort(pos, fill);
    } else {
      OpenOrExtendLong(pos, fill);
      pnl := 0.0;
    }
  }

  method ApplySell(pos: SymbolPosition, fill: Fill) returns (pnl: real)
    requires fill.side == Sell && HasAverage(pos.Value(), Sell, fill.qty)
    modifies pos
    ensures pos.Value() == FillPosition(old(pos.Value()), Sell, fill.qty, fill.price).0
    ensures pnl == FillPosition(old(pos.Value()), Sell, fill.qty, fill.price).1
  {
    if pos.netQty > 0.0 {
      pnl := CloseLong(pos, fill);
    } else {
      OpenOrExtendShort(pos, fill);
      pnl := 0.0;
    }
  }

  method CloseLong(pos: SymbolPosition, fill: Fill) returns (pnl: real)
    requires pos.netQty > 0.0
    modifies pos
    ensures pos.Value() == FillPosition(old(pos.Value()), Sell, fill.qty, fill.price).0
    ensures pnl == FillPosition(old(pos.Value()), Sell, fill.qty, fill.price).1
  {
    pnl := (fill.price - pos.avgEntry) * fill.qty;
    pos.netQty := pos.netQty - fill.qty;
    if !(pos.netQty > 0.0) {
      pos.avgEntry := 0.0;
    }
  }

  method CloseShort(pos: SymbolPosition, fill: Fill) returns (pnl: real)
    requires pos.netQty < 0.0
    modifies pos
    ensures pos.Value() == FillPosition(old(pos.Value()), Buy, fill.qty, fill.price).0
    ensures pnl == FillPosition(old(pos.Value()), Buy, fill.qty, fill.price).1
  {
    pnl := (pos.avgEntry - fill.price) * fill.qty;
    pos.netQty := pos.netQty + fill.qty;
    if !(pos.netQty < 0.0) {
      pos.avgEntry := 0.0;
    }
  }

  method OpenOrExtendLong(pos: SymbolPosition, fill: Fill)
    requires pos.netQty >= 0.0 && HasAverage(pos.Value(), Buy, fill.qty)
    modifies pos
    ensures pos.Value() == FillPosition(old(pos.Value()), Buy, fill.qty, fill.price).0
  {
    var newQty := pos.netQty + fill.qty;
    if pos.netQty == 0.0 {
      pos.avgEntry := fill.price;
    } else {
      pos.avgEntry := Vwap(pos.netQty, pos.avgEntry, fill.qty, fill.price);
    }
    pos.netQty := newQty;
  }

  method OpenOrExtendShort(pos: SymbolPosition, fill: Fill)
    requires pos.netQty <= 0.0 && HasAverage(pos.Value(), Sell, fill.qty)
    modifies pos
    ensures pos.Value() == FillPosition(old(pos.Value()), Sell, fill.qty, fill.price).0
  {
    var absQty := Abs(pos.netQty);
    if pos.netQty == 0.0 {
      pos.avgEntry := fill.price;
    } else {
      pos.avgEntry := Vwap(absQty, pos.avgEntry, fill.qty, fill.price);
    }
    pos.netQty := pos.netQty - fill.qty;
  }

  class Blotter {
    var equity: real
    // Positions are shared by reference: a fill mutates the object in the map.
    var positions: map<Symbol, SymbolPosition>
    // What the store has accepted.
    var rows: seq<Row>

    /** No two symbols share a position object. */
    ghost predicate Valid()
      reads this`positions
    {
      forall s, t | s in positions && t in positions && s != t :: positions[s] != positions[t]
    }

    ghost function Objects(): set<SymbolPosition>
      reads this`positions
    {
      set s | s in positions :: positions[s]
    }

    ghost function Abs(): State
      reads this, Objects()
    {
      State(equity, Values(), rows)
    }

    ghost function Values(): map<Symbol, Position>
      reads this`positions, Objects()
    {
      map s | s in positions :: positions[s].Value()
    }

    constructor (initialEquity: real)
      ensures Valid() && fresh(Objects())
      ensures Abs() == State(initialEquity, map[], [])
    {
      equity, positions, rows := initialEquity, map[], [];
    }

    /** Loads the positions recovered from an earlier session. */
    method SeedPositions(rows: seq<PositionRow>)
      requires Valid()
      modifies this`positions
      ensures Valid() && fresh(Objects() - old(Objects()))
      ensures Abs() == old(Abs()).(positions := Seeded(old(Values()), rows))
    {
      for i := 0 to |rows|
        invariant Valid() && fresh(Objects() - old(Objects()))
        invariant Values() == Seeded(old(Values()), rows[..i])
      {
        assert rows[..i + 1][..i] == rows[..i];
        SeedPosition(rows[i].symbol, rows[i].position);
      }
      assert rows[..|rows|] == rows;
    }

    method SeedPosition(s: Symbol, p: Position)
      requires Valid()
      modifies this`positions
      ensures Valid() && fresh(Objects() - old(Objects()))
      ensures Values() == old(Values())[s := p]
    {
      var pos := new SymbolPosition();
      pos.netQty, pos.avgEntry := p.netQty, p.avgEntry;
      positions := positions[s := pos];
    }

    method GetPosition(symbol: Symbol) returns (netQty: real)
      ensures netQty == PositionOf(Values(), symbol).netQty
    {
      if symbol !in positions {
        return 0.0;
      }
      return positions[symbol].netQty;
    }

    method RecordFill(fill: Fill, stored: bool) returns (ok: bool)
      requires Valid() && HasAverage(PositionOf(Values(), fill.symbol), fill.side, fill.qty)
      modifies this, Objects()
      ensures Valid() && fresh(Objects() - old(Objects()))
      ensures ok == stored
      ensures Abs() == AddFill(old(Abs()), fill, stored)
    {
      ghost var before := Abs();
      var pos, realisedPnl := ApplyAt(fill);
      ok := Settle(pos, fill, realisedPnl, stored, before);
    }

    /** Books the profit and the fee, and takes everything but the average entry back if the store refuses. */
    method Settle(pos: SymbolPosition, fill: Fill, realisedPnl: real, stored: bool, ghost before: State)
      returns (ok: bool)
      requires Valid() && fill.symbol in positions && positions[fill.symbol] == pos
      requires equity == before.equity && rows == before.rows
      requires Values() == before.positions[fill.symbol := pos.Value()]
      modifies this`equity, this`rows, pos
      ensures ok == stored
      ensures Abs() == Settled(before, fill, old(pos.Value()), realisedPnl, stored)
    {
      equity := equity + realisedPnl - fill.fee;
      if !stored {
        RollBack(pos, fill, realisedPnl);
        return false;
      }
      rows := rows + [Row(fill, realisedPnl, Position(pos.netQty, pos.avgEntry), equity)];
      return true;
    }

    method RollBack(pos: SymbolPosition, fill: Fill, realisedPnl: real)
      requires Valid() && fill.symbol in positions && positions[fill.symbol] == pos
      modifies this`equity, pos
      ensures equity == old(equity) - realisedPnl + fill.fee
      ensures Values() == old(Values())[fill.symbol := Undone(old(pos.Value()), fill.side, fill.qty)]
    {
      equity := equity - realisedPnl + fill.fee;
      UndoAt(pos, fill);
    }

    /** Applies the fill to the position of its symbol, which no other symbol shares. */
    method ApplyAt(fill: Fill) returns (pos: SymbolPosition, pnl: real)
      requires Valid() && HasAverage(PositionOf(Values(), fill.symbol), fill.side, fill.qty)
      modifies this`positions, Objects()
      ensures Valid() && fresh(Objects() - old(Objects()))
      ensures fill.symbol in positions && positions[fill.symbol] == pos
      ensures pos in old(Objects()) || fresh(pos)
      ensures Values() == old(Values())[fill.symbol := pos.Value()]
      ensures pos.Value() == FillPosition(PositionOf(old(Values()), fill.symbol), fill.side, fill.qty, fill.price).0
      ensures pnl == FillPosition(PositionOf(old(Values()), fill.symbol), fill.side, fill.qty, fill.price).1
    {
      pos := FindOrAdd(fill.symbol);
      pnl := ApplyOwn(pos, fill);
    }

    /** The position object of a symbol changes, and no other symbol's. */
    method ApplyOwn(pos: SymbolPosition, fill: Fill) returns (pnl: real)
      requires Valid() && fill.symbol in positions && positions[fill.symbol] == pos
      requires HasAverage(pos.Value(), fill.side, fill.qty)
      modifies pos
      ensures Values() == old(Values())[fill.symbol := pos.Value()]
      ensures pos.Value() == FillPosition(old(pos.Value()), fill.side, fill.qty, fill.price).0
      ensures pnl == FillPosition(old(pos.Value()), fill.side, fill.qty, fill.price).1
    {
      pnl := ApplyFill(pos, fill);
    }

    method FindOrAdd(symbol: Symbol) returns (pos: SymbolPosition)
      requires Valid()
      modifies this`positions
      ensures Valid() && fresh(Objects() - old(Objects())) && old(Objects()) <= Objects()
      ensures symbol in positions && positions[symbol] == pos
      ensures pos.Value() == PositionOf(old(Values()), symbol)
      ensures Values() == old(Values())[symbol := pos.Value()]
    {
      if symbol in positions {
        pos := positions[symbol];
      } else {
        pos := new SymbolPosition();
        positions := positions[symbol := pos];
      }
      assert forall s | s in old(positions) :: s in positions && positions[s] == old(positions)[s];
    }

    method UndoAt(pos: SymbolPosition, fill: Fill)
      requires Valid() && fill.symbol in positions && positions[fill.symbol] == pos
      modifies pos
      ensures Values() == old(Values())[fill.symbol := Undone(old(pos.Value()), fill.side, fill.qty)]
    {
      UndoFill(pos, fill);
    }

    method UndoFill(pos: SymbolPosition, fill: Fill)
      modifies pos
      ensures pos.Value() == Undone(old(pos.Value()), fill.side, fill.qty)
    {
      if fill.side == Buy {
        pos.netQty := pos.netQty - fill.qty;
      } else {
        pos.netQty := pos.netQty + fill.qty;
      }
    }
  }
}
