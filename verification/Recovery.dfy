/** Resuming a session: the blotter is loaded with the recovered positions, the risk checker is fed one fill for
    each. */
module Recovery {
  import opened Fills
  import B = Blotter
  import R = RiskChecker
  import L = Ledgers

  ghost predicate OneRowPerSymbol(rows: seq<B.PositionRow>) {
    forall i, j | 0 <= i < j < |rows| :: rows[i].symbol != rows[j].symbol
  }

  /** The seeding fill buys the absolute quantity at the average entry, whatever the sign of the position. */
  function SeedFill(r: B.PositionRow): Fill {
    Fill(r.symbol, Buy, Abs(r.position.netQty), r.position.avgEntry, 0.0)
  }

  function SeededChecker(cfg: R.Config, rows: seq<B.PositionRow>): R.State {
    if rows == [] then R.Fresh(cfg) else R.AddFill(SeededChecker(cfg, rows[..|rows| - 1]), SeedFill(rows[|rows| - 1]))
  }

  function Positions(rows: seq<B.PositionRow>): map<Symbol, B.Position> {
    B.Seeded(map[], rows)
  }

  method Recover(cfg: R.Config, equity: real, rows: seq<B.PositionRow>) returns (blot: B.Blotter, risk: R.Checker)
    ensures blot.Valid() && blot.Abs() == B.State(equity, Positions(rows), [])
    ensures risk.cfg == cfg && risk.Abs() == SeededChecker(cfg, rows)
  {
    risk := new R.Checker(cfg);
    for i := 0 to |rows|
      invariant risk.cfg == cfg && fresh(risk) && risk.Abs() == SeededChecker(cfg, rows[..i])
    {
      assert rows[..i + 1][..i] == rows[..i];
      risk.RecordFill(SeedFill(rows[i]));
    }
    assert rows[..|rows|] == rows;
    blot := new B.Blotter(equity);
    blot.SeedPositions(rows);
  }

  lemma {:induction false} SeededKeys(rows: seq<B.PositionRow>, s: Symbol)
    ensures s in Positions(rows) <==> exists i :: 0 <= i < |rows| && rows[i].symbol == s
  {
    if rows != [] {
      var init := rows[..|rows| - 1];
      SeededKeys(init, s);
      assert forall i | 0 <= i < |init| :: init[i] == rows[i];
    }
  }

  /** Each recovered position is in the blotter. */
  lemma {:induction false} SeededRow(rows: seq<B.PositionRow>, i: nat)
    requires OneRowPerSymbol(rows) && i < |rows|
    ensures rows[i].symbol in Positions(rows) && Positions(rows)[rows[i].symbol] == rows[i].position
  {
    if i < |rows| - 1 {
      SeededRow(rows[..|rows| - 1], i);
      assert rows[i].symbol != rows[|rows| - 1].symbol;
    }
  }

  /** The checker holds the absolute quantity of every recovered position. */
  lemma {:induction false} SeededAmount(cfg: R.Config, rows: seq<B.PositionRow>, s: Symbol)
    requires OneRowPerSymbol(rows)
    ensures AmountOf(SeededChecker(cfg, rows).positions, s) == Abs(B.PositionOf(Positions(rows), s).netQty)
  {
    if rows != [] {
      var init, last := rows[..|rows| - 1], rows[|rows| - 1];
      SeededAmount(cfg, init, s);
      if last.symbol == s {
        SeededKeys(init, s);
        assert forall i | 0 <= i < |init| :: init[i].symbol != s;
        assert s !in Positions(init);
      }
    }
  }

  /** After recovery blotter and checker hold the same positions if and only if no recovered position is short:
      a short one is counted as long by the checker. */
  lemma RecoveryAgreesIff(cfg: R.Config, rows: seq<B.PositionRow>)
    requires OneRowPerSymbol(rows)
    ensures (forall s :: AmountOf(SeededChecker(cfg, rows).positions, s) == B.PositionOf(Positions(rows), s).netQty)
       <==> forall i | 0 <= i < |rows| :: rows[i].position.netQty >= 0.0
  {
    forall s
      ensures AmountOf(SeededChecker(cfg, rows).positions, s) == Abs(B.PositionOf(Positions(rows), s).netQty)
    {
      SeededAmount(cfg, rows, s);
    }
    if i :| 0 <= i < |rows| && rows[i].position.netQty < 0.0 {
      SeededRow(rows, i);
      SeededAmount(cfg, rows, rows[i].symbol);
    } else {
      forall s
        ensures B.PositionOf(Positions(rows), s).netQty >= 0.0
      {
        SeededKeys(rows, s);
        if i :| 0 <= i < |rows| && rows[i].symbol == s {
          SeededRow(rows, i);
        }
      }
    }
  }

  /** What the seeding fill of a position takes out of the checker's equity: its absolute cost, long or short. */
  function AbsoluteCost(p: B.Position): real {
    (if p.netQty < 0.0 then -p.netQty else p.netQty) * p.avgEntry
  }

  function SeedCost(rows: seq<B.PositionRow>): real {
    if rows == [] then 0.0 else SeedCost(rows[..|rows| - 1]) + AbsoluteCost(rows[|rows| - 1].position)
  }

  lemma SeedFillCosts(s: R.State, r: B.PositionRow)
    ensures R.AddFill(s, SeedFill(r)).equity == s.equity - AbsoluteCost(r.position)
  {
  }

  /** What the checker's equity starts from after recovery: the initial capital less the absolute cost of every
      recovered position. */
  lemma {:induction false} SeededEquity(cfg: R.Config, rows: seq<B.PositionRow>)
    ensures SeededChecker(cfg, rows).equity == cfg.initialCapital - SeedCost(rows)
  {
    if rows != [] {
      var init := rows[..|rows| - 1];
      SeededEquity(cfg, init);
      SeedFillCosts(SeededChecker(cfg, init), rows[|rows| - 1]);
    }
  }

  // ----- what is persisted is what is recovered

  /** The positions table keeps one row per symbol; a new row replaces the old one. */
  function Upsert(table: seq<B.PositionRow>, row: B.PositionRow): seq<B.PositionRow> {
    if table == [] then [row]
    else
      var init, last := table[..|table| - 1], table[|table| - 1];
      if last.symbol == row.symbol then init + [row] else Upsert(init, row) + [last]
  }

  /** The table after the persisted rows of a session. */
  function Table(rows: seq<B.Row>): seq<B.PositionRow> {
    if rows == [] then []
    else
      var last := rows[|rows| - 1];
      Upsert(Table(rows[..|rows| - 1]), B.PositionRow(last.fill.symbol, last.position))
  }

  lemma SeededSnoc(rows: seq<B.PositionRow>, row: B.PositionRow)
    ensures Positions(rows + [row]) == Positions(rows)[row.symbol := row.position]
  {
    assert (rows + [row])[..|rows|] == rows;
  }

  lemma {:induction false} UpsertSymbols(table: seq<B.PositionRow>, row: B.PositionRow)
    ensures forall i | 0 <= i < |Upsert(table, row)| ::
              Upsert(table, row)[i].symbol == row.symbol
              || exists j :: 0 <= j < |table| && table[j].symbol == Upsert(table, row)[i].symbol
  {
    if table != [] {
      var init, last := table[..|table| - 1], table[|table| - 1];
      UpsertSymbols(init, row);
      assert forall j | 0 <= j < |init| :: init[j] == table[j];
      assert table[|table| - 1] == last;
    }
  }

  lemma {:induction false} UpsertOnePer(table: seq<B.PositionRow>, row: B.PositionRow)
    requires OneRowPerSymbol(table)
    ensures OneRowPerSymbol(Upsert(table, row))
  {
    if table != [] {
      var init, last := table[..|table| - 1], table[|table| - 1];
      if last.symbol == row.symbol {
        assert forall i | 0 <= i < |init| :: init[i] == table[i];
      } else {
        UpsertOnePer(init, row);
        UpsertSymbols(init, row);
        assert forall j | 0 <= j < |init| :: init[j] == table[j];
      }
    }
  }

  lemma {:induction false} UpsertKeeps(table: seq<B.PositionRow>, row: B.PositionRow)
    ensures Positions(Upsert(table, row)) == Positions(table)[row.symbol := row.position]
  {
    if table == [] {
      SeededSnoc([], row);
      assert [] + [row] == [row];
    } else {
      var init, last := table[..|table| - 1], table[|table| - 1];
      SeededSnoc(init, last);
      assert init + [last] == table;
      if last.symbol == row.symbol {
        SeededSnoc(init, row);
        Replaced(Positions(init), row.symbol, last.position, row.position);
      } else {
        UpsertKeeps(init, row);
        SeededSnoc(Upsert(init, row), last);
        Swapped(Positions(init), row, last);
      }
    }
  }

  lemma Replaced(ps: map<Symbol, B.Position>, s: Symbol, p: B.Position, q: B.Position)
    ensures ps[s := p][s := q] == ps[s := q]
  {
  }

  lemma Swapped(ps: map<Symbol, B.Position>, r: B.PositionRow, q: B.PositionRow)
    requires r.symbol != q.symbol
    ensures ps[r.symbol := r.position][q.symbol := q.position] == ps[q.symbol := q.position][r.symbol := r.position]
  {
  }

  lemma {:induction false} OneTableRow(rows: seq<B.Row>)
    ensures OneRowPerSymbol(Table(rows))
  {
    if rows != [] {
      var init, last := rows[..|rows| - 1], rows[|rows| - 1];
      OneTableRow(init);
      UpsertOnePer(Table(init), B.PositionRow(last.fill.symbol, last.position));
    }
  }

  lemma TableSnoc(rows: seq<B.Row>, row: B.Row)
    ensures Positions(Table(rows + [row])) == Positions(Table(rows))[row.fill.symbol := row.position]
  {
    assert (rows + [row])[..|rows|] == rows;
    UpsertKeeps(Table(rows), B.PositionRow(row.fill.symbol, row.position));
  }

  /** How many attempts there had been when the last fill of a symbol was accepted; none if none was. */
  function LastAccepted(attempts: seq<L.Attempt>, s: Symbol): (n: nat)
    ensures n <= |attempts|
  {
    if attempts == [] then 0
    else
      var last := attempts[|attempts| - 1];
      if last.stored && last.fill.symbol == s then |attempts| else LastAccepted(attempts[..|attempts| - 1], s)
  }

  /** In every session, whatever was refused, the table holds for each symbol the position as it was when the last
      fill of that symbol was accepted. */
  lemma {:induction false} TableIs(initial: real, attempts: seq<L.Attempt>, s: Symbol)
    requires L.AttemptQuantities(attempts)
    ensures B.PositionOf(Positions(Table(L.SessionAfter(initial, attempts).rows)), s)
         == B.PositionOf(L.SessionAfter(initial, attempts[..LastAccepted(attempts, s)]).positions, s)
  {
    if attempts != [] {
      var init, last := attempts[..|attempts| - 1], attempts[|attempts| - 1];
      var b := L.SessionAfter(initial, init);
      TableIs(initial, init, s);
      assert attempts[..|attempts|] == attempts;
      assert init[..LastAccepted(init, s)] == attempts[..LastAccepted(init, s)];
      if last.stored {
        L.AcceptedIs(b, last.fill);
        var row := L.SessionAfter(initial, attempts).rows[|b.rows|];
        assert L.SessionAfter(initial, attempts).rows == b.rows + [row];
        TableSnoc(b.rows, row);
      }
    }
  }

  /** No refusal since the last accepted fill of the symbol has moved its average entry. */
  ghost predicate EntryKept(initial: real, attempts: seq<L.Attempt>, s: Symbol)
    requires L.AttemptQuantities(attempts)
  {
    attempts == [] ||
    var init, last := attempts[..|attempts| - 1], attempts[|attempts| - 1];
    if last.fill.symbol != s then EntryKept(initial, init, s)
    else
      last.stored ||
      (EntryKept(initial, init, s) && L.KeepsEntry(B.PositionOf(L.SessionAfter(initial, init).positions, s), last.fill))
  }

  lemma {:induction false} KeptSinceAccepted(initial: real, attempts: seq<L.Attempt>, s: Symbol)
    requires L.AttemptQuantities(attempts) && EntryKept(initial, attempts, s)
    ensures B.PositionOf(L.SessionAfter(initial, attempts[..LastAccepted(attempts, s)]).positions, s)
         == B.PositionOf(L.SessionAfter(initial, attempts).positions, s)
  {
    assert attempts[..|attempts|] == attempts;
    if attempts != [] {
      var init, last := attempts[..|attempts| - 1], attempts[|attempts| - 1];
      if !(last.stored && last.fill.symbol == s) {
        KeptSinceAccepted(initial, init, s);
        assert init[..LastAccepted(init, s)] == attempts[..LastAccepted(init, s)];
        var b := L.SessionAfter(initial, init);
        if last.stored {
          L.AcceptedIs(b, last.fill);
        } else {
          L.RollbackIff(b, last.fill);
        }
      }
    }
  }

  /** The round trip of a session through the store.  Seeding a blotter with the persisted table restores the net
      quantity of every symbol, and the whole position of every symbol whose entry no refusal has moved since. */
  lemma RecoveryRestores(initial: real, attempts: seq<L.Attempt>, s: Symbol)
    requires L.AttemptQuantities(attempts)
    ensures var b := L.SessionAfter(initial, attempts);
            var recovered := B.PositionOf(Positions(Table(b.rows)), s);
            && recovered.netQty == B.PositionOf(b.positions, s).netQty
            && (EntryKept(initial, attempts, s) ==> recovered == B.PositionOf(b.positions, s))
  {
    TableIs(initial, attempts, s);
    NetSinceAccepted(initial, attempts, s);
    if EntryKept(initial, attempts, s) {
      KeptSinceAccepted(initial, attempts, s);
    }
  }

  lemma {:induction false} NetSinceAccepted(initial: real, attempts: seq<L.Attempt>, s: Symbol)
    requires L.AttemptQuantities(attempts)
    ensures B.PositionOf(L.SessionAfter(initial, attempts[..LastAccepted(attempts, s)]).positions, s).netQty
         == B.PositionOf(L.SessionAfter(initial, attempts).positions, s).netQty
  {
    assert attempts[..|attempts|] == attempts;
    if attempts != [] {
      var init, last := attempts[..|attempts| - 1], attempts[|attempts| - 1];
      if !(last.stored && last.fill.symbol == s) {
        NetSinceAccepted(initial, init, s);
        assert init[..LastAccepted(init, s)] == attempts[..LastAccepted(init, s)];
        L.AttemptQuantity(L.SessionAfter(initial, init), last.fill, last.stored, s);
      }
    }
  }

  /** The last seeded row of a symbol wins. */
  lemma {:induction false} SeededLast(ps: map<Symbol, B.Position>, rows: seq<B.PositionRow>, i: nat)
    requires i < |rows| && forall j | i < j < |rows| :: rows[j].symbol != rows[i].symbol
    ensures rows[i].symbol in B.Seeded(ps, rows) && B.Seeded(ps, rows)[rows[i].symbol] == rows[i].position
  {
    if i < |rows| - 1 {
      SeededLast(ps, rows[..|rows| - 1], i);
      assert rows[|rows| - 1].symbol != rows[i].symbol;
    }
  }

  /** And a symbol without a row keeps what it had. */
  lemma {:induction false} SeededElse(ps: map<Symbol, B.Position>, rows: seq<B.PositionRow>, s: Symbol)
    requires forall i | 0 <= i < |rows| :: rows[i].symbol != s
    ensures s in B.Seeded(ps, rows) <==> s in ps
    ensures s in ps ==> B.Seeded(ps, rows)[s] == ps[s]
  {
    if rows != [] {
      SeededElse(ps, rows[..|rows| - 1], s);
      assert rows[|rows| - 1].symbol != s;
    }
  }
}
