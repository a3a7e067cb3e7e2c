/**
 The treasury ledger against the chain: rows of a table, the transactions they name, and
 the identity accrued - recorded == held.
 */
module Ledger {
  import opened Amounts
  import opened Options
  import opened Treasury

  const TREASURY := "WdMMqW1DcgWZ6HtyJuEMdce6QkKg4raGmE"

  /** An output: where it pays, if it has an address at all, and how much. */
  datatype TxOut = TxOut(address: Option<string>, value: nat)

  /** `spent` is what its treasury inputs add up to: zero for a stranger's transaction. */
  datatype Tx = Tx(spent: nat, vouts: seq<TxOut>, fee: nat)

  /**
   A transaction the node knows: what consensus owes the treasury from it, which only a
   coinbase does, and whether it is mined by the scanned tip or still waiting.
   */
  datatype Entry = Entry(txid: string, tx: Tx, due: nat, mined: bool)

  datatype Row = Row(txid: string, amount: nat, fee: nat, to: string)

  datatype Fault = Missing | WrongAmount | WrongFee | Stray

  datatype Finding = Finding(row: Row, fault: Fault)

  // ------------------------------------------------------------------ reading a transaction

  function PaidTo(vouts: seq<TxOut>, to: Option<string>): nat {
    if vouts == [] then 0
    else (if vouts[0].address == to then vouts[0].value else 0) + PaidTo(vouts[1..], to)
  }

  function Total(vouts: seq<TxOut>): nat {
    if vouts == [] then 0 else vouts[0].value + Total(vouts[1..])
  }

  function Lookup(log: seq<Entry>, txid: string): Option<Entry> {
    if log == [] then None
    else if log[|log| - 1].txid == txid then Some(log[|log| - 1])
    else Lookup(log[..|log| - 1], txid)
  }

  /** An output that pays neither the row's address nor the treasury. Address-less outputs are let pass. */
  predicate HasStray(vouts: seq<TxOut>, to: string) {
    exists i :: 0 <= i < |vouts| && vouts[i].address !in {Some(to), Some(TREASURY), None}
  }

  /** What is wrong with one row, in the order it is reported. */
  function RowFaults(log: seq<Entry>, row: Row): seq<Finding> {
    match Lookup(log, row.txid)
    case None => [Finding(row, Missing)]
    case Some(e) =>
      var tx := e.tx;
      (if PaidTo(tx.vouts, Some(row.to)) != row.amount then [Finding(row, WrongAmount)] else [])
      + (if tx.fee != row.fee then [Finding(row, WrongFee)] else [])
      + (if HasStray(tx.vouts, row.to) then [Finding(row, Stray)] else [])
  }

  /** What a row takes off the expected balance: its amount and the fee the chain gives. */
  function RowTotal(log: seq<Entry>, row: Row): nat {
    match Lookup(log, row.txid)
    case None => 0
    case Some(e) => row.amount + e.tx.fee
  }

  function AllFaults(log: seq<Entry>, rows: seq<Row>): seq<Finding> {
    if rows == [] then []
    else AllFaults(log, rows[..|rows| - 1]) + RowFaults(log, rows[|rows| - 1])
  }

  function Recorded(log: seq<Entry>, rows: seq<Row>): nat {
    if rows == [] then 0
    else Recorded(log, rows[..|rows| - 1]) + RowTotal(log, rows[|rows| - 1])
  }

  /** The verdict: the faulty rows, and whether the identity holds. */
  datatype Verdict = Verdict(faults: seq<Finding>, identity: bool)

  /** The checking loop as it runs, accumulating the faults and what was spent. */
  method CheckLedger(log: seq<Entry>, rows: seq<Row>, tip: nat, k: Constants, held: int) returns (v: Verdict)
    requires k.interval >= 1
    ensures v.faults == AllFaults(log, rows)
    ensures v.identity <==> Accrued(tip, k) - Recorded(log, rows) == held
  {
    hide Lookup, PaidTo, HasStray, Accrued;
    var faults: seq<Finding> := [];
    var spent := 0;
    for i := 0 to |rows|
      invariant faults == AllFaults(log, rows[..i]) && spent == Recorded(log, rows[..i])
    {
      var row := rows[i];
      assert rows[..i + 1][..i] == rows[..i];
      var found := Lookup(log, row.txid);
      if found.None? {
        faults := faults + [Finding(row, Missing)];
        continue;
      }
      var tx := found.value.tx;
      var here: seq<Finding> := [];
      if PaidTo(tx.vouts, Some(row.to)) != row.amount {
        here := here + [Finding(row, WrongAmount)];
      }
      if tx.fee != row.fee {
        here := here + [Finding(row, WrongFee)];
      }
      if HasStray(tx.vouts, row.to) {
        here := here + [Finding(row, Stray)];
      }
      assert here == RowFaults(log, row);
      faults := faults + here;
      spent := spent + row.amount + tx.fee;
    }
    assert rows[..|rows|] == rows;
    var accrued, _ := AccruedThrough(tip, k);
    v := Verdict(faults, accrued - spent == held);
  }

  // ------------------------------------------------------------------ what the checks say of a row

  /** The reasons for a finding, for a row whose transaction `e` is: nothing else is ever found. */
  lemma FaultsOfRow(log: seq<Entry>, row: Row, f: Finding)
    ensures f in RowFaults(log, row) ==> f.row == row
    ensures Lookup(log, row.txid).None? ==> (Finding(row, f.fault) in RowFaults(log, row) <==> f.fault == Missing)
    ensures Lookup(log, row.txid).Some? ==>
              var tx := Lookup(log, row.txid).value.tx;
              Finding(row, f.fault) in RowFaults(log, row) <==>
                match f.fault
                case Missing => false
                case WrongAmount => PaidTo(tx.vouts, Some(row.to)) != row.amount
                case WrongFee => tx.fee != row.fee
                case Stray => exists i :: 0 <= i < |tx.vouts| && tx.vouts[i].address.Some?
                                          && tx.vouts[i].address != Some(row.to)
                                          && tx.vouts[i].address != Some(TREASURY)
  {
    hide Lookup, PaidTo, HasStray;
    if Lookup(log, row.txid).Some? { StrayIs(Lookup(log, row.txid).value.tx.vouts, row.to); }
    Parts(log, row, Finding(row, f.fault));
    Parts(log, row, f);
    hide RowFaults;
  }

  lemma Parts(log: seq<Entry>, row: Row, f: Finding)
    ensures Lookup(log, row.txid).None? ==> (f in RowFaults(log, row) <==> f == Finding(row, Missing))
    ensures Lookup(log, row.txid).Some? ==>
              var tx := Lookup(log, row.txid).value.tx;
              f in RowFaults(log, row) <==>
                && f.row == row && !f.fault.Missing?
                && (f.fault.WrongAmount? ==> PaidTo(tx.vouts, Some(row.to)) != row.amount)
                && (f.fault.WrongFee? ==> tx.fee != row.fee)
                && (f.fault.Stray? ==> HasStray(tx.vouts, row.to))
  {
    hide Lookup, PaidTo, HasStray;
  }

  lemma StrayIs(vouts: seq<TxOut>, to: string)
    ensures HasStray(vouts, to) <==>
              exists i :: 0 <= i < |vouts| && vouts[i].address.Some?
                          && vouts[i].address != Some(to) && vouts[i].address != Some(TREASURY)
  {}

  /** The faults of a row come in one order, none twice. */
  lemma FaultsInOrder(log: seq<Entry>, row: Row, i: nat, j: nat)
    requires i < j < |RowFaults(log, row)|
    ensures RowFaults(log, row)[i].fault.WrongAmount? || RowFaults(log, row)[j].fault.Stray?
    ensures RowFaults(log, row)[i].fault != RowFaults(log, row)[j].fault
  {
    hide Lookup, PaidTo, HasStray;
  }

  /** The findings of a table are those of its rows one after the other. */
  lemma {:induction false} FaultsByRow(log: seq<Entry>, rows: seq<Row>) returns (cuts: seq<nat>)
    ensures |cuts| == |rows| + 1 && cuts[0] == 0 && cuts[|rows|] == |AllFaults(log, rows)|
    ensures forall i :: 0 <= i < |rows| ==> CutOut(AllFaults(log, rows), cuts, i, RowFaults(log, rows[i]))
  {
    hide RowFaults;
    if rows == [] {
      cuts := [0];
    } else {
      var n := |rows| - 1;
      cuts := FaultsByRow(log, rows[..n]);
      forall i | 0 <= i < n ensures CutOut(AllFaults(log, rows[..n]), cuts, i, RowFaults(log, rows[i])) {
        assert rows[..n][i] == rows[i];
      }
      cuts := cuts + [|AllFaults(log, rows)|];
    }
  }

  predicate CutOut(all: seq<Finding>, cuts: seq<nat>, i: nat, part: seq<Finding>)
    requires i + 1 < |cuts|
  {
    cuts[i] <= cuts[i + 1] <= |all| && all[cuts[i]..cuts[i + 1]] == part
  }

  lemma {:induction false} RecordedSplit(log: seq<Entry>, rows: seq<Row>, more: seq<Row>)
    ensures Recorded(log, rows + more) == Recorded(log, rows) + Recorded(log, more)
  {
    hide RowTotal;
    if more == [] {
      assert rows + more == rows;
    } else {
      var n := |more| - 1;
      RecordedSplit(log, rows, more[..n]);
      assert (rows + more)[..|rows| + n] == rows + more[..n];
    }
  }

  /**
   What a row brings into the identity, anywhere in the table: its own amount and the fee
   of the chain, whatever fee and recipient it states and whether or not it has faults; a
   row whose transaction is not there brings nothing.
   */
  lemma RowCounts(log: seq<Entry>, before: seq<Row>, row: Row, after: seq<Row>)
    ensures Recorded(log, before + [row] + after) == Recorded(log, before + after)
              + match Lookup(log, row.txid)
                case None => 0
                case Some(e) => row.amount + e.tx.fee
  {
    RecordedSplit(log, before, after);
    RecordedSplit(log, before + [row], after);
    RecordedSplit(log, before, [row]);
    assert [row][..0] == [];
    assert Recorded(log, [row]) == Recorded(log, []) + RowTotal(log, row);
  }

  // ------------------------------------------------------------------ the chain

  /** A block with its coinbase, a transaction mined, broadcast, or dropped unmined, or a row written in the table. */
  datatype Event =
    | Block(txid: string, coinbase: Tx)
    | Mine(txid: string, tx: Tx)
    | Broadcast(txid: string, tx: Tx)
    | Forget(txid: string)
    | Record(row: Row)

  datatype State = State(height: nat, held: int, log: seq<Entry>, rows: seq<Row>)

  /** The transaction is new, or the very one that was waiting. */
  predicate Fresh(log: seq<Entry>, txid: string, tx: Tx) {
    var e := Lookup(log, txid);
    e.None? || (!e.value.mined && e.value.tx == tx)
  }

  /** Treasury inputs are held, and outputs and fee account for every treasury input: others may pay in as well. */
  predicate Spendable(s: State, tx: Tx) { tx.spent <= s.held && tx.spent <= Total(tx.vouts) + tx.fee }

  /** Consensus sets a floor for what a coinbase pays the treasury, and no ceiling. */
  predicate Pays(coinbase: Tx, due: nat) { coinbase.spent == 0 && PaidTo(coinbase.vouts, Some(TREASURY)) >= due }

  /** The log without a waiting transaction. */
  function Without(log: seq<Entry>, txid: string): seq<Entry> {
    if log == [] then []
    else
      var e := log[|log| - 1];
      Without(log[..|log| - 1], txid) + if e.txid == txid && !e.mined then [] else [e]
  }

  /** An event the chain or the node would not accept changes nothing. */
  function Apply(s: State, e: Event, k: Constants): State
    requires k.interval >= 1
  {
    match e
    case Block(txid, tx) =>
      var due := TreasuryAt(s.height + 1, k);
      if Lookup(s.log, txid).None? && Pays(tx, due)
      then State(s.height + 1, s.held + PaidTo(tx.vouts, Some(TREASURY)), s.log + [Entry(txid, tx, due, true)], s.rows)
      else s
    case Mine(txid, tx) =>
      if Fresh(s.log, txid, tx) && Spendable(s, tx)
      then s.(held := s.held - tx.spent + PaidTo(tx.vouts, Some(TREASURY)),
              log := Without(s.log, txid) + [Entry(txid, tx, 0, true)])
      else s
    case Broadcast(txid, tx) =>
      if Lookup(s.log, txid).None? then s.(log := s.log + [Entry(txid, tx, 0, false)]) else s
    case Forget(txid) => s.(log := Without(s.log, txid))
    case Record(row) => s.(rows := s.rows + [row])
  }

  function Run(events: seq<Event>, k: Constants): State
    requires k.interval >= 1
  {
    if events == [] then State(0, 0, [], [])
    else Apply(Run(events[..|events| - 1], k), events[|events| - 1], k)
  }

  /**
   What a transaction takes out of the treasury: the change comes back, and what a coinbase
   owes has accrued. It is negative when it brings something in, and nothing until mined.
   */
  function Outflow(e: Entry): int {
    if e.mined then e.tx.spent + e.due - PaidTo(e.tx.vouts, Some(TREASURY)) else 0
  }

  function TotalOutflow(log: seq<Entry>): int {
    if log == [] then 0 else TotalOutflow(log[..|log| - 1]) + Outflow(log[|log| - 1])
  }

  /** No two transactions share a name. */
  predicate WellFormed(log: seq<Entry>) {
    forall i, j :: 0 <= i < j < |log| ==> log[i].txid != log[j].txid
  }

  lemma {:induction false} WithoutKeeps(log: seq<Entry>, txid: string)
    ensures TotalOutflow(Without(log, txid)) == TotalOutflow(log)
  {
    hide Outflow;
    if log != [] {
      var n := |log| - 1;
      WithoutKeeps(log[..n], txid);
      var rest := Without(log[..n], txid);
      if log[n].txid == txid && !log[n].mined {
        WaitingIsNothing(log[n]);
        assert Without(log, txid) == rest;
      } else {
        assert (rest + [log[n]])[..|rest|] == rest;
      }
    }
  }

  lemma {:induction false} WithoutHas(log: seq<Entry>, txid: string, e: Entry)
    ensures e in Without(log, txid) <==> e in log && (e.txid != txid || e.mined)
  {
    if log != [] {
      var n := |log| - 1;
      WithoutHas(log[..n], txid, e);
      assert e in log <==> e in log[..n] || e == log[n];
    }
  }

  lemma WaitingIsNothing(e: Entry)
    ensures !e.mined ==> Outflow(e) == 0
  {}

  lemma {:induction false} WithoutStaysDistinct(log: seq<Entry>, txid: string)
    requires WellFormed(log)
    ensures WellFormed(Without(log, txid))
  {
    if log != [] {
      var n := |log| - 1;
      WithoutStaysDistinct(log[..n], txid);
      var rest := Without(log[..n], txid);
      forall i | 0 <= i < |rest| ensures rest[i].txid != log[n].txid {
        assert rest[i] in rest;
        WithoutHas(log[..n], txid, rest[i]);
        var j :| 0 <= j < n && log[..n][j] == rest[i];
        assert log[j].txid != log[n].txid;
      }
    }
  }

  /** What the chain holds is what accrued less what left. */
  predicate Balanced(s: State, k: Constants)
    requires k.interval >= 1
  {
    s.held == Accrued(s.height, k) - TotalOutflow(s.log) && WellFormed(s.log)
  }

  lemma AppendEntry(log: seq<Entry>, e: Entry)
    requires WellFormed(log) && forall x :: x in log ==> x.txid != e.txid
    ensures WellFormed(log + [e]) && TotalOutflow(log + [e]) == TotalOutflow(log) + Outflow(e)
  {
    assert (log + [e])[..|log|] == log;
    forall i | 0 <= i < |log| ensures log[i].txid != e.txid { assert log[i] in log; }
  }

  lemma MineBalances(s: State, txid: string, tx: Tx, k: Constants)
    requires k.interval >= 1 && Balanced(s, k) && Fresh(s.log, txid, tx)
    ensures var log := Without(s.log, txid) + [Entry(txid, tx, 0, true)];
            WellFormed(log) && TotalOutflow(log) == TotalOutflow(s.log) + Outflow(Entry(txid, tx, 0, true))
  {
    var rest := Without(s.log, txid);
    WithoutKeeps(s.log, txid);
    WithoutStaysDistinct(s.log, txid);
    forall x | x in rest ensures x.txid != txid {
      WithoutHas(s.log, txid, x);
      if x.txid == txid { OnlyOne(s.log, x); }
    }
    AppendEntry(rest, Entry(txid, tx, 0, true));
  }

  /** The entry a name finds is the only one of that name. */
  lemma {:induction false} OnlyOne(log: seq<Entry>, e: Entry)
    requires WellFormed(log) && e in log
    ensures Lookup(log, e.txid) == Some(e)
  {
    var n := |log| - 1;
    if log[n] != e {
      assert log == log[..n] + [log[n]];
      OnlyOne(log[..n], e);
      var i :| 0 <= i < |log| && log[i] == e;
    }
  }

  lemma StepBalances(s: State, e: Event, k: Constants)
    requires k.interval >= 1 && Balanced(s, k)
    ensures Balanced(Apply(s, e, k), k)
  {
    hide Lookup, Without, TreasuryAt, TotalOutflow, PaidTo, Total, WellFormed;
    if e.Mine? {
      if Fresh(s.log, e.txid, e.tx) { MineBalances(s, e.txid, e.tx, k); }
    } else if e.Forget? {
      WithoutKeeps(s.log, e.txid);
      WithoutStaysDistinct(s.log, e.txid);
    } else if e.Block? && Lookup(s.log, e.txid).None? {
      LookupNone(s.log, e.txid);
      AppendEntry(s.log, Entry(e.txid, e.coinbase, TreasuryAt(s.height + 1, k), true));
    } else if e.Broadcast? && Lookup(s.log, e.txid).None? {
      LookupNone(s.log, e.txid);
      AppendEntry(s.log, Entry(e.txid, e.tx, 0, false));
    }
  }

  /** Over every run the books balance. */
  lemma {:induction false} RunBalances(events: seq<Event>, k: Constants)
    requires k.interval >= 1
    ensures Balanced(Run(events, k), k)
  {
    if events != [] {
      RunBalances(events[..|events| - 1], k);
      StepBalances(Run(events[..|events| - 1], k), events[|events| - 1], k);
    }
  }

  // ------------------------------------------------------------------ what a good row records

  lemma {:induction false} NoStraySplits(vouts: seq<TxOut>, to: string)
    requires !HasStray(vouts, to) && to != TREASURY
    ensures Total(vouts) == PaidTo(vouts, Some(to)) + PaidTo(vouts, Some(TREASURY)) + PaidTo(vouts, None)
  {
    if vouts != [] {
      assert vouts[0].address in {Some(to), Some(TREASURY), None};
      forall i | 0 <= i < |vouts[1..]| ensures vouts[1..][i].address in {Some(to), Some(TREASURY), None} {
        assert vouts[1..][i] == vouts[i + 1];
      }
      NoStraySplits(vouts[1..], to);
    }
  }

  lemma {:induction false} OnlyTreasury(vouts: seq<TxOut>)
    requires !HasStray(vouts, TREASURY)
    ensures Total(vouts) == PaidTo(vouts, Some(TREASURY)) + PaidTo(vouts, None)
  {
    if vouts != [] {
      assert vouts[0].address in {Some(TREASURY), None};
      forall i | 0 <= i < |vouts[1..]| ensures vouts[1..][i].address in {Some(TREASURY), None} {
        assert vouts[1..][i] == vouts[i + 1];
      }
      OnlyTreasury(vouts[1..]);
    }
  }

  /** What a transaction got from elsewhere than the treasury: other people's inputs, or new coins. */
  function Elsewhere(e: Entry): int { Total(e.tx.vouts) + e.tx.fee - e.tx.spent - e.due }

  /**
   A row with no fault that names a mined treasury spend to somebody else records exactly
   what that spend took out, and what it got from elsewhere, less anything it left in an
   output without an address.
   */
  lemma GoodRowRecords(log: seq<Entry>, row: Row)
    requires RowFaults(log, row) == [] && row.to != TREASURY
    requires var e := Lookup(log, row.txid); e.Some? && e.value.mined && e.value.tx.spent > 0
    ensures var e := Lookup(log, row.txid).value;
            RowTotal(log, row) == Outflow(e) + Elsewhere(e) - PaidTo(e.tx.vouts, None)
  {
    NoStraySplits(Lookup(log, row.txid).value.tx.vouts, row.to);
  }

  // ------------------------------------------------------------------ what the identity proves

  function Named(rows: seq<Row>): set<string> { set i | 0 <= i < |rows| :: rows[i].txid }

  /** What left in transactions no row names, less what came in by them. */
  function Unrecorded(log: seq<Entry>, named: set<string>): int {
    if log == [] then 0
    else
      var e := log[|log| - 1];
      Unrecorded(log[..|log| - 1], named) + if e.txid in named then 0 else Outflow(e)
  }

  /** What the rows count again, naming a transaction an earlier row already named. */
  function Repeated(log: seq<Entry>, rows: seq<Row>): int {
    if rows == [] then 0
    else
      var n := |rows| - 1;
      Repeated(log, rows[..n]) + if rows[n].txid in Named(rows[..n]) then RowTotal(log, rows[n]) else 0
  }

  /** What the first row to name a transaction records beyond what that transaction took out. */
  function Overstated(log: seq<Entry>, rows: seq<Row>): int {
    if rows == [] then 0
    else
      var n := |rows| - 1;
      var e := Lookup(log, rows[n].txid);
      Overstated(log, rows[..n])
      + if rows[n].txid !in Named(rows[..n]) && e.Some? then RowTotal(log, rows[n]) - Outflow(e.value) else 0
  }

  lemma {:induction false} NamingOneMore(log: seq<Entry>, named: set<string>, txid: string)
    requires WellFormed(log) && txid !in named && Lookup(log, txid).Some?
    ensures Unrecorded(log, named + {txid}) == Unrecorded(log, named) - Outflow(Lookup(log, txid).value)
  {
    var n := |log| - 1;
    if log[n].txid == txid {
      NamingNothing(log[..n], named, txid);
    } else {
      NamingOneMore(log[..n], named, txid);
    }
  }

  lemma {:induction false} NamingNothing(log: seq<Entry>, named: set<string>, txid: string)
    requires forall i :: 0 <= i < |log| ==> log[i].txid != txid
    ensures Unrecorded(log, named + {txid}) == Unrecorded(log, named)
  {
    if log != [] { NamingNothing(log[..|log| - 1], named, txid); }
  }

  lemma {:induction false} NamedNone(log: seq<Entry>)
    ensures Unrecorded(log, {}) == TotalOutflow(log)
  {
    if log != [] { NamedNone(log[..|log| - 1]); }
  }

  lemma {:induction false} LookupNone(log: seq<Entry>, txid: string)
    requires Lookup(log, txid).None?
    ensures forall i :: 0 <= i < |log| ==> log[i].txid != txid
  {
    if log != [] {
      LookupNone(log[..|log| - 1], txid);
      forall i | 0 <= i < |log| ensures log[i].txid != txid {
        if i < |log| - 1 { assert log[..|log| - 1][i] == log[i]; }
      }
    }
  }

  /** What left and was not recorded, whatever the rows say: missing, less counted again, less overstated. */
  lemma {:induction false} RecordedSplits(log: seq<Entry>, rows: seq<Row>)
    requires WellFormed(log)
    ensures TotalOutflow(log) - Recorded(log, rows)
         == Unrecorded(log, Named(rows)) - Repeated(log, rows) - Overstated(log, rows)
  {
    if rows == [] {
      NamedNone(log);
      assert Named(rows) == {};
    } else {
      var n := |rows| - 1;
      var txid := rows[n].txid;
      RecordedSplits(log, rows[..n]);
      NamedGrows(rows);
      if txid in Named(rows[..n]) {
        assert Named(rows[..n]) + {txid} == Named(rows[..n]);
      } else if Lookup(log, txid).Some? {
        NamingOneMore(log, Named(rows[..n]), txid);
      } else {
        LookupNone(log, txid);
        NamingNothing(log, Named(rows[..n]), txid);
      }
    }
  }

  lemma NamedGrows(rows: seq<Row>)
    requires rows != []
    ensures Named(rows) == Named(rows[..|rows| - 1]) + {rows[|rows| - 1].txid}
  {
    var n := |rows| - 1;
    forall t | t in Named(rows) ensures t in Named(rows[..n]) + {rows[n].txid} {
      var i :| 0 <= i < |rows| && rows[i].txid == t;
      if i < n { assert rows[..n][i].txid == t; }
    }
    forall t | t in Named(rows[..n]) + {rows[n].txid} ensures t in Named(rows) {
      if t in Named(rows[..n]) {
        var i :| 0 <= i < n && rows[..n][i].txid == t;
        assert rows[i].txid == t;
      } else {
        assert rows[n].txid == t;
      }
    }
  }

  /**
   Conservation. Over every run, whoever pays in and whatever the rows say: accrued -
   recorded - held is the net of what left without a row, less what rows count again, less
   what they overstate.
   */
  lemma Conservation(events: seq<Event>, k: Constants)
    requires k.interval >= 1
    ensures var s := Run(events, k);
            Accrued(s.height, k) - Recorded(s.log, s.rows) - s.held
              == Unrecorded(s.log, Named(s.rows)) - Repeated(s.log, s.rows) - Overstated(s.log, s.rows)
  {
    RunBalances(events, k);
    RecordedSplits(Run(events, k).log, Run(events, k).rows);
  }

  predicate Identity(s: State, k: Constants)
    requires k.interval >= 1
  {
    Accrued(s.height, k) - Recorded(s.log, s.rows) == s.held
  }

  /** What the rows take off the expected balance beyond the spends they name. */
  function Surplus(s: State): int { Repeated(s.log, s.rows) + Overstated(s.log, s.rows) }

  /** The identity holds exactly when what is missing from the table equals what the rows take off too much. */
  lemma IdentityExactly(events: seq<Event>, k: Constants)
    requires k.interval >= 1
    ensures var s := Run(events, k);
            Identity(s, k) <==> Unrecorded(s.log, Named(s.rows)) == Surplus(s)
  {
    Conservation(events, k);
  }

  predicate NoTxidTwice(rows: seq<Row>) {
    forall i, j :: 0 <= i < j < |rows| ==> rows[i].txid != rows[j].txid
  }

  lemma {:induction false} NothingRepeated(log: seq<Entry>, rows: seq<Row>)
    requires NoTxidTwice(rows)
    ensures Repeated(log, rows) == 0
  {
    if rows != [] {
      var n := |rows| - 1;
      NothingRepeated(log, rows[..n]);
      assert forall i :: 0 <= i < n ==> rows[..n][i].txid != rows[n].txid;
    }
  }

  /** Every transaction that took something out has a row. */
  predicate Complete(log: seq<Entry>, named: set<string>) {
    forall i :: 0 <= i < |log| && Outflow(log[i]) > 0 ==> log[i].txid in named
  }

  /** What came in by transactions no row names: gifts to a public address, coinbases that pay above the floor. */
  function Inflow(log: seq<Entry>, named: set<string>): nat {
    if log == [] then 0
    else
      var e := log[|log| - 1];
      Inflow(log[..|log| - 1], named) + if e.txid !in named && Outflow(e) < 0 then 0 - Outflow(e) else 0
  }

  /** Something is missing exactly when more left unnamed than the balance of it shows. */
  lemma {:induction false} NothingMissing(log: seq<Entry>, named: set<string>)
    ensures Unrecorded(log, named) + Inflow(log, named) >= 0
    ensures Unrecorded(log, named) + Inflow(log, named) == 0 <==> Complete(log, named)
  {
    hide Outflow;
    if log != [] {
      var n := |log| - 1;
      NothingMissing(log[..n], named);
      if Complete(log[..n], named) && (Outflow(log[n]) > 0 ==> log[n].txid in named) {
        forall i | 0 <= i < |log| && Outflow(log[i]) > 0 ensures log[i].txid in named {
          if i < n { assert log[..n][i] == log[i]; }
        }
      }
      if Complete(log, named) {
        forall i | 0 <= i < n && Outflow(log[..n][i]) > 0 ensures log[..n][i].txid in named {
          assert log[..n][i] == log[i];
        }
      }
    }
  }

  /**
   "The identity cannot hold with a spend missing from the table": when it holds, nothing
   is missing exactly when nothing was taken off too much and nothing came in unnamed; and
   where that is so, it holds exactly when nothing is missing.
   */
  lemma IdentityFindsMissingRow(events: seq<Event>, k: Constants)
    requires k.interval >= 1
    ensures var s := Run(events, k);
            Identity(s, k) ==>
              (Complete(s.log, Named(s.rows)) <==> Surplus(s) + Inflow(s.log, Named(s.rows)) == 0)
    ensures var s := Run(events, k);
            Surplus(s) + Inflow(s.log, Named(s.rows)) == 0 ==> (Identity(s, k) <==> Complete(s.log, Named(s.rows)))
  {
    var s := Run(events, k);
    IdentityExactly(events, k);
    NothingMissing(s.log, Named(s.rows));
  }

  /** Rows that each record their own spend to the atom take off nothing too much. */
  lemma {:induction false} MatchingRowsHaveNoSurplus(log: seq<Entry>, rows: seq<Row>)
    requires NoTxidTwice(rows)
    requires forall i :: 0 <= i < |rows| ==> Matches(log, rows[i])
    ensures Repeated(log, rows) + Overstated(log, rows) == 0
  {
    if rows != [] {
      var n := |rows| - 1;
      assert forall i :: 0 <= i < n ==> rows[..n][i] == rows[i];
      MatchingRowsHaveNoSurplus(log, rows[..n]);
      assert Matches(log, rows[n]);
      NothingRepeated(log, rows);
      NothingRepeated(log, rows[..n]);
    }
  }

  /** A row that records its spend to the atom. */
  predicate Matches(log: seq<Entry>, row: Row) {
    var e := Lookup(log, row.txid);
    e.Some? && RowTotal(log, row) == Outflow(e.value)
  }

  /** A row names a mined transaction to somebody else, paid by the treasury alone, every output with an address. */
  predicate NamesSpend(log: seq<Entry>, row: Row) {
    && row.to != TREASURY
    && var e := Lookup(log, row.txid);
       e.Some? && e.value.mined && Elsewhere(e.value) == 0 && PaidTo(e.value.tx.vouts, None) == 0
  }

  /**
   What a row without a fault takes off too much. The checks never look at the inputs, nor
   whether the transaction is mined: a row may name one still waiting, one paid by others
   in part or in whole, a coinbase, or a treasury spend back to the treasury.
   */
  function Excess(row: Row, e: Entry): int {
    if !e.mined then row.amount + row.fee
    else Elsewhere(e) - PaidTo(e.tx.vouts, None) + if row.to == TREASURY then row.amount else 0
  }

  lemma CleanRowExcess(log: seq<Entry>, row: Row)
    requires RowFaults(log, row) == [] && Lookup(log, row.txid).Some?
    ensures var e := Lookup(log, row.txid).value; RowTotal(log, row) - Outflow(e) == Excess(row, e)
  {
    var vouts := Lookup(log, row.txid).value.tx.vouts;
    if row.to == TREASURY { OnlyTreasury(vouts); } else { NoStraySplits(vouts, row.to); }
  }

  /** The excess of the first row to name each transaction. */
  function Misnamed(log: seq<Entry>, rows: seq<Row>): int {
    if rows == [] then 0
    else
      var n := |rows| - 1;
      var e := Lookup(log, rows[n].txid);
      Misnamed(log, rows[..n])
      + if rows[n].txid !in Named(rows[..n]) && e.Some? then Excess(rows[n], e.value) else 0
  }

  lemma {:induction false} CleanOverstated(log: seq<Entry>, rows: seq<Row>)
    requires AllFaults(log, rows) == []
    ensures Overstated(log, rows) == Misnamed(log, rows)
  {
    hide RowFaults, Excess, RowTotal, Outflow;
    if rows != [] {
      var n := |rows| - 1;
      CleanOverstated(log, rows[..n]);
      if Lookup(log, rows[n].txid).Some? { CleanRowExcess(log, rows[n]); }
    }
  }

  lemma {:induction false} SpendsNameRight(log: seq<Entry>, rows: seq<Row>)
    requires forall i :: 0 <= i < |rows| ==> NamesSpend(log, rows[i])
    ensures Misnamed(log, rows) == 0
  {
    if rows != [] {
      var n := |rows| - 1;
      assert forall i :: 0 <= i < n ==> rows[..n][i] == rows[i];
      SpendsNameRight(log, rows[..n]);
      assert NamesSpend(log, rows[n]);
    }
  }

  /**
   In the checker's own terms. With no fault in any row and the identity holding, nothing
   is missing exactly when repeats, misnamed transactions and unnamed inflow come to
   nothing. So for a table that names treasury spends, none of them twice, and a treasury
   nobody pays into, a clean verdict is given exactly when no spend is missing from it.
   */
  lemma CleanVerdictMeansComplete(events: seq<Event>, k: Constants)
    requires k.interval >= 1
    requires var s := Run(events, k); AllFaults(s.log, s.rows) == []
    ensures var s := Run(events, k);
            Identity(s, k) ==>
              (Complete(s.log, Named(s.rows)) <==>
               Repeated(s.log, s.rows) + Misnamed(s.log, s.rows) + Inflow(s.log, Named(s.rows)) == 0)
    ensures var s := Run(events, k);
            NoTxidTwice(s.rows) && (forall i :: 0 <= i < |s.rows| ==> NamesSpend(s.log, s.rows[i])) ==>
              && (Identity(s, k) ==> (Complete(s.log, Named(s.rows)) <==> Inflow(s.log, Named(s.rows)) == 0))
              && (Inflow(s.log, Named(s.rows)) == 0 ==> (Identity(s, k) <==> Complete(s.log, Named(s.rows))))
  {
    var s := Run(events, k);
    CleanOverstated(s.log, s.rows);
    IdentityFindsMissingRow(events, k);
    if NoTxidTwice(s.rows) && forall i :: 0 <= i < |s.rows| ==> NamesSpend(s.log, s.rows[i]) {
      NothingRepeated(s.log, s.rows);
      SpendsNameRight(s.log, s.rows);
    }
  }

  // ------------------------------------------------------------------ how a spend goes missing

  /** The first block: its coinbase pays the treasury its 2.5 WAM. */
  function Reward(): Tx { Tx(0, [TxOut(Some(TREASURY), 250_000_000)], 0) }

  /** One WAM to somebody, nothing back: from the treasury, from a stranger, from a stranger to the treasury. */
  function OneWam(to: string): Tx { Tx(COIN, [TxOut(Some(to), COIN)], 0) }

  function StrangerPays(to: string): Tx { Tx(0, [TxOut(Some(to), COIN)], 0) }

  function Gift(): Tx { Tx(0, [TxOut(Some(TREASURY), COIN)], 0) }

  lemma OneOutput(to: string, value: nat)
    ensures var vouts := [TxOut(Some(to), value)];
            && Total(vouts) == PaidTo(vouts, Some(to)) == value
            && (to != TREASURY ==> PaidTo(vouts, Some(TREASURY)) == 0)
            && !HasStray(vouts, to)
  {
    assert [TxOut(Some(to), value)][1..] == [];
  }

  lemma RunOneMore(events: seq<Event>, e: Event, k: Constants)
    requires k.interval >= 1
    ensures Run(events + [e], k) == Apply(Run(events, k), e, k)
  {
    assert (events + [e])[..|events|] == events;
  }

  lemma {:induction false} WithoutFresh(log: seq<Entry>, txid: string)
    requires Lookup(log, txid).None?
    ensures Without(log, txid) == log
  {
    if log != [] { WithoutFresh(log[..|log| - 1], txid); }
  }

  lemma FirstBlock(block: seq<Event>, base: string)
    requires block == [Block(base, Reward())]
    ensures Run(block, MAINNET) == State(1, 250_000_000, [Entry(base, Reward(), 250_000_000, true)], [])
  {
    TreasuryRate(1);
    OneOutput(TREASURY, 250_000_000);
    hide TreasuryAt, PaidTo;
    assert block[..0] == [];
  }

  /** A transaction under a new name, mined while the treasury holds what it spends. */
  lemma MineFresh(s: State, txid: string, tx: Tx, k: Constants)
    requires k.interval >= 1 && Lookup(s.log, txid).None? && Spendable(s, tx)
    ensures Apply(s, Mine(txid, tx), k)
         == s.(held := s.held - tx.spent + PaidTo(tx.vouts, Some(TREASURY)), log := s.log + [Entry(txid, tx, 0, true)])
  {
    WithoutFresh(s.log, txid);
  }

  lemma Names(log: seq<Entry>, e: Entry, txid: string)
    ensures Lookup(log + [e], txid) == if e.txid == txid then Some(e) else Lookup(log, txid)
  {
    assert (log + [e])[..|log|] == log;
  }

  /** The first block, then one WAM spent under the name `first`. */
  function Spent(base: string, first: string, to: string): seq<Event> {
    [Block(base, Reward())] + [Mine(first, OneWam(to))]
  }

  function SpentLog(base: string, first: string, to: string): seq<Entry> {
    [Entry(base, Reward(), 250_000_000, true)] + [Entry(first, OneWam(to), 0, true)]
  }

  lemma AfterSpending(base: string, first: string, to: string)
    requires base != first && to != TREASURY
    ensures Run(Spent(base, first, to), MAINNET) == State(1, 150_000_000, SpentLog(base, first, to), [])
  {
    var block, b := [Block(base, Reward())], Entry(base, Reward(), 250_000_000, true);
    FirstBlock(block, base);
    OneOutput(to, COIN);
    Names([], b, first);
    assert [] + [b] == [b];
    hide Run, Lookup, Total, PaidTo, Apply;
    RunOneMore(block, Mine(first, OneWam(to)), MAINNET);
    MineFresh(State(1, 250_000_000, [b], []), first, OneWam(to), MAINNET);
  }

  lemma NamesAfterSpending(base: string, first: string, to: string, txid: string)
    requires base != first
    ensures Lookup(SpentLog(base, first, to), txid)
         == if txid == first then Some(Entry(first, OneWam(to), 0, true))
            else if txid == base then Some(Entry(base, Reward(), 250_000_000, true)) else None
  {
    var b := Entry(base, Reward(), 250_000_000, true);
    Names([b], Entry(first, OneWam(to), 0, true), txid);
    Names([], b, txid);
    assert [] + [b] == [b];
  }

  /** Whatever is mined or broadcast next, a table that does not name `first` is not complete. */
  lemma FirstIsMissing(base: string, first: string, to: string, e: Entry, rows: seq<Row>)
    requires to != TREASURY && first !in Named(rows)
    ensures !Complete(SpentLog(base, first, to) + [e], Named(rows))
  {
    OneOutput(to, COIN);
    var log := SpentLog(base, first, to) + [e];
    assert log[1] == Entry(first, OneWam(to), 0, true);
    assert Outflow(log[1]) == COIN;
  }

  lemma OneRow(log: seq<Entry>, row: Row)
    ensures AllFaults(log, [row]) == RowFaults(log, row)
    ensures Recorded(log, [row]) == RowTotal(log, row)
    ensures Named([row]) == {row.txid}
  {
    assert [row][..0] == [];
    assert [row][0].txid in Named([row]);
  }

  lemma SameRowTwice(log: seq<Entry>, row: Row)
    ensures RowFaults(log, row) == [] ==> AllFaults(log, [row, row]) == []
    ensures Recorded(log, [row, row]) == 2 * RowTotal(log, row)
    ensures Named([row, row]) == {row.txid}
  {
    var rows := [row, row];
    OneRow(log, row);
    assert rows[..1] == [row];
    assert rows[0].txid in Named(rows);
  }

  /** A table that finds no fault, satisfies the identity, and misses a spend. */
  predicate Fooled(s: State, rows: seq<Row>, k: Constants)
    requires k.interval >= 1
  {
    && AllFaults(s.log, rows) == []
    && Accrued(s.height, k) - Recorded(s.log, rows) == s.held
    && !Complete(s.log, Named(rows))
  }

  /** One way: a row repeated. Two equal spends, and two rows that both name the second. */
  lemma RepeatedRowHidesSpend(base: string, first: string, second: string, to: string)
    requires base != first && first != second && second != base && to != TREASURY
    ensures var row := Row(second, COIN, 0, to);
            Fooled(Run(Spent(base, first, to) + [Mine(second, OneWam(to))], MAINNET), [row, row], MAINNET)
  {
    var row, e := Row(second, COIN, 0, to), Entry(second, OneWam(to), 0, true);
    var s := State(1, 150_000_000, SpentLog(base, first, to), []);
    AfterSpending(base, first, to);
    NamesAfterSpending(base, first, to, second);
    RunOneMore(Spent(base, first, to), Mine(second, OneWam(to)), MAINNET);
    OneOutput(to, COIN);
    MineFresh(s, second, OneWam(to), MAINNET);
    Names(s.log, e, second);
    SameRowTwice(s.log + [e], row);
    FirstIsMissing(base, first, to, e, [row, row]);
    AccruedSchedule(1);
    hide Run, Apply, Spent, SpentLog, Lookup, Complete, Named, PaidTo, Total, HasStray, Accrued, AllFaults, Recorded;
    assert RowFaults(s.log + [e], row) == [];
  }

  /** Another: a row that names a stranger's payment of the stated amount to the stated address. */
  lemma StrangerRowHidesSpend(base: string, first: string, second: string, to: string)
    requires base != first && first != second && second != base && to != TREASURY
    ensures Fooled(Run(Spent(base, first, to) + [Mine(second, StrangerPays(to))], MAINNET),
                   [Row(second, COIN, 0, to)], MAINNET)
  {
    var row, e := Row(second, COIN, 0, to), Entry(second, StrangerPays(to), 0, true);
    var s := State(1, 150_000_000, SpentLog(base, first, to), []);
    AfterSpending(base, first, to);
    NamesAfterSpending(base, first, to, second);
    RunOneMore(Spent(base, first, to), Mine(second, StrangerPays(to)), MAINNET);
    OneOutput(to, COIN);
    MineFresh(s, second, StrangerPays(to), MAINNET);
    Names(s.log, e, second);
    OneRow(s.log + [e], row);
    FirstIsMissing(base, first, to, e, [row]);
    AccruedSchedule(1);
    hide Run, Apply, Spent, SpentLog, Lookup, Complete, Named, PaidTo, Total, HasStray, Accrued, AllFaults, Recorded;
    assert RowFaults(s.log + [e], row) == [];
  }

  /** A third: a row that names a treasury spend still waiting to be mined. */
  lemma WaitingRowHidesSpend(base: string, first: string, second: string, to: string)
    requires base != first && first != second && second != base && to != TREASURY
    ensures Fooled(Run(Spent(base, first, to) + [Broadcast(second, OneWam(to))], MAINNET),
                   [Row(second, COIN, 0, to)], MAINNET)
  {
    var row, e := Row(second, COIN, 0, to), Entry(second, OneWam(to), 0, false);
    var s := State(1, 150_000_000, SpentLog(base, first, to), []);
    AfterSpending(base, first, to);
    NamesAfterSpending(base, first, to, second);
    RunOneMore(Spent(base, first, to), Broadcast(second, OneWam(to)), MAINNET);
    OneOutput(to, COIN);
    Names(s.log, e, second);
    OneRow(s.log + [e], row);
    FirstIsMissing(base, first, to, e, [row]);
    AccruedSchedule(1);
    hide Run, Spent, SpentLog, Lookup, Complete, Named, PaidTo, Total, HasStray, Accrued, AllFaults, Recorded;
    assert RowFaults(s.log + [e], row) == [];
  }

  /** A fourth, with no row at all to blame: somebody pays the treasury what left it. */
  lemma GiftHidesSpend(base: string, first: string, second: string, to: string)
    requires base != first && first != second && second != base && to != TREASURY
    ensures Fooled(Run(Spent(base, first, to) + [Mine(second, Gift())], MAINNET), [], MAINNET)
  {
    var s, e := State(1, 150_000_000, SpentLog(base, first, to), []), Entry(second, Gift(), 0, true);
    AfterSpending(base, first, to);
    NamesAfterSpending(base, first, to, second);
    RunOneMore(Spent(base, first, to), Mine(second, Gift()), MAINNET);
    OneOutput(TREASURY, COIN);
    MineFresh(s, second, Gift(), MAINNET);
    FirstIsMissing(base, first, to, e, []);
    AccruedSchedule(1);
    hide Run, Apply, Spent, SpentLog, Lookup, Complete, PaidTo, Total, Accrued;
  }

  /** And the other way round: a gift breaks the identity with nothing missing. */
  lemma GiftBreaksIdentity(base: string, gift: string)
    requires base != gift
    ensures var s := Run([Block(base, Reward())] + [Mine(gift, Gift())], MAINNET);
            !Identity(s, MAINNET) && Complete(s.log, Named(s.rows))
  {
    var block, b := [Block(base, Reward())], Entry(base, Reward(), 250_000_000, true);
    var s := State(1, 250_000_000, [b], []);
    FirstBlock(block, base);
    OneOutput(TREASURY, 250_000_000);
    OneOutput(TREASURY, COIN);
    Names([], b, gift);
    assert [] + [b] == [b];
    RunOneMore(block, Mine(gift, Gift()), MAINNET);
    MineFresh(s, gift, Gift(), MAINNET);
    AccruedSchedule(1);
    hide Run, Apply, Lookup, PaidTo, Total, Accrued;
  }
}
