/** The node over tables: its mempool passes every amount through `float` and an eight-decimal column. */
module TableLedger {
  import opened Balances
  import opened Chain
  import opened Conversion
  import opened Decimals
  import opened Ledger
  import opened LedgerInvariants
  import opened LedgerResults
  import opened Models
  import opened Rows
  import opened Wallets
  import opened Wrappers

  // ---------- The mempool table ----------

  /** `float(d)`, handed on as its text: what the column receives, and what becomes of a `float` field. */
  function ViaFloat(prims: Primitives, d: Decimal): Decimal { prims.toDecimal(prims.toFloat(d.Value())) }

  /** Into the table and out of it: a float, its column, and a float again. */
  function Queued(prims: Primitives, d: Decimal): Decimal { ViaFloat(prims, Stored(ViaFloat(prims, d))) }

  function MapAmounts(tx: Transaction, f: Decimal -> Decimal): Transaction {
    tx.(amount := f(tx.amount),
        receiverAmount := match tx.receiverAmount case Some(a) => Some(f(a)) case None => None)
  }

  /** The values the INSERT statement carries. */
  function Sent(prims: Primitives, tx: Transaction): Transaction { MapAmounts(tx, d => ViaFloat(prims, d)) }

  function QueuedTx(prims: Primitives, tx: Transaction): Transaction { MapAmounts(tx, d => Queued(prims, d)) }

  function QueuedAll(prims: Primitives, txs: seq<Transaction>): (r: seq<Transaction>)
    ensures |r| == |txs| && forall i :: 0 <= i < |txs| ==> r[i] == QueuedTx(prims, txs[i])
  {
    seq(|txs|, i requires 0 <= i < |txs| => QueuedTx(prims, txs[i]))
  }

  /** Only amounts change on the way, each to what the table makes of it. */
  lemma QueuedFields(prims: Primitives, tx: Transaction)
    ensures var q := QueuedTx(prims, tx);
            && q.sender == tx.sender && q.receiver == tx.receiver && q.nonce == tx.nonce && q.signature == tx.signature
            && q.senderWalletId == tx.senderWalletId && q.receiverWalletId == tx.receiverWalletId
            && q.amount == ViaFloat(prims, Stored(ViaFloat(prims, tx.amount)))
            && (tx.receiverAmount.None? ==> q.receiverAmount.None?)
            && (tx.receiverAmount.Some? ==>
                  q.receiverAmount == Some(ViaFloat(prims, Stored(ViaFloat(prims, tx.receiverAmount.value)))))
  {
  }

  /** Its columns are those of the `transactions` table. */
  predicate Queueable(prims: Primitives, tx: Transaction) { Insertable(Sent(prims, tx)) }

  class PostgresMempoolRepository {
    const prims: Primitives
    var rows: seq<TxColumns>
    var nextId: int

    /** What a flush returns: the rows in order, each amount a float turned back into a decimal. */
    function Pending(): seq<Transaction>
      reads this
    {
      seq(|rows|, i requires 0 <= i < |rows| reads this => Sent(prims, ToTransaction(rows[i])))
    }

    constructor (prims: Primitives)
      ensures this.prims == prims && rows == []
    {
      this.prims, rows, nextId := prims, [], 1;
    }

    /** The INSERT raises on a value its column refuses, and adds nothing then. */
    method Add(tx: Transaction) returns (r: Result<(), LedgerError>)
      modifies this
      ensures r.Ok? <==> Queueable(prims, tx)
      ensures Pending() == if r.Ok? then old(Pending()) + [QueuedTx(prims, tx)] else old(Pending())
    {
      if !Insertable(Sent(prims, tx)) {
        return Err(InsertRefused);
      }
      rows := rows + [ToColumns(nextId, Sent(prims, tx))];
      nextId := nextId + 1;
      r := Ok(());
    }

    /** Read everything, then delete everything. */
    method Flush() returns (drained: seq<Transaction>)
      modifies this`rows
      ensures drained == old(Pending()) && rows == []
    {
      drained := [];
      for i := 0 to |rows|
        invariant |drained| == i && forall k :: 0 <= k < i ==> drained[k] == Sent(prims, ToTransaction(rows[k]))
        invariant rows == old(rows)
      {
        drained := drained + [Sent(prims, ToTransaction(rows[i]))];
      }
      rows := [];
    }
  }

  // ---------- Floats ----------

  /**
   * What `float` and its shortest text promise: the text of a float reads back as that float, and the text of the
   * float nearest to a number has no more decimals than the number.
   */
  ghost predicate FloatsFaithful(prims: Primitives) {
    && (forall x: real :: prims.toFloat(prims.toDecimal(prims.toFloat(x)).Value()) == prims.toFloat(x))
    && (forall n: int :: WholeUnits(prims.toDecimal(prims.toFloat(FromUnits(n))).Value()))
  }

  /** What leaves the mempool table is whole units, whatever entered it. */
  lemma QueuedIsWhole(prims: Primitives, d: Decimal)
    requires FloatsFaithful(prims)
    ensures WholeUnits(Queued(prims, d).Value())
  {
    UnitsDecimalValue(ColumnUnits(ViaFloat(prims, d).Value()));
  }

  /**
   * An amount survives the mempool table exactly when it has at most eight decimals and its float, written out, is
   * the amount.
   */
  lemma QueuedSameIff(prims: Primitives, d: Decimal)
    requires FloatsFaithful(prims)
    ensures Queued(prims, d).Value() == d.Value()
       <==> WholeUnits(d.Value()) && ViaFloat(prims, d).Value() == d.Value()
  {
    var sent := ViaFloat(prims, d);
    var stored := Stored(sent);
    StoredSameIff(sent);
    QueuedIsWhole(prims, d);
    var x := stored.Value();
    assert prims.toFloat(prims.toDecimal(prims.toFloat(x)).Value()) == prims.toFloat(x);
  }

  // ---------- The ledger over that mempool ----------

  /**
   * The pending transactions of `ledger` are as a flush returns them. `signed` and `waiting` hold what was admitted
   * instead, block by block and for the mempool; they are history, not stored by the program.
   */
  datatype TableState = TableState(ledger: State, signed: seq<seq<Transaction>>, waiting: seq<Transaction>)

  datatype TableOutcome = TableOutcome(state: TableState, error: Option<LedgerError>)

  /**
   * The checks are the ledger's own, on the amount as sent. A nonce too wide for its column raises when it is
   * reserved, an amount its column refuses when it is queued.
   */
  function Admit(prims: Primitives, t: TableState, step: Step): TableOutcome
    requires step.Submit? || step.Mint?
  {
    var s, out := t.ledger, Next(prims, t.ledger, step);
    if out.state.nonces != s.nonces && !(step.Submit? && FitsWidth(step.request.nonce, BIGINT_LIMIT)) then
      TableOutcome(t, Some(InsertRefused))
    else if out.error.Some? then TableOutcome(t.(ledger := out.state), out.error)
    else
      AdmissionShape(prims, s, step);
      var tx := out.state.pending[|s.pending|];
      if Queueable(prims, tx) then
        TableOutcome(t.(ledger := out.state.(pending := s.pending + [QueuedTx(prims, tx)]),
                        waiting := t.waiting + [tx]), None)
      else TableOutcome(t.(ledger := out.state.(pending := s.pending)), Some(InsertRefused))
  }

  /** The flush is final: when the block cannot be inserted, its transactions are in no table any more. */
  function MineTable(prims: Primitives, t: TableState, step: Step): TableOutcome
    requires step.Mine?
  {
    var s, out := t.ledger, Next(prims, t.ledger, step);
    if |out.state.chain| <= |s.chain| then TableOutcome(t, out.error)
    else if InsertableBlock(out.state.chain[|s.chain|]) then
      TableOutcome(TableState(out.state, t.signed + [t.waiting], []), out.error)
    else TableOutcome(t.(ledger := s.(pending := []), waiting := []), Some(InsertRefused))
  }

  function TableNext(prims: Primitives, t: TableState, step: Step): TableOutcome {
    if step.Submit? || step.Mint? then Admit(prims, t, step)
    else if step.Mine? then MineTable(prims, t, step)
    else
      var out := Next(prims, t.ledger, step);
      TableOutcome(t.(ledger := out.state), out.error)
  }

  function TableRun(prims: Primitives, timestamp: string, steps: seq<Step>): TableState {
    if steps == [] then TableState(Init(prims, timestamp), [[]], [])
    else TableNext(prims, TableRun(prims, timestamp, steps[..|steps| - 1]), steps[|steps| - 1]).state
  }

  /** What a submission or mint that the ledger accepts comes to over the table. */
  lemma AdmitStored(prims: Primitives, t: TableState, step: Step)
    requires (step.Submit? || step.Mint?) && Next(prims, t.ledger, step).error.None?
    ensures var s, s' := t.ledger, Next(prims, t.ledger, step).state;
            && |s'.pending| == |s.pending| + 1
            && var tx, out := s'.pending[|s.pending|], TableNext(prims, t, step);
               && out.state.signed == t.signed
               && (if step.Submit? && !(-0x8000_0000_0000_0000 <= step.request.nonce < 0x8000_0000_0000_0000) then
                     out == TableOutcome(t, Some(InsertRefused))
                   else if Insertable(Sent(prims, tx)) then
                     && out.error.None? && out.state.waiting == t.waiting + [tx]
                     && out.state.ledger == s'.(pending := s.pending + [QueuedTx(prims, tx)])
                   else
                     && out.error == Some(InsertRefused) && out.state.waiting == t.waiting
                     && out.state.ledger == s'.(pending := s.pending))
  {
    AdmissionShape(prims, t.ledger, step);
    if step.Submit? { NonceSpent(prims, t.ledger, step); }
  }

  lemma NonceSpent(prims: Primitives, s: State, step: Step)
    requires step.Submit? && Next(prims, s, step).error.None?
    ensures Next(prims, s, step).state.nonces != s.nonces
  {
    SubmitQueuedIff(prims, s, step.currentUser, step.request, step.senderName, step.receiverName);
    var from := Strip(step.request.senderWalletId);
    var nonces := Next(prims, s, step).state.nonces;
    assert LastNonce(nonces, from) == step.request.nonce > LastNonce(s.nonces, from);
  }

  /**
   * Over tables a mine empties the mempool table whatever happens next: the block is stored with all of it and its
   * deltas run, or the block's INSERT raises and the drained transactions are in no table any more.
   */
  lemma MineStoresOrLoses(prims: Primitives, t: TableState, timestamp: string, proof: int)
    requires var s := t.ledger; s.chain != [] && IsLeastProof(prims, proof, s.chain[|s.chain| - 1].proof)
    ensures var s, out := t.ledger, TableNext(prims, t, Mine(timestamp, proof));
            var mined := MineNext(prims, s, timestamp, proof);
            && |mined.state.chain| == |s.chain| + 1
            && out.state.ledger.pending == [] && out.state.waiting == []
            && if InsertableBlock(mined.state.chain[|s.chain|])
               then out.state.ledger == mined.state && out.error == mined.error
                    && out.state.signed == t.signed + [t.waiting]
               else out.state.ledger == s.(pending := []) && out.error == Some(InsertRefused)
                    && out.state.signed == t.signed
  {
  }

  // ---------- What its runs keep ----------

  ghost predicate SignedOk(prims: Primitives, ws: WalletMap, signed: seq<seq<Transaction>>) {
    forall i :: 0 <= i < |signed| ==> TxsOk(prims, ws, signed[i])
  }

  predicate BlocksQueued(prims: Primitives, chain: seq<Block>, signed: seq<seq<Transaction>>) {
    |signed| == |chain| && forall i :: 0 <= i < |chain| ==> chain[i].transactions == QueuedAll(prims, signed[i])
  }

  /** Every amount went through the table, everything admitted was well-formed, and roots and links are right. */
  ghost predicate TableInv(prims: Primitives, t: TableState) {
    var s := t.ledger;
    && BlocksQueued(prims, s.chain, t.signed) && s.pending == QueuedAll(prims, t.waiting)
    && SignedOk(prims, s.wallets, t.signed) && TxsOk(prims, s.wallets, t.waiting)
    && ValidChain(prims, None, s.chain) && InsertableChain(s.chain) && Numbered(s.chain)
  }

  lemma SignedGrow(prims: Primitives, ws: WalletMap, ws': WalletMap, signed: seq<seq<Transaction>>)
    requires Grows(ws, ws') && SignedOk(prims, ws, signed)
    ensures SignedOk(prims, ws', signed)
  {
    forall i | 0 <= i < |signed| ensures TxsOk(prims, ws', signed[i]) { TxsOkGrow(prims, ws, ws', signed[i]); }
  }

  lemma QueuedDistinct(prims: Primitives, ws: WalletMap, txs: seq<Transaction>)
    requires TxsOk(prims, ws, txs)
    ensures Distinct(QueuedAll(prims, txs))
  {
    PendingDistinct(prims, ws, txs);
    var queued := QueuedAll(prims, txs);
    forall i | 0 <= i < |queued| && queued[i].IsTransfer()
      ensures queued[i].senderWalletId != queued[i].receiverWalletId
    {
      assert queued[i] == QueuedTx(prims, txs[i]) && txs[i].IsTransfer();
    }
  }

  lemma QueuedSnoc(prims: Primitives, txs: seq<Transaction>, tx: Transaction)
    ensures QueuedAll(prims, txs + [tx]) == QueuedAll(prims, txs) + [QueuedTx(prims, tx)]
  {
  }

  lemma AdmitKeeps(prims: Primitives, t: TableState, step: Step)
    requires TableInv(prims, t) && (step.Submit? || step.Mint?)
    ensures TableInv(prims, TableNext(prims, t, step).state)
  {
    var s := t.ledger;
    var out := Next(prims, s, step);
    AdmissionShape(prims, s, step);
    if out.error.None? {
      AdmittedOk(prims, s, step);
      var tx := out.state.pending[|s.pending|];
      TxsOkSnoc(prims, s.wallets, t.waiting, tx);
      QueuedSnoc(prims, t.waiting, tx);
    }
  }

  lemma MinedBlockFits(prims: Primitives, s: State, mine: Step)
    requires mine.Mine? && ValidChain(prims, None, s.chain) && |Next(prims, s, mine).state.chain| > |s.chain|
    ensures var s' := Next(prims, s, mine).state;
            && ValidChain(prims, None, s'.chain) && s'.pending == []
            && |s'.chain| == |s.chain| + 1 && s'.chain == s.chain + [s'.chain[|s.chain|]]
            && s'.chain[|s.chain|].transactions == s.pending
  {
    var b := Next(prims, s, mine).state.chain[|s.chain|];
    ExtendValid(prims, None, s.chain, b);
  }

  lemma MineTableKeeps(prims: Primitives, t: TableState, step: Step)
    requires TableInv(prims, t) && step.Mine?
    ensures TableInv(prims, TableNext(prims, t, step).state)
  {
    var s := t.ledger;
    var s' := Next(prims, s, step).state;
    if |s'.chain| > |s.chain| && InsertableBlock(s'.chain[|s.chain|]) {
      QueuedDistinct(prims, s.wallets, t.waiting);
      StepGrowsDistinct(prims, s, step);
      SignedGrow(prims, s.wallets, s'.wallets, t.signed);
      TxsOkGrow(prims, s.wallets, s'.wallets, t.waiting);
      MinedBlockFits(prims, s, step);
      StepNumbersBlocks(prims, s, step);
    }
  }

  lemma OtherStepKeeps(prims: Primitives, t: TableState, step: Step)
    requires TableInv(prims, t) && !step.Submit? && !step.Mint? && !step.Mine?
    ensures TableInv(prims, TableNext(prims, t, step).state)
  {
    var s := t.ledger;
    var s' := Next(prims, s, step).state;
    QueuedDistinct(prims, s.wallets, t.waiting);
    StepGrowsDistinct(prims, s, step);
    SignedGrow(prims, s.wallets, s'.wallets, t.signed);
    TxsOkGrow(prims, s.wallets, s'.wallets, t.waiting);
    assert s'.chain == s.chain && s'.pending == s.pending;
  }

  lemma {:induction false} TableRunKeepsInv(prims: Primitives, timestamp: string, steps: seq<Step>)
    ensures TableInv(prims, TableRun(prims, timestamp, steps))
    decreases |steps|
  {
    if steps == [] {
      GenesisValid(prims, None, timestamp);
    } else {
      var front, step := steps[..|steps| - 1], steps[|steps| - 1];
      TableRunKeepsInv(prims, timestamp, front);
      var t := TableRun(prims, timestamp, front);
      if step.Submit? || step.Mint? {
        AdmitKeeps(prims, t, step);
      } else if step.Mine? {
        MineTableKeeps(prims, t, step);
      } else {
        OtherStepKeeps(prims, t, step);
      }
    }
  }

  // ---------- What its tables give back ----------

  /** What went through the mempool table and into the block tables is held exactly there. */
  lemma QueuedHeldIff(prims: Primitives, tx: Transaction)
    requires FloatsFaithful(prims)
    ensures HeldExactly(QueuedTx(prims, tx)) <==> Insertable(QueuedTx(prims, tx))
  {
    var queued := QueuedTx(prims, tx);
    QueuedIsWhole(prims, tx.amount);
    StoredSameIff(queued.amount);
    if tx.receiverAmount.Some? {
      QueuedIsWhole(prims, tx.receiverAmount.value);
      StoredSameIff(queued.receiverAmount.value);
    }
    RereadSameIff(queued);
  }

  lemma TableChainHeld(prims: Primitives, t: TableState)
    requires FloatsFaithful(prims) && TableInv(prims, t)
    ensures ChainHeldExactly(t.ledger.chain)
  {
    var chain := t.ledger.chain;
    forall i, k | 0 <= i < |chain| && 0 <= k < |chain[i].transactions| ensures HeldExactly(chain[i].transactions[k]) {
      assert InsertableBlock(chain[i]);
      QueuedHeldIff(prims, t.signed[i][k]);
    }
    forall i | 0 <= i < |chain|
      ensures FitsWidth(chain[i].index, INTEGER_LIMIT) && FitsWidth(chain[i].proof, INTEGER_LIMIT)
    {
      assert InsertableBlock(chain[i]);
    }
  }

  // ---------- Its chain's verdict ----------

  /** A mint, or a transfer whose signature also covers the text it has once it went through the mempool table. */
  predicate StillSigned(prims: Primitives, ws: WalletMap, tx: Transaction) {
    tx.IsMint() || Signs(prims, ws, tx, QueuedTx(prims, tx).Message())
  }

  predicate AllStillSigned(prims: Primitives, ws: WalletMap, signed: seq<seq<Transaction>>) {
    forall i, k :: 0 <= i < |signed| && 0 <= k < |signed[i]| ==> StillSigned(prims, ws, signed[i][k])
  }

  lemma QueuedTxsValidIff(prims: Primitives, ws: WalletMap, txs: seq<Transaction>)
    requires TxsOk(prims, ws, txs)
    ensures ValidTxs(prims, Some(ws), QueuedAll(prims, txs))
       <==> forall k :: 0 <= k < |txs| ==> StillSigned(prims, ws, txs[k])
  {
    forall k | 0 <= k < |txs|
      ensures ValidTx(prims, ws, QueuedAll(prims, txs)[k]) <==> StillSigned(prims, ws, txs[k])
    {
      assert TxOk(prims, ws, txs[k]);
    }
  }

  lemma TableVerdictIff(prims: Primitives, t: TableState)
    requires TableInv(prims, t)
    ensures ValidChain(prims, Some(t.ledger.wallets), t.ledger.chain)
       <==> AllStillSigned(prims, t.ledger.wallets, t.signed)
  {
    var ws, chain := t.ledger.wallets, t.ledger.chain;
    forall i | 0 <= i < |chain|
      ensures ValidBlock(prims, Some(ws), chain[i])
         <==> forall k :: 0 <= k < |t.signed[i]| ==> StillSigned(prims, ws, t.signed[i][k])
    {
      assert ValidBlock(prims, None, chain[i]);
      assert TxsOk(prims, ws, t.signed[i]);
      QueuedTxsValidIff(prims, ws, t.signed[i]);
    }
  }

  /** At most eight decimals, and a float that writes out as the amount: what a sender can check beforehand. */
  predicate AmountKept(prims: Primitives, d: Decimal) {
    WholeUnits(d.Value()) && ViaFloat(prims, d).Value() == d.Value()
  }

  predicate AllKept(prims: Primitives, signed: seq<seq<Transaction>>) {
    forall i, k :: 0 <= i < |signed| && 0 <= k < |signed[i]| ==>
      signed[i][k].IsMint() || AmountKept(prims, signed[i][k].amount)
  }

  lemma StillSignedIff(prims: Primitives, ws: WalletMap, tx: Transaction)
    requires FloatsFaithful(prims) && Binding(prims) && TxOk(prims, ws, tx)
    ensures StillSigned(prims, ws, tx) <==> tx.IsMint() || AmountKept(prims, tx.amount)
  {
    if !tx.IsMint() {
      MessageKeptIff(tx, Queued(prims, tx.amount));
      QueuedSameIff(prims, tx.amount);
      BoundTo(prims, ws[tx.senderWalletId].publicKey, tx.signature, tx.Message(), QueuedTx(prims, tx).Message());
    }
  }

  lemma AllStillSignedIff(prims: Primitives, ws: WalletMap, signed: seq<seq<Transaction>>)
    requires FloatsFaithful(prims) && Binding(prims) && SignedOk(prims, ws, signed)
    ensures AllStillSigned(prims, ws, signed) <==> AllKept(prims, signed)
  {
    forall i, k | 0 <= i < |signed| && 0 <= k < |signed[i]|
      ensures StillSigned(prims, ws, signed[i][k]) <==> signed[i][k].IsMint() || AmountKept(prims, signed[i][k].amount)
    {
      assert TxsOk(prims, ws, signed[i]);
      StillSignedIff(prims, ws, signed[i][k]);
    }
  }

  /**
   * Every run over tables: the stored chain comes back unchanged in any row order, and the validator, which reads it
   * back, accepts it exactly when every transfer's signature also covers the text of the amount that left the mempool
   * table. With binding signatures: when every transfer was signed for an amount of at most eight decimals whose float
   * writes out as the amount.
   */
  lemma TableChainValidIff(prims: Primitives, timestamp: string, steps: seq<Step>, ids: seq<seq<int>>, rows: seq<Row>)
    requires FloatsFaithful(prims)
    requires var chain := TableRun(prims, timestamp, steps).ledger.chain;
             IdsFit(chain, ids) && multiset(rows) == multiset(Flatten(chain, ids))
    ensures var t, back := TableRun(prims, timestamp, steps), Regroup(rows);
            var ws, chain := t.ledger.wallets, t.ledger.chain;
            && InsertableChain(chain) && SameChain(back, chain) && ValidChain(prims, None, back)
            && (ValidChain(prims, Some(ws), back) <==> AllStillSigned(prims, ws, t.signed))
            && (Binding(prims) ==> (ValidChain(prims, Some(ws), back) <==> AllKept(prims, t.signed)))
  {
    var t := TableRun(prims, timestamp, steps);
    var ws, chain := t.ledger.wallets, t.ledger.chain;
    TableRunKeepsInv(prims, timestamp, steps);
    TableChainHeld(prims, t);
    RegroupInvertsFlatten(chain, ids, rows);
    ReloadSameIff(chain, ids, rows);
    VerdictSurvives(prims, None, chain);
    VerdictSurvives(prims, Some(ws), chain);
    TableVerdictIff(prims, t);
    if Binding(prims) { AllStillSignedIff(prims, ws, t.signed); }
  }
}
