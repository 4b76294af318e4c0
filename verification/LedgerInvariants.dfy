/** What every run of the ledger keeps. */
module LedgerInvariants {
  import opened Balances
  import opened Chain
  import opened Conversion
  import opened Currencies
  import opened Decimals
  import opened Ledger
  import opened Models
  import opened Wallets
  import opened Wrappers

  // ---------- The invariant ----------

  /** A transaction as the signed and mint paths stage it. */
  ghost predicate TxOk(prims: Primitives, ws: WalletMap, tx: Transaction) {
    && tx.amount.Value() > 0.0 && tx.CreditAmount().Value() > 0.0
    && tx.receiverWalletId in ws
    && if tx.IsMint() then tx.senderWalletId == "" && tx.receiverAmount.None?
       else
         && tx.senderWalletId in ws && tx.senderWalletId != tx.receiverWalletId
         && (tx.receiverAmount.None? <==> ws[tx.senderWalletId].currency == ws[tx.receiverWalletId].currency)
         && tx.nonce >= 1
         && ValidTx(prims, ws, tx)
  }

  ghost predicate TxsOk(prims: Primitives, ws: WalletMap, txs: seq<Transaction>) {
    forall i :: 0 <= i < |txs| ==> TxOk(prims, ws, txs[i])
  }

  ghost predicate WalletsOk(s: State) {
    && NoDuplicates(s.order) && (forall id :: id in s.order <==> id in s.wallets)
    && "" !in s.wallets
    && forall id :: id in s.wallets ==> s.wallets[id].balance >= 0.0
  }

  ghost predicate BalancesOk(s: State) {
    && CountsFit(s.chain, s.applied)
    && var done := AppliedTransactions(s.chain, s.applied);
       forall id :: id in s.wallets ==> s.wallets[id].balance == Total(Credits, id, done) - Total(Debits, id, done)
  }

  ghost predicate SameSender(a: Transaction, b: Transaction) {
    !a.IsMint() && !b.IsMint() && a.senderWalletId == b.senderWalletId
  }

  /** Along the history each sender's nonces ascend, and none exceeds the one stored for it. */
  ghost predicate NoncesOk(h: seq<Transaction>, nonces: map<string, int>) {
    && (forall i :: 0 <= i < |h| && !h[i].IsMint() ==> 1 <= h[i].nonce <= LastNonce(nonces, h[i].senderWalletId))
    && (forall i, j :: 0 <= i < j < |h| && SameSender(h[i], h[j]) ==> h[i].nonce < h[j].nonce)
  }

  ghost predicate Inv(prims: Primitives, s: State) {
    && WalletsOk(s)
    && TxsOk(prims, s.wallets, History(s))
    && BalancesOk(s)
    && NoncesOk(History(s), s.nonces)
    && ValidChain(prims, Some(s.wallets), s.chain)
  }

  // ---------- Wallets only grow ----------

  /** No wallet is removed, and none changes but for its balance and its freezing. */
  ghost predicate Grows(ws: WalletMap, ws': WalletMap) {
    forall id :: id in ws ==>
      && id in ws'
      && ws'[id].walletId == ws[id].walletId && ws'[id].userId == ws[id].userId
      && ws'[id].currency == ws[id].currency && ws'[id].walletType == ws[id].walletType
      && ws'[id].publicKey == ws[id].publicKey
  }

  lemma TxsOkGrow(prims: Primitives, ws: WalletMap, ws': WalletMap, txs: seq<Transaction>)
    requires Grows(ws, ws') && TxsOk(prims, ws, txs)
    ensures TxsOk(prims, ws', txs)
  {
    forall i | 0 <= i < |txs| ensures TxOk(prims, ws', txs[i]) {
      assert TxOk(prims, ws, txs[i]);
    }
  }

  lemma ValidChainGrows(prims: Primitives, ws: WalletMap, ws': WalletMap, chain: seq<Block>)
    requires Grows(ws, ws') && ValidChain(prims, Some(ws), chain)
    ensures ValidChain(prims, Some(ws'), chain)
  {
    forall i | 0 <= i < |chain| ensures ValidBlock(prims, Some(ws'), chain[i]) {
      assert ValidBlock(prims, Some(ws), chain[i]);
      forall k | 0 <= k < |chain[i].transactions| ensures ValidTx(prims, ws', chain[i].transactions[k]) {
        assert ValidTx(prims, ws, chain[i].transactions[k]);
      }
    }
  }

  /** No step removes a wallet or changes its owner, key, currency or type. */
  lemma StepGrows(prims: Primitives, s: State, step: Step)
    requires TxsOk(prims, s.wallets, s.pending)
    ensures Grows(s.wallets, Next(prims, s, step).state.wallets)
  {
    PendingDistinct(prims, s.wallets, s.pending);
    StepGrowsDistinct(prims, s, step);
  }

  /** It is enough that no pending transfer is between a wallet and itself. */
  lemma StepGrowsDistinct(prims: Primitives, s: State, step: Step)
    requires Distinct(s.pending)
    ensures Grows(s.wallets, Next(prims, s, step).state.wallets)
  {
    if step.Mine? {
      DeltasGrow(s.wallets, s.pending);
      MineWallets(prims, s, step);
    } else if step.Submit? || step.Mint? || step.SetRate? || step.SyncRate? {
      assert Next(prims, s, step).state.wallets == s.wallets;
    }
  }

  /** A mine step either does nothing or applies the pending deltas. */
  lemma MineWallets(prims: Primitives, s: State, mine: Step)
    requires mine.Mine?
    ensures var ws := Next(prims, s, mine).state.wallets;
            ws == s.wallets || ws == ApplyDeltas(s.wallets, s.pending).wallets
  {
  }

  lemma DeltasGrow(ws: WalletMap, txs: seq<Transaction>)
    requires Distinct(txs)
    ensures Grows(ws, ApplyDeltas(ws, txs).wallets)
  {
    DeltasMoveTotals(ws, txs);
    var ws' := ApplyDeltas(ws, txs).wallets;
    assert forall id :: id in ws ==> ws'[id] == ws[id].(balance := ws'[id].balance);
  }

  /** Deltas neither add nor remove a wallet. */
  lemma MineKeepsKeys(prims: Primitives, s: State, mine: Step)
    requires mine.Mine? && TxsOk(prims, s.wallets, s.pending)
    ensures Next(prims, s, mine).state.wallets.Keys == s.wallets.Keys
  {
    PendingDistinct(prims, s.wallets, s.pending);
    DeltasMoveTotals(s.wallets, s.pending);
    MineWallets(prims, s, mine);
  }

  lemma PendingDistinct(prims: Primitives, ws: WalletMap, txs: seq<Transaction>)
    requires TxsOk(prims, ws, txs)
    ensures Distinct(txs)
  {
    forall i | 0 <= i < |txs| && txs[i].IsTransfer()
      ensures txs[i].senderWalletId != txs[i].receiverWalletId
    {
      assert TxOk(prims, ws, txs[i]);
    }
  }

  // ---------- Histories ----------

  lemma {:induction false} AppliedAreMined(chain: seq<Block>, applied: seq<nat>)
    requires CountsFit(chain, applied)
    ensures forall tx :: tx in AppliedTransactions(chain, applied) ==> tx in AllTransactions(chain)
  {
    if chain != [] {
      AppliedAreMined(chain[..|chain| - 1], applied[..|chain| - 1]);
    }
  }

  lemma AppliedSnoc(chain: seq<Block>, applied: seq<nat>, b: Block, n: nat)
    requires CountsFit(chain, applied) && n <= |b.transactions|
    ensures CountsFit(chain + [b], applied + [n])
    ensures AppliedTransactions(chain + [b], applied + [n])
         == AppliedTransactions(chain, applied) + b.transactions[..n]
    ensures AllTransactions(chain + [b]) == AllTransactions(chain) + b.transactions
  {
    assert (chain + [b])[..|chain|] == chain;
    assert (applied + [n])[..|chain|] == applied;
  }

  /** A wallet that no transaction names has moved nothing. */
  lemma {:induction false} StrangerTotals(prims: Primitives, ws: WalletMap, side: Side, id: string,
                                         txs: seq<Transaction>)
    requires id !in ws && forall tx :: tx in txs ==> TxOk(prims, ws, tx)
    ensures Total(side, id, txs) == 0.0
  {
    if txs != [] {
      assert TxOk(prims, ws, txs[0]);
      StrangerTotals(prims, ws, side, id, txs[1..]);
    }
  }

  lemma AppliedOk(prims: Primitives, s: State)
    requires CountsFit(s.chain, s.applied) && TxsOk(prims, s.wallets, History(s))
    ensures forall tx :: tx in AppliedTransactions(s.chain, s.applied) ==> TxOk(prims, s.wallets, tx)
  {
    AppliedAreMined(s.chain, s.applied);
    forall tx | tx in AllTransactions(s.chain) ensures TxOk(prims, s.wallets, tx) {
      assert tx in History(s);
    }
  }

  // ---------- Each step keeps the invariant ----------

  lemma CreateWalletKeeps(prims: Primitives, s: State, step: Step)
    requires step.CreateWallet? && Inv(prims, s)
    ensures Inv(prims, Next(prims, s, step).state)
  {
    var s' := Next(prims, s, step).state;
    var id := WalletId(step.token);
    if id !in s.wallets {
      assert Grows(s.wallets, s'.wallets);
      TxsOkGrow(prims, s.wallets, s'.wallets, History(s));
      ValidChainGrows(prims, s.wallets, s'.wallets, s.chain);
      AppliedOk(prims, s);
      StrangerTotals(prims, s.wallets, Credits, id, AppliedTransactions(s.chain, s.applied));
      StrangerTotals(prims, s.wallets, Debits, id, AppliedTransactions(s.chain, s.applied));
      assert History(s') == History(s);
      assert id !in s.order;
    }
  }

  lemma SetFrozenKeeps(prims: Primitives, s: State, step: Step)
    requires step.SetFrozen? && Inv(prims, s)
    ensures Inv(prims, Next(prims, s, step).state)
  {
    var s' := Next(prims, s, step).state;
    FreezingGrows(prims, s, step);
    TxsOkGrow(prims, s.wallets, s'.wallets, History(s));
    ValidChainGrows(prims, s.wallets, s'.wallets, s.chain);
    assert History(s') == History(s);
  }

  lemma FreezingGrows(prims: Primitives, s: State, step: Step)
    requires step.SetFrozen?
    ensures var s' := Next(prims, s, step).state;
            && Grows(s.wallets, s'.wallets) && s'.wallets.Keys == s.wallets.Keys
            && s' == s.(wallets := s'.wallets)
            && forall id :: id in s.wallets ==> s'.wallets[id].balance == s.wallets[id].balance
  {
  }

  lemma SetRateKeeps(prims: Primitives, s: State, step: Step)
    requires (step.SetRate? || step.SyncRate?) && Inv(prims, s)
    ensures Inv(prims, Next(prims, s, step).state)
  {
    var s' := Next(prims, s, step).state;
    assert History(s') == History(s);
  }

  /** One more transaction, with a nonce above the sender's last. */
  lemma NoncesSnoc(h: seq<Transaction>, nonces: map<string, int>, tx: Transaction)
    requires NoncesOk(h, nonces) && !tx.IsMint() && tx.nonce >= 1 && tx.nonce > LastNonce(nonces, tx.senderWalletId)
    ensures NoncesOk(h + [tx], nonces[tx.senderWalletId := tx.nonce])
  {
  }

  /** Queueing one more well-formed transaction, with a nonce above the sender's last. */
  lemma EnqueueKeeps(prims: Primitives, s: State, s': State, tx: Transaction)
    requires Inv(prims, s) && TxOk(prims, s.wallets, tx)
    requires s' == s.(pending := s.pending + [tx], nonces := s'.nonces)
    requires if tx.IsMint() then s'.nonces == s.nonces
             else
               && tx.nonce > LastNonce(s.nonces, tx.senderWalletId)
               && s'.nonces == s.nonces[tx.senderWalletId := tx.nonce]
    ensures Inv(prims, s')
  {
    var h, h' := History(s), History(s');
    assert h' == h + [tx];
    TxsOkSnoc(prims, s.wallets, h, tx);
    NoncesSnocEither(h, s.nonces, s'.nonces, tx);
  }

  lemma NoncesSnocEither(h: seq<Transaction>, nonces: map<string, int>, nonces': map<string, int>, tx: Transaction)
    requires NoncesOk(h, nonces) && (!tx.IsMint() ==> tx.nonce >= 1)
    requires if tx.IsMint() then nonces' == nonces
             else tx.nonce > LastNonce(nonces, tx.senderWalletId) && nonces' == nonces[tx.senderWalletId := tx.nonce]
    ensures NoncesOk(h + [tx], nonces')
  {
    if !tx.IsMint() { NoncesSnoc(h, nonces, tx); }
  }

  lemma TxsOkSnoc(prims: Primitives, ws: WalletMap, txs: seq<Transaction>, tx: Transaction)
    requires TxsOk(prims, ws, txs) && TxOk(prims, ws, tx)
    ensures TxsOk(prims, ws, txs + [tx])
  {
    forall i | 0 <= i < |txs + [tx]| ensures TxOk(prims, ws, (txs + [tx])[i]) {
      if i < |txs| { assert TxOk(prims, ws, txs[i]); }
    }
  }

  lemma ReserveKeeps(prims: Primitives, s: State, id: string, nonce: int)
    requires Inv(prims, s) && nonce > LastNonce(s.nonces, id)
    ensures Inv(prims, s.(nonces := s.nonces[id := nonce]))
  {
    var s' := s.(nonces := s.nonces[id := nonce]);
    assert History(s') == History(s);
  }

  lemma BuiltTransactionOk(prims: Primitives, s: State, raw: SignedRequest, req: SignedRequest,
                           senderName: string, receiverName: string)
    requires ParseSigned(raw) == Ok(req)
    requires BuildTransaction(prims, s.wallets, s.nonces, s.rates, req, senderName, receiverName).Ok?
    ensures var tx := BuildTransaction(prims, s.wallets, s.nonces, s.rates, req, senderName, receiverName).value;
            && TxOk(prims, s.wallets, tx) && !tx.IsMint()
            && tx.senderWalletId == req.senderWalletId && tx.nonce == req.nonce
            && req.nonce > LastNonce(s.nonces, req.senderWalletId)
  {
    var ws := s.wallets;
    var tx := BuildTransaction(prims, ws, s.nonces, s.rates, req, senderName, receiverName).value;
    MintMarkerNeverVerifies(prims, ws[req.senderWalletId].publicKey, tx.Message());
    if tx.receiverAmount.Some? {
      ConvertedPositive(s, ws[req.senderWalletId].currency, ws[req.receiverWalletId].currency, req.amount);
    }
  }

  lemma ConvertedPositive(s: State, from: string, to: string, amount: Decimal)
    requires ReceiverAmount(s.rates, from, to, amount).Ok?
    ensures var converted := ReceiverAmount(s.rates, from, to, amount).value;
            && (converted.None? <==> from == to)
            && (converted.Some? ==> converted.value.Value() > 0.0)
  {
    if from != to {
      var r := ListExchangeRates(s.rates, Some(from), Some(to), 1)[0];
      UnitsDecimalValue(NetUnits(Product(amount, r.rate), r.feeRate));
    }
  }

  /** A submission or mint queues one transaction, or raises and touches a nonce at most. */
  lemma AdmissionShape(prims: Primitives, s: State, step: Step)
    requires step.Submit? || step.Mint?
    ensures var out := Next(prims, s, step);
            && (out.error.Some? ==> out.state == s.(nonces := out.state.nonces))
            && (out.error.None? ==>
                  && |out.state.pending| == |s.pending| + 1
                  && out.state == s.(pending := s.pending + [out.state.pending[|s.pending|]],
                                     nonces := out.state.nonces))
  {
  }

  /** What they queue is well-formed. */
  lemma AdmittedOk(prims: Primitives, s: State, step: Step)
    requires (step.Submit? || step.Mint?) && Next(prims, s, step).error.None?
    ensures var s' := Next(prims, s, step).state;
            |s'.pending| == |s.pending| + 1 && TxOk(prims, s.wallets, s'.pending[|s.pending|])
  {
    if step.Submit? {
      BuiltTransactionOk(prims, s, step.request, ParseSigned(step.request).value, step.senderName, step.receiverName);
    }
  }

  lemma SubmitKeeps(prims: Primitives, s: State, step: Step)
    requires step.Submit? && Inv(prims, s)
    ensures Inv(prims, Next(prims, s, step).state)
  {
    var s' := Next(prims, s, step).state;
    if s' != s {
      var req := ParseSigned(step.request).value;
      var built := BuildTransaction(prims, s.wallets, s.nonces, s.rates, req, step.senderName, step.receiverName);
      BuiltTransactionOk(prims, s, step.request, req, step.senderName, step.receiverName);
      ReserveKeeps(prims, s, req.senderWalletId, req.nonce);
      if IsAdmissible(built.value) {
        EnqueueKeeps(prims, s, s', built.value);
      }
    }
  }

  lemma MintKeeps(prims: Primitives, s: State, step: Step)
    requires step.Mint? && Inv(prims, s)
    ensures Inv(prims, Next(prims, s, step).state)
  {
    var s' := Next(prims, s, step).state;
    if s' != s {
      var id := Strip(step.mintWalletId);
      var tx := BuildMint(s.wallets, id, step.amount, step.mintReceiverName, step.adminName).value;
      EnqueueKeeps(prims, s, s', tx);
    }
  }

  /** Deltas of well-formed transactions never take a balance below zero. */
  lemma {:induction false} DeltasKeepNonNegative(prims: Primitives, ws0: WalletMap, ws: WalletMap,
                                                txs: seq<Transaction>)
    requires TxsOk(prims, ws0, txs) && forall id :: id in ws ==> ws[id].balance >= 0.0
    ensures forall id :: id in ApplyDeltas(ws, txs).wallets ==> ApplyDeltas(ws, txs).wallets[id].balance >= 0.0
  {
    if txs != [] && ApplyTx(ws, txs[0]).Ok? {
      assert TxOk(prims, ws0, txs[0]);
      DeltasKeepNonNegative(prims, ws0, ApplyTx(ws, txs[0]).value, txs[1..]);
    }
  }

  lemma MineKeepsBalances(prims: Primitives, s: State, timestamp: string, proof: int)
    requires Inv(prims, s)
    ensures var s' := MineNext(prims, s, timestamp, proof).state;
            BalancesOk(s') && WalletsOk(s') && History(s') == History(s)
  {
    var s' := MineNext(prims, s, timestamp, proof).state;
    var b := s'.chain[|s.chain|];
    var d := ApplyDeltas(s.wallets, s.pending);
    PendingOk(prims, s);
    PendingDistinct(prims, s.wallets, s.pending);
    DeltasMoveTotals(s.wallets, s.pending);
    DeltasKeepNonNegative(prims, s.wallets, s.wallets, s.pending);
    AppliedSnoc(s.chain, s.applied, b, d.done);
    var before := AppliedTransactions(s.chain, s.applied);
    forall id | id in s'.wallets
      ensures s'.wallets[id].balance == Total(Credits, id, AppliedTransactions(s'.chain, s'.applied))
                                        - Total(Debits, id, AppliedTransactions(s'.chain, s'.applied))
    {
      TotalConcat(Credits, id, before, s.pending[..d.done]);
      TotalConcat(Debits, id, before, s.pending[..d.done]);
    }
    assert History(s') == History(s);
  }

  lemma PendingOk(prims: Primitives, s: State)
    requires TxsOk(prims, s.wallets, History(s))
    ensures TxsOk(prims, s.wallets, s.pending)
  {
    var n := |AllTransactions(s.chain)|;
    forall i | 0 <= i < |s.pending| ensures TxOk(prims, s.wallets, s.pending[i]) {
      assert History(s)[n + i] == s.pending[i];
    }
  }

  lemma MineKeeps(prims: Primitives, s: State, step: Step)
    requires step.Mine? && Inv(prims, s)
    ensures Inv(prims, Next(prims, s, step).state)
  {
    var s' := Next(prims, s, step).state;
    if IsLeastProof(prims, step.proof, s.chain[|s.chain| - 1].proof) {
      PendingOk(prims, s);
      StepGrows(prims, s, step);
      MineKeepsBalances(prims, s, step.timestamp, step.proof);
      TxsOkGrow(prims, s.wallets, s'.wallets, History(s));
      TxsOkGrow(prims, s.wallets, s'.wallets, s.pending);
      ValidChainGrows(prims, s.wallets, s'.wallets, s.chain);
      var b := s'.chain[|s.chain|];
      PendingValid(prims, s'.wallets, b.transactions);
      ExtendValid(prims, Some(s'.wallets), s.chain, b);
    }
  }

  lemma PendingValid(prims: Primitives, ws: WalletMap, txs: seq<Transaction>)
    requires TxsOk(prims, ws, txs)
    ensures ValidTxs(prims, Some(ws), txs)
  {
    forall i | 0 <= i < |txs| ensures ValidTx(prims, ws, txs[i]) {
      assert TxOk(prims, ws, txs[i]);
    }
  }

  lemma StepKeepsInv(prims: Primitives, s: State, step: Step)
    requires Inv(prims, s)
    ensures Inv(prims, Next(prims, s, step).state)
  {
    match step
    case CreateWallet(_, _, _, _, _) => CreateWalletKeeps(prims, s, step);
    case SetRate(_, _, _, _) => SetRateKeeps(prims, s, step);
    case SyncRate(_, _, _, _) => SetRateKeeps(prims, s, step);
    case SetFrozen(_, _) => SetFrozenKeeps(prims, s, step);
    case Submit(_, _, _, _) => SubmitKeeps(prims, s, step);
    case Mint(_, _, _, _) => MintKeeps(prims, s, step);
    case Mine(_, _) => MineKeeps(prims, s, step);
  }

  /** The invariant holds after every run. */
  lemma {:induction false} RunKeepsInv(prims: Primitives, timestamp: string, steps: seq<Step>)
    ensures Inv(prims, Run(prims, timestamp, steps))
    decreases |steps|
  {
    if steps == [] {
      var s := Init(prims, timestamp);
      GenesisValid(prims, Some(s.wallets), timestamp);
      assert s.chain[..0] == [];
      assert AllTransactions([]) == [] && s.chain[0].transactions == [];
      assert AllTransactions(s.chain) == [];
      assert AppliedTransactions(s.chain, s.applied) == [];
    } else {
      RunKeepsInv(prims, timestamp, steps[..|steps| - 1]);
      StepKeepsInv(prims, Run(prims, timestamp, steps[..|steps| - 1]), steps[|steps| - 1]);
    }
  }

  // ---------- Results over all runs ----------

  /** Balances are the fold, from zero, of the credits and debits of the applied transactions; none is negative. */
  lemma BalancesAreFold(prims: Primitives, timestamp: string, steps: seq<Step>, id: string)
    requires id in Run(prims, timestamp, steps).wallets
    ensures var s := Run(prims, timestamp, steps);
            && CountsFit(s.chain, s.applied)
            && var done := AppliedTransactions(s.chain, s.applied);
               && s.wallets[id].balance == Total(Credits, id, done) - Total(Debits, id, done)
               && s.wallets[id].balance >= 0.0
  {
    RunKeepsInv(prims, timestamp, steps);
  }

  /**
   * Supply of a currency: mints into it, plus converted credits arriving, less converted amounts leaving. Transfers
   * within the currency cancel.
   */
  lemma SupplyConserved(prims: Primitives, timestamp: string, steps: seq<Step>, currency: string)
    ensures var s := Run(prims, timestamp, steps);
            && (forall id :: id in s.order ==> id in s.wallets) && CountsFit(s.chain, s.applied)
            && var done := AppliedTransactions(s.chain, s.applied);
               SumBalances(s.order, s.wallets, Some(currency))
               == Minted(s.wallets, Some(currency), done) + Converted(s.wallets, currency, done)
  {
    var s := Run(prims, timestamp, steps);
    RunKeepsInv(prims, timestamp, steps);
    var done := AppliedTransactions(s.chain, s.applied);
    AppliedOk(prims, s);
    SumBalancesIsSumFlow(s.order, s.wallets, Some(currency), done);
    SumFlowIsSupplyChanges(s.order, s.wallets, Some(currency), done);
    AppliedConvert(prims, s.wallets, done);
    SupplyIsMintsAndConversions(s.wallets, currency, done);
  }

  lemma AppliedConvert(prims: Primitives, ws: WalletMap, txs: seq<Transaction>)
    requires forall tx :: tx in txs ==> TxOk(prims, ws, tx)
    ensures forall i :: 0 <= i < |txs| ==> ConvertsAcrossCurrencies(ws, txs[i])
  {
    forall i | 0 <= i < |txs| ensures ConvertsAcrossCurrencies(ws, txs[i]) {
      assert TxOk(prims, ws, txs[i]);
    }
  }

  /** On a single-currency node total supply is exactly what was minted, however many transfers ran. */
  lemma SingleCurrencySupplyIsMinted(prims: Primitives, timestamp: string, steps: seq<Step>, currency: string)
    requires forall id :: id in Run(prims, timestamp, steps).wallets ==>
               Run(prims, timestamp, steps).wallets[id].currency == currency
    ensures var s := Run(prims, timestamp, steps);
            && (forall id :: id in s.order ==> id in s.wallets) && CountsFit(s.chain, s.applied)
            && SumBalances(s.order, s.wallets, None)
               == Minted(s.wallets, None, AppliedTransactions(s.chain, s.applied))
  {
    var s := Run(prims, timestamp, steps);
    RunKeepsInv(prims, timestamp, steps);
    var done := AppliedTransactions(s.chain, s.applied);
    AppliedOk(prims, s);
    SumBalancesIsSumFlow(s.order, s.wallets, None, done);
    SumFlowIsSupplyChanges(s.order, s.wallets, None, done);
    AppliedConvert(prims, s.wallets, done);
    SupplyIsMints(s.wallets, currency, done);
  }

  /** A node whose mempool is fed by the signed and mint paths finds its own chain valid, always. */
  lemma ChainAlwaysValid(prims: Primitives, timestamp: string, steps: seq<Step>)
    ensures var s := Run(prims, timestamp, steps); ValidChain(prims, Some(s.wallets), s.chain)
  {
    RunKeepsInv(prims, timestamp, steps);
  }

  /** Along chain and mempool no wallet repeats a nonce: a signed transfer is admitted, and mined, at most once. */
  lemma NoTransferTwice(prims: Primitives, timestamp: string, steps: seq<Step>, i: nat, j: nat)
    requires var h := History(Run(prims, timestamp, steps));
             i < j < |h| && SameSender(h[i], h[j])
    ensures var s := Run(prims, timestamp, steps);
            var h := History(s);
            1 <= h[i].nonce < h[j].nonce <= LastNonce(s.nonces, h[i].senderWalletId)
  {
    RunKeepsInv(prims, timestamp, steps);
  }

  lemma RunSnoc(prims: Primitives, timestamp: string, steps: seq<Step>, step: Step)
    ensures Run(prims, timestamp, steps + [step]) == Next(prims, Run(prims, timestamp, steps), step).state
  {
    assert (steps + [step])[..|steps|] == steps;
  }

  lemma MineNextFrozen(prims: Primitives, s: State, mine: Step, id: string)
    requires Inv(prims, s) && mine.Mine? && id in s.wallets && s.wallets[id].frozen
    ensures var ws := Next(prims, s, mine).state.wallets; id in ws && ws[id] == s.wallets[id]
  {
    PendingOk(prims, s);
    PendingDistinct(prims, s.wallets, s.pending);
    DeltasMoveTotals(s.wallets, s.pending);
    MineWallets(prims, s, mine);
  }

  /** A mine step leaves every wallet that is frozen at that moment alone, also when its deltas raise part-way. */
  lemma MineLeavesFrozenAlone(prims: Primitives, timestamp: string, steps: seq<Step>, mine: Step, id: string)
    requires mine.Mine?
    requires var s := Run(prims, timestamp, steps); id in s.wallets && s.wallets[id].frozen
    ensures var s := Run(prims, timestamp, steps);
            var s' := Run(prims, timestamp, steps + [mine]);
            id in s'.wallets && s'.wallets[id] == s.wallets[id]
  {
    RunKeepsInv(prims, timestamp, steps);
    RunSnoc(prims, timestamp, steps, mine);
    MineNextFrozen(prims, Run(prims, timestamp, steps), mine, id);
  }

  /** The deltas of `txs` apply the first `done` of them: all that fit before the first that does not. */
  ghost predicate FittingPrefix(ws: WalletMap, txs: seq<Transaction>, done: nat) {
    && done <= |txs|
    && (forall i :: 0 <= i < done ==> Fits(ws, txs, i))
    && (done < |txs| ==> !Fits(ws, txs, done))
  }

  /**
   * What a mine step applies: the pending transactions up to the first that does not fit the balances at that
   * moment, and it raises exactly when there is one. The block records them all either way.
   */
  lemma MineAppliesFittingPrefix(prims: Primitives, s: State, timestamp: string, proof: int)
    requires Inv(prims, s)
    ensures var out := MineNext(prims, s, timestamp, proof);
            var n := |s.chain|;
            && |out.state.chain| == |out.state.applied| == n + 1
            && out.state.chain[n].transactions == s.pending && out.state.pending == []
            && FittingPrefix(s.wallets, s.pending, out.state.applied[n])
            && (out.error.None? <==> out.state.applied[n] == |s.pending|)
  {
    PendingOk(prims, s);
    PendingDistinct(prims, s.wallets, s.pending);
    DeltasStopAtFirstMisfit(s.wallets, s.pending);
  }

  /** Nobody named in the mempool is frozen, and each wallet has what its pending transfers together take. */
  ghost predicate PendingCovered(s: State) {
    && (forall i :: 0 <= i < |s.pending| && s.pending[i].receiverWalletId in s.wallets ==>
          !s.wallets[s.pending[i].receiverWalletId].frozen)
    && (forall i :: 0 <= i < |s.pending| && s.pending[i].senderWalletId in s.wallets ==>
          !s.wallets[s.pending[i].senderWalletId].frozen)
    && forall id :: id in s.wallets ==> Total(Debits, id, s.pending) <= s.wallets[id].balance
  }

  lemma CoveredSolvent(prims: Primitives, s: State)
    requires TxsOk(prims, s.wallets, s.pending) && PendingCovered(s)
    ensures Solvent(s.wallets, s.pending)
  {
    PendingDistinct(prims, s.wallets, s.pending);
    forall i | 0 <= i < |s.pending| ensures TxOk(prims, s.wallets, s.pending[i]) { }
  }

  /**
   * Where the mempool is covered a mine does not raise: every pending transaction is applied, and each wallet ends
   * with its balance plus all its pending credits less all its pending debits.
   */
  lemma CoveredMineCompletes(prims: Primitives, timestamp: string, steps: seq<Step>, mine: string, proof: int)
    requires PendingCovered(Run(prims, timestamp, steps))
    ensures var s := Run(prims, timestamp, steps);
            s.chain != []
            && var out := MineNext(prims, s, mine, proof);
               && out.error.None? && out.state.applied == s.applied + [|s.pending|]
               && SameButBalance(s.wallets, out.state.wallets)
               && forall id :: id in s.wallets ==>
                    out.state.wallets[id].balance
                    == s.wallets[id].balance + Total(Credits, id, s.pending) - Total(Debits, id, s.pending)
  {
    var s := Run(prims, timestamp, steps);
    RunKeepsInv(prims, timestamp, steps);
    PendingOk(prims, s);
    CoveredSolvent(prims, s);
    SolventBlockCompletes(s.wallets, s.pending);
  }
}
