/** What each step of the ledger stores, said of the fields it touches, and what then stays over runs. */
module LedgerLaws {
  import opened Conversion
  import opened Currencies
  import opened Decimals
  import opened Ledger
  import opened LedgerInvariants
  import opened LedgerResults
  import opened Models
  import opened Pricing
  import opened Wallets
  import opened Wrappers

  // ---------- Wallets ----------

  /** A new wallet holds what it was asked for, nothing and unfrozen; an id that is taken is refused without effect. */
  lemma WalletCreated(prims: Primitives, s: State, step: Step)
    requires step.CreateWallet?
    ensures var out, id := Next(prims, s, step), "w_" + step.token;
            if id in s.wallets then out == Outcome(s, Some(WalletExists(id)))
            else
              && out.error.None? && out.state == s.(wallets := out.state.wallets, order := s.order + [id])
              && out.state.wallets.Keys == s.wallets.Keys + {id}
              && (forall other :: other in s.wallets ==> out.state.wallets[other] == s.wallets[other])
              && var w := out.state.wallets[id];
                 && w.walletId == id && w.userId == step.userId && w.publicKey == step.publicKey
                 && w.currency == (if step.currency == "" then "NATIVE" else step.currency)
                 && w.walletType == step.walletType && w.balance == 0.0 && !w.frozen
  {
  }

  /** The step that made a wallet. */
  ghost predicate MadeBy(step: Step, id: string, w: Wallet) {
    && step.CreateWallet? && id == "w_" + step.token && w.walletId == id
    && w.userId == step.userId && w.publicKey == step.publicKey && w.walletType == step.walletType
    && w.currency == if step.currency == "" then "NATIVE" else step.currency
  }

  /** In every run each wallet still has the owner, key, currency and type some step created it with. */
  lemma {:induction false} WalletsAsCreated(prims: Primitives, timestamp: string, steps: seq<Step>, id: string)
    returns (k: nat)
    requires id in Run(prims, timestamp, steps).wallets
    ensures k < |steps| && MadeBy(steps[k], id, Run(prims, timestamp, steps).wallets[id])
    decreases |steps|
  {
    var n := |steps| - 1;
    var front, step := steps[..n], steps[n];
    var s := Run(prims, timestamp, front);
    RunKeepsInv(prims, timestamp, front);
    PendingOk(prims, s);
    StepGrows(prims, s, step);
    if id in s.wallets {
      k := WalletsAsCreated(prims, timestamp, front, id);
    } else {
      OnlyCreationAdds(prims, s, step, id);
      WalletCreated(prims, s, step);
      k := n;
    }
  }

  lemma OnlyCreationAdds(prims: Primitives, s: State, step: Step, id: string)
    requires TxsOk(prims, s.wallets, s.pending)
    requires id !in s.wallets && id in Next(prims, s, step).state.wallets
    ensures step.CreateWallet? && id == "w_" + step.token
  {
    if step.Mine? { MineKeepsKeys(prims, s, step); }
  }

  // ---------- Freezing ----------

  /** Freezing stores the flag it is given, and nothing else; an unknown wallet is refused without effect. */
  lemma FreezeStored(prims: Primitives, s: State, id: string, frozen: bool)
    ensures var out := Next(prims, s, SetFrozen(id, frozen));
            if id !in s.wallets then out == Outcome(s, Some(WalletNotFound(id)))
            else
              && out.error.None? && out.state == s.(wallets := out.state.wallets)
              && out.state.wallets.Keys == s.wallets.Keys
              && (forall other :: other in s.wallets && other != id ==> out.state.wallets[other] == s.wallets[other])
              && var w, w' := s.wallets[id], out.state.wallets[id];
                 && w'.frozen == frozen
                 && w'.walletId == w.walletId && w'.userId == w.userId && w'.currency == w.currency
                 && w'.walletType == w.walletType && w'.balance == w.balance && w'.publicKey == w.publicKey
  {
  }

  lemma FrozenStep(prims: Primitives, s: State, step: Step, id: string)
    requires Inv(prims, s) && id in s.wallets && s.wallets[id].frozen && step != SetFrozen(id, false)
    ensures var ws := Next(prims, s, step).state.wallets; id in ws && ws[id] == s.wallets[id]
  {
    if step.Mine? { MineNextFrozen(prims, s, step, id); }
  }

  lemma FrozenNext(prims: Primitives, timestamp: string, steps: seq<Step>, step: Step, id: string)
    requires var ws := Run(prims, timestamp, steps).wallets; id in ws && ws[id].frozen
    requires step != SetFrozen(id, false)
    ensures var ws, ws' := Run(prims, timestamp, steps).wallets, Run(prims, timestamp, steps + [step]).wallets;
            id in ws' && ws'[id] == ws[id]
  {
    RunKeepsInv(prims, timestamp, steps);
    FrozenStep(prims, Run(prims, timestamp, steps), step, id);
    RunSnoc(prims, timestamp, steps, step);
  }

  /** No step sets the flag back. */
  predicate NeverUnfreezes(steps: seq<Step>, id: string) {
    forall i :: 0 <= i < |steps| ==> steps[i] != SetFrozen(id, false)
  }

  /** A frozen wallet stays as it is, to its last field, until a step unfreezes it. */
  lemma {:induction false} FrozenStays(prims: Primitives, timestamp: string, steps: seq<Step>, id: string,
                                       later: seq<Step>)
    requires var ws := Run(prims, timestamp, steps).wallets; id in ws && ws[id].frozen
    requires NeverUnfreezes(later, id)
    ensures var ws, ws' := Run(prims, timestamp, steps).wallets, Run(prims, timestamp, steps + later).wallets;
            id in ws' && ws'[id] == ws[id]
    decreases |later|
  {
    if later == [] {
      assert steps + later == steps;
    } else {
      var front, step := later[..|later| - 1], later[|later| - 1];
      var before := steps + front;
      assert steps + later == before + [step];
      FrozenStays(prims, timestamp, steps, id, front);
      FrozenNext(prims, timestamp, before, step, id);
    }
  }

  /** The admissions that name a wallet on either side. */
  predicate Names(step: Step, id: string) {
    match step
    case Submit(_, request, _, _) => Strip(request.senderWalletId) == id || Strip(request.receiverWalletId) == id
    case Mint(walletId, _, _, _) => Strip(walletId) == id
    case _ => false
  }

  lemma FrozenRefused(prims: Primitives, s: State, step: Step, id: string)
    requires "" !in s.wallets && id in s.wallets && s.wallets[id].frozen && Names(step, id)
    ensures Next(prims, s, step).error.Some? && Next(prims, s, step).state == s
  {
    if step.Submit? {
      SubmitQueuedIff(prims, s, step.currentUser, step.request, step.senderName, step.receiverName);
    } else {
      MintQueuedIff(s, step.mintWalletId, step.amount, step.mintReceiverName, step.adminName);
    }
  }

  /**
   * Freezing takes effect and lasts: from SetFrozen(id, true) on, and until a SetFrozen(id, false), no step changes
   * the wallet, and every transfer from or to it and every mint into it is refused without a trace.
   */
  lemma FreezeHolds(prims: Primitives, timestamp: string, steps: seq<Step>, id: string, later: seq<Step>, step: Step)
    requires id in Run(prims, timestamp, steps).wallets && NeverUnfreezes(later, id)
    ensures var before := Run(prims, timestamp, steps).wallets[id];
            var s := Run(prims, timestamp, steps + [SetFrozen(id, true)] + later);
            && id in s.wallets && s.wallets[id].frozen && s.wallets[id].balance == before.balance
            && (Names(step, id) ==> Next(prims, s, step).error.Some? && Next(prims, s, step).state == s)
            && (step.Mine? ==> id in Next(prims, s, step).state.wallets
                               && Next(prims, s, step).state.wallets[id] == s.wallets[id])
  {
    var freeze := steps + [SetFrozen(id, true)];
    RunSnoc(prims, timestamp, steps, SetFrozen(id, true));
    FreezeStored(prims, Run(prims, timestamp, steps), id, true);
    FrozenStays(prims, timestamp, freeze, id, later);
    RunKeepsInv(prims, timestamp, freeze + later);
    var s := Run(prims, timestamp, freeze + later);
    if Names(step, id) { FrozenRefused(prims, s, step, id); }
    if step.Mine? { FrozenStep(prims, s, step, id); }
  }

  // ---------- Rates ----------

  function CodeOf(code: string): string { if code == "" then "NATIVE" else code }

  /** The fee a rate step stores: the admin's, or none from the feed. */
  function FeeOf(put: Step): real
    requires put.SetRate? || put.SyncRate?
  {
    if put.SetRate? then put.feeRate else 0.0
  }

  /** A rate step appends one record with its own codes, rate and fee, or is refused without effect. */
  lemma RateStored(prims: Primitives, s: State, put: Step)
    requires put.SetRate? || put.SyncRate?
    ensures var out, n := Next(prims, s, put), |s.rates|;
            && (out.error.Some? <==> put.SetRate? && (CodeOf(put.from) == CodeOf(put.to) || put.rate <= 0.0
                                                      || put.feeRate < 0.0 || put.feeRate > 1.0))
            && (out.error.Some? ==> out == Outcome(s, Some(InvalidValue)))
            && (out.error.None? ==>
                  && |out.state.rates| == n + 1 && out.state.rates[..n] == s.rates
                  && out.state == s.(rates := out.state.rates)
                  && var r := out.state.rates[n];
                     && r.fromCurrency == CodeOf(put.from) && r.toCurrency == CodeOf(put.to)
                     && r.rate == put.rate && r.feeRate == FeeOf(put) && r.rateId == n + 1
                     && r.source == if put.SetRate? then "MANUAL" else put.provider)
  {
  }

  /** The step sets a rate from `from` to `to`. */
  predicate SetsPair(step: Step, from: string, to: string) {
    (step.SetRate? || step.SyncRate?) && CodeOf(step.from) == from && CodeOf(step.to) == to
  }

  lemma RatesStep(prims: Primitives, s: State, step: Step)
    ensures var rates := Next(prims, s, step).state.rates;
            rates == s.rates
            || (&& |rates| == |s.rates| + 1 && rates[..|s.rates|] == s.rates
                && SetsPair(step, rates[|s.rates|].fromCurrency, rates[|s.rates|].toCurrency))
  {
    if step.SetRate? || step.SyncRate? { RateStored(prims, s, step); }
  }

  /** The last record of a pair stays the last while no step sets the pair. */
  lemma {:induction false} LastStays(prims: Primitives, timestamp: string, steps: seq<Step>, from: string, to: string,
                                     n: nat, later: seq<Step>)
    requires LastOfPair(Run(prims, timestamp, steps).rates, from, to, n)
    requires forall i :: 0 <= i < |later| ==> !SetsPair(later[i], from, to)
    ensures var rates := Run(prims, timestamp, steps + later).rates;
            LastOfPair(rates, from, to, n) && rates[n] == Run(prims, timestamp, steps).rates[n]
    decreases |later|
  {
    if later == [] {
      assert steps + later == steps;
    } else {
      var front, step := later[..|later| - 1], later[|later| - 1];
      var before := steps + front;
      assert steps + later == before + [step];
      LastStays(prims, timestamp, steps, from, to, n, front);
      StandsNext(prims, timestamp, before, step, from, to, n);
    }
  }

  /** A rate step's record is the last of its pair while no later step sets that pair. */
  lemma RateStands(prims: Primitives, timestamp: string, steps: seq<Step>, put: Step, later: seq<Step>)
    requires (put.SetRate? || put.SyncRate?) && Next(prims, Run(prims, timestamp, steps), put).error.None?
    requires forall i :: 0 <= i < |later| ==> !SetsPair(later[i], CodeOf(put.from), CodeOf(put.to))
    ensures var n := |Run(prims, timestamp, steps).rates|;
            var rates := Run(prims, timestamp, steps + [put] + later).rates;
            && LastOfPair(rates, CodeOf(put.from), CodeOf(put.to), n)
            && rates[n].rate == put.rate && rates[n].feeRate == FeeOf(put)
  {
    var s := Run(prims, timestamp, steps);
    RunSnoc(prims, timestamp, steps, put);
    RateStored(prims, s, put);
    LastStays(prims, timestamp, steps + [put], CodeOf(put.from), CodeOf(put.to), |s.rates|, later);
  }

  lemma StandsAfter(rates: seq<ExchangeRate>, rates': seq<ExchangeRate>, from: string, to: string, n: nat, step: Step)
    requires LastOfPair(rates, from, to, n) && !SetsPair(step, from, to)
    requires rates' == rates
             || (|rates'| == |rates| + 1 && rates'[..|rates|] == rates
                 && SetsPair(step, rates'[|rates|].fromCurrency, rates'[|rates|].toCurrency))
    ensures LastOfPair(rates', from, to, n) && rates'[n] == rates[n]
  {
    assert forall i :: 0 <= i < |rates| ==> rates'[i] == rates[i];
  }

  lemma StandsNext(prims: Primitives, timestamp: string, steps: seq<Step>, step: Step, from: string, to: string, n: nat)
    requires LastOfPair(Run(prims, timestamp, steps).rates, from, to, n) && !SetsPair(step, from, to)
    ensures var rates := Run(prims, timestamp, steps + [step]).rates;
            LastOfPair(rates, from, to, n) && rates[n] == Run(prims, timestamp, steps).rates[n]
  {
    var s := Run(prims, timestamp, steps);
    RunSnoc(prims, timestamp, steps, step);
    RatesStep(prims, s, step);
    StandsAfter(s.rates, Next(prims, s, step).state.rates, from, to, n, step);
  }

  /** A rate, once set, prices its own pair and direction. */
  lemma TransferUsesRate(prims: Primitives, timestamp: string, steps: seq<Step>, put: Step, later: seq<Step>,
                         submit: Step)
    requires (put.SetRate? || put.SyncRate?) && Next(prims, Run(prims, timestamp, steps), put).error.None?
    requires forall i :: 0 <= i < |later| ==> !SetsPair(later[i], CodeOf(put.from), CodeOf(put.to))
    requires submit.Submit? && CodeOf(put.from) != CodeOf(put.to)
    requires var s := Run(prims, timestamp, steps + [put] + later);
             var from, to := Strip(submit.request.senderWalletId), Strip(submit.request.receiverWalletId);
             && from in s.wallets && s.wallets[from].currency == CodeOf(put.from)
             && to in s.wallets && s.wallets[to].currency == CodeOf(put.to)
             && Next(prims, s, submit).error.None?
    ensures var s := Run(prims, timestamp, steps + [put] + later);
            var pending := Next(prims, s, submit).state.pending;
            && |pending| == |s.pending| + 1
            && var tx := pending[|s.pending|];
               && tx.amount == submit.request.amount && tx.receiverAmount.Some?
               && NearExact(tx.receiverAmount, Exact(Product(tx.amount, put.rate), FeeOf(put)))
  {
    var all := steps + [put] + later;
    var s := Run(prims, timestamp, all);
    RateStands(prims, timestamp, steps, put, later);
    QueuedAtLatestRate(prims, timestamp, all, submit);
    RunSnoc(prims, timestamp, all, submit);
    SubmitQueuedIff(prims, s, submit.currentUser, submit.request, submit.senderName, submit.receiverName);
    var tx := Next(prims, s, submit).state.pending[|s.pending|];
    SamePrice(s.rates, CodeOf(put.from), CodeOf(put.to), |Run(prims, timestamp, steps).rates|, tx.amount,
              tx.receiverAmount);
  }

  lemma SamePrice(rates: seq<ExchangeRate>, from: string, to: string, n: nat, amount: Decimal, net: Option<Decimal>)
    requires LastOfPair(rates, from, to, n) && PricedAtLatest(rates, from, to, amount, net)
    ensures PricedAt(rates[n], amount, net)
  {
    var i: nat :| LastOfPair(rates, from, to, i) && PricedAt(rates[i], amount, net);
    assert i == n;
  }

  // ---------- Admission ----------

  /** The request is one the parser refuses. */
  predicate Malformed(raw: SignedRequest) {
    || Strip(raw.senderWalletId) == "" || Strip(raw.receiverWalletId) == ""
    || Strip(raw.senderWalletId) == Strip(raw.receiverWalletId) || Strip(raw.signature) == ""
    || raw.amount.Value() <= 0.0 || raw.nonce <= 0
  }

  /** Which refusal a submission gets: the first that applies, in this order. */
  lemma SubmitRefusal(prims: Primitives, s: State, user: string, raw: SignedRequest,
                      senderName: string, receiverName: string)
    ensures var from, to := Strip(raw.senderWalletId), Strip(raw.receiverWalletId);
            var error := SubmitNext(prims, s, user, raw, senderName, receiverName).error;
            if Malformed(raw) then error == Some(InvalidValue)
            else if from !in s.wallets then error == Some(WalletNotFound(from))
            else if to !in s.wallets then error == Some(WalletNotFound(to))
            else if s.wallets[from].userId != user then error == Some(NotOwner)
            else if s.wallets[from].frozen then error == Some(WalletFrozen(from))
            else if s.wallets[to].frozen then error == Some(WalletFrozen(to))
            else if s.wallets[from].balance < raw.amount.Value() then error == Some(InsufficientBalance(from))
            else
              match ReceiverAmount(s.rates, s.wallets[from].currency, s.wallets[to].currency, raw.amount)
              case Err(e) => error == Some(e)
              case Ok(_) =>
                if !prims.Verify(s.wallets[from].publicKey, Strip(raw.signature), CanonicalMessageOf(from, to, raw))
                then error == Some(SignatureRejected(from))
                else if raw.nonce <= LastNonce(s.nonces, from) then error == Some(NonceReplay(from))
                else if !NamesOk(senderName, receiverName) then error == Some(InvalidValue)
                else error == None
  {
    SubmitQueuedIff(prims, s, user, raw, senderName, receiverName);
  }

  /** Which refusal a mint gets: the first that applies, in this order. */
  lemma MintRefusal(s: State, walletId: string, amount: Decimal, receiverName: string, adminName: string)
    ensures var id := Strip(walletId);
            var error := MintNext(s, walletId, amount, receiverName, adminName).error;
            if id == "" || amount.Value() <= 0.0 then error == Some(InvalidValue)
            else if id !in s.wallets then error == Some(WalletNotFound(id))
            else if s.wallets[id].frozen then error == Some(WalletFrozen(id))
            else if Strip(receiverName) == "" || receiverName == "COINBASE(" + adminName + ")" then
              error == Some(InvalidValue)
            else error == None
  {
    BlankIffStripped(receiverName);
    assert ("COINBASE(" + adminName + ")")[0] == 'C';
  }

  /** What a mint queues, field by field. */
  lemma MintQueues(prims: Primitives, s: State, mint: Step)
    requires mint.Mint? && Next(prims, s, mint).error.None?
    ensures var s' := Next(prims, s, mint).state;
            && |s'.pending| == |s.pending| + 1 && s' == s.(pending := s'.pending)
            && s'.pending[..|s.pending|] == s.pending
            && var tx := s'.pending[|s.pending|];
               && tx.sender == "COINBASE(" + mint.adminName + ")" && tx.receiver == mint.mintReceiverName
               && tx.amount == mint.amount && tx.receiverAmount == None
               && tx.senderWalletId == "" && tx.receiverWalletId == Strip(mint.mintWalletId)
               && tx.nonce == 0 && tx.signature == "MINT"
  {
  }

  // ---------- Mining ----------

  /** The mined block, field by field, and what the step leaves alone. */
  lemma MinedBlock(prims: Primitives, s: State, timestamp: string, proof: int)
    requires s.chain != []
    ensures var s', n := MineNext(prims, s, timestamp, proof).state, |s.chain|;
            && |s'.chain| == n + 1 && s'.chain[..n] == s.chain && s'.pending == []
            && s'.order == s.order && s'.nonces == s.nonces && s'.rates == s.rates
            && var b := s'.chain[n];
               && b.index == n + 1 && b.timestamp == timestamp && b.proof == proof
               && b.previousHash == HashBlock(s.chain[n - 1]) && b.transactions == s.pending
  {
  }

  /** The genesis block, field by field. */
  lemma FirstBlock(prims: Primitives, timestamp: string)
    ensures var s := Init(prims, timestamp);
            && |s.chain| == 1 && s.wallets == map[] && s.pending == [] && s.nonces == map[] && s.rates == []
            && var b := s.chain[0];
               && b.index == 1 && b.timestamp == timestamp && b.proof == 1
               && b.previousHash == Text("0") && b.transactions == []
  {
  }
}
