/** What cross-currency credits are worth, call by call and over every run. */
module Pricing {
  import opened Conversion
  import opened Currencies
  import opened Decimals
  import opened Ledger
  import opened LedgerInvariants
  import opened Models
  import opened Wallets
  import opened Wrappers

  predicate FeesOk(rates: seq<ExchangeRate>) {
    forall i :: 0 <= i < |rates| ==> 0.0 <= rates[i].feeRate <= 1.0
  }

  /** The credit of `amount` at rate `r`: within one unit of the exact one; None when that is below one unit. */
  predicate PricedAt(r: ExchangeRate, amount: Decimal, net: Option<Decimal>) {
    NearExact(net, Exact(Product(amount, r.rate), r.feeRate))
  }

  /** `net` is the credit at the last rate set for the pair. */
  ghost predicate PricedAtLatest(rates: seq<ExchangeRate>, from: string, to: string, amount: Decimal,
                                 net: Option<Decimal>)
  {
    exists i: nat :: LastOfPair(rates, from, to, i) && PricedAt(rates[i], amount, net)
  }

  /** What a transfer of `amount` between two currencies is answered. */
  ghost predicate Priced(rates: seq<ExchangeRate>, from: string, to: string, amount: Decimal,
                         r: Result<Option<Decimal>, LedgerError>)
  {
    if from == to then r == Ok(None)
    else if PairUnset(rates, from, to) then r == Err(RateNotFound)
    else
      match r
      case Ok(net) => net.Some? && PricedAtLatest(rates, from, to, amount, net)
      case Err(e) => e == InvalidValue && PricedAtLatest(rates, from, to, amount, None)
  }

  lemma ReceiverAmountPriced(rates: seq<ExchangeRate>, from: string, to: string, amount: Decimal)
    requires FeesOk(rates) && from != "" && to != ""
    ensures Priced(rates, from, to, amount, ReceiverAmount(rates, from, to, amount))
  {
    if from != to {
      LatestRateFirst(rates, from, to);
      if !PairUnset(rates, from, to) {
        var i: nat :| LastOfPair(rates, from, to, i)
                      && ListExchangeRates(rates, Some(from), Some(to), 1) == [rates[i]];
        ConvertNearExact(amount, rates[i].rate, rates[i].feeRate);
        var net := Convert(amount, rates[i].rate, rates[i].feeRate);
        assert PricedAt(rates[i], amount, net);
      }
    }
  }

  /** A later rate for the opposite direction is not taken: 100 from USD to EUR at 0.92 less 2% credits 90.16. */
  lemma OppositeRateIgnored()
    ensures var rates := [ExchangeRate(1, "USD", "EUR", 0.92, 0.02, "MANUAL"),
                          ExchangeRate(2, "EUR", "USD", 1.10, 0.0, "MANUAL")];
            && ReceiverAmount(rates, "USD", "EUR", Decimal(false, 100, 0)) == Ok(Some(Decimal(false, 9016000000, -8)))
            && ReceiverAmount(rates[1..], "USD", "EUR", Decimal(false, 100, 0)) == Err(RateNotFound)
  {
    var rates := [ExchangeRate(1, "USD", "EUR", 0.92, 0.02, "MANUAL"),
                  ExchangeRate(2, "EUR", "USD", 1.10, 0.0, "MANUAL")];
    assert "USD"[0] != "EUR"[0];
    assert LastOfPair(rates, "USD", "EUR", 0);
    LatestRateFirst(rates, "USD", "EUR");
    LatestRateFirst(rates[1..], "USD", "EUR");
    assert PairUnset(rates[1..], "USD", "EUR");
    ConversionVector();
  }

  /** What "exact" means, written out. */
  lemma ExactIs(amount: Decimal, rate: real, feeRate: real)
    ensures Exact(Product(amount, rate), feeRate) == amount.Value() * rate * (1.0 - feeRate)
  {
  }

  // ---------- Over all runs ----------

  /** A converted credit was priced at the last rate its pair had at some moment of the rate log. */
  ghost predicate CreditPriced(ws: WalletMap, rates: seq<ExchangeRate>, tx: Transaction) {
    tx.IsTransfer() && tx.receiverAmount.Some? ==>
      && tx.senderWalletId in ws && tx.receiverWalletId in ws
      && var from, to := ws[tx.senderWalletId].currency, ws[tx.receiverWalletId].currency;
         exists n: nat :: n <= |rates| && PricedAtLatest(rates[..n], from, to, tx.amount, tx.receiverAmount)
  }

  /** A transfer carries a credit iff its wallets differ in currency, and then one priced at the present rates. */
  ghost predicate PricedNow(s: State, tx: Transaction) {
    && tx.senderWalletId in s.wallets && tx.receiverWalletId in s.wallets
    && var from, to := s.wallets[tx.senderWalletId].currency, s.wallets[tx.receiverWalletId].currency;
       if from == to then tx.receiverAmount == None
       else tx.receiverAmount.Some? && PricedAtLatest(s.rates, from, to, tx.amount, tx.receiverAmount)
  }

  ghost predicate NamedCurrencies(ws: WalletMap) { forall id :: id in ws ==> ws[id].currency != "" }

  ghost predicate PricedState(s: State) {
    && FeesOk(s.rates) && NamedCurrencies(s.wallets)
    && forall i :: 0 <= i < |History(s)| ==> CreditPriced(s.wallets, s.rates, History(s)[i])
  }

  lemma CreditStaysPriced(ws: WalletMap, ws': WalletMap, rates: seq<ExchangeRate>, rates': seq<ExchangeRate>,
                          tx: Transaction)
    requires Grows(ws, ws') && rates <= rates' && CreditPriced(ws, rates, tx)
    ensures CreditPriced(ws', rates', tx)
  {
    if tx.IsTransfer() && tx.receiverAmount.Some? {
      var from, to := ws[tx.senderWalletId].currency, ws[tx.receiverWalletId].currency;
      var n: nat :| n <= |rates| && PricedAtLatest(rates[..n], from, to, tx.amount, tx.receiverAmount);
      assert rates'[..n] == rates[..n];
    }
  }

  lemma HistoryStaysPriced(s: State, s': State)
    requires PricedState(s) && Grows(s.wallets, s'.wallets) && s.rates <= s'.rates && FeesOk(s'.rates)
    requires NamedCurrencies(s'.wallets)
    requires History(s') == History(s)
    ensures PricedState(s')
  {
    forall i | 0 <= i < |History(s')| ensures CreditPriced(s'.wallets, s'.rates, History(s')[i]) {
      CreditStaysPriced(s.wallets, s'.wallets, s.rates, s'.rates, History(s)[i]);
    }
  }

  /** What `build_transaction` returns is priced at the rates of that moment. */
  lemma BuiltPriced(prims: Primitives, s: State, req: SignedRequest, senderName: string, receiverName: string)
    requires FeesOk(s.rates) && NamedCurrencies(s.wallets)
    requires BuildTransaction(prims, s.wallets, s.nonces, s.rates, req, senderName, receiverName).Ok?
    ensures var tx := BuildTransaction(prims, s.wallets, s.nonces, s.rates, req, senderName, receiverName).value;
            && PricedNow(s, tx) && CreditPriced(s.wallets, s.rates, tx)
  {
    var tx := BuildTransaction(prims, s.wallets, s.nonces, s.rates, req, senderName, receiverName).value;
    var from, to := s.wallets[req.senderWalletId].currency, s.wallets[req.receiverWalletId].currency;
    ReceiverAmountPriced(s.rates, from, to, req.amount);
    if tx.receiverAmount.Some? {
      assert s.rates[..|s.rates|] == s.rates;
      assert PricedAtLatest(s.rates[..|s.rates|], from, to, tx.amount, tx.receiverAmount);
    }
  }

  lemma QueuedStaysPriced(s: State, s': State, tx: Transaction)
    requires PricedState(s) && CreditPriced(s.wallets, s.rates, tx)
    requires s' == s.(pending := s.pending + [tx], nonces := s'.nonces)
    ensures PricedState(s')
  {
    assert History(s') == History(s) + [tx];
  }

  /** What a step adds to the mempool is priced at the rates of that moment. */
  lemma AddedPriced(prims: Primitives, s: State, step: Step)
    requires FeesOk(s.rates) && NamedCurrencies(s.wallets)
    requires (step.Submit? || step.Mint?) && Next(prims, s, step).error.None?
    ensures var s' := Next(prims, s, step).state;
            |s'.pending| == |s.pending| + 1 && CreditPriced(s.wallets, s.rates, s'.pending[|s.pending|])
  {
    if step.Submit? {
      BuiltPriced(prims, s, ParseSigned(step.request).value, step.senderName, step.receiverName);
    }
  }

  lemma QueueKeepsPriced(prims: Primitives, s: State, step: Step)
    requires PricedState(s) && (step.Submit? || step.Mint?)
    ensures PricedState(Next(prims, s, step).state)
  {
    var out := Next(prims, s, step);
    AdmissionShape(prims, s, step);
    if out.error.Some? {
      assert History(out.state) == History(s);
      HistoryStaysPriced(s, out.state);
    } else {
      AddedPriced(prims, s, step);
      QueuedStaysPriced(s, out.state, out.state.pending[|s.pending|]);
    }
  }

  lemma StepKeepsPriced(prims: Primitives, s: State, step: Step)
    requires Inv(prims, s) && PricedState(s)
    ensures PricedState(Next(prims, s, step).state)
  {
    var s' := Next(prims, s, step).state;
    if step.Submit? || step.Mint? {
      QueueKeepsPriced(prims, s, step);
    } else {
      PendingOk(prims, s);
      StepGrows(prims, s, step);
      if step.Mine? {
        MineKeepsBalances(prims, s, step.timestamp, step.proof);
        MineKeepsKeys(prims, s, step);
      }
      assert History(s') == History(s);
      HistoryStaysPriced(s, s');
    }
  }

  /**
   * In every run each converted credit, queued or mined, is within one unit of amount * rate * (1 - fee rate) at the
   * last rate set for its pair when it was queued, whatever rates the feed delivered.
   */
  lemma {:induction false} CreditsArePriced(prims: Primitives, timestamp: string, steps: seq<Step>)
    ensures PricedState(Run(prims, timestamp, steps))
    decreases |steps|
  {
    if steps == [] {
      assert AllTransactions(Init(prims, timestamp).chain) == [] by {
        assert Init(prims, timestamp).chain[..0] == [];
        assert AllTransactions([]) == [];
      }
    } else {
      var front := steps[..|steps| - 1];
      CreditsArePriced(prims, timestamp, front);
      RunKeepsInv(prims, timestamp, front);
      StepKeepsPriced(prims, Run(prims, timestamp, front), steps[|steps| - 1]);
    }
  }

  /** After any run, a transfer that is queued carries its credit at the last rate set for its pair by then. */
  lemma QueuedAtLatestRate(prims: Primitives, timestamp: string, steps: seq<Step>, submit: Step)
    requires submit.Submit? && Next(prims, Run(prims, timestamp, steps), submit).error.None?
    ensures var s := Run(prims, timestamp, steps);
            var s' := Run(prims, timestamp, steps + [submit]);
            && |s'.pending| == |s.pending| + 1 && s'.pending[..|s.pending|] == s.pending
            && PricedNow(s, s'.pending[|s.pending|])
  {
    var s := Run(prims, timestamp, steps);
    CreditsArePriced(prims, timestamp, steps);
    RunSnoc(prims, timestamp, steps, submit);
    BuiltPriced(prims, s, ParseSigned(submit.request).value, submit.senderName, submit.receiverName);
  }
}
