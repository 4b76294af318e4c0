/** What block deltas do to balances: sums of credits and debits, completion, order independence, supply. */
module Balances {
  import opened Models
  import opened Wallets
  import opened Wrappers

  datatype Side = Credits | Debits

  /** What one transaction adds to, or takes from, wallet `id`. */
  function Amount(side: Side, id: string, tx: Transaction): real {
    match side
    case Credits =>
      if tx.IsMint() then (if tx.receiverWalletId != "" && tx.receiverWalletId == id then tx.amount.Value() else 0.0)
      else if tx.IsTransfer() && tx.receiverWalletId == id then tx.CreditAmount().Value()
      else 0.0
    case Debits =>
      if tx.IsTransfer() && tx.senderWalletId == id then tx.amount.Value() else 0.0
  }

  function Total(side: Side, id: string, txs: seq<Transaction>): real {
    if txs == [] then 0.0 else Amount(side, id, txs[0]) + Total(side, id, txs[1..])
  }

  /** Transfers name two different wallets: what the signed-request parser establishes. */
  predicate Distinct(txs: seq<Transaction>) {
    forall i :: 0 <= i < |txs| && txs[i].IsTransfer() ==> txs[i].senderWalletId != txs[i].receiverWalletId
  }

  lemma {:induction false} TotalConcat(side: Side, id: string, a: seq<Transaction>, b: seq<Transaction>)
    ensures Total(side, id, a + b) == Total(side, id, a) + Total(side, id, b)
  {
    if a == [] {
      assert a + b == b;
    } else {
      TotalConcat(side, id, a[1..], b);
      assert (a + b)[0] == a[0] && (a + b)[1..] == a[1..] + b;
    }
  }

  /** Same records except for the balances. */
  predicate SameButBalance(ws: WalletMap, ws': WalletMap) {
    ws.Keys == ws'.Keys && forall id :: id in ws ==> ws'[id] == ws[id].(balance := ws'[id].balance)
  }

  lemma ApplyTxEffect(ws: WalletMap, tx: Transaction)
    requires tx.IsTransfer() ==> tx.senderWalletId != tx.receiverWalletId
    requires ApplyTx(ws, tx).Ok?
    ensures var ws' := ApplyTx(ws, tx).value;
            && SameButBalance(ws, ws')
            && (forall id :: id in ws ==>
                  ws'[id].balance == ws[id].balance + Amount(Credits, id, tx) - Amount(Debits, id, tx))
            && (forall id :: id in ws && ws[id].frozen ==> ws'[id] == ws[id])
  {
  }

  /** Balances move by the credits and debits of the transactions that took effect; a frozen wallet not at all. */
  lemma {:induction false} DeltasMoveTotals(ws: WalletMap, txs: seq<Transaction>)
    requires Distinct(txs)
    ensures var d := ApplyDeltas(ws, txs);
            && SameButBalance(ws, d.wallets)
            && (forall id :: id in ws ==>
                  d.wallets[id].balance
                  == ws[id].balance + Total(Credits, id, txs[..d.done]) - Total(Debits, id, txs[..d.done]))
            && (forall id :: id in ws && ws[id].frozen ==> d.wallets[id] == ws[id])
  {
    var d := ApplyDeltas(ws, txs);
    if txs != [] && ApplyTx(ws, txs[0]).Ok? {
      var ws' := ApplyTx(ws, txs[0]).value;
      ApplyTxEffect(ws, txs[0]);
      DeltasMoveTotals(ws', txs[1..]);
      assert txs[..d.done][0] == txs[0] && txs[..d.done][1..] == txs[1..][..d.done - 1];
    }
  }

  // ---------- When a block's deltas complete ----------

  /** Transaction `i` finds its wallets, unfrozen, and enough balance after the ones before it, read off the start. */
  predicate Fits(ws: WalletMap, txs: seq<Transaction>, i: nat)
    requires i < |txs|
  {
    var tx := txs[i];
    if tx.IsMint() then
      tx.receiverWalletId != "" ==> tx.receiverWalletId in ws && !ws[tx.receiverWalletId].frozen
    else if tx.IsTransfer() then
      var s := tx.senderWalletId;
      && s in ws && !ws[s].frozen
      && tx.receiverWalletId in ws && !ws[tx.receiverWalletId].frozen
      && ws[s].balance + Total(Credits, s, txs[..i]) - Total(Debits, s, txs[..i]) >= tx.amount.Value()
    else true
  }

  lemma FitsAfterFirst(ws: WalletMap, txs: seq<Transaction>, i: nat)
    requires Distinct(txs) && 0 < i < |txs| && ApplyTx(ws, txs[0]).Ok?
    ensures Fits(ws, txs, i) <==> Fits(ApplyTx(ws, txs[0]).value, txs[1..], i - 1)
  {
    ApplyTxEffect(ws, txs[0]);
    assert txs[..i][0] == txs[0] && txs[..i][1..] == txs[1..][..i - 1];
  }

  /** The deltas stop exactly at the first transaction that does not fit. */
  lemma {:induction false} DeltasStopAtFirstMisfit(ws: WalletMap, txs: seq<Transaction>)
    requires Distinct(txs)
    ensures var n := ApplyDeltas(ws, txs).done;
            && (forall i :: 0 <= i < n ==> Fits(ws, txs, i))
            && (n < |txs| ==> !Fits(ws, txs, n))
  {
    if txs != [] {
      assert txs[..0] == [];
      assert Fits(ws, txs, 0) <==> ApplyTx(ws, txs[0]).Ok?;
      if ApplyTx(ws, txs[0]).Ok? {
        var ws' := ApplyTx(ws, txs[0]).value;
        DeltasStopAtFirstMisfit(ws', txs[1..]);
        var n := ApplyDeltas(ws, txs).done;
        forall i | 0 < i <= n && i < |txs|
          ensures Fits(ws, txs, i) <==> Fits(ws', txs[1..], i - 1)
        {
          FitsAfterFirst(ws, txs, i);
        }
      }
    }
  }

  /** Every confirmed transaction moves its balances if and only if each of them fits. */
  lemma DeltasCompleteIff(ws: WalletMap, txs: seq<Transaction>)
    requires Distinct(txs)
    ensures ApplyDeltas(ws, txs).error.None? <==> forall i :: 0 <= i < |txs| ==> Fits(ws, txs, i)
  {
    DeltasStopAtFirstMisfit(ws, txs);
  }

  /** A block nobody in which is missing or frozen, and whose senders can each pay all they send from the start. */
  predicate Solvent(ws: WalletMap, txs: seq<Transaction>) {
    && Distinct(txs)
    && (forall i :: 0 <= i < |txs| ==> txs[i].amount.Value() >= 0.0 && txs[i].CreditAmount().Value() >= 0.0)
    && (forall i :: 0 <= i < |txs| && (txs[i].IsTransfer() || (txs[i].IsMint() && txs[i].receiverWalletId != "")) ==>
          txs[i].receiverWalletId in ws && !ws[txs[i].receiverWalletId].frozen)
    && (forall i :: 0 <= i < |txs| && txs[i].IsTransfer() ==>
          txs[i].senderWalletId in ws && !ws[txs[i].senderWalletId].frozen)
    && (forall id :: id in ws ==> Total(Debits, id, txs) <= ws[id].balance)
  }

  lemma {:induction false} TotalNonNegative(side: Side, id: string, txs: seq<Transaction>)
    requires forall i :: 0 <= i < |txs| ==> txs[i].amount.Value() >= 0.0 && txs[i].CreditAmount().Value() >= 0.0
    ensures Total(side, id, txs) >= 0.0
  {
    if txs != [] {
      TotalNonNegative(side, id, txs[1..]);
      assert txs[0].amount.Value() >= 0.0 && txs[0].CreditAmount().Value() >= 0.0;
    }
  }

  lemma SolventFits(ws: WalletMap, txs: seq<Transaction>, i: nat)
    requires Solvent(ws, txs) && i < |txs|
    ensures Fits(ws, txs, i)
  {
    var tx := txs[i];
    if tx.IsTransfer() {
      var s := tx.senderWalletId;
      assert txs == txs[..i] + txs[i..];
      TotalConcat(Debits, s, txs[..i], txs[i..]);
      TotalNonNegative(Debits, s, txs[i + 1..]);
      TotalNonNegative(Credits, s, txs[..i]);
      assert txs[i..][0] == tx && txs[i..][1..] == txs[i + 1..];
      assert Total(Debits, s, txs[i..]) >= tx.amount.Value();
    }
  }

  /** A solvent block completes, and leaves each wallet its start plus all credits less all debits. */
  lemma SolventBlockCompletes(ws: WalletMap, txs: seq<Transaction>)
    requires Solvent(ws, txs)
    ensures var d := ApplyDeltas(ws, txs);
            && d.error.None?
            && SameButBalance(ws, d.wallets)
            && forall id :: id in ws ==>
                 d.wallets[id].balance == ws[id].balance + Total(Credits, id, txs) - Total(Debits, id, txs)
  {
    forall i | 0 <= i < |txs| ensures Fits(ws, txs, i) { SolventFits(ws, txs, i); }
    DeltasCompleteIff(ws, txs);
    DeltasMoveTotals(ws, txs);
    assert txs[..|txs|] == txs;
  }

  lemma TotalRemove(side: Side, id: string, b: seq<Transaction>, k: nat)
    requires k < |b|
    ensures Total(side, id, b) == Amount(side, id, b[k]) + Total(side, id, b[..k] + b[k + 1..])
  {
    var rest := [b[k]] + b[k + 1..];
    assert b == b[..k] + rest;
    assert rest[1..] == b[k + 1..];
    TotalConcat(side, id, b[..k], rest);
    TotalConcat(side, id, b[..k], b[k + 1..]);
  }

  lemma RemoveMatching(a: seq<Transaction>, b: seq<Transaction>) returns (k: nat)
    requires a != [] && multiset(a) == multiset(b)
    ensures k < |b| && b[k] == a[0] && multiset(a[1..]) == multiset(b[..k] + b[k + 1..])
  {
    assert a[0] in multiset(b);
    k :| 0 <= k < |b| && b[k] == a[0];
    var rest := b[..k] + b[k + 1..];
    assert b == b[..k] + ([b[k]] + b[k + 1..]);
    assert a == [a[0]] + a[1..];
    assert multiset(rest) == multiset(b) - multiset{a[0]} == multiset(a[1..]);
  }

  lemma {:induction false} TotalPermutation(side: Side, id: string, a: seq<Transaction>, b: seq<Transaction>)
    requires multiset(a) == multiset(b)
    ensures Total(side, id, a) == Total(side, id, b)
  {
    if a == [] {
      assert |b| == |multiset(b)| == 0;
    } else {
      var k := RemoveMatching(a, b);
      TotalRemove(side, id, b, k);
      TotalPermutation(side, id, a[1..], b[..k] + b[k + 1..]);
    }
  }

  /** The order of a solvent block does not matter: every permutation completes with the same wallets. */
  lemma SolventBlockOrderIrrelevant(ws: WalletMap, a: seq<Transaction>, b: seq<Transaction>)
    requires Solvent(ws, a) && multiset(a) == multiset(b)
    ensures Solvent(ws, b)
    ensures ApplyDeltas(ws, a).error.None? && ApplyDeltas(ws, b).error.None?
    ensures ApplyDeltas(ws, a).wallets == ApplyDeltas(ws, b).wallets
  {
    forall i | 0 <= i < |b| ensures b[i] in a { assert b[i] in multiset(b); assert b[i] in multiset(a); }
    forall id | id in ws
      ensures Total(Debits, id, a) == Total(Debits, id, b) && Total(Credits, id, a) == Total(Credits, id, b)
    {
      TotalPermutation(Debits, id, a, b);
      TotalPermutation(Credits, id, a, b);
    }
    SolventBlockCompletes(ws, a);
    SolventBlockCompletes(ws, b);
    var x, y := ApplyDeltas(ws, a).wallets, ApplyDeltas(ws, b).wallets;
    forall id | id in x ensures x[id] == y[id] {
      assert x[id] == ws[id].(balance := x[id].balance) && y[id] == ws[id].(balance := y[id].balance);
    }
  }

  /**
   * Solvency of each payment alone is not enough: two payments that a balance covers one at a time, but not
   * together, confirm as a block of which only the first takes effect.
   */
  lemma JointOverspendStopsBlock(ws: WalletMap, a: Transaction, b: Transaction)
    requires Distinct([a, b]) && a.IsTransfer() && b.IsTransfer() && a.senderWalletId == b.senderWalletId
    requires Fits(ws, [a], 0) && Fits(ws, [b], 0)
    requires ws[a.senderWalletId].balance < a.amount.Value() + b.amount.Value()
    ensures ApplyDeltas(ws, [a, b]).done == 1
    ensures ApplyDeltas(ws, [a, b]).error == Some(InsufficientBalance(a.senderWalletId))
  {
    ApplyTxEffect(ws, a);
    var ws' := ApplyTx(ws, a).value;
    assert [a, b][1..] == [b];
    assert ws'[a.senderWalletId].balance == ws[a.senderWalletId].balance - a.amount.Value();
    assert ApplyTx(ws', b) == Err(InsufficientBalance(b.senderWalletId));
    assert ApplyDeltas(ws', [b]).done == 0;
  }

  function PairBalance(ws: WalletMap, a: string, b: string): real
    requires a in ws && b in ws
  {
    if a == b then ws[a].balance else ws[a].balance + ws[b].balance
  }

  /**
   * Writing the sender's record, then the receiver's, conserves what the two hold if and only if they are two: a
   * transfer to oneself overwrites the debit and leaves the credit.
   */
  lemma TransferConservesIffDistinct(ws: WalletMap, sender: string, receiver: string, amount: real)
    requires Transfer(ws, sender, receiver, amount, amount).Ok? && amount > 0.0
    ensures var ws' := Transfer(ws, sender, receiver, amount, amount).value;
            && ws'.Keys == ws.Keys
            && (PairBalance(ws', sender, receiver) == PairBalance(ws, sender, receiver) <==> sender != receiver)
            && forall id :: id in ws && id != sender && id != receiver ==> ws'[id] == ws[id]
  {
  }

  // ---------- Supply ----------

  /** What one transaction adds to the supply of a currency. */
  function SupplyChange(ws: WalletMap, currency: Option<string>, tx: Transaction): real {
    (if tx.receiverWalletId in ws && InCurrency(ws[tx.receiverWalletId], currency)
     then Amount(Credits, tx.receiverWalletId, tx) else 0.0)
    - (if tx.senderWalletId in ws && InCurrency(ws[tx.senderWalletId], currency)
       then Amount(Debits, tx.senderWalletId, tx) else 0.0)
  }

  function SupplyChanges(ws: WalletMap, currency: Option<string>, txs: seq<Transaction>): real {
    if txs == [] then 0.0 else SupplyChange(ws, currency, txs[0]) + SupplyChanges(ws, currency, txs[1..])
  }

  predicate NoDuplicates(ids: seq<string>) {
    forall i, j :: 0 <= i < j < |ids| ==> ids[i] != ids[j]
  }

  /** The flow of `txs` through the listed wallets. */
  function SumFlow(ids: seq<string>, ws: WalletMap, currency: Option<string>, txs: seq<Transaction>): real
    requires forall id :: id in ids ==> id in ws
  {
    if ids == [] then 0.0
    else (if InCurrency(ws[ids[0]], currency) then Total(Credits, ids[0], txs) - Total(Debits, ids[0], txs) else 0.0)
         + SumFlow(ids[1..], ws, currency, txs)
  }

  lemma {:induction false} SumFlowOfNothing(ids: seq<string>, ws: WalletMap, currency: Option<string>)
    requires forall id :: id in ids ==> id in ws
    ensures SumFlow(ids, ws, currency, []) == 0.0
  {
    if ids != [] { SumFlowOfNothing(ids[1..], ws, currency); }
  }

  /** The part of one transaction's supply change that falls on the listed wallets. */
  function Share(ids: seq<string>, ws: WalletMap, currency: Option<string>, tx: Transaction): real {
    (if tx.receiverWalletId in ids && tx.receiverWalletId in ws && InCurrency(ws[tx.receiverWalletId], currency)
     then Amount(Credits, tx.receiverWalletId, tx) else 0.0)
    - (if tx.senderWalletId in ids && tx.senderWalletId in ws && InCurrency(ws[tx.senderWalletId], currency)
       then Amount(Debits, tx.senderWalletId, tx) else 0.0)
  }

  lemma {:induction false} SumFlowStep(ids: seq<string>, ws: WalletMap, currency: Option<string>, txs: seq<Transaction>)
    requires NoDuplicates(ids) && (forall id :: id in ids ==> id in ws) && txs != []
    ensures SumFlow(ids, ws, currency, txs) == Share(ids, ws, currency, txs[0]) + SumFlow(ids, ws, currency, txs[1..])
  {
    if ids != [] {
      var tx := txs[0];
      SumFlowStep(ids[1..], ws, currency, txs);
      assert ids[0] !in ids[1..];
      assert forall id :: id in ids <==> id == ids[0] || id in ids[1..];
      assert Total(Credits, ids[0], txs) == Amount(Credits, ids[0], tx) + Total(Credits, ids[0], txs[1..]);
      assert Total(Debits, ids[0], txs) == Amount(Debits, ids[0], tx) + Total(Debits, ids[0], txs[1..]);
    }
  }

  lemma {:induction false} SumFlowIsSupplyChanges(ids: seq<string>, ws: WalletMap, currency: Option<string>,
                                                  txs: seq<Transaction>)
    requires NoDuplicates(ids) && forall id :: id in ids <==> id in ws
    ensures SumFlow(ids, ws, currency, txs) == SupplyChanges(ws, currency, txs)
  {
    if txs == [] {
      SumFlowOfNothing(ids, ws, currency);
    } else {
      SumFlowStep(ids, ws, currency, txs);
      SumFlowIsSupplyChanges(ids, ws, currency, txs[1..]);
    }
  }

  lemma {:induction false} SumBalancesIsSumFlow(ids: seq<string>, ws: WalletMap, currency: Option<string>,
                                                txs: seq<Transaction>)
    requires forall id :: id in ids ==> id in ws
    requires forall id :: id in ids ==> ws[id].balance == Total(Credits, id, txs) - Total(Debits, id, txs)
    ensures SumBalances(ids, ws, currency) == SumFlow(ids, ws, currency, txs)
  {
    if ids != [] { SumBalancesIsSumFlow(ids[1..], ws, currency, txs); }
  }

  /** The mints into wallets of a currency. */
  function Minted(ws: WalletMap, currency: Option<string>, txs: seq<Transaction>): real {
    if txs == [] then 0.0
    else
      (if txs[0].IsMint() && txs[0].receiverWalletId in ws && InCurrency(ws[txs[0].receiverWalletId], currency)
       then txs[0].amount.Value() else 0.0)
      + Minted(ws, currency, txs[1..])
  }

  /** Cross-currency transfers: the converted credits arriving in a currency less the amounts leaving it. */
  function Converted(ws: WalletMap, currency: string, txs: seq<Transaction>): real {
    if txs == [] then 0.0
    else
      var tx := txs[0];
      (if tx.IsTransfer() && tx.receiverAmount.Some? && tx.receiverWalletId in ws && tx.senderWalletId in ws then
         (if ws[tx.receiverWalletId].currency == currency then tx.receiverAmount.value.Value() else 0.0)
         - (if ws[tx.senderWalletId].currency == currency then tx.amount.Value() else 0.0)
       else 0.0)
      + Converted(ws, currency, txs[1..])
  }

  /** A transfer carries a converted amount exactly when its wallets differ in currency. */
  predicate ConvertsAcrossCurrencies(ws: WalletMap, tx: Transaction) {
    tx.IsTransfer() ==>
      && tx.senderWalletId in ws && tx.receiverWalletId in ws
      && (tx.receiverAmount.None? <==> ws[tx.senderWalletId].currency == ws[tx.receiverWalletId].currency)
  }

  /** Transfers within a currency cancel; its supply changes by mints and conversions alone. */
  lemma {:induction false} SupplyIsMintsAndConversions(ws: WalletMap, currency: string, txs: seq<Transaction>)
    requires "" !in ws && forall i :: 0 <= i < |txs| ==> ConvertsAcrossCurrencies(ws, txs[i])
    ensures SupplyChanges(ws, Some(currency), txs) == Minted(ws, Some(currency), txs) + Converted(ws, currency, txs)
  {
    if txs != [] {
      SupplyIsMintsAndConversions(ws, currency, txs[1..]);
      var tx := txs[0];
      assert ConvertsAcrossCurrencies(ws, tx);
    }
  }

  /** Where all wallets share one currency, transfers leave the total alone: supply is what was minted. */
  lemma {:induction false} SupplyIsMints(ws: WalletMap, currency: string, txs: seq<Transaction>)
    requires "" !in ws && forall i :: 0 <= i < |txs| ==> ConvertsAcrossCurrencies(ws, txs[i])
    requires forall id :: id in ws ==> ws[id].currency == currency
    ensures SupplyChanges(ws, None, txs) == Minted(ws, None, txs)
  {
    if txs != [] {
      SupplyIsMints(ws, currency, txs[1..]);
      var tx := txs[0];
      assert ConvertsAcrossCurrencies(ws, tx);
    }
  }
}
