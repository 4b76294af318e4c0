/** The wallet store, and the balance deltas of a mined block. */
module Wallets {
  import opened Decimals
  import opened Models
  import opened Wrappers

  datatype Wallet = Wallet(
    walletId: string,
    userId: string,
    currency: string,
    walletType: string,
    balance: real,
    publicKey: string,
    frozen: bool)

  type WalletMap = map<string, Wallet>

  /** The exceptions of the ledger. */
  datatype LedgerError =
    | WalletExists(id: string)
    | WalletNotFound(id: string)
    | WalletFrozen(id: string)
    | InsufficientBalance(id: string)
    | NonceReplay(id: string)
    | SignatureRejected(id: string)
    | RateNotFound
    | NotOwner
    | InvalidValue
    | InsertRefused

  // ---------- What one store operation does to the dictionaries ----------

  /** `apply_transfer`: both guards, then the sender's record, then the receiver's, as read before either write. */
  function Transfer(ws: WalletMap, sender: string, receiver: string, amount: real, credit: real)
    : Result<WalletMap, LedgerError>
  {
    if sender !in ws then Err(WalletNotFound(sender))
    else if receiver !in ws then Err(WalletNotFound(receiver))
    else if ws[sender].frozen then Err(WalletFrozen(sender))
    else if ws[receiver].frozen then Err(WalletFrozen(receiver))
    else if ws[sender].balance < amount then Err(InsufficientBalance(sender))
    else
      Ok(ws[sender := ws[sender].(balance := ws[sender].balance - amount)]
           [receiver := ws[receiver].(balance := ws[receiver].balance + credit)])
  }

  function Credit(ws: WalletMap, id: string, amount: real): Result<WalletMap, LedgerError> {
    if id !in ws then Err(WalletNotFound(id))
    else if ws[id].frozen then Err(WalletFrozen(id))
    else Ok(ws[id := ws[id].(balance := ws[id].balance + amount)])
  }

  /** A transfer's effect on its two wallets, or the first guard that refuses it. */
  lemma TransferFields(ws: WalletMap, s: string, r: string, amount: real, credit: real)
    ensures match Transfer(ws, s, r, amount, credit)
            case Ok(ws') =>
              && s in ws && r in ws && !ws[s].frozen && !ws[r].frozen && ws[s].balance >= amount
              && ws'.Keys == ws.Keys
              && (s != r ==> ws'[s].balance == ws[s].balance - amount)
              && ws'[r].balance == ws[r].balance + credit
              && (forall id :: id in ws && id != s && id != r ==> ws'[id] == ws[id])
              && (forall id :: id in ws ==> ws'[id] == ws[id].(balance := ws'[id].balance))
            case Err(e) =>
              if s !in ws then e == WalletNotFound(s)
              else if r !in ws then e == WalletNotFound(r)
              else if ws[s].frozen then e == WalletFrozen(s)
              else if ws[r].frozen then e == WalletFrozen(r)
              else ws[s].balance < amount && e == InsufficientBalance(s)
  {
  }

  /** A credit's effect on its wallet, or its refusal. */
  lemma CreditFields(ws: WalletMap, id: string, amount: real)
    ensures match Credit(ws, id, amount)
            case Ok(ws') =>
              && id in ws && !ws[id].frozen && ws'.Keys == ws.Keys
              && ws'[id] == ws[id].(balance := ws[id].balance + amount)
              && forall other :: other in ws && other != id ==> ws'[other] == ws[other]
            case Err(e) => if id !in ws then e == WalletNotFound(id) else ws[id].frozen && e == WalletFrozen(id)
  {
  }

  function LastNonce(nonces: map<string, int>, id: string): int {
    if id in nonces then nonces[id] else 0
  }

  // ---------- Block deltas ----------

  function ApplyTx(ws: WalletMap, tx: Transaction): Result<WalletMap, LedgerError> {
    if tx.IsMint() then
      if tx.receiverWalletId != "" then Credit(ws, tx.receiverWalletId, tx.amount.Value()) else Ok(ws)
    else if tx.IsTransfer() then
      Transfer(ws, tx.senderWalletId, tx.receiverWalletId, tx.amount.Value(), tx.CreditAmount().Value())
    else Ok(ws)
  }

  /** What one transaction moves: a mint credits, a transfer debits and credits, anything else does nothing. */
  lemma ApplyTxFields(ws: WalletMap, tx: Transaction)
    ensures var r := ApplyTx(ws, tx);
            var s, t := tx.senderWalletId, tx.receiverWalletId;
            if tx.signature == "MINT" && t != "" then
              (r.Ok? ==> t in ws && r.value.Keys == ws.Keys && r.value[t].balance == ws[t].balance + tx.amount.Value())
            else if tx.signature != "MINT" && s != "" && t != "" then
              r.Ok? && s != t ==>
                && s in ws && t in ws && r.value.Keys == ws.Keys
                && r.value[s].balance == ws[s].balance - tx.amount.Value()
                && (tx.receiverAmount.Some? ==>
                      r.value[t].balance == ws[t].balance + tx.receiverAmount.value.Value())
                && (tx.receiverAmount.None? ==> r.value[t].balance == ws[t].balance + tx.amount.Value())
            else r == Ok(ws)
  {
  }

  /** The wallets after the transactions that took effect, how many those are, and the exception that stopped them. */
  datatype Deltas = Deltas(wallets: WalletMap, done: nat, error: Option<LedgerError>)

  function ApplyDeltas(ws: WalletMap, txs: seq<Transaction>): (d: Deltas)
    ensures d.done <= |txs|
    ensures d.error.None? <==> d.done == |txs|
  {
    if txs == [] then Deltas(ws, 0, None)
    else
      match ApplyTx(ws, txs[0])
      case Err(e) => Deltas(ws, 0, Some(e))
      case Ok(ws') =>
        var rest := ApplyDeltas(ws', txs[1..]);
        Deltas(rest.wallets, 1 + rest.done, rest.error)
  }

  /** A run of deltas that stopped nowhere continues from where it stands. */
  lemma {:induction false} DeltasContinue(ws: WalletMap, txs: seq<Transaction>, i: nat)
    requires i <= |txs| && ApplyDeltas(ws, txs[..i]).error.None?
    ensures var mid := ApplyDeltas(ws, txs[..i]);
            var rest := ApplyDeltas(mid.wallets, txs[i..]);
            ApplyDeltas(ws, txs) == Deltas(rest.wallets, i + rest.done, rest.error)
  {
    if i == 0 {
      assert txs[0..] == txs;
    } else {
      assert txs[..i][0] == txs[0] && txs[..i][1..] == txs[1..][..i - 1];
      var ws' := ApplyTx(ws, txs[0]).value;
      DeltasContinue(ws', txs[1..], i - 1);
      assert txs[1..][i - 1..] == txs[i..];
    }
  }

  class InMemoryWalletStore {
    var wallets: WalletMap
    /** The dictionary's insertion order, in which Python iterates over its values. */
    var order: seq<string>
    var nonces: map<string, int>

    constructor ()
      ensures wallets == map[] && order == [] && nonces == map[]
    {
      wallets, order, nonces := map[], [], map[];
    }

    method CreateWallet(walletId: string, userId: string, publicKey: string, currency: string, walletType: string)
      returns (r: Result<(), LedgerError>)
      modifies this`wallets, this`order
      ensures r.Ok? <==> walletId !in old(wallets)
      ensures r.Err? ==> r == Err(WalletExists(walletId)) && wallets == old(wallets) && order == old(order)
      ensures r.Ok? ==>
        && wallets == old(wallets)[walletId := Wallet(walletId, userId, currency, walletType, 0.0, publicKey, false)]
        && order == old(order) + [walletId]
    {
      if walletId in wallets {
        return Err(WalletExists(walletId));
      }
      wallets := wallets[walletId := Wallet(walletId, userId, currency, walletType, 0.0, publicKey, false)];
      order := order + [walletId];
      return Ok(());
    }

    method SetFrozen(walletId: string, frozen: bool) returns (r: Result<(), LedgerError>)
      modifies this`wallets
      ensures r.Ok? <==> walletId in old(wallets)
      ensures r.Err? ==> r == Err(WalletNotFound(walletId)) && wallets == old(wallets)
      ensures r.Ok? ==> wallets == old(wallets)[walletId := old(wallets)[walletId].(frozen := frozen)]
    {
      if walletId !in wallets {
        return Err(WalletNotFound(walletId));
      }
      wallets := wallets[walletId := wallets[walletId].(frozen := frozen)];
      return Ok(());
    }

    method ReserveNonce(walletId: string, nonce: int) returns (r: Result<(), LedgerError>)
      modifies this`nonces
      ensures r.Ok? <==> nonce > LastNonce(old(nonces), walletId)
      ensures r.Err? ==> r == Err(NonceReplay(walletId)) && nonces == old(nonces)
      ensures r.Ok? ==> nonces == old(nonces)[walletId := nonce]
    {
      var last := if walletId in nonces then nonces[walletId] else 0;
      if nonce <= last {
        return Err(NonceReplay(walletId));
      }
      nonces := nonces[walletId := nonce];
      return Ok(());
    }

    method ApplyTransfer(sender: string, receiver: string, amount: Decimal, receiverAmount: Option<Decimal>)
      returns (r: Result<(), LedgerError>)
      modifies this`wallets
      ensures var credit := match receiverAmount case Some(a) => a case None => amount;
              match Transfer(old(wallets), sender, receiver, amount.Value(), credit.Value())
              case Ok(ws) => r == Ok(()) && wallets == ws
              case Err(e) => r == Err(e) && wallets == old(wallets)
      ensures r.Ok? && sender != receiver ==>
        && sender in old(wallets) && receiver in old(wallets) && sender in wallets && receiver in wallets
        && wallets[sender].balance == old(wallets)[sender].balance - amount.Value()
        && (receiverAmount.Some? ==>
              wallets[receiver].balance == old(wallets)[receiver].balance + receiverAmount.value.Value())
        && (receiverAmount.None? ==> wallets[receiver].balance == old(wallets)[receiver].balance + amount.Value())
    {
      if sender !in wallets {
        return Err(WalletNotFound(sender));
      }
      if receiver !in wallets {
        return Err(WalletNotFound(receiver));
      }
      var from, to := wallets[sender], wallets[receiver];
      if from.frozen {
        return Err(WalletFrozen(sender));
      }
      if to.frozen {
        return Err(WalletFrozen(receiver));
      }
      if from.balance < amount.Value() {
        return Err(InsufficientBalance(sender));
      }
      var credit := match receiverAmount case Some(a) => a case None => amount;
      wallets := wallets[sender := from.(balance := from.balance - amount.Value())];
      wallets := wallets[receiver := to.(balance := to.balance + credit.Value())];
      return Ok(());
    }

    method CreditWallet(walletId: string, amount: Decimal) returns (r: Result<(), LedgerError>)
      modifies this`wallets
      ensures match Credit(old(wallets), walletId, amount.Value())
              case Ok(ws) => r == Ok(()) && wallets == ws
              case Err(e) => r == Err(e) && wallets == old(wallets)
    {
      if walletId !in wallets {
        return Err(WalletNotFound(walletId));
      }
      var w := wallets[walletId];
      if w.frozen {
        return Err(WalletFrozen(walletId));
      }
      wallets := wallets[walletId := w.(balance := w.balance + amount.Value())];
      return Ok(());
    }

    /** The sum over the dictionary's values. */
    method TotalSupply() returns (total: real)
      requires forall id :: id in order ==> id in wallets
      ensures total == SumBalances(order, wallets, None)
    {
      total := 0.0;
      for i := 0 to |order|
        invariant total == SumBalances(order[..i], wallets, None)
      {
        total := total + wallets[order[i]].balance;
        SumBalancesSnoc(order[..i], order[i], wallets, None);
        assert order[..i + 1] == order[..i] + [order[i]];
      }
      assert order[..|order|] == order;
    }
  }

  /** The balances of the listed wallets, all of them or those in one currency. */
  function SumBalances(ids: seq<string>, ws: WalletMap, currency: Option<string>): real
    requires forall id :: id in ids ==> id in ws
  {
    if ids == [] then 0.0
    else (if InCurrency(ws[ids[0]], currency) then ws[ids[0]].balance else 0.0) + SumBalances(ids[1..], ws, currency)
  }

  predicate InCurrency(w: Wallet, currency: Option<string>) {
    currency.Some? ==> w.currency == currency.value
  }

  lemma {:induction false} SumBalancesSnoc(ids: seq<string>, id: string, ws: WalletMap, currency: Option<string>)
    requires id in ws && forall k :: k in ids ==> k in ws
    ensures SumBalances(ids + [id], ws, currency)
         == SumBalances(ids, ws, currency) + (if InCurrency(ws[id], currency) then ws[id].balance else 0.0)
  {
    if ids == [] {
      assert ids + [id] == [id];
      assert SumBalances([id][1..], ws, currency) == 0.0;
    } else {
      SumBalancesSnoc(ids[1..], id, ws, currency);
      assert (ids + [id])[1..] == ids[1..] + [id];
    }
  }

  /**
   * `apply_block_deltas`. An exception leaves the effects of the transactions before it in place: the store ends
   * where `ApplyDeltas` does, failing block or not.
   */
  method ApplyBlockDeltas(store: InMemoryWalletStore, txs: seq<Transaction>) returns (r: Result<(), LedgerError>)
    modifies store`wallets
    ensures var d := ApplyDeltas(old(store.wallets), txs);
            && store.wallets == d.wallets
            && r == (match d.error case None => Ok(()) case Some(e) => Err(e))
  {
    ghost var before := store.wallets;
    for i := 0 to |txs|
      invariant ApplyDeltas(before, txs[..i]) == Deltas(store.wallets, i, None)
    {
      var tx := txs[i];
      ghost var mid := store.wallets;
      DeltasContinue(before, txs, i);
      assert txs[..i + 1][..i] == txs[..i] && txs[..i + 1][i..] == [tx];
      DeltasContinue(before, txs[..i + 1], i);
      assert txs[i..][0] == tx;
      if tx.signature == COINBASE_SIGNATURE {
        if tx.receiverWalletId != "" {
          r := store.CreditWallet(tx.receiverWalletId, tx.amount);
          if r.Err? {
            return;
          }
        }
      } else if tx.senderWalletId != "" && tx.receiverWalletId != "" {
        r := store.ApplyTransfer(tx.senderWalletId, tx.receiverWalletId, tx.amount, tx.receiverAmount);
        if r.Err? {
          return;
        }
      }
      assert ApplyTx(mid, tx) == Ok(store.wallets);
      assert ApplyDeltas(store.wallets, [tx][1..]) == Deltas(store.wallets, 0, None);
    }
    assert txs[..|txs|] == txs;
    r := Ok(());
  }
}
