/** The running node: the objects that share the stores, each call proved to be one step of the ledger. */
module LedgerNode {
  import opened Balances
  import opened Chain
  import opened Conversion
  import opened Currencies
  import opened Decimals
  import opened Ledger
  import opened LedgerInvariants
  import opened LedgerLaws
  import opened LedgerResults
  import opened Pricing
  import opened Models
  import UserStore
  import opened Wallets
  import opened Wrappers

  class InMemoryMempoolRepository {
    var pending: seq<Transaction>

    constructor ()
      ensures pending == []
    {
      pending := [];
    }

    method Add(tx: Transaction)
      modifies this
      ensures pending == old(pending) + [tx]
    {
      pending := pending + [tx];
    }

    method Flush() returns (drained: seq<Transaction>)
      modifies this
      ensures drained == old(pending) && pending == []
    {
      drained := pending;
      pending := [];
    }
  }

  /** `validate_transaction`, check by check. */
  method ValidateTransaction(tx: Transaction) returns (r: Result<(), LedgerError>)
    ensures r == if IsAdmissible(tx) then Ok(()) else Err(InvalidValue)
  {
    if tx.amount.Value() <= 0.0 {
      return Err(InvalidValue);
    }
    if tx.receiverAmount.Some? && tx.receiverAmount.value.Value() <= 0.0 {
      return Err(InvalidValue);
    }
    if IsBlank(tx.sender) {
      return Err(InvalidValue);
    }
    if IsBlank(tx.receiver) {
      return Err(InvalidValue);
    }
    if tx.sender == tx.receiver {
      return Err(InvalidValue);
    }
    r := Ok(());
  }

  class MempoolService {
    const repo: InMemoryMempoolRepository

    constructor (repo: InMemoryMempoolRepository)
      ensures this.repo == repo
    {
      this.repo := repo;
    }

    method Add(tx: Transaction) returns (r: Result<(), LedgerError>)
      modifies repo
      ensures r == if IsAdmissible(tx) then Ok(()) else Err(InvalidValue)
      ensures repo.pending == if IsAdmissible(tx) then old(repo.pending) + [tx] else old(repo.pending)
    {
      r := ValidateTransaction(tx);
      if r.Ok? {
        repo.Add(tx);
      }
    }
  }

  class TransferService {
    const prims: Primitives
    const wallets: InMemoryWalletStore
    const currencies: InMemoryCurrencyStore

    constructor (prims: Primitives, wallets: InMemoryWalletStore, currencies: InMemoryCurrencyStore)
      ensures this.prims == prims && this.wallets == wallets && this.currencies == currencies
    {
      this.prims, this.wallets, this.currencies := prims, wallets, currencies;
    }

    /**
     * The cross-currency part: refused without a rate for the pair, else priced at the last one set, within one unit
     * of the exact credit, which is refused below one unit.
     */
    method ConvertAmount(from: string, to: string, amount: Decimal) returns (r: Result<Option<Decimal>, LedgerError>)
      ensures r == ReceiverAmount(currencies.rates, from, to, amount)
      ensures FeesOk(currencies.rates) && from != "" && to != "" ==> Priced(currencies.rates, from, to, amount, r)
    {
      ghost var rates := currencies.rates;
      if FeesOk(rates) && from != "" && to != "" { ReceiverAmountPriced(rates, from, to, amount); }
      if from == to {
        return Ok(None);
      }
      var found := ListExchangeRates(currencies.rates, Some(from), Some(to), 1);
      if found == [] {
        return Err(RateNotFound);
      }
      var net := Convert(amount, found[0].rate, found[0].feeRate);
      r := if net.None? then Err(InvalidValue) else Ok(net);
    }

    /** All checks come before the nonce is reserved, so a refused transfer uses up no nonce. */
    method BuildTransaction(req: SignedRequest, senderName: string, receiverName: string)
      returns (r: Result<Transaction, LedgerError>)
      modifies wallets`nonces
      ensures r == Ledger.BuildTransaction(prims, wallets.wallets, old(wallets.nonces), currencies.rates,
                                           req, senderName, receiverName)
      ensures wallets.nonces ==
        if r.Ok? then old(wallets.nonces)[req.senderWalletId := req.nonce] else old(wallets.nonces)
    {
      var s, t := req.senderWalletId, req.receiverWalletId;
      if s !in wallets.wallets {
        return Err(WalletNotFound(s));
      }
      if t !in wallets.wallets {
        return Err(WalletNotFound(t));
      }
      var sender, receiver := wallets.wallets[s], wallets.wallets[t];
      if sender.frozen || receiver.frozen {
        return Err(WalletFrozen(if sender.frozen then s else t));
      }
      if sender.balance < req.amount.Value() {
        return Err(InsufficientBalance(s));
      }
      var converted := ConvertAmount(sender.currency, receiver.currency, req.amount);
      if converted.Err? {
        return Err(converted.error);
      }
      var tx := StagedTransaction(req, converted.value, senderName, receiverName);
      if !prims.Verify(sender.publicKey, req.signature, tx.Message()) {
        return Err(SignatureRejected(s));
      }
      var reserved := wallets.ReserveNonce(s, req.nonce);
      if reserved.Err? {
        return Err(reserved.error);
      }
      r := Ok(tx);
    }
  }

  class Node {
    const prims: Primitives
    const users: UserStore.InMemoryUserStore
    const wallets: InMemoryWalletStore
    const currencies: InMemoryCurrencyStore
    const mempool: MempoolService
    const blockchain: BlockchainService
    const transfers: TransferService

    /** How much of each block took effect, when the node started, and every step since. */
    ghost var applied: seq<nat>
    ghost const startedAt: string
    ghost var history: seq<Step>

    ghost function View(): State
      reads this, wallets, currencies, mempool.repo, blockchain.repo
    {
      State(wallets.wallets, wallets.order, wallets.nonces, currencies.rates, mempool.repo.pending,
            blockchain.repo.blocks, applied)
    }

    /** The services share the node's stores. */
    ghost predicate Wired()
      reads currencies
    {
      && blockchain.prims == prims && blockchain.walletRepo == wallets
      && transfers.prims == prims && transfers.wallets == wallets && transfers.currencies == currencies
      && currencies.Valid()
    }

    /** The stores hold what the history of steps leads to. */
    ghost predicate Valid()
      reads this, wallets, currencies, mempool.repo, blockchain.repo
    {
      Wired() && View() == Run(prims, startedAt, history)
    }

    /** The username, or the id where there is no such user. */
    function UserName(userId: string): string
      reads users
    {
      if userId in users.users then users.users[userId].username else userId
    }

    /** `name` is the username of the user with this id, or the id where there is no such user. */
    ghost predicate IsNameOf(name: string, userId: string)
      reads users
    {
      && (userId in users.users ==> name == users.users[userId].username)
      && (userId !in users.users ==> name == userId)
    }

    /** The name of the user who owns a wallet. */
    function OwnerName(walletId: string): string
      reads users, wallets
    {
      if walletId in wallets.wallets then UserName(wallets.wallets[walletId].userId) else ""
    }

    constructor (prims: Primitives, users: UserStore.InMemoryUserStore, timestamp: string)
      ensures Valid() && View() == Init(prims, timestamp) && history == [] && this.users == users
      ensures fresh(wallets) && fresh(currencies) && fresh(mempool.repo) && fresh(blockchain.repo)
    {
      var walletStore := new InMemoryWalletStore();
      var currencyStore := new InMemoryCurrencyStore();
      var pool := new InMemoryMempoolRepository();
      var blocks := new InMemoryBlockRepository();
      var service := new BlockchainService(prims, blocks, walletStore, timestamp);
      this.prims, this.users, wallets, currencies, blockchain := prims, users, walletStore, currencyStore, service;
      mempool := new MempoolService(pool);
      transfers := new TransferService(prims, walletStore, currencyStore);
      applied, startedAt, history := [0], timestamp, [];
    }

    /** Recording a step keeps the stores in agreement with the history. */
    ghost method Record(step: Step, before: State)
      requires before == Run(prims, startedAt, history)
      requires View() == Next(prims, before, step).state
      requires Wired()
      modifies this`history
      ensures Valid() && history == old(history) + [step] && View() == old(View())
    {
      RunSnoc(prims, startedAt, history, step);
      history := history + [step];
    }

    method CreateWallet(token: string, userId: string, publicKey: string, currency: string, walletType: string)
      returns (r: Result<string, LedgerError>)
      requires Valid()
      modifies this, wallets
      ensures var step := Step.CreateWallet(token, userId, publicKey, currency, walletType);
              var out := Next(prims, old(View()), step);
              && Valid() && history == old(history) + [step]
              && View() == out.state
              && r == (match out.error case None => Ok(WalletId(token)) case Some(e) => Err(e))
      ensures r.Ok? <==> "w_" + token !in old(wallets.wallets)
      ensures r.Ok? ==>
        && r.value == "w_" + token && r.value in wallets.wallets
        && var w := wallets.wallets[r.value];
           && w.userId == userId && w.publicKey == publicKey && w.walletType == walletType
           && w.currency == (if currency == "" then "NATIVE" else currency) && w.balance == 0.0 && !w.frozen
    {
      ghost var before := View();
      WalletCreated(prims, before, Step.CreateWallet(token, userId, publicKey, currency, walletType));
      var id := WalletId(token);
      var created := wallets.CreateWallet(id, userId, publicKey, CurrencyCode(currency), walletType);
      r := if created.Ok? then Ok(id) else Err(created.error);
      Record(Step.CreateWallet(token, userId, publicKey, currency, walletType), before);
    }

    /** The admin route: refused unless the rate is positive, the fee a fraction and the codes different. */
    method SetExchangeRate(from: string, to: string, rate: real, feeRate: real) returns (r: Result<(), LedgerError>)
      requires Valid()
      modifies this, currencies
      ensures var step := SetRate(from, to, rate, feeRate);
              var out := Next(prims, old(View()), step);
              && Valid() && history == old(history) + [step]
              && View() == out.state
              && (r.Ok? <==> out.error.None?) && (r.Err? ==> out.error == Some(r.error))
      ensures r.Ok? ==>
        && |currencies.rates| == |old(currencies.rates)| + 1
        && var record := currencies.rates[|old(currencies.rates)|];
           && record.fromCurrency == CodeOf(from) && record.toCurrency == CodeOf(to)
           && record.rate == rate && record.feeRate == feeRate
    {
      ghost var before := View();
      RateStored(prims, before, SetRate(from, to, rate, feeRate));
      var fromCode, toCode := CurrencyCode(from), CurrencyCode(to);
      if fromCode == toCode {
        r := Err(InvalidValue);
      } else if rate <= 0.0 {
        r := Err(InvalidValue);
      } else if feeRate < 0.0 || feeRate > 1.0 {
        r := Err(InvalidValue);
      } else {
        var record := currencies.SetExchangeRate(fromCode, toCode, rate, feeRate, MANUAL);
        assert View() == before.(rates := before.rates + [record]);
        r := Ok(());
      }
      Record(SetRate(from, to, rate, feeRate), before);
    }

    /** One pair of the feed: stored without a fee and without a check of the price. */
    method SyncExchangeRate(from: string, to: string, rate: real, provider: string)
      requires Valid()
      modifies this, currencies
      ensures var step := SyncRate(from, to, rate, provider);
              && Valid() && history == old(history) + [step]
              && View() == Next(prims, old(View()), step).state
      ensures |currencies.rates| == |old(currencies.rates)| + 1
      ensures var record := currencies.rates[|old(currencies.rates)|];
              && record.fromCurrency == CodeOf(from) && record.toCurrency == CodeOf(to)
              && record.rate == rate && record.feeRate == 0.0
    {
      ghost var before := View();
      RateStored(prims, before, SyncRate(from, to, rate, provider));
      var record := currencies.SetExchangeRate(CurrencyCode(from), CurrencyCode(to), rate, 0.0, provider);
      assert View() == before.(rates := before.rates + [record]);
      Record(SyncRate(from, to, rate, provider), before);
    }

    method SetWalletFrozen(walletId: string, frozen: bool) returns (r: Result<(), LedgerError>)
      requires Valid()
      modifies this, wallets
      ensures var step := SetFrozen(walletId, frozen);
              var out := Next(prims, old(View()), step);
              && Valid() && history == old(history) + [step]
              && View() == out.state
              && (r.Ok? <==> out.error.None?) && (r.Err? ==> out.error == Some(r.error))
      ensures r.Ok? <==> walletId in old(wallets.wallets)
      ensures r.Ok? ==>
        && walletId in wallets.wallets && wallets.wallets[walletId].frozen == frozen
        && wallets.wallets[walletId].balance == old(wallets.wallets)[walletId].balance
      ensures forall id :: id in old(wallets.wallets) && id != walletId ==>
        id in wallets.wallets && wallets.wallets[id] == old(wallets.wallets)[id]
    {
      ghost var before := View();
      FreezeStored(prims, before, walletId, frozen);
      r := wallets.SetFrozen(walletId, frozen);
      Record(SetFrozen(walletId, frozen), before);
    }

    /** `submit_signed_transaction`: parse, look up wallets and their owners' names, build, queue. */
    method SubmitSigned(currentUser: string, request: SignedRequest) returns (r: Result<Transaction, LedgerError>)
      requires Valid()
      modifies this, wallets, mempool.repo
      ensures var from, to := Strip(request.senderWalletId), Strip(request.receiverWalletId);
              var step := Submit(currentUser, request, old(OwnerName(from)), old(OwnerName(to)));
              var out := Next(prims, old(View()), step);
              && Valid() && history == old(history) + [step]
              && View() == out.state
              && (r.Ok? <==> out.error.None?) && (r.Err? ==> out.error == Some(r.error))
              && (r.Ok? ==> out.state.pending == old(View()).pending + [r.value])
      ensures var from, to := Strip(request.senderWalletId), Strip(request.receiverWalletId);
              r.Ok? ==>
                && from in old(wallets.wallets) && to in old(wallets.wallets)
                && old(IsNameOf(r.value.sender, wallets.wallets[from].userId))
                && old(IsNameOf(r.value.receiver, wallets.wallets[to].userId))
    {
      ghost var before := View();
      var from, to := Strip(request.senderWalletId), Strip(request.receiverWalletId);
      ghost var step := Submit(currentUser, request, OwnerName(from), OwnerName(to));
      SubmitQueuedIff(prims, before, currentUser, request, OwnerName(from), OwnerName(to));
      var parsed := ParseSigned(request);
      if parsed.Err? {
        r := Err(parsed.error);
      } else {
        r := SubmitParsed(currentUser, parsed.value);
      }
      Record(step, before);
    }

    method SubmitParsed(currentUser: string, req: SignedRequest) returns (r: Result<Transaction, LedgerError>)
      requires Valid()
      modifies wallets`nonces, mempool.repo
      ensures var before := old(View());
              var from, to := req.senderWalletId, req.receiverWalletId;
              if from !in before.wallets then r == Err(WalletNotFound(from)) && View() == before
              else if to !in before.wallets then r == Err(WalletNotFound(to)) && View() == before
              else if before.wallets[from].userId != currentUser then r == Err(NotOwner) && View() == before
              else
                match Ledger.BuildTransaction(prims, before.wallets, before.nonces, before.rates, req,
                                              old(OwnerName(from)), old(OwnerName(to)))
                case Err(e) => r == Err(e) && View() == before
                case Ok(tx) =>
                  var out := Enqueue(before.(nonces := before.nonces[from := req.nonce]), tx);
                  View() == out.state && r == (match out.error case None => Ok(tx) case Some(e) => Err(e))
    {
      var from, to := req.senderWalletId, req.receiverWalletId;
      if from !in wallets.wallets {
        return Err(WalletNotFound(from));
      }
      if to !in wallets.wallets {
        return Err(WalletNotFound(to));
      }
      var sender, receiver := wallets.wallets[from], wallets.wallets[to];
      if sender.userId != currentUser {
        return Err(NotOwner);
      }
      var senderName, receiverName := UserName(sender.userId), UserName(receiver.userId);
      r := transfers.BuildTransaction(req, senderName, receiverName);
      if r.Ok? {
        var queued := mempool.Add(r.value);
        if queued.Err? {
          return Err(queued.error);
        }
      }
    }

    /** `admin_mint`. */
    method AdminMint(adminId: string, walletId: string, amount: Decimal) returns (r: Result<Transaction, LedgerError>)
      requires Valid()
      modifies this, mempool.repo
      ensures var step := Mint(walletId, amount, old(OwnerName(Strip(walletId))), old(UserName(adminId)));
              var out := Next(prims, old(View()), step);
              && Valid() && history == old(history) + [step]
              && View() == out.state
              && (r.Ok? <==> out.error.None?) && (r.Err? ==> out.error == Some(r.error))
              && (r.Ok? ==> out.state.pending == old(View()).pending + [r.value])
      ensures r.Ok? ==>
        && Strip(walletId) in old(wallets.wallets) && r.value.amount == amount
        && r.value.receiverWalletId == Strip(walletId) && r.value.signature == "MINT"
        && old(IsNameOf(r.value.receiver, wallets.wallets[Strip(walletId)].userId))
        && exists name :: old(IsNameOf(name, adminId)) && r.value.sender == "COINBASE(" + name + ")"
    {
      ghost var before := View();
      var id := Strip(walletId);
      var receiverName, adminName := OwnerName(id), UserName(adminId);
      if id == "" || amount.Value() <= 0.0 {
        r := Err(InvalidValue);
      } else {
        r := BuildMint(wallets.wallets, id, amount, receiverName, adminName);
        if r.Ok? {
          var queued := mempool.Add(r.value);
          if queued.Err? {
            r := Err(queued.error);
          }
        }
      }
      Record(Mint(walletId, amount, receiverName, adminName), before);
    }

    /**
     * `_mine`: search, flush, append, apply. The exception of a failing delta comes back after the block is on the
     * chain and the transactions before the failing one have moved their balances.
     */
    method MineBlock(timestamp: string, ghost known: int) returns (b: Block, r: Result<(), LedgerError>)
      requires Valid()
      requires known >= 1 && blockchain.repo.blocks != []
      requires ProofOk(prims, known, blockchain.repo.blocks[|blockchain.repo.blocks| - 1].proof)
      modifies this, wallets, mempool.repo, blockchain.repo
      ensures var step := Mine(timestamp, b.proof);
              var out := Next(prims, old(View()), step);
              && Valid() && history == old(history) + [step]
              && IsLeastProof(prims, b.proof, old(View()).chain[|old(View()).chain| - 1].proof)
              && View() == out.state && View().chain == old(View()).chain + [b]
              && r == (match out.error case None => Ok(()) case Some(e) => Err(e))
      ensures var chain := old(blockchain.repo.blocks);
              && b.index == |chain| + 1 && b.timestamp == timestamp && b.previousHash == HashBlock(chain[|chain| - 1])
              && b.transactions == old(mempool.repo.pending) && mempool.repo.pending == []
    {
      ghost var before := View();
      var proof := blockchain.ProofOfWork(blockchain.repo.blocks[|blockchain.repo.blocks| - 1].proof, known);
      b, r := Confirm(timestamp, proof);
      MinedBlock(prims, before, timestamp, proof);
      assert Next(prims, before, Mine(timestamp, proof)) == MineNext(prims, before, timestamp, proof);
      Record(Mine(timestamp, proof), before);
    }

    /** From the proof on: the mempool is drained into a block, which is appended before its deltas run. */
    method Confirm(timestamp: string, proof: int) returns (b: Block, r: Result<(), LedgerError>)
      requires Wired() && blockchain.repo.blocks != []
      modifies this`applied, wallets`wallets, mempool.repo, blockchain.repo
      ensures Wired() && b.proof == proof
      ensures var out := MineNext(prims, old(View()), timestamp, proof);
              && View() == out.state && View().chain == old(View()).chain + [b]
              && r == (match out.error case None => Ok(()) case Some(e) => Err(e))
    {
      ghost var ws := wallets.wallets;
      var previousHash := HashBlock(blockchain.repo.blocks[|blockchain.repo.blocks| - 1]);
      var included := mempool.repo.Flush();
      b := blockchain.CreateBlock(proof, previousHash, included, timestamp);
      r := Ok(());
      if included != [] {
        r := ApplyBlockDeltas(wallets, included);
      }
      applied := applied + [ApplyDeltas(ws, included).done];
    }

    /** `is_chain_valid` on a node driven by these calls answers yes, whatever was called before. */
    method IsChainValid() returns (ok: bool)
      requires Valid()
      ensures ok
    {
      RunKeepsInv(prims, startedAt, history);
      ok := blockchain.ValidateBlocks(blockchain.repo.blocks);
    }

    /** The total over all wallets is the mints and conversions of the applied transactions. */
    method TotalSupply() returns (total: real)
      requires Valid()
      ensures (forall id :: id in wallets.order ==> id in wallets.wallets) && CountsFit(blockchain.repo.blocks, applied)
      ensures total == SupplyChanges(wallets.wallets, None, AppliedTransactions(blockchain.repo.blocks, applied))
    {
      var s := View();
      RunKeepsInv(prims, startedAt, history);
      total := wallets.TotalSupply();
      var done := AppliedTransactions(s.chain, s.applied);
      SumBalancesIsSumFlow(s.order, s.wallets, None, done);
      SumFlowIsSupplyChanges(s.order, s.wallets, None, done);
    }
  }
}
