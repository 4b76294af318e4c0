/** The ledger as a state machine: wallets, exchange rates, mempool and chain, and the steps clients can take. */
module Ledger {
  import opened Chain
  import opened Conversion
  import opened Currencies
  import opened Decimals
  import opened Models
  import opened Wallets
  import opened Wrappers

  /**
   * `order` is the insertion order of the wallet dictionary. `applied` is history, not stored by the program: how
   * many transactions of each block moved their balances.
   */
  datatype State = State(
    wallets: WalletMap,
    order: seq<string>,
    nonces: map<string, int>,
    rates: seq<ExchangeRate>,
    pending: seq<Transaction>,
    chain: seq<Block>,
    applied: seq<nat>)

  datatype SignedRequest = SignedRequest(
    senderWalletId: string,
    receiverWalletId: string,
    amount: Decimal,
    nonce: int,
    signature: string)

  datatype Step =
    | CreateWallet(token: string, userId: string, publicKey: string, currency: string, walletType: string)
    | SetRate(from: string, to: string, rate: real, feeRate: real)
    | SyncRate(from: string, to: string, rate: real, provider: string)
    | SetFrozen(walletId: string, frozen: bool)
    | Submit(currentUser: string, request: SignedRequest, senderName: string, receiverName: string)
    | Mint(mintWalletId: string, amount: Decimal, mintReceiverName: string, adminName: string)
    | Mine(timestamp: string, proof: int)

  /** The state after a step, and the exception it raised, if any. */
  datatype Outcome = Outcome(state: State, error: Option<LedgerError>)

  // ---------- Checks ----------

  /** `parse_signed_transaction` on typed fields. */
  function ParseSigned(req: SignedRequest): Result<SignedRequest, LedgerError> {
    var sender, receiver, signature := Strip(req.senderWalletId), Strip(req.receiverWalletId), Strip(req.signature);
    if sender == "" || receiver == "" then Err(InvalidValue)
    else if sender == receiver then Err(InvalidValue)
    else if signature == "" then Err(InvalidValue)
    else if req.amount.Value() <= 0.0 then Err(InvalidValue)
    else if req.nonce <= 0 then Err(InvalidValue)
    else Ok(SignedRequest(sender, receiver, req.amount, req.nonce, signature))
  }

  /** `validate_transaction`. */
  predicate IsAdmissible(tx: Transaction) {
    && tx.amount.Value() > 0.0
    && (tx.receiverAmount.Some? ==> tx.receiverAmount.value.Value() > 0.0)
    && !IsBlank(tx.sender) && !IsBlank(tx.receiver)
    && tx.sender != tx.receiver
  }

  /** The receiver's amount: none within a currency, else the conversion at the latest rate of the pair. */
  function ReceiverAmount(rates: seq<ExchangeRate>, from: string, to: string, amount: Decimal)
    : Result<Option<Decimal>, LedgerError>
  {
    if from == to then Ok(None)
    else
      var found := ListExchangeRates(rates, Some(from), Some(to), 1);
      if found == [] then Err(RateNotFound)
      else
        match Convert(amount, found[0].rate, found[0].feeRate)
        case None => Err(InvalidValue)
        case Some(net) => Ok(Some(net))
  }

  function StagedTransaction(req: SignedRequest, receiverAmount: Option<Decimal>,
                             senderName: string, receiverName: string): Transaction
  {
    Transaction(senderName, receiverName, req.amount, receiverAmount,
                req.senderWalletId, req.receiverWalletId, req.nonce, req.signature)
  }

  /** `build_transaction` up to the reservation of the nonce, which comes last. */
  function BuildTransaction(prims: Primitives, ws: WalletMap, nonces: map<string, int>, rates: seq<ExchangeRate>,
                            req: SignedRequest, senderName: string, receiverName: string)
    : Result<Transaction, LedgerError>
  {
    var s, r := req.senderWalletId, req.receiverWalletId;
    if s !in ws then Err(WalletNotFound(s))
    else if r !in ws then Err(WalletNotFound(r))
    else if ws[s].frozen || ws[r].frozen then Err(WalletFrozen(if ws[s].frozen then s else r))
    else if ws[s].balance < req.amount.Value() then Err(InsufficientBalance(s))
    else
      match ReceiverAmount(rates, ws[s].currency, ws[r].currency, req.amount)
      case Err(e) => Err(e)
      case Ok(receiverAmount) =>
        var tx := StagedTransaction(req, receiverAmount, senderName, receiverName);
        if !prims.Verify(ws[s].publicKey, req.signature, tx.Message()) then Err(SignatureRejected(s))
        else if req.nonce <= LastNonce(nonces, s) then Err(NonceReplay(s))
        else Ok(tx)
  }

  function BuildMint(ws: WalletMap, walletId: string, amount: Decimal, receiverName: string, adminName: string)
    : Result<Transaction, LedgerError>
  {
    if walletId !in ws then Err(WalletNotFound(walletId))
    else if ws[walletId].frozen then Err(WalletFrozen(walletId))
    else if amount.Value() <= 0.0 then Err(InvalidValue)
    else Ok(Transaction("COINBASE(" + adminName + ")", receiverName, amount, None, "", walletId, 0, COINBASE_SIGNATURE))
  }

  // ---------- Steps ----------

  /** `MempoolService.add`: validate, then queue. */
  function Enqueue(s: State, tx: Transaction): Outcome {
    if IsAdmissible(tx) then Outcome(s.(pending := s.pending + [tx]), None) else Outcome(s, Some(InvalidValue))
  }

  /** `submit_signed_transaction`. The nonce stays reserved when the mempool then refuses the transaction. */
  function SubmitNext(prims: Primitives, s: State, currentUser: string, request: SignedRequest,
                      senderName: string, receiverName: string): Outcome
  {
    match ParseSigned(request)
    case Err(e) => Outcome(s, Some(e))
    case Ok(req) =>
      var from, to := req.senderWalletId, req.receiverWalletId;
      if from !in s.wallets then Outcome(s, Some(WalletNotFound(from)))
      else if to !in s.wallets then Outcome(s, Some(WalletNotFound(to)))
      else if s.wallets[from].userId != currentUser then Outcome(s, Some(NotOwner))
      else
        match BuildTransaction(prims, s.wallets, s.nonces, s.rates, req, senderName, receiverName)
        case Err(e) => Outcome(s, Some(e))
        case Ok(tx) => Enqueue(s.(nonces := s.nonces[from := req.nonce]), tx)
  }

  /** `admin_mint`. */
  function MintNext(s: State, walletId: string, amount: Decimal, receiverName: string, adminName: string): Outcome {
    var id := Strip(walletId);
    if id == "" || amount.Value() <= 0.0 then Outcome(s, Some(InvalidValue))
    else
      match BuildMint(s.wallets, id, amount, receiverName, adminName)
      case Err(e) => Outcome(s, Some(e))
      case Ok(tx) => Enqueue(s, tx)
  }

  /** `_mine`: the block is on the chain before its deltas run, and stays there when one of them raises. */
  function MineNext(prims: Primitives, s: State, timestamp: string, proof: int): Outcome
    requires s.chain != []
  {
    var previous := s.chain[|s.chain| - 1];
    var b := NewBlock(prims, |s.chain|, timestamp, proof, HashBlock(previous), s.pending);
    var d := ApplyDeltas(s.wallets, s.pending);
    Outcome(s.(pending := [], chain := s.chain + [b], wallets := d.wallets, applied := s.applied + [d.done]), d.error)
  }

  const MANUAL := "MANUAL"
  const NATIVE := "NATIVE"

  /** `parse_currency_code` on a code that is upper-case and alphanumeric, or not given. */
  function CurrencyCode(code: string): string { if code == "" then NATIVE else code }

  /** What the admin route refuses; the feed is taken as it comes. */
  predicate RateRefused(from: string, to: string, rate: real, feeRate: real) {
    from == to || rate <= 0.0 || feeRate < 0.0 || feeRate > 1.0
  }

  function AddRate(s: State, from: string, to: string, rate: real, feeRate: real, source: string): State {
    s.(rates := s.rates + [ExchangeRate(|s.rates| + 1, from, to, rate, feeRate, source)])
  }

  function WalletId(token: string): string { "w_" + token }

  /** One step. A Mine step whose proof is not the one the search finds is no step of the program: nothing happens. */
  function Next(prims: Primitives, s: State, step: Step): Outcome {
    match step
    case CreateWallet(token, userId, publicKey, currency, walletType) =>
      var id := WalletId(token);
      if id in s.wallets then Outcome(s, Some(WalletExists(id)))
      else
        var wallet := Wallet(id, userId, CurrencyCode(currency), walletType, 0.0, publicKey, false);
        Outcome(s.(wallets := s.wallets[id := wallet], order := s.order + [id]), None)
    case SetRate(from, to, rate, feeRate) =>
      if RateRefused(CurrencyCode(from), CurrencyCode(to), rate, feeRate) then Outcome(s, Some(InvalidValue))
      else Outcome(AddRate(s, CurrencyCode(from), CurrencyCode(to), rate, feeRate, MANUAL), None)
    case SyncRate(from, to, rate, provider) =>
      Outcome(AddRate(s, CurrencyCode(from), CurrencyCode(to), rate, 0.0, provider), None)
    case SetFrozen(id, frozen) =>
      if id !in s.wallets then Outcome(s, Some(WalletNotFound(id)))
      else Outcome(s.(wallets := s.wallets[id := s.wallets[id].(frozen := frozen)]), None)
    case Submit(currentUser, request, senderName, receiverName) =>
      SubmitNext(prims, s, currentUser, request, senderName, receiverName)
    case Mint(walletId, amount, receiverName, adminName) => MintNext(s, walletId, amount, receiverName, adminName)
    case Mine(timestamp, proof) =>
      if s.chain != [] && IsLeastProof(prims, proof, s.chain[|s.chain| - 1].proof)
      then MineNext(prims, s, timestamp, proof)
      else Outcome(s, Some(InvalidValue))
  }

  function Init(prims: Primitives, timestamp: string): State {
    State(map[], [], map[], [], [], [Genesis(prims, timestamp)], [0])
  }

  /** The state after any sequence of steps from an empty node. */
  function Run(prims: Primitives, timestamp: string, steps: seq<Step>): State {
    if steps == [] then Init(prims, timestamp)
    else Next(prims, Run(prims, timestamp, steps[..|steps| - 1]), steps[|steps| - 1]).state
  }

  // ---------- Histories ----------

  function AllTransactions(chain: seq<Block>): seq<Transaction> {
    if chain == [] then [] else AllTransactions(chain[..|chain| - 1]) + chain[|chain| - 1].transactions
  }

  predicate CountsFit(chain: seq<Block>, applied: seq<nat>) {
    |applied| == |chain| && forall i :: 0 <= i < |chain| ==> applied[i] <= |chain[i].transactions|
  }

  /** The transactions that moved balances: of every block the applied prefix. */
  function AppliedTransactions(chain: seq<Block>, applied: seq<nat>): seq<Transaction>
    requires CountsFit(chain, applied)
  {
    if chain == [] then []
    else
      AppliedTransactions(chain[..|chain| - 1], applied[..|chain| - 1])
      + chain[|chain| - 1].transactions[..applied[|chain| - 1]]
  }

  /** Every transaction ever admitted, oldest first: mined ones along the chain, then the mempool. */
  function History(s: State): seq<Transaction> { AllTransactions(s.chain) + s.pending }
}
