/** Results that join the ledger's runs with admission, storage and the commitment of the tip hash. */
module LedgerResults {
  import opened Balances
  import opened Chain
  import opened Decimals
  import opened Ledger
  import opened LedgerInvariants
  import opened Merkle
  import opened Messages
  import opened Models
  import opened Rows
  import opened Wallets
  import opened Wrappers

  // ---------- Admission ----------

  /** What a signed transfer must satisfy before the mempool sees it, in no particular order. */
  ghost predicate Authorised(prims: Primitives, s: State, currentUser: string, raw: SignedRequest) {
    var from, to := Strip(raw.senderWalletId), Strip(raw.receiverWalletId);
    && from != to && from != "" && to != ""
    && from in s.wallets && to in s.wallets
    && s.wallets[from].userId == currentUser
    && !s.wallets[from].frozen && !s.wallets[to].frozen
    && 0.0 < raw.amount.Value() <= s.wallets[from].balance
    && raw.nonce > 0 && raw.nonce > LastNonce(s.nonces, from)
    && ReceiverAmount(s.rates, s.wallets[from].currency, s.wallets[to].currency, raw.amount).Ok?
    && Strip(raw.signature) != ""
    && prims.Verify(s.wallets[from].publicKey, Strip(raw.signature), CanonicalMessageOf(from, to, raw))
  }

  function CanonicalMessageOf(from: string, to: string, raw: SignedRequest): string {
    StagedTransaction(SignedRequest(from, to, raw.amount, raw.nonce, Strip(raw.signature)), None, "", "").Message()
  }

  /** The display names the mempool insists on. */
  predicate NamesOk(senderName: string, receiverName: string) {
    !IsBlank(senderName) && !IsBlank(receiverName) && senderName != receiverName
  }

  /** A queued transfer is the request, with the converted amount its currencies call for. */
  predicate Carries(tx: Transaction, s: State, raw: SignedRequest, senderName: string, receiverName: string) {
    && tx.senderWalletId == Strip(raw.senderWalletId) && tx.receiverWalletId == Strip(raw.receiverWalletId)
    && tx.amount == raw.amount && tx.nonce == raw.nonce && tx.signature == Strip(raw.signature)
    && tx.sender == senderName && tx.receiver == receiverName
    && tx.senderWalletId in s.wallets && tx.receiverWalletId in s.wallets
    && var from, to := s.wallets[tx.senderWalletId].currency, s.wallets[tx.receiverWalletId].currency;
       ReceiverAmount(s.rates, from, to, raw.amount) == Ok(tx.receiverAmount)
  }

  lemma AuthorisedIffBuilt(prims: Primitives, s: State, currentUser: string, raw: SignedRequest,
                           senderName: string, receiverName: string)
    ensures Authorised(prims, s, currentUser, raw) <==>
      && ParseSigned(raw).Ok?
      && var req := ParseSigned(raw).value;
         && req.senderWalletId in s.wallets && req.receiverWalletId in s.wallets
         && s.wallets[req.senderWalletId].userId == currentUser
         && BuildTransaction(prims, s.wallets, s.nonces, s.rates, req, senderName, receiverName).Ok?
  {
  }

  /**
   * A submission is queued if and only if it is authorised and its names pass, and then with the requested parties,
   * amount and nonce. A refused one that was not authorised changes nothing, so a rejected signature uses up no nonce;
   * an authorised one always uses its nonce up.
   */
  lemma SubmitQueuedIff(prims: Primitives, s: State, currentUser: string, raw: SignedRequest,
                        senderName: string, receiverName: string)
    ensures var out := SubmitNext(prims, s, currentUser, raw, senderName, receiverName);
            && (out.error.None? <==> Authorised(prims, s, currentUser, raw) && NamesOk(senderName, receiverName))
            && (!Authorised(prims, s, currentUser, raw) ==> out.state == s)
            && (Authorised(prims, s, currentUser, raw) ==>
                  out.state.nonces == s.nonces[Strip(raw.senderWalletId) := raw.nonce]
                  && out.state.wallets == s.wallets)
            && (out.error.None? ==>
                  && |out.state.pending| == |s.pending| + 1 && s.pending <= out.state.pending
                  && Carries(out.state.pending[|s.pending|], s, raw, senderName, receiverName))
  {
    AuthorisedIffBuilt(prims, s, currentUser, raw, senderName, receiverName);
    if Authorised(prims, s, currentUser, raw) {
      var req := ParseSigned(raw).value;
      BuiltTransactionOk(prims, s, raw, req, senderName, receiverName);
      var tx := BuildTransaction(prims, s.wallets, s.nonces, s.rates, req, senderName, receiverName).value;
      assert IsAdmissible(tx) <==> NamesOk(senderName, receiverName);
    }
  }

  /**
   * Both wallets of one user carry one name, which the mempool refuses: a transfer between them is never queued, and
   * one that was authorised has used its nonce up.
   */
  lemma OwnTransferSpendsNonce(prims: Primitives, s: State, currentUser: string, raw: SignedRequest, name: string)
    ensures var out := SubmitNext(prims, s, currentUser, raw, name, name);
            && out.error.Some?
            && out.state == if Authorised(prims, s, currentUser, raw)
                            then s.(nonces := s.nonces[Strip(raw.senderWalletId) := raw.nonce]) else s
  {
    SubmitQueuedIff(prims, s, currentUser, raw, name, name);
    AuthorisedIffBuilt(prims, s, currentUser, raw, name, name);
    if Authorised(prims, s, currentUser, raw) {
      var req := ParseSigned(raw).value;
      var tx := BuildTransaction(prims, s.wallets, s.nonces, s.rates, req, name, name).value;
      assert !IsAdmissible(tx);
    }
  }

  /** A mint is queued if and only if its wallet exists unfrozen, the amount is positive and the names pass. */
  lemma MintQueuedIff(s: State, walletId: string, amount: Decimal, receiverName: string, adminName: string)
    requires "" !in s.wallets
    ensures var out := MintNext(s, walletId, amount, receiverName, adminName);
            var id := Strip(walletId);
            && (out.error.None? <==>
                  && id in s.wallets && !s.wallets[id].frozen && amount.Value() > 0.0
                  && !IsBlank(receiverName) && receiverName != "COINBASE(" + adminName + ")")
            && (out.error.Some? ==> out.state == s)
            && (out.error.None? ==>
                  && |out.state.pending| == |s.pending| + 1
                  && var tx := out.state.pending[|s.pending|];
                     && out.state == s.(pending := s.pending + [tx])
                     && tx.IsMint() && tx.receiverWalletId == id && tx.amount == amount)
  {
    var sender := "COINBASE(" + adminName + ")";
    assert sender[0] == 'C';
  }

  /**
   * Admission looks at the confirmed balance only. Two transfers that are each authorised are both queued, even when
   * their sum exceeds the balance; the block that confirms them then carries both and applies the first.
   */
  lemma JointOverspendIsConfirmedAndStops(prims: Primitives, s: State, user: string, a: SignedRequest, b: SignedRequest,
                                          senderName: string, receiverName: string, timestamp: string, proof: int)
    requires Inv(prims, s) && s.pending == [] && NamesOk(senderName, receiverName)
    requires Authorised(prims, s, user, a) && Authorised(prims, s, user, b)
    requires Strip(a.senderWalletId) == Strip(b.senderWalletId) && a.nonce < b.nonce
    requires s.wallets[Strip(a.senderWalletId)].balance < a.amount.Value() + b.amount.Value()
    ensures var first := SubmitNext(prims, s, user, a, senderName, receiverName);
            var second := SubmitNext(prims, first.state, user, b, senderName, receiverName);
            && first.error.None? && second.error.None?
            && |second.state.pending| == 2 && second.state.chain == s.chain
            && var mined := MineNext(prims, second.state, timestamp, proof);
               && mined.error == Some(InsufficientBalance(Strip(a.senderWalletId)))
               && |mined.state.chain| == |mined.state.applied| == |s.chain| + 1
               && mined.state.chain[|s.chain|].transactions == second.state.pending
               && mined.state.applied[|s.chain|] == 1
  {
    SubmitQueuedIff(prims, s, user, a, senderName, receiverName);
    var s1 := SubmitNext(prims, s, user, a, senderName, receiverName).state;
    var x := SubmissionQueues(prims, s, user, a, senderName, receiverName);
    assert Authorised(prims, s1, user, b);
    SubmitQueuedIff(prims, s1, user, b, senderName, receiverName);
    var y := SubmissionQueues(prims, s1, user, b, senderName, receiverName);
    var s2 := SubmitNext(prims, s1, user, b, senderName, receiverName).state;
    assert s2.pending == [x, y] && s2.wallets == s.wallets;
    MineOverspend(prims, s2, x, y, timestamp, proof);
  }

  lemma MineOverspend(prims: Primitives, s: State, x: Transaction, y: Transaction, timestamp: string, proof: int)
    requires s.chain != [] && |s.applied| == |s.chain| && s.pending == [x, y]
    requires x.IsTransfer() && y.IsTransfer() && x.senderWalletId == y.senderWalletId
    requires x.senderWalletId != x.receiverWalletId && y.senderWalletId != y.receiverWalletId
    requires Fits(s.wallets, [x], 0) && Fits(s.wallets, [y], 0)
    requires s.wallets[x.senderWalletId].balance < x.amount.Value() + y.amount.Value()
    ensures var mined := MineNext(prims, s, timestamp, proof);
            && mined.error == Some(InsufficientBalance(x.senderWalletId))
            && |mined.state.chain| == |mined.state.applied| == |s.chain| + 1
            && mined.state.chain[|s.chain|].transactions == [x, y]
            && mined.state.applied[|s.chain|] == 1
  {
    JointOverspendStopsBlock(s.wallets, x, y);
  }

  /** The transaction an authorised submission queues, and where. */
  lemma SubmissionQueues(prims: Primitives, s: State, user: string, raw: SignedRequest,
                         senderName: string, receiverName: string)
    returns (tx: Transaction)
    requires "" !in s.wallets && Authorised(prims, s, user, raw) && NamesOk(senderName, receiverName)
    ensures SubmitNext(prims, s, user, raw, senderName, receiverName).state
         == s.(pending := s.pending + [tx], nonces := s.nonces[Strip(raw.senderWalletId) := raw.nonce])
    ensures tx.IsTransfer() && tx.senderWalletId == Strip(raw.senderWalletId) && tx.amount == raw.amount
    ensures tx.senderWalletId != tx.receiverWalletId
    ensures Fits(s.wallets, [tx], 0)
  {
    AuthorisedIffBuilt(prims, s, user, raw, senderName, receiverName);
    var req := ParseSigned(raw).value;
    BuiltTransactionOk(prims, s, raw, req, senderName, receiverName);
    tx := BuildTransaction(prims, s.wallets, s.nonces, s.rates, req, senderName, receiverName).value;
    assert IsAdmissible(tx);
    assert [tx][..0] == [];
  }

  // ---------- The chain of a node ----------

  /** Blocks are numbered from 1, and the first points at no digest. */
  ghost predicate Numbered(chain: seq<Block>) {
    Rooted(chain) && forall i :: 0 <= i < |chain| ==> chain[i].index == i + 1
  }

  lemma {:induction false} RunNumbersBlocks(prims: Primitives, timestamp: string, steps: seq<Step>)
    ensures Numbered(Run(prims, timestamp, steps).chain)
    decreases |steps|
  {
    if steps != [] {
      RunNumbersBlocks(prims, timestamp, steps[..|steps| - 1]);
      StepNumbersBlocks(prims, Run(prims, timestamp, steps[..|steps| - 1]), steps[|steps| - 1]);
    }
  }

  lemma StepNumbersBlocks(prims: Primitives, s: State, step: Step)
    requires Numbered(s.chain)
    ensures Numbered(Next(prims, s, step).state.chain)
  {
    if !step.Mine? { ChainUntouched(prims, s, step); }
  }

  lemma ChainUntouched(prims: Primitives, s: State, step: Step)
    requires !step.Mine?
    ensures Next(prims, s, step).state.chain == s.chain
  {
  }

  // ---------- Storage ----------

  lemma SameFrame(front: string, a: string, b: string, back: string)
    ensures front + (a + back) == front + (b + back) <==> a == b
  {
    if front + (a + back) == front + (b + back) {
      var x, y := a + back, b + back;
      assert (front + x)[|front|..] == x && (front + y)[|front|..] == y;
      assert x[..|a|] == a && y[..|b|] == b;
    }
  }

  lemma Reframe(s: string, r: string, f: string, n: string)
    ensures s + [':'] + (r + [':'] + (f + [':'] + n)) == (s + [':'] + (r + [':'])) + (f + ([':'] + n))
  {
  }

  /** Two transfers that differ in their amounts alone sign the same text exactly when the amounts print alike. */
  lemma MessagesEqualIffPrintAlike(s: string, r: string, a: Decimal, b: Decimal, nonce: int)
    ensures CanonicalMessage(s, r, a, nonce) == CanonicalMessage(s, r, b, nonce) <==> FormatAmount(a) == FormatAmount(b)
  {
    var f, g, n := FormatAmount(a), FormatAmount(b), IntText(nonce);
    Reframe(s, r, f, n);
    Reframe(s, r, g, n);
    SameFrame(s + [':'] + (r + [':']), f, g, [':'] + n);
  }

  lemma PositivePrintsAlikeIff(d: Decimal, other: Decimal)
    requires d.Value() > 0.0
    ensures FormatAmount(other) == FormatAmount(d) <==> other.Value() == d.Value()
  {
    MagnitudeNonNegative(d);
    MagnitudeNonNegative(other);
    FormatCanonical(other, d);
  }

  /** Another amount leaves the signed text of a positive one alone exactly when its value is the same. */
  lemma MessageKeptIff(tx: Transaction, amount: Decimal)
    requires tx.amount.Value() > 0.0
    ensures CanonicalMessage(tx.senderWalletId, tx.receiverWalletId, amount, tx.nonce) == tx.Message()
       <==> amount.Value() == tx.amount.Value()
  {
    MessagesEqualIffPrintAlike(tx.senderWalletId, tx.receiverWalletId, amount, tx.amount, tx.nonce);
    PositivePrintsAlikeIff(tx.amount, amount);
  }

  /** The signed text of a positive amount survives the column exactly when the amount is whole units. */
  lemma MessageSurvivesIff(tx: Transaction)
    requires tx.amount.Value() > 0.0
    ensures Reread(tx).Message() == tx.Message() <==> WholeUnits(tx.amount.Value())
  {
    MessageKeptIff(tx, Stored(tx.amount));
    StoredSameIff(tx.amount);
  }

  /** What the Merkle leaf sees of the amounts, their floats, survives the columns. */
  predicate FloatsSurvive(prims: Primitives, tx: Transaction) {
    && prims.toFloat(Stored(tx.amount).Value()) == prims.toFloat(tx.amount.Value())
    && (tx.receiverAmount.Some? ==>
          var x := tx.receiverAmount.value;
          prims.toFloat(Stored(x).Value()) == prims.toFloat(x.Value()))
  }

  predicate AllFloatsSurvive(prims: Primitives, txs: seq<Transaction>) {
    forall k :: 0 <= k < |txs| ==> FloatsSurvive(prims, txs[k])
  }

  lemma PayloadsSurviveIff(prims: Primitives, txs: seq<Transaction>)
    ensures Payloads(prims, RereadAll(txs)) == Payloads(prims, txs) <==> AllFloatsSurvive(prims, txs)
  {
    var p, q := Payloads(prims, RereadAll(txs)), Payloads(prims, txs);
    forall k | 0 <= k < |txs| ensures p[k] == q[k] <==> FloatsSurvive(prims, txs[k]) { }
    if p == q {
      forall k | 0 <= k < |txs| ensures FloatsSurvive(prims, txs[k]) { assert p[k] == q[k]; }
    }
  }

  lemma RootSurvivesIff(prims: Primitives, b: Block)
    requires ValidBlock(prims, None, b)
    ensures ValidBlock(prims, None, RereadBlock(b)) <==> AllFloatsSurvive(prims, b.transactions)
  {
    PayloadsSurviveIff(prims, b.transactions);
    var p, q := Payloads(prims, RereadAll(b.transactions)), Payloads(prims, b.transactions);
    if MerkleRoot(p) == MerkleRoot(q) { SameLengthRootsInjective(p, q); }
  }

  lemma LinksSurvive(prims: Primitives, chain: seq<Block>)
    ensures (forall i :: 1 <= i < |chain| ==> Follows(prims, chain[i - 1], chain[i]))
       <==> forall i :: 1 <= i < |chain| ==> Follows(prims, RereadChain(chain)[i - 1], RereadChain(chain)[i])
  {
    var back := RereadChain(chain);
    forall i | 1 <= i < |chain|
      ensures Follows(prims, chain[i - 1], chain[i]) <==> Follows(prims, back[i - 1], back[i])
    {
    }
  }

  /** Without a wallet store the validator accepts a reread chain exactly when no stored amount changed its float. */
  lemma RereadRootsIff(prims: Primitives, chain: seq<Block>)
    requires ValidChain(prims, None, chain)
    ensures ValidChain(prims, None, RereadChain(chain))
       <==> forall i :: 0 <= i < |chain| ==> AllFloatsSurvive(prims, chain[i].transactions)
  {
    LinksSurvive(prims, chain);
    var back := RereadChain(chain);
    forall i | 0 <= i < |chain|
      ensures ValidBlock(prims, None, back[i]) <==> AllFloatsSurvive(prims, chain[i].transactions)
    {
      RootSurvivesIff(prims, chain[i]);
    }
  }

  lemma HeldTxsSurvive(prims: Primitives, ws: Option<WalletMap>, txs: seq<Transaction>)
    requires forall k :: 0 <= k < |txs| ==> HeldExactly(txs[k])
    ensures Payloads(prims, RereadAll(txs)) == Payloads(prims, txs)
    ensures ValidTxs(prims, ws, RereadAll(txs)) <==> ValidTxs(prims, ws, txs)
  {
    forall k | 0 <= k < |txs|
      ensures FloatsSurvive(prims, txs[k]) && RereadAll(txs)[k].Message() == txs[k].Message()
    {
      assert HeldExactly(txs[k]);
      RereadSameIff(txs[k]);
      MessageSurvivesIff(txs[k]);
    }
    PayloadsSurviveIff(prims, txs);
    SameMessagesSameVerdict(prims, ws, RereadAll(txs), txs);
  }

  lemma SameMessagesSameVerdict(prims: Primitives, ws: Option<WalletMap>, a: seq<Transaction>, b: seq<Transaction>)
    requires |a| == |b| && forall k :: 0 <= k < |a| ==>
      && a[k].Message() == b[k].Message()
      && a[k].senderWalletId == b[k].senderWalletId && a[k].signature == b[k].signature
    ensures ValidTxs(prims, ws, a) <==> ValidTxs(prims, ws, b)
  {
    if ws.Some? {
      forall k | 0 <= k < |a| ensures ValidTx(prims, ws.value, a[k]) <==> ValidTx(prims, ws.value, b[k]) { }
    }
  }

  /** A chain its columns hold exactly keeps its verdict, signatures included, under every wallet store. */
  lemma VerdictSurvives(prims: Primitives, ws: Option<WalletMap>, chain: seq<Block>)
    requires ChainHeldExactly(chain)
    ensures ValidChain(prims, ws, RereadChain(chain)) <==> ValidChain(prims, ws, chain)
  {
    LinksSurvive(prims, chain);
    var back := RereadChain(chain);
    forall i | 0 <= i < |chain| ensures ValidBlock(prims, ws, back[i]) <==> ValidBlock(prims, ws, chain[i]) {
      HeldTxsSurvive(prims, ws, chain[i].transactions);
    }
  }

  lemma ValidWithoutWallets(prims: Primitives, ws: Option<WalletMap>, chain: seq<Block>)
    requires ValidChain(prims, ws, chain)
    ensures ValidChain(prims, None, chain)
  {
    forall i | 0 <= i < |chain| ensures ValidBlock(prims, None, chain[i]) {
      assert ValidBlock(prims, ws, chain[i]);
    }
  }

  // ---------- The verdict of a validator with wallets ----------

  /** The sender's recorded key verifies the transfer's signature over `message`. */
  predicate Signs(prims: Primitives, ws: WalletMap, tx: Transaction, message: string) {
    tx.senderWalletId in ws && prims.Verify(ws[tx.senderWalletId].publicKey, tx.signature, message)
  }

  /** A mint, or a transfer whose signature also covers the text it has when reread. */
  predicate SignatureSurvives(prims: Primitives, ws: WalletMap, tx: Transaction) {
    tx.IsMint() || Signs(prims, ws, tx, Reread(tx).Message())
  }

  predicate AllSignaturesSurvive(prims: Primitives, ws: WalletMap, txs: seq<Transaction>) {
    forall k :: 0 <= k < |txs| ==> SignatureSurvives(prims, ws, txs[k])
  }

  lemma SignaturesSurviveIff(prims: Primitives, ws: WalletMap, txs: seq<Transaction>)
    requires ValidTxs(prims, Some(ws), txs)
    ensures ValidTxs(prims, Some(ws), RereadAll(txs)) <==> AllSignaturesSurvive(prims, ws, txs)
  {
    forall k | 0 <= k < |txs|
      ensures ValidTx(prims, ws, RereadAll(txs)[k]) <==> SignatureSurvives(prims, ws, txs[k])
    {
      assert ValidTx(prims, ws, txs[k]);
    }
  }

  lemma BlockSurvivesIff(prims: Primitives, ws: WalletMap, b: Block)
    requires ValidBlock(prims, Some(ws), b)
    ensures ValidBlock(prims, Some(ws), RereadBlock(b))
       <==> AllFloatsSurvive(prims, b.transactions) && AllSignaturesSurvive(prims, ws, b.transactions)
  {
    assert ValidBlock(prims, None, b);
    RootSurvivesIff(prims, b);
    SignaturesSurviveIff(prims, ws, b.transactions);
    assert RereadBlock(b).transactions == RereadAll(b.transactions);
  }

  /**
   * The validator accepts a reread chain exactly when every amount keeps its float and every transfer's signature
   * also covers the reread text.
   */
  lemma RereadVerdictIff(prims: Primitives, ws: WalletMap, chain: seq<Block>)
    requires ValidChain(prims, Some(ws), chain)
    ensures ValidChain(prims, Some(ws), RereadChain(chain))
       <==> forall i :: 0 <= i < |chain| ==>
              AllFloatsSurvive(prims, chain[i].transactions) && AllSignaturesSurvive(prims, ws, chain[i].transactions)
  {
    LinksSurvive(prims, chain);
    var back := RereadChain(chain);
    forall i | 0 <= i < |chain|
      ensures ValidBlock(prims, Some(ws), back[i])
         <==> AllFloatsSurvive(prims, chain[i].transactions) && AllSignaturesSurvive(prims, ws, chain[i].transactions)
    {
      BlockSurvivesIff(prims, ws, chain[i]);
    }
  }

  /** No signature covers two texts under one key. */
  ghost predicate Binding(prims: Primitives) {
    forall key, signature, m, m' ::
      prims.Verify(key, signature, m) && prims.Verify(key, signature, m') ==> m == m'
  }

  lemma BoundTo(prims: Primitives, key: string, signature: string, m: string, m': string)
    requires Binding(prims) && prims.Verify(key, signature, m)
    ensures prims.Verify(key, signature, m') <==> m == m'
  {
  }

  /** The columns leave what a transfer signs, and every amount's float, alone. */
  predicate AmountsSurvive(prims: Primitives, tx: Transaction) {
    FloatsSurvive(prims, tx) && (!tx.IsMint() ==> WholeUnits(tx.amount.Value()))
  }

  lemma SignatureSurvivesIff(prims: Primitives, ws: WalletMap, tx: Transaction)
    requires Binding(prims) && ValidTx(prims, ws, tx) && tx.amount.Value() > 0.0
    ensures SignatureSurvives(prims, ws, tx) <==> tx.IsMint() || WholeUnits(tx.amount.Value())
  {
    if !tx.IsMint() {
      MessageSurvivesIff(tx);
      BoundTo(prims, ws[tx.senderWalletId].publicKey, tx.signature, tx.Message(), Reread(tx).Message());
    }
  }

  predicate AllAmountsSurvive(prims: Primitives, txs: seq<Transaction>) {
    forall k :: 0 <= k < |txs| ==> AmountsSurvive(prims, txs[k])
  }

  predicate AllPositive(chain: seq<Block>) {
    forall i, k :: 0 <= i < |chain| && 0 <= k < |chain[i].transactions| ==>
      chain[i].transactions[k].amount.Value() > 0.0
  }

  lemma TxsSurviveIff(prims: Primitives, ws: WalletMap, txs: seq<Transaction>)
    requires Binding(prims) && ValidTxs(prims, Some(ws), txs)
    requires forall k :: 0 <= k < |txs| ==> txs[k].amount.Value() > 0.0
    ensures AllFloatsSurvive(prims, txs) && AllSignaturesSurvive(prims, ws, txs) <==> AllAmountsSurvive(prims, txs)
  {
    forall k | 0 <= k < |txs|
      ensures SignatureSurvives(prims, ws, txs[k]) <==> txs[k].IsMint() || WholeUnits(txs[k].amount.Value())
    {
      SignatureSurvivesIff(prims, ws, txs[k]);
    }
  }

  /**
   * With binding signatures that is a condition on the amounts: all keep their floats, and those of transfers are
   * whole numbers of 10^-8 units.
   */
  lemma RereadVerdictBinding(prims: Primitives, ws: WalletMap, chain: seq<Block>)
    requires Binding(prims) && ValidChain(prims, Some(ws), chain) && AllPositive(chain)
    ensures ValidChain(prims, Some(ws), RereadChain(chain))
       <==> forall i :: 0 <= i < |chain| ==> AllAmountsSurvive(prims, chain[i].transactions)
  {
    RereadVerdictIff(prims, ws, chain);
    forall i | 0 <= i < |chain|
      ensures AllFloatsSurvive(prims, chain[i].transactions) && AllSignaturesSurvive(prims, ws, chain[i].transactions)
         <==> AllAmountsSurvive(prims, chain[i].transactions)
    {
      assert ValidBlock(prims, Some(ws), chain[i]);
      TxsSurviveIff(prims, ws, chain[i].transactions);
    }
  }

  lemma {:induction false} MinedAreHistory(chain: seq<Block>, i: nat, k: nat)
    requires i < |chain| && k < |chain[i].transactions|
    ensures chain[i].transactions[k] in AllTransactions(chain)
    decreases |chain|
  {
    var n := |chain| - 1;
    if i < n { MinedAreHistory(chain[..n], i, k); }
  }

  lemma ChainPositive(prims: Primitives, s: State)
    requires TxsOk(prims, s.wallets, History(s))
    ensures AllPositive(s.chain)
  {
    forall i, k | 0 <= i < |s.chain| && 0 <= k < |s.chain[i].transactions|
      ensures s.chain[i].transactions[k].amount.Value() > 0.0
    {
      MinedAreHistory(s.chain, i, k);
      assert s.chain[i].transactions[k] in History(s);
    }
  }

  /**
   * A node's chain, written to the two tables under any ascending row ids and read back in any row order, comes back
   * equal by value exactly when the columns hold its amounts, and then the validator still accepts it. In every case
   * the validator accepts it exactly when all amounts keep their floats and all signatures cover the reread texts: with
   * binding signatures, when the transfers' amounts are whole units.
   */
  lemma ReloadKeepsChainValid(prims: Primitives, timestamp: string, steps: seq<Step>,
                              ids: seq<seq<int>>, rows: seq<Row>)
    requires var chain := Run(prims, timestamp, steps).chain;
             IdsFit(chain, ids) && multiset(rows) == multiset(Flatten(chain, ids))
    ensures var s, back := Run(prims, timestamp, steps), Regroup(rows);
            && (InsertableChain(s.chain) && SameChain(back, s.chain) <==> ChainHeldExactly(s.chain))
            && (ChainHeldExactly(s.chain) ==> ValidChain(prims, Some(s.wallets), back))
            && (ValidChain(prims, None, back) <==>
                  forall i :: 0 <= i < |s.chain| ==> AllFloatsSurvive(prims, s.chain[i].transactions))
            && (ValidChain(prims, Some(s.wallets), back) <==>
                  forall i :: 0 <= i < |s.chain| ==>
                    && AllFloatsSurvive(prims, s.chain[i].transactions)
                    && AllSignaturesSurvive(prims, s.wallets, s.chain[i].transactions))
            && (Binding(prims) ==>
                  (ValidChain(prims, Some(s.wallets), back) <==>
                     forall i :: 0 <= i < |s.chain| ==> AllAmountsSurvive(prims, s.chain[i].transactions)))
  {
    var s := Run(prims, timestamp, steps);
    RunNumbersBlocks(prims, timestamp, steps);
    ChainAlwaysValid(prims, timestamp, steps);
    RegroupInvertsFlatten(s.chain, ids, rows);
    ReloadSameIff(s.chain, ids, rows);
    if ChainHeldExactly(s.chain) { VerdictSurvives(prims, Some(s.wallets), s.chain); }
    ValidWithoutWallets(prims, Some(s.wallets), s.chain);
    RereadRootsIff(prims, s.chain);
    RereadVerdictIff(prims, s.wallets, s.chain);
    if Binding(prims) {
      RunKeepsInv(prims, timestamp, steps);
      ChainPositive(prims, s);
      RereadVerdictBinding(prims, s.wallets, s.chain);
    }
  }

  /** The same headers, and the same transactions wherever the counts agree throughout. */
  ghost predicate SameHistory(prims: Primitives, a: seq<Block>, b: seq<Block>) {
    && SameHeaders(a, b)
    && ((forall i :: 0 <= i < |a| && i < |b| ==> |a[i].transactions| == |b[i].transactions|) ==>
          SameRecord(prims, a, b))
  }

  lemma SameTipSameHistory(prims: Primitives, wa: WalletMap, wb: WalletMap, a: seq<Block>, b: seq<Block>)
    requires ValidChain(prims, Some(wa), a) && ValidChain(prims, Some(wb), b) && Rooted(a) && Rooted(b)
    requires HashBlock(a[|a| - 1]) == HashBlock(b[|b| - 1])
    ensures SameHistory(prims, a, b)
  {
    ValidIsLinked(prims, Some(wa), a);
    ValidIsLinked(prims, Some(wb), b);
    TipCommitsFromGenesis(a, b);
    if forall i :: 0 <= i < |a| && i < |b| ==> |a[i].transactions| == |b[i].transactions| {
      SameHeadersSameRecord(prims, Some(wa), Some(wb), a, b);
    }
  }

  /**
   * Two nodes with the same tip hash, whatever each went through, hold the same headers; and with equal transaction
   * counts per block, the same serialised transactions.
   */
  lemma SameTipSameRecord(prims: Primitives, t1: string, steps1: seq<Step>, t2: string, steps2: seq<Step>)
    requires var a, b := Run(prims, t1, steps1).chain, Run(prims, t2, steps2).chain;
             a != [] && b != [] && HashBlock(a[|a| - 1]) == HashBlock(b[|b| - 1])
    ensures SameHistory(prims, Run(prims, t1, steps1).chain, Run(prims, t2, steps2).chain)
  {
    var s1, s2 := Run(prims, t1, steps1), Run(prims, t2, steps2);
    RunNumbersBlocks(prims, t1, steps1);
    RunNumbersBlocks(prims, t2, steps2);
    ChainAlwaysValid(prims, t1, steps1);
    ChainAlwaysValid(prims, t2, steps2);
    SameTipSameHistory(prims, s1.wallets, s2.wallets, s1.chain, s2.chain);
  }
}
