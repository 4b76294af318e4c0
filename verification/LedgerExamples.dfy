/** Reachable states at which the exceptional results apply. */
module LedgerExamples {
  import opened Chain
  import opened Conversion
  import opened Decimals
  import opened Ledger
  import opened LedgerInvariants
  import opened LedgerResults
  import opened Models
  import opened Rows
  import opened Wallets
  import opened Wrappers

  /** A curve check and a difficulty test that always pass, and exact floats. */
  function Lenient(): Primitives {
    Primitives((publicKey, signature, message) => true, n => true, x => x, x => UnitsDecimal(ColumnUnits(x)))
  }

  /** Every proof passes. */
  ghost predicate Easy(prims: Primitives) { forall n :: prims.meetsDifficulty(n) }

  function Open(token: string, userId: string): Step { CreateWallet(token, userId, "key", "NATIVE", "USER") }

  /** A wallet without balance. */
  function Empty(id: string, userId: string): Wallet { Wallet(id, userId, "NATIVE", "USER", 0.0, "key", false) }

  function Coinbase(amount: Decimal): Transaction {
    Transaction("COINBASE(admin)", "alice", amount, None, "", "w_a", 0, COINBASE_SIGNATURE)
  }

  /** The wallets of two users, and a mint into the first, mined. */
  function Funding(amount: Decimal): seq<Step> {
    [Open("a", "alice"), Open("b", "bob"), Mint("w_a", amount, "alice", "admin"), Mine("t1", 1)]
  }

  function FundedWallets(balance: real): WalletMap {
    map["w_a" := Empty("w_a", "alice").(balance := balance), "w_b" := Empty("w_b", "bob")]
  }

  function MintBlock(prims: Primitives, amount: Decimal): Block {
    NewBlock(prims, 1, "t1", 1, HashBlock(Genesis(prims, "t0")), [Coinbase(amount)])
  }

  lemma OpenedWallets(prims: Primitives)
    ensures Run(prims, "t0", [Open("a", "alice"), Open("b", "bob")])
         == State(FundedWallets(0.0), ["w_a", "w_b"], map[], [], [], [Genesis(prims, "t0")], [0])
  {
    RunSnoc(prims, "t0", [], Open("a", "alice"));
    RunSnoc(prims, "t0", [Open("a", "alice")], Open("b", "bob"));
    assert [Open("a", "alice")] + [Open("b", "bob")] == [Open("a", "alice"), Open("b", "bob")];
    assert [] + [Open("a", "alice")] == [Open("a", "alice")];
    assert WalletId("a") == "w_a" && WalletId("b") == "w_b";
  }

  lemma MintQueued(prims: Primitives, amount: Decimal)
    requires amount.Value() > 0.0
    ensures var s := State(FundedWallets(0.0), ["w_a", "w_b"], map[], [], [], [Genesis(prims, "t0")], [0]);
            Next(prims, s, Mint("w_a", amount, "alice", "admin"))
            == Outcome(s.(pending := [Coinbase(amount)]), None)
  {
    assert Strip("w_a") == "w_a";
    assert !IsSpace("COINBASE(admin)"[0]) && !IsSpace("alice"[0]);
    assert "COINBASE(" + "admin" + ")" == "COINBASE(admin)";
    assert "COINBASE(admin)"[0] != "alice"[0];
  }

  lemma MintMined(prims: Primitives, amount: Decimal)
    requires Easy(prims) && amount.Value() > 0.0
    ensures var s := State(FundedWallets(0.0), ["w_a", "w_b"], map[], [], [Coinbase(amount)],
                           [Genesis(prims, "t0")], [0]);
            Next(prims, s, Mine("t1", 1)) == Outcome(
              State(FundedWallets(amount.Value()), ["w_a", "w_b"], map[], [], [],
                    [Genesis(prims, "t0"), MintBlock(prims, amount)], [0, 1]), None)
  {
    var tx := Coinbase(amount);
    assert [tx][1..] == [];
    assert "w_a"[2] != "w_b"[2];
    var ws, funded := FundedWallets(0.0), FundedWallets(amount.Value());
    assert ws["w_a" := ws["w_a"].(balance := amount.Value())] == funded;
    assert ApplyTx(ws, tx) == Ok(funded);
    assert ApplyDeltas(funded, []).done == 0;
    assert ApplyDeltas(ws, [tx]) == Deltas(funded, 1, None);
  }

  /** The funded state is reachable. */
  lemma Funded(prims: Primitives, amount: Decimal)
    requires Easy(prims) && amount.Value() > 0.0
    ensures Run(prims, "t0", Funding(amount))
         == State(FundedWallets(amount.Value()), ["w_a", "w_b"], map[], [], [],
                  [Genesis(prims, "t0"), MintBlock(prims, amount)], [0, 1])
  {
    var wallets := [Open("a", "alice"), Open("b", "bob")];
    var mint, mine := Mint("w_a", amount, "alice", "admin"), Mine("t1", 1);
    OpenedWallets(prims);
    RunSnoc(prims, "t0", wallets, mint);
    MintQueued(prims, amount);
    RunSnoc(prims, "t0", wallets + [mint], mine);
    MintMined(prims, amount);
    assert wallets + [mint] + [mine] == Funding(amount);
  }

  // ---------- Two payments of the whole balance ----------

  function Ten(): Decimal { Decimal(false, 10, 0) }

  function Payment(nonce: int): SignedRequest { SignedRequest("w_a", "w_b", Ten(), nonce, "ab") }

  function Pay(nonce: int): Step { Submit("alice", Payment(nonce), "alice", "bob") }

  lemma PaymentAuthorised(nonce: int)
    requires nonce >= 1
    ensures Authorised(Lenient(), Run(Lenient(), "t0", Funding(Ten())), "alice", Payment(nonce))
  {
    Funded(Lenient(), Ten());
    assert Ten().Value() == 10.0;
    assert Strip("w_a") == "w_a" && Strip("w_b") == "w_b" && Strip("ab") == "ab";
    assert "w_a"[2] != "w_b"[2];
    assert IsHex("ab");
  }

  lemma DifferentNames()
    ensures NamesOk("alice", "bob")
  {
    assert !IsSpace("alice"[0]) && !IsSpace("bob"[0]) && "alice"[0] != "bob"[0];
  }

  lemma RunThree(prims: Primitives, start: string, steps: seq<Step>, x: Step, y: Step, z: Step)
    ensures var s1 := Next(prims, Run(prims, start, steps), x).state;
            Run(prims, start, steps + [x, y, z]) == Next(prims, Next(prims, s1, y).state, z).state
  {
    RunSnoc(prims, start, steps, x);
    RunSnoc(prims, start, steps + [x], y);
    RunSnoc(prims, start, steps + [x] + [y], z);
    assert steps + [x] + [y] + [z] == steps + [x, y, z];
  }

  /** The joint overspend's conditions hold after `Funding`. */
  lemma OverspendConditions()
    ensures var s := Run(Lenient(), "t0", Funding(Ten()));
            && Inv(Lenient(), s) && s.pending == [] && |s.chain| == 2
            && Authorised(Lenient(), s, "alice", Payment(1)) && Authorised(Lenient(), s, "alice", Payment(2))
            && Strip("w_a") in s.wallets
            && s.wallets[Strip("w_a")].balance < Ten().Value() + Ten().Value()
  {
    Funded(Lenient(), Ten());
    RunKeepsInv(Lenient(), "t0", Funding(Ten()));
    PaymentAuthorised(1);
    PaymentAuthorised(2);
    assert Ten().Value() == 10.0;
    assert Strip("w_a") == "w_a";
  }

  /** A run in which both payments of the whole balance are confirmed in one block, and the first alone is applied. */
  lemma OverspendIsReachable()
    ensures var s := Run(Lenient(), "t0", Funding(Ten()) + [Pay(1), Pay(2), Mine("t2", 1)]);
            |s.chain| == |s.applied| == 3 && |s.chain[2].transactions| == 2 && s.applied[2] == 1
  {
    var prims, steps := Lenient(), Funding(Ten());
    var s := Run(prims, "t0", steps);
    OverspendConditions();
    DifferentNames();
    RunThree(prims, "t0", steps, Pay(1), Pay(2), Mine("t2", 1));
    OverspendMined(prims, s, Payment(1), Payment(2));
  }

  lemma OverspendMined(prims: Primitives, s: State, a: SignedRequest, b: SignedRequest)
    requires Inv(prims, s) && s.pending == [] && prims == Lenient() && NamesOk("alice", "bob")
    requires Authorised(prims, s, "alice", a) && Authorised(prims, s, "alice", b)
    requires Strip(a.senderWalletId) == Strip(b.senderWalletId) && a.nonce < b.nonce
    requires s.wallets[Strip(a.senderWalletId)].balance < a.amount.Value() + b.amount.Value()
    ensures var s1 := Next(prims, s, Submit("alice", a, "alice", "bob")).state;
            var s2 := Next(prims, s1, Submit("alice", b, "alice", "bob")).state;
            var s3 := Next(prims, s2, Mine("t2", 1)).state;
            && |s3.chain| == |s3.applied| == |s.chain| + 1
            && |s3.chain[|s.chain|].transactions| == 2 && s3.applied[|s.chain|] == 1
  {
    JointOverspendIsConfirmedAndStops(prims, s, "alice", a, b, "alice", "bob", "t2", 1);
    var s1 := SubmitStep(prims, s, a);
    var s2 := SubmitStep(prims, s1, b);
    LenientMine(s2);
  }

  /** `Pay` for any request, as the function of the state that it is. */
  lemma SubmitStep(prims: Primitives, s: State, request: SignedRequest) returns (s': State)
    ensures s' == Next(prims, s, Submit("alice", request, "alice", "bob")).state
    ensures s' == SubmitNext(prims, s, "alice", request, "alice", "bob").state
  {
    s' := SubmitNext(prims, s, "alice", request, "alice", "bob").state;
  }

  lemma LenientMine(s: State)
    requires s.chain != []
    ensures Next(Lenient(), s, Mine("t2", 1)) == MineNext(Lenient(), s, "t2", 1)
  {
    assert ProofOk(Lenient(), 1, s.chain[|s.chain| - 1].proof);
  }

  // ---------- An amount its column rounds ----------

  /** 0.123456789. */
  function NineDigits(): Decimal { Decimal(false, 123456789, -9) }

  lemma NineDigitsRounded()
    ensures NineDigits().Value() == 0.123456789
    ensures Stored(NineDigits()) == Decimal(false, 12345679, -8) && !WholeUnits(NineDigits().Value())
  {
    UnitsDecimalValue(123456789);
    var x := 123456789.0;
    assert Shift10(x, -9) == Shift10(x, -8) / 10.0;
    assert NineDigits().Value() == 0.123456789;
    FloorIs(12345678.9 + 0.5, 12345679);
    FloorIs(12345678.9, 12345678);
  }

  /** Signed for 0.123456789, reread from its column as 0.12345679: the signature covers another text. */
  lemma NineDigitsChangeMessage(tx: Transaction)
    requires tx.amount == NineDigits()
    ensures Reread(tx).Message() != tx.Message()
  {
    NineDigitsRounded();
    MessageSurvivesIff(tx);
  }

  /** 1000000000.000000001, which a double cannot tell from 1000000000. */
  function LongAmount(): Decimal { Decimal(false, 1000000000000000001, -9) }

  lemma LongAmountRounded()
    ensures LongAmount().Value() == 1000000000.000000001
    ensures Stored(LongAmount()).Value() == 1000000000.0 && !WholeUnits(LongAmount().Value())
  {
    UnitsDecimalValue(1000000000000000001);
    var x := 1000000000000000001.0;
    assert Shift10(x, -9) == Shift10(x, -8) / 10.0;
    assert LongAmount().Value() == 1000000000.000000001;
    FloorIs(100000000000000000.1 + 0.5, 100000000000000000);
    FloorIs(100000000000000000.1, 100000000000000000);
    UnitsDecimalValue(100000000000000000);
  }

  /** Floats alone do not decide: an amount can keep its float, and with it the root, and lose its signature. */
  lemma FloatKeptSignatureLost(prims: Primitives, tx: Transaction)
    requires tx.amount == LongAmount() && tx.receiverAmount.None?
    requires prims.toFloat(1000000000.000000001) == prims.toFloat(1000000000.0)
    ensures FloatsSurvive(prims, tx) && Reread(tx).Message() != tx.Message()
  {
    LongAmountRounded();
    MessageSurvivesIff(tx);
  }

  lemma NineDigitsLoseFloat(tx: Transaction)
    requires tx.amount == NineDigits()
    ensures !FloatsSurvive(Lenient(), tx)
  {
    NineDigitsRounded();
    StoredSameIff(NineDigits());
  }

  lemma NineDigitsInsertable(tx: Transaction)
    requires tx.amount == NineDigits() && tx.receiverAmount.None? && tx.nonce == 0
    ensures Insertable(tx)
  {
    NineDigitsRounded();
  }

  /** The chain after minting 0.123456789. */
  lemma NineDigitsChain()
    ensures var s := Run(Lenient(), "t0", Funding(NineDigits()));
            && s.chain == [Genesis(Lenient(), "t0"), MintBlock(Lenient(), NineDigits())]
            && InsertableChain(s.chain) && !AllFloatsSurvive(Lenient(), s.chain[1].transactions)
  {
    var txs := [Coinbase(NineDigits())];
    assert NineDigits().Value() > 0.0 by { NineDigitsRounded(); }
    Funded(Lenient(), NineDigits());
    NineDigitsInsertable(txs[0]);
    NineDigitsLoseFloat(txs[0]);
    assert !AllFloatsSurvive(Lenient(), txs);
  }

  /**
   * A chain of the in-memory node handed to the block tables, past the mempool table: it is stored without complaint
   * and no longer valid when it is read back. (A node over tables never mines such an amount.)
   */
  lemma NineDigitsBreakReload()
    ensures var s := Run(Lenient(), "t0", Funding(NineDigits()));
            && ValidChain(Lenient(), Some(s.wallets), s.chain)
            && IdsFit(s.chain, [[], [1]]) && InsertableChain(s.chain)
            && !ValidChain(Lenient(), None, Regroup(Flatten(s.chain, [[], [1]])))
  {
    var steps, ids := Funding(NineDigits()), [[], [1]];
    var chain := Run(Lenient(), "t0", steps).chain;
    NineDigitsChain();
    ChainAlwaysValid(Lenient(), "t0", steps);
    assert IdsFit(chain, ids);
    ReloadKeepsChainValid(Lenient(), "t0", steps, ids, Flatten(chain, ids));
  }
}
