/** A run over tables whose chain stops validating: a transfer signed for more decimals than the tables hold. */
module TableExamples {
  import opened Chain
  import opened Conversion
  import opened Decimals
  import opened Ledger
  import opened LedgerExamples
  import opened LedgerInvariants
  import opened LedgerResults
  import opened Models
  import opened Rows
  import opened TableLedger
  import opened Wrappers

  // ---------- Floats of nine decimals ----------

  const NANO := 1000000000.0

  function NanoUnits(x: real): int { Nearest(x * NANO) }

  function NanoDecimal(x: real): Decimal {
    var n := NanoUnits(x);
    Decimal(n < 0, if n < 0 then -n else n, -9)
  }

  /** The one text that the key holder signed; every proof passes; floats keep nine decimals. */
  function OneSigner(signed: string): Primitives {
    Primitives((publicKey, signature, message) => message == signed, n => true, x => NanoUnits(x) as real / NANO,
               x => NanoDecimal(x))
  }

  lemma NanoValue(n: int)
    ensures Decimal(n < 0, if n < 0 then -n else n, -9).Value() == n as real / NANO
  {
    var x := (if n < 0 then -n else n) as real;
    UnitsDecimalValue(n);
    assert Shift10(x, -9) == Shift10(x, -8) / 10.0;
  }

  lemma NanoOfWhole(n: int)
    ensures NanoUnits(n as real / NANO) == n
  {
    assert n as real / NANO * NANO == n as real;
    NearestOfWhole(n);
  }

  lemma NanoOfUnits(n: int)
    ensures NanoUnits(FromUnits(n)) == 10 * n
  {
    assert FromUnits(n) * NANO == (10 * n) as real;
    NearestOfWhole(10 * n);
  }

  /** The text of the float of `x` is worth its nanounits. */
  lemma OneSignerText(signed: string, x: real)
    ensures OneSigner(signed).toDecimal(OneSigner(signed).toFloat(x)).Value() == NanoUnits(x) as real / NANO
  {
    NanoOfWhole(NanoUnits(x));
    NanoValue(NanoUnits(x));
  }

  lemma OneSignerFaithful(signed: string)
    ensures FloatsFaithful(OneSigner(signed)) && Binding(OneSigner(signed)) && Easy(OneSigner(signed))
  {
    var prims := OneSigner(signed);
    forall x: real ensures prims.toFloat(prims.toDecimal(prims.toFloat(x)).Value()) == prims.toFloat(x) {
      OneSignerText(signed, x);
      NanoOfWhole(NanoUnits(x));
    }
    forall n: int ensures WholeUnits(prims.toDecimal(prims.toFloat(FromUnits(n))).Value()) {
      OneSignerText(signed, FromUnits(n));
      NanoOfUnits(n);
      assert (10 * n) as real / NANO * UNITS_PER_ONE == n as real;
    }
  }

  // ---------- The run ----------

  function One(): Decimal { Decimal(false, 1, 0) }

  function Request(): SignedRequest { SignedRequest("w_a", "w_b", NineDigits(), 1, "ab") }

  function SpendNineDigits(): Step { Submit("alice", Request(), "alice", "bob") }

  lemma TableRunSnoc(prims: Primitives, timestamp: string, steps: seq<Step>, step: Step)
    ensures TableRun(prims, timestamp, steps + [step])
         == TableNext(prims, TableRun(prims, timestamp, steps), step).state
  {
    assert (steps + [step])[..|steps|] == steps;
  }

  /** A state with the two wallets, before anything is signed. */
  function Start(prims: Primitives): State {
    State(FundedWallets(0.0), ["w_a", "w_b"], map[], [], [], [Genesis(prims, "t0")], [0])
  }

  lemma OpenedTables(prims: Primitives)
    ensures TableRun(prims, "t0", [Open("a", "alice"), Open("b", "bob")]) == TableState(Start(prims), [[]], [])
  {
    var a, b := Open("a", "alice"), Open("b", "bob");
    TableRunSnoc(prims, "t0", [], a);
    TableRunSnoc(prims, "t0", [a], b);
    RunSnoc(prims, "t0", [], a);
    RunSnoc(prims, "t0", [a], b);
    assert [] + [a] == [a] && [a] + [b] == [a, b];
    OpenedWallets(prims);
  }

  lemma OneValue()
    ensures One().Value() == 1.0
  {
  }

  /** The amount 1 goes through the mempool table unchanged. */
  lemma OneQueued(signed: string)
    ensures var prims := OneSigner(signed);
            && Queueable(prims, Coinbase(One())) && Queued(prims, One()).Value() == 1.0
            && Insertable(Coinbase(Queued(prims, One())))
  {
    var prims := OneSigner(signed);
    OneSignerFaithful(signed);
    OneValue();
    assert ColumnUnits(1.0) == 100000000 by { NearestOfWhole(100000000); }
    assert NanoUnits(1.0) == 1000000000 by { NearestOfWhole(1000000000); }
    OneSignerText(signed, 1.0);
    QueuedSameIff(prims, One());
  }

  lemma FundedTables(signed: string)
    ensures var prims := OneSigner(signed);
            var q := Queued(prims, One());
            TableRun(prims, "t0", Funding(One()))
            == TableState(State(FundedWallets(1.0), ["w_a", "w_b"], map[], [], [],
                                [Genesis(prims, "t0"), MintBlock(prims, q)], [0, 1]),
                          [[], [Coinbase(One())]], [])
  {
    var prims := OneSigner(signed);
    var q := Queued(prims, One());
    var mint, mine := Mint("w_a", One(), "alice", "admin"), Mine("t1", 1);
    var wallets := [Open("a", "alice"), Open("b", "bob")];
    OneSignerFaithful(signed);
    OneQueued(signed);
    OpenedTables(prims);
    TableRunSnoc(prims, "t0", wallets, mint);
    OneMinted(signed);
    TableRunSnoc(prims, "t0", wallets + [mint], mine);
    OneMined(signed);
    assert wallets + [mint] + [mine] == Funding(One());
  }

  lemma OneMinted(signed: string)
    ensures var prims := OneSigner(signed);
            TableNext(prims, TableState(Start(prims), [[]], []), Mint("w_a", One(), "alice", "admin")).state
            == TableState(Start(prims).(pending := [Coinbase(Queued(prims, One()))]), [[]], [Coinbase(One())])
  {
    OneValue();
    OneQueued(signed);
    MintQueued(OneSigner(signed), One());
    assert QueuedTx(OneSigner(signed), Coinbase(One())) == Coinbase(Queued(OneSigner(signed), One()));
  }

  lemma OneMined(signed: string)
    ensures var prims := OneSigner(signed);
            var q := Queued(prims, One());
            TableNext(prims, TableState(Start(prims).(pending := [Coinbase(q)]), [[]], [Coinbase(One())]),
                      Mine("t1", 1)).state
            == TableState(State(FundedWallets(1.0), ["w_a", "w_b"], map[], [], [],
                                [Genesis(prims, "t0"), MintBlock(prims, q)], [0, 1]),
                          [[], [Coinbase(One())]], [])
  {
    var prims := OneSigner(signed);
    OneSignerFaithful(signed);
    OneQueued(signed);
    MintMined(prims, Queued(prims, One()));
    assert [[]] + [[Coinbase(One())]] == [[], [Coinbase(One())]];
  }

  // ---------- The transfer ----------

  /** 0.123456789 reaches the mempool table as it is and leaves it as 0.12345679. */
  lemma NineDigitsQueued(signed: string)
    ensures var prims := OneSigner(signed);
            && ViaFloat(prims, NineDigits()).Value() == 0.123456789
            && Queued(prims, NineDigits()).Value() == 0.12345679
            && ColumnUnits(0.123456789) == ColumnUnits(0.12345679) == 12345679
  {
    NineDigitsRounded();
    UnitsDecimalValue(12345679);
    NearestOfWhole(123456789);
    OneSignerText(signed, 0.123456789);
    NearestOfWhole(12345679);
    FloorIs(12345678.9 + 0.5, 12345679);
    NanoOfUnits(12345679);
    OneSignerText(signed, 0.12345679);
  }

  function Transfer(amount: Decimal): Transaction {
    Transaction("alice", "bob", amount, None, "w_a", "w_b", 1, "ab")
  }

  lemma TransferFits(signed: string)
    ensures var prims := OneSigner(signed);
            && Queueable(prims, Transfer(NineDigits()))
            && QueuedTx(prims, Transfer(NineDigits())) == Transfer(Queued(prims, NineDigits()))
            && Insertable(Transfer(Queued(prims, NineDigits())))
  {
    NineDigitsQueued(signed);
  }

  /** The holder of the key signed this transfer, and nothing else. */
  function Signer(): Primitives { OneSigner(Transfer(NineDigits()).Message()) }

  lemma TransferParsed()
    ensures ParseSigned(Request()) == Ok(Request())
  {
    NineDigitsRounded();
    assert Strip("w_a") == "w_a" && Strip("w_b") == "w_b" && Strip("ab") == "ab";
    assert "w_a"[2] != "w_b"[2];
  }

  lemma TransferAdmissible()
    ensures IsAdmissible(Transfer(NineDigits()))
  {
    NineDigitsRounded();
    DifferentNames();
  }

  lemma TransferBuilt(prims: Primitives, s: State)
    requires prims.Verify("key", "ab", Transfer(NineDigits()).Message())
    requires s.wallets == FundedWallets(1.0) && s.nonces == map[]
    ensures BuildTransaction(prims, s.wallets, s.nonces, s.rates, Request(), "alice", "bob")
         == Ok(Transfer(NineDigits()))
  {
    NineDigitsRounded();
    assert "w_a"[2] != "w_b"[2];
    assert StagedTransaction(Request(), None, "alice", "bob") == Transfer(NineDigits());
  }

  /** The ledger accepts the transfer: its signature covers the text as sent. */
  lemma TransferAdmitted(prims: Primitives, s: State)
    requires prims.Verify("key", "ab", Transfer(NineDigits()).Message())
    requires s.wallets == FundedWallets(1.0) && s.nonces == map[]
    ensures Next(prims, s, SpendNineDigits())
         == Outcome(s.(pending := s.pending + [Transfer(NineDigits())], nonces := map["w_a" := 1]), None)
  {
    NineDigitsRounded();
    TransferParsed();
    TransferBuilt(prims, s);
    TransferAdmissible();
    var tx := Transfer(NineDigits());
    assert s.nonces["w_a" := 1] == map["w_a" := 1];
    assert Enqueue(s.(nonces := map["w_a" := 1]), tx).error.None?;
  }

  /** Queueing the transfer. */
  lemma TransferWaits(signed: string, t: TableState)
    requires signed == Transfer(NineDigits()).Message()
    requires t.ledger.wallets == FundedWallets(1.0) && t.ledger.nonces == map[] && t.ledger.pending == []
    ensures var t' := TableNext(OneSigner(signed), t, SpendNineDigits()).state;
            && t'.signed == t.signed && t'.waiting == t.waiting + [Transfer(NineDigits())]
            && t'.ledger.chain == t.ledger.chain
            && t'.ledger.pending == [Transfer(Queued(OneSigner(signed), NineDigits()))]
  {
    assert IsHex("ab");
    TransferAdmitted(OneSigner(signed), t.ledger);
    TransferFits(signed);
  }

  lemma EasyMine(prims: Primitives, s: State)
    requires Easy(prims) && s.chain != []
    ensures Next(prims, s, Mine("t2", 1)) == MineNext(prims, s, "t2", 1)
  {
    assert ProofOk(prims, 1, s.chain[|s.chain| - 1].proof);
  }

  /** Mining it. */
  lemma TransferMined(signed: string, t: TableState)
    requires |t.ledger.chain| == 2 && t.ledger.pending == [Transfer(Queued(OneSigner(signed), NineDigits()))]
    ensures TableNext(OneSigner(signed), t, Mine("t2", 1)).state.signed == t.signed + [t.waiting]
  {
    OneSignerFaithful(signed);
    TransferFits(signed);
    EasyMine(OneSigner(signed), t.ledger);
  }

  lemma VerdictIff(signed: string, timestamp: string, steps: seq<Step>)
    ensures var prims := OneSigner(signed);
            var t := TableRun(prims, timestamp, steps);
            ValidChain(prims, Some(t.ledger.wallets), t.ledger.chain) <==> AllKept(prims, t.signed)
  {
    var prims := OneSigner(signed);
    var t := TableRun(prims, timestamp, steps);
    OneSignerFaithful(signed);
    TableRunKeepsInv(prims, timestamp, steps);
    TableVerdictIff(prims, t);
    AllStillSignedIff(prims, t.ledger.wallets, t.signed);
  }

  /** The two last steps, from any funded state. */
  lemma SpendAndMine(signed: string, steps: seq<Step>)
    returns (before: TableState, after: TableState)
    requires signed == Transfer(NineDigits()).Message()
    requires var t := TableRun(OneSigner(signed), "t0", steps);
             && t.ledger.wallets == FundedWallets(1.0) && t.ledger.nonces == map[] && t.ledger.pending == []
             && |t.ledger.chain| == 2 && t.waiting == []
    ensures before == TableRun(OneSigner(signed), "t0", steps + [SpendNineDigits()])
    ensures after == TableRun(OneSigner(signed), "t0", steps + [SpendNineDigits()] + [Mine("t2", 1)])
    ensures var t := TableRun(OneSigner(signed), "t0", steps);
            && before.signed == t.signed && before.waiting == [Transfer(NineDigits())]
            && after.signed == t.signed + [[Transfer(NineDigits())]]
  {
    var prims := OneSigner(signed);
    var t := TableRun(prims, "t0", steps);
    TableRunSnoc(prims, "t0", steps, SpendNineDigits());
    before := TableNext(prims, t, SpendNineDigits()).state;
    TransferWaits(signed, t);
    TableRunSnoc(prims, "t0", steps + [SpendNineDigits()], Mine("t2", 1));
    after := TableNext(prims, before, Mine("t2", 1)).state;
    TransferMined(signed, before);
  }

  lemma MintsKept(prims: Primitives, signed: seq<seq<Transaction>>)
    requires signed == [[], [Coinbase(One())]]
    ensures AllKept(prims, signed) && !AllKept(prims, signed + [[Transfer(NineDigits())]])
  {
    NineDigitsRounded();
    var longer := signed + [[Transfer(NineDigits())]];
    assert longer[2][0] == Transfer(NineDigits());
  }

  /**
   * The transfer is checked and queued as sent, and mined as the mempool table gives it back: until then the chain is
   * valid, and from then on it is not.
   */
  lemma MiningBreaksChain()
    ensures var before := TableRun(Signer(), "t0", Funding(One()) + [SpendNineDigits()]);
            var after := TableRun(Signer(), "t0", Funding(One()) + [SpendNineDigits()] + [Mine("t2", 1)]);
            && before.waiting == [Transfer(NineDigits())]
            && ValidChain(Signer(), Some(before.ledger.wallets), before.ledger.chain)
            && !ValidChain(Signer(), Some(after.ledger.wallets), after.ledger.chain)
  {
    var signed, steps := Transfer(NineDigits()).Message(), Funding(One());
    FundedTables(signed);
    var before, after := SpendAndMine(signed, steps);
    VerdictIff(signed, "t0", steps + [SpendNineDigits()]);
    VerdictIff(signed, "t0", steps + [SpendNineDigits()] + [Mine("t2", 1)]);
    MintsKept(Signer(), before.signed);
  }
}
