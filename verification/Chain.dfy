/** The block chain: creating and mining blocks, validating chains, and what a tip hash commits to. */
module Chain {
  import opened Merkle
  import opened Messages
  import opened Models
  import opened Wallets
  import opened Wrappers

  // ---------- Validity ----------

  /** A transaction the validator accepts: a mint, or a transfer signed by its sender wallet's recorded key. */
  predicate ValidTx(prims: Primitives, ws: WalletMap, tx: Transaction) {
    tx.IsMint() || (
      && tx.senderWalletId != "" && tx.signature != ""
      && tx.senderWalletId in ws
      && prims.Verify(ws[tx.senderWalletId].publicKey, tx.signature, tx.Message()))
  }

  predicate ValidTxs(prims: Primitives, ws: Option<WalletMap>, txs: seq<Transaction>) {
    ws.Some? ==> forall i :: 0 <= i < |txs| ==> ValidTx(prims, ws.value, txs[i])
  }

  predicate ValidBlock(prims: Primitives, ws: Option<WalletMap>, b: Block) {
    MerkleRoot(Payloads(prims, b.transactions)) == b.merkleRoot && ValidTxs(prims, ws, b.transactions)
  }

  predicate ProofOk(prims: Primitives, proof: int, previousProof: int) {
    prims.meetsDifficulty(proof * proof - previousProof * previousProof)
  }

  /** The number the search hashes, in its factored form. */
  lemma ProofFactored(prims: Primitives, proof: int, previousProof: int)
    ensures ProofOk(prims, proof, previousProof)
       <==> prims.meetsDifficulty((proof - previousProof) * (proof + previousProof))
  {
    assert (proof - previousProof) * (proof + previousProof) == proof * proof - previousProof * previousProof;
  }

  predicate Follows(prims: Primitives, previous: Block, b: Block) {
    b.previousHash == HashBlock(previous) && ProofOk(prims, b.proof, previous.proof)
  }

  /** Without a wallet store (`ws` is None) signatures are not checked. */
  predicate ValidChain(prims: Primitives, ws: Option<WalletMap>, blocks: seq<Block>) {
    && blocks != []
    && (forall i :: 0 <= i < |blocks| ==> ValidBlock(prims, ws, blocks[i]))
    && (forall i :: 1 <= i < |blocks| ==> Follows(prims, blocks[i - 1], blocks[i]))
  }

  /** The transaction is a mint, or names a wallet the store has and carries a signature its key verifies. */
  predicate SignedOrMint(prims: Primitives, ws: WalletMap, tx: Transaction) {
    tx.signature == "MINT" || (
      && tx.senderWalletId != "" && tx.signature != "" && tx.senderWalletId in ws
      && prims.Verify(ws[tx.senderWalletId].publicKey, tx.signature,
                      CanonicalMessage(tx.senderWalletId, tx.receiverWalletId, tx.amount, tx.nonce)))
  }

  /**
   * What a chain must show, block by block, to be valid: a root over its transactions, signatures where there is a
   * wallet store, and from the second block on the hash of the one before and a proof for the pair.
   */
  ghost predicate Shows(prims: Primitives, ws: Option<WalletMap>, blocks: seq<Block>, i: nat)
    requires i < |blocks|
  {
    && blocks[i].merkleRoot == MerkleRoot(Payloads(prims, blocks[i].transactions))
    && (ws.Some? ==> forall k :: 0 <= k < |blocks[i].transactions| ==>
          SignedOrMint(prims, ws.value, blocks[i].transactions[k]))
    && (i > 0 ==>
          && blocks[i].previousHash == HashBlock(blocks[i - 1])
          && prims.meetsDifficulty((blocks[i].proof - blocks[i - 1].proof) * (blocks[i].proof + blocks[i - 1].proof)))
  }

  lemma ValidChainShows(prims: Primitives, ws: Option<WalletMap>, blocks: seq<Block>)
    ensures ValidChain(prims, ws, blocks)
       <==> blocks != [] && forall i :: 0 <= i < |blocks| ==> Shows(prims, ws, blocks, i)
  {
    forall i | 0 <= i < |blocks|
      ensures Shows(prims, ws, blocks, i)
         <==> ValidBlock(prims, ws, blocks[i]) && (i > 0 ==> Follows(prims, blocks[i - 1], blocks[i]))
    {
      if i > 0 { ProofFactored(prims, blocks[i].proof, blocks[i - 1].proof); }
      SignedIffValid(prims, ws, blocks[i].transactions);
    }
    if forall i :: 0 <= i < |blocks| ==> Shows(prims, ws, blocks, i) {
      forall i | 0 <= i < |blocks| ensures ValidBlock(prims, ws, blocks[i]) { assert Shows(prims, ws, blocks, i); }
      forall i | 1 <= i < |blocks| ensures Follows(prims, blocks[i - 1], blocks[i]) {
        assert Shows(prims, ws, blocks, i);
      }
    }
  }

  lemma SignedIffValid(prims: Primitives, ws: Option<WalletMap>, txs: seq<Transaction>)
    ensures ValidTxs(prims, ws, txs)
       <==> (ws.Some? ==> forall k :: 0 <= k < |txs| ==> SignedOrMint(prims, ws.value, txs[k]))
  {
    if ws.Some? {
      forall k | 0 <= k < |txs| ensures ValidTx(prims, ws.value, txs[k]) <==> SignedOrMint(prims, ws.value, txs[k]) { }
    }
  }

  /** The proof the search returns: the least positive one. */
  predicate IsLeastProof(prims: Primitives, proof: int, previousProof: int) {
    && proof >= 1 && ProofOk(prims, proof, previousProof)
    && forall q :: 1 <= q < proof ==> !ProofOk(prims, q, previousProof)
  }

  /** The difficulty test on (q - p) * (q + p). */
  predicate Passes(prims: Primitives, q: int, p: int) { prims.meetsDifficulty((q - p) * (q + p)) }

  /** The search has one answer: the first positive number that passes. */
  lemma LeastProofIs(prims: Primitives, proof: int, previousProof: int)
    ensures IsLeastProof(prims, proof, previousProof)
       <==> && proof >= 1 && Passes(prims, proof, previousProof)
            && forall q :: 1 <= q < proof ==> !Passes(prims, q, previousProof)
  {
    forall q ensures ProofOk(prims, q, previousProof) <==> Passes(prims, q, previousProof) {
      ProofFactored(prims, q, previousProof);
    }
  }

  function NewBlock(prims: Primitives, count: nat, timestamp: string, proof: int, previousHash: Digest,
                    txs: seq<Transaction>): Block
  {
    Block(count + 1, timestamp, proof, previousHash, MerkleRoot(Payloads(prims, txs)), txs)
  }

  function Genesis(prims: Primitives, timestamp: string): Block {
    NewBlock(prims, 0, timestamp, 1, Text("0"), [])
  }

  lemma GenesisValid(prims: Primitives, ws: Option<WalletMap>, timestamp: string)
    ensures ValidChain(prims, ws, [Genesis(prims, timestamp)])
  {
  }

  /** Appending a block built on the tip keeps a chain valid. */
  lemma ExtendValid(prims: Primitives, ws: Option<WalletMap>, blocks: seq<Block>, b: Block)
    requires ValidChain(prims, ws, blocks)
    requires ValidBlock(prims, ws, b) && Follows(prims, blocks[|blocks| - 1], b)
    ensures ValidChain(prims, ws, blocks + [b])
  {
    var longer := blocks + [b];
    forall i | 1 <= i < |longer| ensures Follows(prims, longer[i - 1], longer[i]) {
      if i < |blocks| {
        assert longer[i - 1] == blocks[i - 1] && longer[i] == blocks[i];
      }
    }
  }

  // ---------- The tip commits to history ----------

  predicate LinkValid(blocks: seq<Block>) {
    forall i :: 1 <= i < |blocks| ==> blocks[i].previousHash == HashBlock(blocks[i - 1])
  }

  predicate SameHeaders(a: seq<Block>, b: seq<Block>) {
    |a| == |b| && forall i :: 0 <= i < |a| ==> SameHeader(a[i], b[i])
  }

  /** Equal tip hashes: the shorter chain's headers are, field by field, the end of the longer one's. */
  lemma {:induction false} TipCommitsToHeaders(a: seq<Block>, b: seq<Block>)
    requires LinkValid(a) && LinkValid(b) && 0 < |a| <= |b|
    requires HashBlock(a[|a| - 1]) == HashBlock(b[|b| - 1])
    ensures SameHeaders(a, b[|b| - |a|..])
  {
    var m, n := |a| - 1, |b| - 1;
    var x, y := a[..m], b[..n];
    BlockHashFields(a[m], b[n]);
    if x != [] {
      assert a[m].previousHash == HashBlock(a[m - 1]) && b[n].previousHash == HashBlock(b[n - 1]);
      TipCommitsToHeaders(x, y);
      forall i | 0 <= i < |a| ensures SameHeader(a[i], b[|b| - |a|..][i]) {
        if i < m { assert SameHeader(x[i], y[|y| - |x|..][i]); }
      }
    }
  }

  /** A chain whose first block points at no digest, like the genesis block's "0". */
  predicate Rooted(blocks: seq<Block>) {
    blocks != [] && blocks[0].previousHash.Text?
  }

  lemma RootedChainsAlign(a: seq<Block>, b: seq<Block>)
    requires LinkValid(a) && LinkValid(b) && Rooted(a) && Rooted(b) && |a| <= |b|
    requires HashBlock(a[|a| - 1]) == HashBlock(b[|b| - 1])
    ensures SameHeaders(a, b)
  {
    TipCommitsToHeaders(a, b);
    var d := |b| - |a|;
    assert SameHeader(a[0], b[d..][0]);
    assert d >= 1 ==> b[d].previousHash == HashBlock(b[d - 1]);
    assert b[0..] == b;
  }

  /** For chains grown from a genesis block the tip hash fixes every header field of every block, length included. */
  lemma TipCommitsFromGenesis(a: seq<Block>, b: seq<Block>)
    requires LinkValid(a) && LinkValid(b) && Rooted(a) && Rooted(b)
    requires HashBlock(a[|a| - 1]) == HashBlock(b[|b| - 1])
    ensures SameHeaders(a, b)
  {
    if |a| <= |b| { RootedChainsAlign(a, b); } else { RootedChainsAlign(b, a); }
  }

  lemma ValidIsLinked(prims: Primitives, ws: Option<WalletMap>, blocks: seq<Block>)
    requires ValidChain(prims, ws, blocks)
    ensures LinkValid(blocks)
  {
    forall i | 1 <= i < |blocks| ensures blocks[i].previousHash == HashBlock(blocks[i - 1]) {
      assert Follows(prims, blocks[i - 1], blocks[i]);
    }
  }

  /** Two chains that agree, block by block, in every header field and in every field of every transaction. */
  predicate SameRecord(prims: Primitives, a: seq<Block>, b: seq<Block>) {
    SameHeaders(a, b) && forall i :: 0 <= i < |a| ==>
      SameTransactionLists(prims, a[i].transactions, b[i].transactions)
  }

  /** Blocks with one root and equally many transactions agree in every field of each. */
  lemma SameRootSameTransactions(prims: Primitives, wa: Option<WalletMap>, wb: Option<WalletMap>, a: Block, b: Block)
    requires ValidBlock(prims, wa, a) && ValidBlock(prims, wb, b)
    requires a.merkleRoot == b.merkleRoot && |a.transactions| == |b.transactions|
    ensures SameTransactionLists(prims, a.transactions, b.transactions)
  {
    SameLengthRootsInjective(Payloads(prims, a.transactions), Payloads(prims, b.transactions));
    PayloadsFields(prims, a.transactions, b.transactions);
  }

  lemma SameHeadersSameRecord(prims: Primitives, wa: Option<WalletMap>, wb: Option<WalletMap>,
                              a: seq<Block>, b: seq<Block>)
    requires ValidChain(prims, wa, a) && ValidChain(prims, wb, b) && SameHeaders(a, b)
    requires forall i :: 0 <= i < |a| && i < |b| ==> |a[i].transactions| == |b[i].transactions|
    ensures SameRecord(prims, a, b)
  {
    forall i | 0 <= i < |a| ensures SameTransactionLists(prims, a[i].transactions, b[i].transactions) {
      assert SameHeader(a[i], b[i]);
      assert ValidBlock(prims, wa, a[i]) && ValidBlock(prims, wb, b[i]);
      SameRootSameTransactions(prims, wa, wb, a[i], b[i]);
    }
  }

  /** Valid chains of one length, one tip hash and equal counts agree in every field of every transaction. */
  lemma TipCommitsToTransactions(prims: Primitives, wa: Option<WalletMap>, wb: Option<WalletMap>,
                                 a: seq<Block>, b: seq<Block>)
    requires ValidChain(prims, wa, a) && ValidChain(prims, wb, b) && |a| == |b|
    requires HashBlock(a[|a| - 1]) == HashBlock(b[|b| - 1])
    requires forall i :: 0 <= i < |a| ==> |a[i].transactions| == |b[i].transactions|
    ensures SameRecord(prims, a, b)
  {
    ValidIsLinked(prims, wa, a);
    ValidIsLinked(prims, wb, b);
    TipCommitsToHeaders(a, b);
    assert b[0..] == b;
    SameHeadersSameRecord(prims, wa, wb, a, b);
  }

  /** As `SameRecord`, once the duplications of the Merkle levels are written out. */
  predicate SamePaddedRecord(prims: Primitives, a: seq<Block>, b: seq<Block>) {
    SameHeaders(a, b) && forall i :: 0 <= i < |a| ==>
      SameTransactionLists(prims, Padding(a[i].transactions), Padding(b[i].transactions))
  }

  /** Padding repeats transactions as it repeats their payloads. */
  lemma {:induction false} PadFromPayloads(prims: Primitives, txs: seq<Transaction>, w: nat, m: nat)
    requires w >= 1 && m >= 1 && |txs| == m * w
    ensures Payloads(prims, PadFrom(txs, w, m)) == PadFrom(Payloads(prims, txs), w, m)
    decreases m
  {
    var p := Payloads(prims, txs);
    if m == 1 {
    } else if m % 2 == 1 {
      LastChunkFits(txs, w, m);
      HalfOfEven(m + 1, w);
      var longer := txs + txs[|txs| - w..];
      assert Payloads(prims, longer) == p + p[|p| - w..];
      PadFromPayloads(prims, longer, 2 * w, (m + 1) / 2);
    } else {
      HalfOfEven(m, w);
      PadFromPayloads(prims, txs, 2 * w, m / 2);
    }
  }

  lemma RootsEqualIffPaddedFields(prims: Primitives, a: seq<Transaction>, b: seq<Transaction>)
    ensures MerkleRoot(Payloads(prims, a)) == MerkleRoot(Payloads(prims, b))
       <==> SameTransactionLists(prims, Padding(a), Padding(b))
  {
    RootsEqualIffPaddingsEqual(Payloads(prims, a), Payloads(prims, b));
    PaddedPayloads(prims, a);
    PaddedPayloads(prims, b);
    PayloadsFields(prims, Padding(a), Padding(b));
  }

  lemma PaddedPayloads(prims: Primitives, txs: seq<Transaction>)
    ensures Payloads(prims, Padding(txs)) == Padding(Payloads(prims, txs))
  {
    if txs != [] { PadFromPayloads(prims, txs, 1, |txs|); }
  }

  /**
   * What a tip hash commits to, exactly: two valid chains of one length have the same tip hash if and only if all
   * header fields agree, and then each block's transactions agree field by field once the level duplications are
   * written out.
   */
  lemma TipCommitsToPaddings(prims: Primitives, wa: Option<WalletMap>, wb: Option<WalletMap>,
                             a: seq<Block>, b: seq<Block>)
    requires ValidChain(prims, wa, a) && ValidChain(prims, wb, b) && |a| == |b|
    ensures HashBlock(a[|a| - 1]) == HashBlock(b[|b| - 1]) <==> SamePaddedRecord(prims, a, b)
  {
    BlockHashFields(a[|a| - 1], b[|b| - 1]);
    assert SamePaddedRecord(prims, a, b) ==> SameHeader(a[|a| - 1], b[|b| - 1]);
    if HashBlock(a[|a| - 1]) == HashBlock(b[|b| - 1]) {
      ValidIsLinked(prims, wa, a);
      ValidIsLinked(prims, wb, b);
      TipCommitsToHeaders(a, b);
      assert b[0..] == b;
      forall i | 0 <= i < |a|
        ensures SameTransactionLists(prims, Padding(a[i].transactions), Padding(b[i].transactions))
      {
        assert SameHeader(a[i], b[i]);
        assert ValidBlock(prims, wa, a[i]) && ValidBlock(prims, wb, b[i]);
        RootsEqualIffPaddedFields(prims, a[i].transactions, b[i].transactions);
      }
    }
  }

  // ---------- Tampering ----------

  /** One transaction of one block replaced, the headers left alone. */
  function ReplaceTransaction(chain: seq<Block>, i: nat, k: nat, tx: Transaction): seq<Block>
    requires i < |chain| && k < |chain[i].transactions|
  {
    chain[i := chain[i].(transactions := chain[i].transactions[k := tx])]
  }

  /** Changing any field of one transaction of a valid chain is found out, whichever wallets the validator reads. */
  lemma TamperedTransactionRejected(prims: Primitives, ws: Option<WalletMap>, ws': Option<WalletMap>,
                                    chain: seq<Block>, i: nat, k: nat, tx: Transaction)
    requires ValidChain(prims, ws, chain) && i < |chain| && k < |chain[i].transactions|
    requires !SameTransaction(prims, chain[i].transactions[k], tx)
    ensures !ValidChain(prims, ws', ReplaceTransaction(chain, i, k, tx))
  {
    var other := ReplaceTransaction(chain, i, k, tx);
    assert other[i].transactions[k] == tx;
    if ValidChain(prims, ws', other) {
      assert ValidBlock(prims, ws, chain[i]) && ValidBlock(prims, ws', other[i]);
      SameRootSameTransactions(prims, ws, ws', chain[i], other[i]);
      assert false;
    }
  }

  /** So is replacing a block before the tip by one that differs in any header field. */
  lemma TamperedHeaderRejected(prims: Primitives, ws: Option<WalletMap>, ws': Option<WalletMap>,
                               chain: seq<Block>, i: nat, b: Block)
    requires ValidChain(prims, ws, chain) && i + 1 < |chain| && !SameHeader(chain[i], b)
    ensures !ValidChain(prims, ws', chain[i := b])
  {
    BlockHashFields(chain[i], b);
    assert Follows(prims, chain[i], chain[i + 1]);
    assert !Follows(prims, chain[i := b][i], chain[i := b][i + 1]);
  }

  /** The tip block with its last transaction confirmed a second time. */
  function RepeatTipTransaction(chain: seq<Block>): seq<Block>
    requires chain != [] && chain[|chain| - 1].transactions != []
  {
    var n := |chain| - 1;
    var txs := chain[n].transactions;
    chain[n := chain[n].(transactions := txs + [txs[|txs| - 1]])]
  }

  /** The counts matter: repeating the last of an odd three or more gives another valid chain with the same tip hash. */
  lemma RepeatedTransactionSharesTip(prims: Primitives, ws: Option<WalletMap>, chain: seq<Block>)
    requires ValidChain(prims, ws, chain)
    requires var n := |chain[|chain| - 1].transactions|; n >= 3 && n % 2 == 1
    ensures var other := RepeatTipTransaction(chain);
            && ValidChain(prims, ws, other) && other != chain
            && HashBlock(other[|other| - 1]) == HashBlock(chain[|chain| - 1])
  {
    var n, other := |chain| - 1, RepeatTipTransaction(chain);
    var txs, txs' := chain[n].transactions, other[n].transactions;
    var p := Payloads(prims, txs);
    assert Payloads(prims, txs') == p + [p[|p| - 1]];
    OddListSharesRoot(p);
    assert ValidBlock(prims, ws, chain[n]);
    assert ValidBlock(prims, ws, other[n]);
    forall i | 0 <= i < |other| ensures ValidBlock(prims, ws, other[i]) {
      if i < n { assert ValidBlock(prims, ws, chain[i]); }
    }
    forall i | 1 <= i < |other| ensures Follows(prims, other[i - 1], other[i]) {
      assert Follows(prims, chain[i - 1], chain[i]);
    }
    assert |txs'| != |txs|;
  }

  // ---------- Repository and service ----------

  class InMemoryBlockRepository {
    var blocks: seq<Block>

    constructor ()
      ensures blocks == []
    {
      blocks := [];
    }

    method Append(b: Block)
      modifies this
      ensures blocks == old(blocks) + [b]
    {
      blocks := blocks + [b];
    }

    method ReplaceAll(bs: seq<Block>)
      modifies this
      ensures blocks == bs
    {
      blocks := [];
      blocks := blocks + bs;
    }
  }

  class BlockchainService {
    const prims: Primitives
    const repo: InMemoryBlockRepository
    const walletRepo: InMemoryWalletStore?

    function WalletView(): Option<WalletMap>
      reads walletRepo
    {
      if walletRepo == null then None else Some(walletRepo.wallets)
    }

    constructor (prims: Primitives, repo: InMemoryBlockRepository, walletRepo: InMemoryWalletStore?, timestamp: string)
      modifies repo
      ensures this.prims == prims && this.repo == repo && this.walletRepo == walletRepo
      ensures repo.blocks == if old(repo.blocks) == [] then [Genesis(prims, timestamp)] else old(repo.blocks)
      ensures old(repo.blocks) == [] ==>
        && |repo.blocks| == 1
        && var b := repo.blocks[0];
           && b.index == 1 && b.timestamp == timestamp && b.proof == 1 && b.previousHash == Text("0")
           && b.merkleRoot == EmptyHash && b.transactions == []
    {
      this.prims, this.repo, this.walletRepo := prims, repo, walletRepo;
      new;
      if |repo.blocks| == 0 {
        var _ := CreateBlock(1, Text("0"), [], timestamp);
      }
    }

    method CreateBlock(proof: int, previousHash: Digest, txs: seq<Transaction>, timestamp: string) returns (b: Block)
      modifies repo
      ensures b == NewBlock(prims, |old(repo.blocks)|, timestamp, proof, previousHash, txs)
      ensures b.index == |old(repo.blocks)| + 1 && b.timestamp == timestamp && b.proof == proof
      ensures b.previousHash == previousHash && b.transactions == txs
      ensures b.merkleRoot == MerkleRoot(Payloads(prims, txs))
      ensures repo.blocks == old(repo.blocks) + [b]
    {
      var root := ComputeMerkleRoot(prims, txs);
      b := Block(|repo.blocks| + 1, timestamp, proof, previousHash, root, txs);
      repo.Append(b);
    }

    /** The search ends because some proof exists; `known` is one, and it bounds the loop. */
    method ProofOfWork(previousProof: int, ghost known: int) returns (proof: int)
      requires known >= 1 && ProofOk(prims, known, previousProof)
      ensures IsLeastProof(prims, proof, previousProof) && proof <= known
      ensures proof >= 1 && Passes(prims, proof, previousProof)
      ensures forall q :: 1 <= q < proof ==> !Passes(prims, q, previousProof)
    {
      proof := 1;
      while !prims.meetsDifficulty(proof * proof - previousProof * previousProof)
        invariant 1 <= proof <= known
        invariant forall q :: 1 <= q < proof ==> !ProofOk(prims, q, previousProof)
        decreases known - proof
      {
        assert !ProofOk(prims, proof, previousProof);
        proof := proof + 1;
      }
      LeastProofIs(prims, proof, previousProof);
    }

    method ValidateTransactions(ws: WalletMap, txs: seq<Transaction>) returns (ok: bool)
      ensures ok <==> ValidTxs(prims, Some(ws), txs)
      ensures ok <==> forall k :: 0 <= k < |txs| ==> SignedOrMint(prims, ws, txs[k])
    {
      SignedIffValid(prims, Some(ws), txs);
      for i := 0 to |txs|
        invariant forall k :: 0 <= k < i ==> ValidTx(prims, ws, txs[k])
      {
        var tx := txs[i];
        if tx.signature != COINBASE_SIGNATURE {
          if tx.senderWalletId == "" || tx.signature == "" {
            assert !ValidTx(prims, ws, txs[i]);
            return false;
          }
          if tx.senderWalletId !in ws {
            assert !ValidTx(prims, ws, txs[i]);
            return false;
          }
          var message := tx.Message();
          if !prims.Verify(ws[tx.senderWalletId].publicKey, tx.signature, message) {
            assert !ValidTx(prims, ws, txs[i]);
            return false;
          }
        }
        assert ValidTx(prims, ws, txs[i]);
      }
      ok := true;
    }

    /** `_validate_blocks`: roots and signatures block by block, then links and proofs pair by pair. */
    method ValidateBlocks(blocks: seq<Block>) returns (ok: bool)
      ensures ok <==> ValidChain(prims, WalletView(), blocks)
      ensures ok <==> blocks != [] && forall i :: 0 <= i < |blocks| ==> Shows(prims, WalletView(), blocks, i)
    {
      ValidChainShows(prims, WalletView(), blocks);
      if blocks == [] {
        return false;
      }
      for i := 0 to |blocks|
        invariant forall k :: 0 <= k < i ==> ValidBlock(prims, WalletView(), blocks[k])
      {
        var root := ComputeMerkleRoot(prims, blocks[i].transactions);
        if root != blocks[i].merkleRoot {
          assert !ValidBlock(prims, WalletView(), blocks[i]);
          return false;
        }
        if walletRepo != null {
          var signed := ValidateTransactions(walletRepo.wallets, blocks[i].transactions);
          if !signed {
            assert !ValidBlock(prims, WalletView(), blocks[i]);
            return false;
          }
        }
      }
      ok := ValidateLinks(blocks);
    }

    /** Its second half: each block points at its predecessor's hash, with a proof for the pair. */
    method ValidateLinks(blocks: seq<Block>) returns (ok: bool)
      requires blocks != []
      ensures ok <==> forall i :: 1 <= i < |blocks| ==> Follows(prims, blocks[i - 1], blocks[i])
    {
      var previous := blocks[0];
      for i := 1 to |blocks|
        invariant previous == blocks[i - 1]
        invariant forall k :: 1 <= k < i ==> Follows(prims, blocks[k - 1], blocks[k])
      {
        var b := blocks[i];
        if b.previousHash != HashBlock(previous) {
          assert !Follows(prims, blocks[i - 1], blocks[i]);
          return false;
        }
        if !prims.meetsDifficulty(b.proof * b.proof - previous.proof * previous.proof) {
          assert !Follows(prims, blocks[i - 1], blocks[i]);
          return false;
        }
        previous := b;
      }
      ok := true;
    }
  }
}
