/** Transactions, blocks, digests and the library primitives the ledger relies on. */
module Models {
  import opened Decimals
  import opened Messages
  import opened Wrappers

  const COINBASE_SIGNATURE := "MINT"

  datatype Transaction = Transaction(
    sender: string,
    receiver: string,
    amount: Decimal,
    receiverAmount: Option<Decimal>,
    senderWalletId: string,
    receiverWalletId: string,
    nonce: int,
    signature: string)
  {
    predicate IsMint() { signature == COINBASE_SIGNATURE }

    /** Moves balances as a transfer: not a mint, and naming both wallets. */
    predicate IsTransfer() { !IsMint() && senderWalletId != "" && receiverWalletId != "" }

    function Message(): string { CanonicalMessage(senderWalletId, receiverWalletId, amount, nonce) }

    function CreditAmount(): Decimal {
      match receiverAmount
      case Some(a) => a
      case None => amount
    }

    /** `to_dict`, the preimage of a Merkle leaf: amounts have passed through `float`. */
    function ToPayload(prims: Primitives): Payload {
      Payload(sender, receiver, prims.toFloat(amount.Value()),
              match receiverAmount case Some(a) => Some(prims.toFloat(a.Value())) case None => None,
              senderWalletId, receiverWalletId, nonce, signature)
    }
  }

  datatype Payload = Payload(
    sender: string,
    receiver: string,
    amount: real,
    receiverAmount: Option<real>,
    senderWalletId: string,
    receiverWalletId: string,
    nonce: int,
    signature: string)

  /**
   * Library calls: the elliptic-curve check, the proof-of-work test on an integer, `float` of an exact value, and
   * `Decimal(str(f))`, the shortest text of a float read as a decimal.
   */
  datatype Primitives = Primitives(
    curveVerify: (string, string, string) -> bool,
    meetsDifficulty: int -> bool,
    toFloat: real -> real,
    toDecimal: real -> Decimal)
  {
    /** `verify`: a signature that is not hexadecimal is rejected before the curve is asked. */
    predicate Verify(publicKey: string, signature: string, message: string) {
      IsHex(signature) && curveVerify(publicKey, signature, message)
    }
  }

  predicate IsHex(s: string) {
    forall i :: 0 <= i < |s| ==> '0' <= s[i] <= '9' || 'a' <= s[i] <= 'f' || 'A' <= s[i] <= 'F' || IsAsciiSpace(s[i])
  }

  predicate IsAsciiSpace(c: char) { c == ' ' || 9 <= c as int <= 13 }

  /** `str.isspace`, which decides what `strip` cuts: ASCII and the other Unicode spaces and separators. */
  predicate IsSpace(c: char) {
    var n := c as int;
    || 9 <= n <= 13 || 28 <= n <= 32 || n == 0x85 || n == 0xA0 || n == 0x1680 || 0x2000 <= n <= 0x200A
    || n == 0x2028 || n == 0x2029 || n == 0x202F || n == 0x205F || n == 0x3000
  }

  /** The spaces, one by one. */
  lemma Spaces(c: char)
    ensures IsSpace(c) <==> c as int in {
      0x09, 0x0A, 0x0B, 0x0C, 0x0D, 0x1C, 0x1D, 0x1E, 0x1F, 0x20, 0x85, 0xA0, 0x1680, 0x2000, 0x2001, 0x2002, 0x2003,
      0x2004, 0x2005, 0x2006, 0x2007, 0x2008, 0x2009, 0x200A, 0x2028, 0x2029, 0x202F, 0x205F, 0x3000}
  {
  }

  /** The characters hexadecimal text may hold: digits of either case, and the six ASCII spaces. */
  lemma HexCharacters(s: string)
    ensures IsHex(s) <==> forall i :: 0 <= i < |s| ==>
      s[i] in "0123456789abcdefABCDEF" || s[i] as int in {0x09, 0x0A, 0x0B, 0x0C, 0x0D, 0x20}
  {
    forall i | 0 <= i < |s|
      ensures ('0' <= s[i] <= '9' || 'a' <= s[i] <= 'f' || 'A' <= s[i] <= 'F') <==> s[i] in "0123456789abcdefABCDEF"
    {
      HexDigit(s[i]);
    }
  }

  lemma HexDigit(c: char)
    ensures ('0' <= c <= '9' || 'a' <= c <= 'f' || 'A' <= c <= 'F') <==> c in "0123456789abcdefABCDEF"
  {
    var digits := "0123456789abcdefABCDEF";
    if '0' <= c <= '9' { assert digits[c as int - '0' as int] == c; }
    if 'a' <= c <= 'f' { assert digits[10 + (c as int - 'a' as int)] == c; }
    if 'A' <= c <= 'F' { assert digits[16 + (c as int - 'A' as int)] == c; }
  }

  /** `s.strip() == ""`. */
  predicate IsBlank(s: string) { forall i :: 0 <= i < |s| ==> IsSpace(s[i]) }

  function StripLeft(s: string): string {
    if s != "" && IsSpace(s[0]) then StripLeft(s[1..]) else s
  }

  function StripRight(s: string): string {
    if s != "" && IsSpace(s[|s| - 1]) then StripRight(s[..|s| - 1]) else s
  }

  function Strip(s: string): string { StripRight(StripLeft(s)) }

  /** `Strip` drops blank text at both ends and nothing else. */
  lemma StripCuts(s: string) returns (i: nat, j: nat)
    ensures i <= j <= |s| && Strip(s) == s[i..j]
    ensures IsBlank(s[..i]) && IsBlank(s[j..])
    ensures i < j ==> !IsSpace(s[i]) && !IsSpace(s[j - 1])
  {
    assert s[0..] == s;
    i := StripLeftCuts(s, 0);
    j := StripRightCuts(s, i, |s|);
    assert s[i..] == s[i..|s|];
    assert IsBlank(s[j..]);
  }

  /** Text is blank exactly when stripping leaves nothing. */
  lemma BlankIffStripped(s: string)
    ensures IsBlank(s) <==> Strip(s) == ""
  {
    var i, j := StripCuts(s);
    if i == j { assert s == s[..i] + s[j..]; }
  }

  lemma {:induction false} StripLeftCuts(s: string, lo: nat) returns (i: nat)
    requires lo <= |s| && forall k :: 0 <= k < lo ==> IsSpace(s[k])
    ensures lo <= i <= |s| && StripLeft(s[lo..]) == s[i..]
    ensures (forall k :: 0 <= k < i ==> IsSpace(s[k])) && (i < |s| ==> !IsSpace(s[i]))
    decreases |s| - lo
  {
    i := lo;
    if lo < |s| && IsSpace(s[lo]) {
      assert s[lo..][1..] == s[lo + 1..];
      i := StripLeftCuts(s, lo + 1);
    }
  }

  lemma {:induction false} StripRightCuts(s: string, i: nat, hi: nat) returns (j: nat)
    requires i <= hi <= |s| && forall k :: hi <= k < |s| ==> IsSpace(s[k])
    ensures i <= j <= hi && StripRight(s[i..hi]) == s[i..j]
    ensures (forall k :: j <= k < |s| ==> IsSpace(s[k])) && (i < j ==> !IsSpace(s[j - 1]))
    decreases hi
  {
    j := hi;
    if i < hi && IsSpace(s[hi - 1]) {
      assert s[i..hi][..hi - i - 1] == s[i..hi - 1];
      j := StripRightCuts(s, i, hi - 1);
    }
  }

  /** The mint marker is not hexadecimal, so no signed transfer can carry it. */
  lemma MintMarkerNeverVerifies(prims: Primitives, publicKey: string, message: string)
    ensures !prims.Verify(publicKey, COINBASE_SIGNATURE, message)
  {
    assert COINBASE_SIGNATURE[0] == 'M';
  }

  /**
   * SHA-256 seen as a free constructor of its preimage. Leaves, inner nodes, the empty string and block headers
   * have preimages of different shapes; `Text` is a stored hash field that is no digest at all ("0" or "").
   */
  datatype Digest =
    | Text(text: string)
    | EmptyHash
    | LeafHash(payload: Payload)
    | NodeHash(left: Digest, right: Digest)
    | HeaderHash(header: Header)

  datatype Header = Header(index: int, timestamp: string, proof: int, previousHash: Digest, merkleRoot: Digest)

  datatype Block = Block(
    index: int,
    timestamp: string,
    proof: int,
    previousHash: Digest,
    merkleRoot: Digest,
    transactions: seq<Transaction>)
  {
    function GetHeader(): Header { Header(index, timestamp, proof, previousHash, merkleRoot) }
  }

  function Payloads(prims: Primitives, txs: seq<Transaction>): (r: seq<Payload>)
    ensures |r| == |txs|
  {
    seq(|txs|, i requires 0 <= i < |txs| => txs[i].ToPayload(prims))
  }

  function HashBlock(b: Block): Digest { HeaderHash(b.GetHeader()) }

  // ---------- What digests tell apart ----------

  /** Two blocks with the same five header fields. */
  predicate SameHeader(a: Block, b: Block) {
    && a.index == b.index && a.timestamp == b.timestamp && a.proof == b.proof
    && a.previousHash == b.previousHash && a.merkleRoot == b.merkleRoot
  }

  /** A block hash covers the five header fields, each of them, and nothing else. */
  lemma BlockHashFields(a: Block, b: Block)
    ensures HashBlock(a) == HashBlock(b)
       <==> && a.index == b.index && a.timestamp == b.timestamp && a.proof == b.proof
            && a.previousHash == b.previousHash && a.merkleRoot == b.merkleRoot
  {
    assert a.GetHeader() == b.GetHeader() <==> SameHeader(a, b);
  }

  /** Two transactions that agree in every field, amounts as far as their floats tell. */
  predicate SameTransaction(prims: Primitives, x: Transaction, y: Transaction) {
    && x.sender == y.sender && x.receiver == y.receiver
    && x.senderWalletId == y.senderWalletId && x.receiverWalletId == y.receiverWalletId
    && x.nonce == y.nonce && x.signature == y.signature
    && prims.toFloat(x.amount.Value()) == prims.toFloat(y.amount.Value())
    && (x.receiverAmount.Some? <==> y.receiverAmount.Some?)
    && (x.receiverAmount.Some? && y.receiverAmount.Some? ==>
          prims.toFloat(x.receiverAmount.value.Value()) == prims.toFloat(y.receiverAmount.value.Value()))
  }

  /** A Merkle leaf covers every field of its transaction. */
  lemma LeafFields(prims: Primitives, x: Transaction, y: Transaction)
    ensures x.ToPayload(prims) == y.ToPayload(prims) <==> SameTransaction(prims, x, y)
  {
    var p, q := x.ToPayload(prims), y.ToPayload(prims);
    assert p.receiverAmount == q.receiverAmount <==>
      && (x.receiverAmount.Some? <==> y.receiverAmount.Some?)
      && (x.receiverAmount.Some? && y.receiverAmount.Some? ==>
            prims.toFloat(x.receiverAmount.value.Value()) == prims.toFloat(y.receiverAmount.value.Value()));
  }

  predicate SameTransactionLists(prims: Primitives, a: seq<Transaction>, b: seq<Transaction>) {
    |a| == |b| && forall k :: 0 <= k < |a| ==> SameTransaction(prims, a[k], b[k])
  }

  lemma PayloadsFields(prims: Primitives, a: seq<Transaction>, b: seq<Transaction>)
    ensures Payloads(prims, a) == Payloads(prims, b) <==> SameTransactionLists(prims, a, b)
  {
    var p, q := Payloads(prims, a), Payloads(prims, b);
    if |a| == |b| {
      forall k | 0 <= k < |a| ensures p[k] == q[k] <==> SameTransaction(prims, a[k], b[k]) {
        LeafFields(prims, a[k], b[k]);
      }
    }
  }
}
