/** Writing blocks to the tables `blocks` and `transactions`, and regrouping the joined rows into blocks. */
module Rows {
  import opened Conversion
  import opened Decimals
  import opened Models
  import opened Wrappers

  /** The transaction half of a joined row. Columns added by later migrations may be NULL. */
  datatype TxColumns = TxColumns(
    id: int,
    sender: string,
    receiver: string,
    amount: Decimal,
    receiverAmount: Option<Decimal>,
    senderWalletId: Option<string>,
    receiverWalletId: Option<string>,
    nonce: Option<int>,
    signature: Option<string>)

  /** `tx` is None where the join found no transaction. */
  datatype Row = Row(
    index: int,
    timestamp: string,
    proof: int,
    previousHash: Digest,
    merkleRoot: Digest,
    tx: Option<TxColumns>)

  function OrEmpty(s: Option<string>): string { match s case Some(v) => v case None => "" }

  function ToTransaction(t: TxColumns): Transaction {
    Transaction(t.sender, t.receiver, t.amount, t.receiverAmount,
                OrEmpty(t.senderWalletId), OrEmpty(t.receiverWalletId),
                match t.nonce case Some(n) => n case None => 0, OrEmpty(t.signature))
  }

  // ---------- The columns ----------

  /** The nearest integer, ties away from zero. */
  function Nearest(x: real): int { if x >= 0.0 then (x + 0.5).Floor else -(0.5 - x).Floor }

  /** What a column of eight decimal places keeps of a value, in units of 10^-8. */
  function ColumnUnits(x: real): int { Nearest(x * UNITS_PER_ONE) }

  /** The amount such a column gives back. */
  function Stored(d: Decimal): Decimal { UnitsDecimal(ColumnUnits(d.Value())) }

  function StoredOption(d: Option<Decimal>): Option<Decimal> {
    match d case Some(a) => Some(Stored(a)) case None => None
  }

  /** The columns `append` writes for a transaction: `amount` and `receiver_amount` hold eight decimal places. */
  function ToColumns(id: int, tx: Transaction): TxColumns {
    TxColumns(id, tx.sender, tx.receiver, Stored(tx.amount), StoredOption(tx.receiverAmount),
              Some(tx.senderWalletId), Some(tx.receiverWalletId), Some(tx.nonce), Some(tx.signature))
  }

  /** NUMERIC(20, 8) and NUMERIC(28, 8), in units; INTEGER and BIGINT. */
  const AMOUNT_LIMIT := 100000000000000000000
  const RECEIVER_AMOUNT_LIMIT := 10000000000000000000000000000
  const INTEGER_LIMIT := 0x8000_0000
  const BIGINT_LIMIT := 0x8000_0000_0000_0000

  /** Reading a row: each field from its column, NULL as empty text or nonce 0. */
  lemma ReadColumns(t: TxColumns)
    ensures var tx := ToTransaction(t);
            && tx.sender == t.sender && tx.receiver == t.receiver
            && tx.amount == t.amount && tx.receiverAmount == t.receiverAmount
            && tx.senderWalletId == (if t.senderWalletId.Some? then t.senderWalletId.value else "")
            && tx.receiverWalletId == (if t.receiverWalletId.Some? then t.receiverWalletId.value else "")
            && tx.nonce == (if t.nonce.Some? then t.nonce.value else 0)
            && tx.signature == (if t.signature.Some? then t.signature.value else "")
  {
  }

  /** Writing a row: each field into its own column. */
  lemma WrittenColumns(id: int, tx: Transaction)
    ensures var t := ToColumns(id, tx);
            && t.id == id && t.sender == tx.sender && t.receiver == tx.receiver
            && t.amount == Stored(tx.amount)
            && t.receiverAmount == (if tx.receiverAmount.Some? then Some(Stored(tx.receiverAmount.value)) else None)
            && t.senderWalletId == Some(tx.senderWalletId) && t.receiverWalletId == Some(tx.receiverWalletId)
            && t.nonce == Some(tx.nonce) && t.signature == Some(tx.signature)
  {
  }

  /** The limits in the amounts and integers they stand for. */
  lemma ColumnLimits()
    ensures FromUnits(AMOUNT_LIMIT) == 1000000000000.0 && FromUnits(RECEIVER_AMOUNT_LIMIT) == 100000000000000000000.0
    ensures FitsWidth(-2147483648, INTEGER_LIMIT) && FitsWidth(2147483647, INTEGER_LIMIT)
    ensures !FitsWidth(-2147483649, INTEGER_LIMIT) && !FitsWidth(2147483648, INTEGER_LIMIT)
    ensures FitsWidth(-9223372036854775808, BIGINT_LIMIT) && FitsWidth(9223372036854775807, BIGINT_LIMIT)
    ensures !FitsWidth(-9223372036854775809, BIGINT_LIMIT) && !FitsWidth(9223372036854775808, BIGINT_LIMIT)
  {
  }

  predicate FitsWidth(n: int, limit: int) { -limit <= n < limit }

  /** The INSERT goes through: the rounded values fit their columns, and the rounded amount is positive. */
  predicate Insertable(tx: Transaction) {
    && 0 < ColumnUnits(tx.amount.Value()) < AMOUNT_LIMIT
    && (tx.receiverAmount.Some? ==>
          -RECEIVER_AMOUNT_LIMIT < ColumnUnits(tx.receiverAmount.value.Value()) < RECEIVER_AMOUNT_LIMIT)
    && FitsWidth(tx.nonce, BIGINT_LIMIT)
  }

  predicate InsertableBlock(b: Block) {
    && FitsWidth(b.index, INTEGER_LIMIT) && FitsWidth(b.proof, INTEGER_LIMIT)
    && forall i :: 0 <= i < |b.transactions| ==> Insertable(b.transactions[i])
  }

  predicate InsertableChain(chain: seq<Block>) { forall i :: 0 <= i < |chain| ==> InsertableBlock(chain[i]) }

  /** A transaction after its columns were written and read. */
  function Reread(tx: Transaction): Transaction {
    tx.(amount := Stored(tx.amount), receiverAmount := StoredOption(tx.receiverAmount))
  }

  function RereadAll(txs: seq<Transaction>): (r: seq<Transaction>)
    ensures |r| == |txs| && forall i :: 0 <= i < |txs| ==> r[i] == Reread(txs[i])
  {
    seq(|txs|, i requires 0 <= i < |txs| => Reread(txs[i]))
  }

  function RereadBlock(b: Block): Block { b.(transactions := RereadAll(b.transactions)) }

  function RereadChain(chain: seq<Block>): (r: seq<Block>)
    ensures |r| == |chain| && forall i :: 0 <= i < |chain| ==> r[i] == RereadBlock(chain[i])
  {
    seq(|chain|, i requires 0 <= i < |chain| => RereadBlock(chain[i]))
  }

  /** A whole number of units of 10^-8. */
  predicate WholeUnits(x: real) { (x * UNITS_PER_ONE).Floor as real == x * UNITS_PER_ONE }

  /** The columns hold the transaction exactly: whole units, within the columns' range. */
  predicate HeldExactly(tx: Transaction) {
    && WholeUnits(tx.amount.Value()) && 0.0 < tx.amount.Value() < FromUnits(AMOUNT_LIMIT)
    && (tx.receiverAmount.Some? ==>
          var x := tx.receiverAmount.value.Value();
          WholeUnits(x) && -FromUnits(RECEIVER_AMOUNT_LIMIT) < x < FromUnits(RECEIVER_AMOUNT_LIMIT))
    && FitsWidth(tx.nonce, BIGINT_LIMIT)
  }

  predicate ChainHeldExactly(chain: seq<Block>) {
    forall i :: 0 <= i < |chain| ==>
      && FitsWidth(chain[i].index, INTEGER_LIMIT) && FitsWidth(chain[i].proof, INTEGER_LIMIT)
      && forall k :: 0 <= k < |chain[i].transactions| ==> HeldExactly(chain[i].transactions[k])
  }

  predicate SameOptionValue(a: Option<Decimal>, b: Option<Decimal>) {
    match (a, b)
    case (Some(x), Some(y)) => x.Value() == y.Value()
    case (None, None) => true
    case _ => false
  }

  /** Equal but for how the amounts write their value, as Python's `==` on `Decimal` has it. */
  predicate SameByValue(a: Transaction, b: Transaction) {
    && a == b.(amount := a.amount, receiverAmount := a.receiverAmount)
    && a.amount.Value() == b.amount.Value() && SameOptionValue(a.receiverAmount, b.receiverAmount)
  }

  predicate SameTransactions(a: seq<Transaction>, b: seq<Transaction>) {
    |a| == |b| && forall k :: 0 <= k < |a| ==> SameByValue(a[k], b[k])
  }

  predicate SameChain(a: seq<Block>, b: seq<Block>) {
    |a| == |b| && forall i :: 0 <= i < |a| ==>
      SameHeader(a[i], b[i]) && SameTransactions(a[i].transactions, b[i].transactions)
  }

  lemma FloorIs(y: real, n: int)
    requires n as real <= y < n as real + 1.0
    ensures y.Floor == n
  {
  }

  lemma NearestOfWhole(n: int)
    ensures Nearest(n as real) == n
  {
    if n >= 0 { FloorIs(n as real + 0.5, n); } else { FloorIs(0.5 - n as real, -n); }
  }

  lemma NearestExactIff(y: real)
    ensures Nearest(y) as real == y <==> y.Floor as real == y
  {
    if Nearest(y) as real == y { FloorIs(y, Nearest(y)); }
    if y.Floor as real == y { NearestOfWhole(y.Floor); }
  }

  lemma ColumnUnitsOf(x: real)
    ensures FromUnits(ColumnUnits(x)) == x <==> WholeUnits(x)
    ensures WholeUnits(x) ==> ColumnUnits(x) as real == x * UNITS_PER_ONE
  {
    NearestExactIff(x * UNITS_PER_ONE);
  }

  lemma ColumnRange(x: real, limit: int)
    requires WholeUnits(x)
    ensures ColumnUnits(x) > 0 <==> x > 0.0
    ensures ColumnUnits(x) < limit <==> x < FromUnits(limit)
    ensures -limit < ColumnUnits(x) <==> -FromUnits(limit) < x
  {
    ColumnUnitsOf(x);
  }

  lemma StoredSameIff(d: Decimal)
    ensures Stored(d).Value() == d.Value() <==> WholeUnits(d.Value())
  {
    var x := d.Value();
    ColumnUnitsOf(x);
    UnitsDecimalValue(ColumnUnits(x));
  }

  lemma NearestIsNear(x: real)
    ensures -0.5 <= Nearest(x) as real - x <= 0.5
  {
  }

  lemma HalfUnit(n: int, x: real)
    requires -0.5 <= n as real - x * UNITS_PER_ONE <= 0.5
    ensures -FromUnits(1) <= 2.0 * (FromUnits(n) - x) <= FromUnits(1)
  {
  }

  /** An amount comes back within half a unit, and one that has been through its column stays what it is. */
  lemma StoredIsNear(d: Decimal)
    ensures -FromUnits(1) <= 2.0 * (Stored(d).Value() - d.Value()) <= FromUnits(1)
    ensures Stored(Stored(d)) == Stored(d)
  {
    var x := d.Value();
    var n := ColumnUnits(x);
    NearestIsNear(x * UNITS_PER_ONE);
    HalfUnit(n, x);
    UnitsDecimalValue(n);
    NearestOfWhole(n);
    assert FromUnits(n) * UNITS_PER_ONE == n as real;
  }

  lemma AmountHeldIff(d: Decimal)
    ensures 0 < ColumnUnits(d.Value()) < AMOUNT_LIMIT && Stored(d).Value() == d.Value()
       <==> WholeUnits(d.Value()) && 0.0 < d.Value() < FromUnits(AMOUNT_LIMIT)
  {
    var x := d.Value();
    StoredSameIff(d);
    if WholeUnits(x) { ColumnRange(x, AMOUNT_LIMIT); }
  }

  lemma ReceiverAmountHeldIff(d: Decimal)
    ensures -RECEIVER_AMOUNT_LIMIT < ColumnUnits(d.Value()) < RECEIVER_AMOUNT_LIMIT && Stored(d).Value() == d.Value()
       <==> WholeUnits(d.Value()) && -FromUnits(RECEIVER_AMOUNT_LIMIT) < d.Value() < FromUnits(RECEIVER_AMOUNT_LIMIT)
  {
    var x := d.Value();
    StoredSameIff(d);
    if WholeUnits(x) { ColumnRange(x, RECEIVER_AMOUNT_LIMIT); }
  }

  /** A transaction can be inserted and comes back the same exactly when its columns hold it. */
  lemma RereadSameIff(tx: Transaction)
    ensures Insertable(tx) && SameByValue(Reread(tx), tx) <==> HeldExactly(tx)
  {
    AmountHeldIff(tx.amount);
    if tx.receiverAmount.Some? { ReceiverAmountHeldIff(tx.receiverAmount.value); }
  }

  function HeaderBlock(r: Row): Block { Block(r.index, r.timestamp, r.proof, r.previousHash, r.merkleRoot, []) }

  function JoinedRow(b: Block, tx: Option<TxColumns>): Row {
    Row(b.index, b.timestamp, b.proof, b.previousHash, b.merkleRoot, tx)
  }

  // ---------- Sorting pairs by key ----------

  function Insert<T>(x: (int, T), s: seq<(int, T)>): seq<(int, T)> {
    if s == [] || x.0 < s[0].0 then [x] + s else [s[0]] + Insert(x, s[1..])
  }

  /** `list.sort(key=lambda pair: pair[0])`: stable, by the first component. */
  function Sort<T>(s: seq<(int, T)>): seq<(int, T)> {
    if s == [] then [] else Insert(s[|s| - 1], Sort(s[..|s| - 1]))
  }

  ghost predicate Ascending<T>(s: seq<(int, T)>) {
    forall i, j :: 0 <= i < j < |s| ==> s[i].0 <= s[j].0
  }

  ghost predicate StrictlyAscending<T>(s: seq<(int, T)>) {
    forall i, j :: 0 <= i < j < |s| ==> s[i].0 < s[j].0
  }

  lemma ConsAscending<T>(x: (int, T), s: seq<(int, T)>)
    requires Ascending(s) && forall j :: 0 <= j < |s| ==> x.0 <= s[j].0
    ensures Ascending([x] + s)
  {
  }

  lemma {:induction false} InsertKeepsElements<T>(x: (int, T), s: seq<(int, T)>)
    ensures multiset(Insert(x, s)) == multiset(s) + multiset{x}
  {
    if s != [] && x.0 >= s[0].0 {
      InsertKeepsElements(x, s[1..]);
      assert s == [s[0]] + s[1..];
    }
  }

  lemma {:induction false} InsertSorts<T>(x: (int, T), s: seq<(int, T)>)
    requires Ascending(s)
    ensures Ascending(Insert(x, s))
  {
    if s == [] || x.0 < s[0].0 {
      ConsAscending(x, s);
    } else {
      var rest := s[1..];
      InsertSorts(x, rest);
      InsertKeepsElements(x, rest);
      var t := Insert(x, rest);
      forall j | 0 <= j < |t| ensures s[0].0 <= t[j].0 {
        assert t[j] in multiset(t);
        assert t[j] == x || t[j] in rest;
      }
      ConsAscending(s[0], t);
    }
  }

  lemma {:induction false} SortSorts<T>(s: seq<(int, T)>)
    ensures Ascending(Sort(s)) && multiset(Sort(s)) == multiset(s)
  {
    if s != [] {
      SortSorts(s[..|s| - 1]);
      InsertSorts(s[|s| - 1], Sort(s[..|s| - 1]));
      InsertKeepsElements(s[|s| - 1], Sort(s[..|s| - 1]));
      assert s == s[..|s| - 1] + [s[|s| - 1]];
    }
  }

  lemma SameHead<T>(s: seq<(int, T)>, t: seq<(int, T)>)
    requires s != [] && t != [] && Ascending(s) && StrictlyAscending(t) && multiset(s) == multiset(t)
    ensures s[0] == t[0]
  {
    assert s[0] in multiset(t) && t[0] in multiset(s);
    var i :| 0 <= i < |t| && t[i] == s[0];
    var j :| 0 <= j < |s| && s[j] == t[0];
  }

  lemma SameTails<T>(s: seq<T>, t: seq<T>)
    requires s != [] && t != [] && s[0] == t[0] && multiset(s) == multiset(t)
    ensures multiset(s[1..]) == multiset(t[1..])
  {
    assert s == [s[0]] + s[1..] && t == [t[0]] + t[1..];
    assert multiset(s[1..]) == multiset(s) - multiset{s[0]};
    assert multiset(t[1..]) == multiset(t) - multiset{t[0]};
  }

  /** With distinct keys the sorted order is unique. */
  lemma {:induction false} SortedUnique<T>(s: seq<(int, T)>, t: seq<(int, T)>)
    requires Ascending(s) && StrictlyAscending(t) && multiset(s) == multiset(t)
    ensures s == t
  {
    assert |s| == |multiset(s)| == |multiset(t)| == |t|;
    if t != [] {
      SameHead(s, t);
      SameTails(s, t);
      SortedUnique(s[1..], t[1..]);
      assert s == [s[0]] + s[1..] && t == [t[0]] + t[1..];
    }
  }

  lemma SortOfPermutation<T>(s: seq<(int, T)>, t: seq<(int, T)>)
    requires StrictlyAscending(t) && multiset(s) == multiset(t)
    ensures Sort(s) == t
  {
    SortSorts(s);
    SortedUnique(Sort(s), t);
  }

  function Untag<T>(s: seq<(int, T)>): (r: seq<T>)
    ensures |r| == |s| && forall i :: 0 <= i < |s| ==> r[i] == s[i].1
  {
    seq(|s|, i requires 0 <= i < |s| => s[i].1)
  }

  // ---------- Grouping ----------

  /** The block indexes in order of first appearance: the insertion order of `blocks_by_index`. */
  function Keys(rows: seq<Row>): seq<int> {
    if rows == [] then []
    else
      var front, k := Keys(rows[..|rows| - 1]), rows[|rows| - 1].index;
      if k in front then front else front + [k]
  }

  /** The first row of block `k`. */
  function FirstRow(rows: seq<Row>, k: int): (r: Row)
    requires k in Keys(rows)
  {
    var front := rows[..|rows| - 1];
    if k in Keys(front) then FirstRow(front, k) else rows[|rows| - 1]
  }

  /** The transactions of block `k` in row order, tagged with their row ids. */
  function Tagged(rows: seq<Row>, k: int): seq<(int, Transaction)> {
    if rows == [] then []
    else
      var front, last := Tagged(rows[..|rows| - 1], k), rows[|rows| - 1];
      if last.index == k && last.tx.Some? then front + [(last.tx.value.id, ToTransaction(last.tx.value))] else front
  }

  function Attach(header: Block, tagged: seq<(int, Transaction)>): Block {
    header.(transactions := Untag(Sort(tagged)))
  }

  function GroupedBlock(rows: seq<Row>, k: int): Block
    requires k in Keys(rows)
  {
    Attach(HeaderBlock(FirstRow(rows, k)), Tagged(rows, k))
  }

  function Grouped(rows: seq<Row>, keys: seq<int>): (r: seq<(int, Block)>)
    requires forall k :: k in keys ==> k in Keys(rows)
    ensures |r| == |keys| && forall i :: 0 <= i < |keys| ==> r[i] == (keys[i], GroupedBlock(rows, keys[i]))
  {
    seq(|keys|, i requires 0 <= i < |keys| => (keys[i], GroupedBlock(rows, keys[i])))
  }

  function Regroup(rows: seq<Row>): seq<Block> { Untag(Sort(Grouped(rows, Keys(rows)))) }

  /** One more row: what grouping the first `i + 1` rows adds to grouping the first `i`. */
  lemma GroupStep(rows: seq<Row>, i: nat, k: int)
    requires i < |rows|
    ensures var row, before, after := rows[i], rows[..i], rows[..i + 1];
            && Keys(after) == (if row.index in Keys(before) then Keys(before) else Keys(before) + [row.index])
            && (k in Keys(after) ==> FirstRow(after, k) == if k in Keys(before) then FirstRow(before, k) else row)
            && Tagged(after, k) == if row.index == k && row.tx.Some?
                                   then Tagged(before, k) + [(row.tx.value.id, ToTransaction(row.tx.value))]
                                   else Tagged(before, k)
  {
    assert rows[..i + 1][..i] == rows[..i] && rows[..i + 1][i] == rows[i];
  }

  /** The first pass: one header block per index, and the tagged transactions of each. */
  method CollectRows(rows: seq<Row>)
    returns (keys: seq<int>, blocksByIndex: map<int, Block>, txsByIndex: map<int, seq<(int, Transaction)>>)
    ensures keys == Keys(rows) && blocksByIndex.Keys == set k | k in keys
    ensures forall k :: k in keys ==> blocksByIndex[k] == HeaderBlock(FirstRow(rows, k))
    ensures forall k :: Tagged(rows, k) == if k in txsByIndex then txsByIndex[k] else []
  {
    keys, blocksByIndex, txsByIndex := [], map[], map[];
    for i := 0 to |rows|
      invariant keys == Keys(rows[..i]) && blocksByIndex.Keys == set k | k in keys
      invariant forall k :: k in keys ==> blocksByIndex[k] == HeaderBlock(FirstRow(rows[..i], k))
      invariant forall k :: Tagged(rows[..i], k) == if k in txsByIndex then txsByIndex[k] else []
    {
      forall k ensures Tagged(rows[..i + 1], k) == if rows[i].index == k && rows[i].tx.Some?
                         then Tagged(rows[..i], k) + [(rows[i].tx.value.id, ToTransaction(rows[i].tx.value))]
                         else Tagged(rows[..i], k)
      {
        GroupStep(rows, i, k);
      }
      forall k | k in Keys(rows[..i + 1])
        ensures FirstRow(rows[..i + 1], k) == if k in Keys(rows[..i]) then FirstRow(rows[..i], k) else rows[i]
      {
        GroupStep(rows, i, k);
      }
      GroupStep(rows, i, rows[i].index);
      var row := rows[i];
      var blockIndex := row.index;
      if blockIndex !in blocksByIndex {
        blocksByIndex := blocksByIndex[blockIndex := HeaderBlock(row)];
        keys := keys + [blockIndex];
      }
      if row.tx.Some? {
        var soFar := if blockIndex in txsByIndex then txsByIndex[blockIndex] else [];
        txsByIndex := txsByIndex[blockIndex := soFar + [(row.tx.value.id, ToTransaction(row.tx.value))]];
      }
    }
    assert rows[..|rows|] == rows;
  }

  /** `_rows_to_blocks`: collect, sort each block's transactions by row id, then the blocks by index. */
  method RowsToBlocks(rows: seq<Row>) returns (blocks: seq<Block>)
    ensures blocks == Regroup(rows)
  {
    var keys, blocksByIndex, txsByIndex := CollectRows(rows);
    var items := AttachTransactions(rows, keys, blocksByIndex, txsByIndex);
    blocks := Untag(Sort(items));
  }

  /** The second pass: each block gets its transactions, sorted by row id. */
  method AttachTransactions(ghost rows: seq<Row>, keys: seq<int>, blocksByIndex: map<int, Block>,
                            txsByIndex: map<int, seq<(int, Transaction)>>)
    returns (items: seq<(int, Block)>)
    requires forall k :: k in keys ==>
      k in Keys(rows) && k in blocksByIndex && blocksByIndex[k] == HeaderBlock(FirstRow(rows, k))
    requires forall k :: Tagged(rows, k) == if k in txsByIndex then txsByIndex[k] else []
    ensures items == Grouped(rows, keys)
  {
    items := [];
    for i := 0 to |keys|
      invariant |items| == i && forall p :: 0 <= p < i ==> items[p] == (keys[p], GroupedBlock(rows, keys[p]))
    {
      var k := keys[i];
      var tagged := if k in txsByIndex then txsByIndex[k] else [];
      assert tagged == Tagged(rows, k);
      items := items + [(k, Attach(blocksByIndex[k], tagged))];
    }
  }

  // ---------- Flattening and back ----------

  /** The joined rows of one block: one per transaction, or a single one without. */
  function BlockRows(b: Block, ids: seq<int>): (r: seq<Row>)
    requires |ids| == |b.transactions|
  {
    if b.transactions == [] then [JoinedRow(b, None)]
    else seq(|ids|, i requires 0 <= i < |ids| => JoinedRow(b, Some(ToColumns(ids[i], b.transactions[i]))))
  }

  /** The ids the database gave to each block's transactions. */
  ghost predicate IdsFit(chain: seq<Block>, ids: seq<seq<int>>) {
    && |ids| == |chain|
    && (forall i :: 0 <= i < |chain| ==> |ids[i]| == |chain[i].transactions|)
    && (forall i, j, k :: 0 <= i < |chain| && 0 <= j < k < |ids[i]| ==> ids[i][j] < ids[i][k])
  }

  function Flatten(chain: seq<Block>, ids: seq<seq<int>>): seq<Row>
    requires |ids| == |chain| && forall i :: 0 <= i < |chain| ==> |ids[i]| == |chain[i].transactions|
  {
    if chain == [] then []
    else Flatten(chain[..|chain| - 1], ids[..|chain| - 1]) + BlockRows(chain[|chain| - 1], ids[|chain| - 1])
  }

  ghost predicate AscendingIndexes(chain: seq<Block>) {
    forall i, j :: 0 <= i < j < |chain| ==> chain[i].index < chain[j].index
  }

  predicate RowOf(r: Row, b: Block) { HeaderBlock(r) == b.(transactions := []) }

  lemma BlockRowsOf(b: Block, ids: seq<int>)
    requires |ids| == |b.transactions|
    ensures BlockRows(b, ids) != [] && forall r :: r in BlockRows(b, ids) ==> RowOf(r, b)
  {
  }

  /** Every row of the flattening comes from some block. */
  lemma {:induction false} RowOrigin(chain: seq<Block>, ids: seq<seq<int>>, r: Row) returns (i: nat)
    requires IdsFit(chain, ids) && r in Flatten(chain, ids)
    ensures i < |chain| && RowOf(r, chain[i])
  {
    var n := |chain| - 1;
    BlockRowsOf(chain[n], ids[n]);
    if r in Flatten(chain[..n], ids[..n]) {
      i := RowOrigin(chain[..n], ids[..n], r);
    } else {
      i := n;
    }
  }

  /** Every block has a row. */
  lemma {:induction false} BlockHasRow(chain: seq<Block>, ids: seq<seq<int>>, i: nat) returns (r: Row)
    requires IdsFit(chain, ids) && i < |chain|
    ensures r in Flatten(chain, ids) && RowOf(r, chain[i])
  {
    var n := |chain| - 1;
    if i == n {
      BlockRowsOf(chain[n], ids[n]);
      r := BlockRows(chain[n], ids[n])[0];
    } else {
      r := BlockHasRow(chain[..n], ids[..n], i);
    }
  }

  lemma {:induction false} TaggedConcat(a: seq<Row>, b: seq<Row>, k: int)
    ensures Tagged(a + b, k) == Tagged(a, k) + Tagged(b, k)
  {
    if b == [] {
      assert a + b == a;
    } else {
      TaggedConcat(a, b[..|b| - 1], k);
      assert (a + b)[..|a + b| - 1] == a + b[..|b| - 1];
    }
  }

  lemma {:induction false} TaggedNone(rows: seq<Row>, k: int)
    requires forall r :: r in rows ==> r.index != k || r.tx.None?
    ensures Tagged(rows, k) == []
  {
    if rows != [] { TaggedNone(rows[..|rows| - 1], k); }
  }

  /** A block's transactions, as the columns give them back, with their row ids. */
  function TagBlock(b: Block, ids: seq<int>): (r: seq<(int, Transaction)>)
    requires |ids| == |b.transactions|
    ensures |r| == |ids| && forall i :: 0 <= i < |ids| ==> r[i] == (ids[i], Reread(b.transactions[i]))
  {
    seq(|ids|, i requires 0 <= i < |ids| => (ids[i], Reread(b.transactions[i])))
  }

  lemma {:induction false} TaggedPrefix(b: Block, ids: seq<int>, n: nat)
    requires |ids| == |b.transactions| && b.transactions != [] && n <= |ids|
    ensures Tagged(BlockRows(b, ids)[..n], b.index) == TagBlock(b, ids)[..n]
  {
    if n != 0 {
      TaggedPrefix(b, ids, n - 1);
      var rows := BlockRows(b, ids)[..n];
      assert rows[..n - 1] == BlockRows(b, ids)[..n - 1];
      assert ToTransaction(ToColumns(ids[n - 1], b.transactions[n - 1])) == Reread(b.transactions[n - 1]);
    }
  }

  lemma TaggedOwnRows(b: Block, ids: seq<int>)
    requires |ids| == |b.transactions|
    ensures Tagged(BlockRows(b, ids), b.index) == TagBlock(b, ids)
  {
    if b.transactions == [] {
      TaggedNone(BlockRows(b, ids), b.index);
    } else {
      TaggedPrefix(b, ids, |ids|);
      assert BlockRows(b, ids)[..|ids|] == BlockRows(b, ids);
    }
  }

  /** With ascending indexes the earlier blocks have no row with the last block's index. */
  lemma EarlierRowsDiffer(chain: seq<Block>, ids: seq<seq<int>>, n: nat)
    requires IdsFit(chain, ids) && AscendingIndexes(chain) && n < |chain|
    ensures Tagged(Flatten(chain[..n], ids[..n]), chain[n].index) == []
  {
    var front := Flatten(chain[..n], ids[..n]);
    forall r | r in front ensures r.index != chain[n].index {
      var j := RowOrigin(chain[..n], ids[..n], r);
      assert r.index == HeaderBlock(r).index == chain[j].index;
    }
    TaggedNone(front, chain[n].index);
  }

  lemma OtherBlockRows(b: Block, ids: seq<int>, k: int)
    requires |ids| == |b.transactions| && b.index != k
    ensures Tagged(BlockRows(b, ids), k) == []
  {
    BlockRowsOf(b, ids);
    var rows := BlockRows(b, ids);
    forall r | r in rows ensures r.index != k { assert r.index == HeaderBlock(r).index; }
    TaggedNone(rows, k);
  }

  lemma FrontFits(chain: seq<Block>, ids: seq<seq<int>>, n: nat)
    requires IdsFit(chain, ids) && AscendingIndexes(chain) && |chain| == n + 1
    ensures IdsFit(chain[..n], ids[..n]) && AscendingIndexes(chain[..n])
    ensures Flatten(chain, ids) == Flatten(chain[..n], ids[..n]) + BlockRows(chain[n], ids[n])
  {
  }

  lemma {:induction false} TaggedFlatten(chain: seq<Block>, ids: seq<seq<int>>, i: nat)
    requires IdsFit(chain, ids) && AscendingIndexes(chain) && i < |chain|
    ensures Tagged(Flatten(chain, ids), chain[i].index) == TagBlock(chain[i], ids[i])
    decreases |chain|
  {
    var n := |chain| - 1;
    var k := chain[i].index;
    FrontFits(chain, ids, n);
    TaggedConcat(Flatten(chain[..n], ids[..n]), BlockRows(chain[n], ids[n]), k);
    if i < n {
      TaggedFlatten(chain[..n], ids[..n], i);
      OtherBlockRows(chain[n], ids[n], k);
    } else {
      EarlierRowsDiffer(chain, ids, n);
      TaggedOwnRows(chain[n], ids[n]);
    }
  }

  lemma TaggedRemove(rows: seq<Row>, j: nat, k: int)
    requires j < |rows|
    ensures multiset(Tagged(rows, k)) == multiset(Tagged(rows[..j] + rows[j + 1..], k)) + multiset(Tagged([rows[j]], k))
  {
    assert rows == rows[..j] + ([rows[j]] + rows[j + 1..]);
    TaggedConcat(rows[..j], [rows[j]] + rows[j + 1..], k);
    TaggedConcat([rows[j]], rows[j + 1..], k);
    TaggedConcat(rows[..j], rows[j + 1..], k);
  }

  lemma MatchLast(a: seq<Row>, b: seq<Row>) returns (j: nat)
    requires a != [] && multiset(a) == multiset(b)
    ensures j < |b| && b[j] == a[|a| - 1] && multiset(b[..j] + b[j + 1..]) == multiset(a[..|a| - 1])
  {
    var n := |a| - 1;
    assert a[n] in multiset(b);
    j :| 0 <= j < |b| && b[j] == a[n];
    var rest := b[..j] + b[j + 1..];
    assert b == b[..j] + ([b[j]] + b[j + 1..]);
    assert a == a[..n] + [a[n]];
    assert multiset(rest) == multiset(b) - multiset{a[n]} == multiset(a[..n]);
  }

  /** Permuting rows permutes each block's transactions. */
  lemma {:induction false} TaggedPermutation(a: seq<Row>, b: seq<Row>, k: int)
    requires multiset(a) == multiset(b)
    ensures multiset(Tagged(a, k)) == multiset(Tagged(b, k))
    decreases |a|
  {
    if a == [] {
      assert |multiset(b)| == 0;
    } else {
      var j := MatchLast(a, b);
      TaggedPermutation(a[..|a| - 1], b[..j] + b[j + 1..], k);
      TaggedRemove(b, j, k);
      TaggedRemove(a, |a| - 1, k);
      assert a[..|a| - 1] + a[|a|..] == a[..|a| - 1];
    }
  }

  lemma {:induction false} KeysAreIndexes(rows: seq<Row>)
    ensures forall k :: k in Keys(rows) <==> exists r :: r in rows && r.index == k
    ensures forall i, j :: 0 <= i < j < |Keys(rows)| ==> Keys(rows)[i] != Keys(rows)[j]
  {
    if rows != [] {
      var front, last := rows[..|rows| - 1], rows[|rows| - 1];
      KeysAreIndexes(front);
      assert forall r :: r in rows <==> r in front || r == last;
    }
  }

  lemma {:induction false} FirstRowFound(rows: seq<Row>, k: int)
    requires k in Keys(rows)
    ensures FirstRow(rows, k) in rows && FirstRow(rows, k).index == k
  {
    var front := rows[..|rows| - 1];
    if k in Keys(front) { FirstRowFound(front, k); }
  }

  /** Each block is found again, header and reread transactions in order, whatever the order of the rows. */
  lemma GroupedBlockRestored(chain: seq<Block>, ids: seq<seq<int>>, rows: seq<Row>, i: nat)
    requires IdsFit(chain, ids) && AscendingIndexes(chain) && i < |chain|
    requires multiset(rows) == multiset(Flatten(chain, ids))
    ensures chain[i].index in Keys(rows) && GroupedBlock(rows, chain[i].index) == RereadBlock(chain[i])
  {
    HeaderRestored(chain, ids, rows, i);
    TransactionsRestored(chain, ids, rows, i);
  }

  lemma HeaderRestored(chain: seq<Block>, ids: seq<seq<int>>, rows: seq<Row>, i: nat)
    requires IdsFit(chain, ids) && AscendingIndexes(chain) && i < |chain|
    requires multiset(rows) == multiset(Flatten(chain, ids))
    ensures chain[i].index in Keys(rows)
    ensures HeaderBlock(FirstRow(rows, chain[i].index)) == chain[i].(transactions := [])
  {
    var r := BlockHasRow(chain, ids, i);
    assert r in multiset(rows);
    assert HeaderBlock(r).index == r.index;
    KeysAreIndexes(rows);
    FirstRowFound(rows, chain[i].index);
    var first := FirstRow(rows, chain[i].index);
    assert first in multiset(Flatten(chain, ids));
    var j := RowOrigin(chain, ids, first);
    assert HeaderBlock(first).index == first.index;
    assert chain[j].index == chain[i].index;
  }

  lemma TransactionsRestored(chain: seq<Block>, ids: seq<seq<int>>, rows: seq<Row>, i: nat)
    requires IdsFit(chain, ids) && AscendingIndexes(chain) && i < |chain|
    requires multiset(rows) == multiset(Flatten(chain, ids))
    ensures Untag(Sort(Tagged(rows, chain[i].index))) == RereadAll(chain[i].transactions)
  {
    var target := TagBlock(chain[i], ids[i]);
    TaggedFlatten(chain, ids, i);
    TaggedPermutation(rows, Flatten(chain, ids), chain[i].index);
    SortOfPermutation(Tagged(rows, chain[i].index), target);
    assert Untag(target) == RereadAll(chain[i].transactions);
  }

  function TagChain(chain: seq<Block>): (r: seq<(int, Block)>)
    ensures |r| == |chain| && forall i :: 0 <= i < |chain| ==> r[i] == (chain[i].index, RereadBlock(chain[i]))
  {
    seq(|chain|, i requires 0 <= i < |chain| => (chain[i].index, RereadBlock(chain[i])))
  }

  ghost predicate NoRepeats<T>(s: seq<T>) { forall i, j :: 0 <= i < j < |s| ==> s[i] != s[j] }

  lemma {:induction false} NoRepeatsCount<T>(s: seq<T>, x: T)
    requires NoRepeats(s)
    ensures multiset(s)[x] == if x in s then 1 else 0
  {
    if s != [] {
      NoRepeatsCount(s[1..], x);
      assert s == [s[0]] + s[1..];
    }
  }

  lemma SameElementsSameMultiset<T>(a: seq<T>, b: seq<T>)
    requires NoRepeats(a) && NoRepeats(b) && forall x :: x in a <==> x in b
    ensures multiset(a) == multiset(b)
  {
    forall x ensures multiset(a)[x] == multiset(b)[x] {
      NoRepeatsCount(a, x);
      NoRepeatsCount(b, x);
    }
  }

  lemma EveryBlockGrouped(chain: seq<Block>, ids: seq<seq<int>>, rows: seq<Row>, i: nat)
    requires IdsFit(chain, ids) && AscendingIndexes(chain) && i < |chain|
    requires multiset(rows) == multiset(Flatten(chain, ids))
    ensures TagChain(chain)[i] in Grouped(rows, Keys(rows))
  {
    GroupedBlockRestored(chain, ids, rows, i);
    var p :| 0 <= p < |Keys(rows)| && Keys(rows)[p] == chain[i].index;
    assert Grouped(rows, Keys(rows))[p] == TagChain(chain)[i];
  }

  lemma EveryGroupIsBlock(chain: seq<Block>, ids: seq<seq<int>>, rows: seq<Row>, p: nat)
    requires IdsFit(chain, ids) && AscendingIndexes(chain) && p < |Keys(rows)|
    requires multiset(rows) == multiset(Flatten(chain, ids))
    ensures Grouped(rows, Keys(rows))[p] in TagChain(chain)
  {
    var i := KeyIsBlock(chain, ids, rows, Keys(rows)[p]);
    GroupedBlockRestored(chain, ids, rows, i);
    assert Grouped(rows, Keys(rows))[p] == TagChain(chain)[i];
  }

  /**
   * Writing a chain with ascending indexes and reading it back gives the chain with its amounts as the columns keep
   * them, for every order in which the database may return the rows, empty blocks included.
   */
  lemma RegroupInvertsFlatten(chain: seq<Block>, ids: seq<seq<int>>, rows: seq<Row>)
    requires IdsFit(chain, ids) && AscendingIndexes(chain)
    requires multiset(rows) == multiset(Flatten(chain, ids))
    ensures Regroup(rows) == RereadChain(chain)
  {
    var items, target := Grouped(rows, Keys(rows)), TagChain(chain);
    KeysAreIndexes(rows);
    forall i | 0 <= i < |target| ensures target[i] in items { EveryBlockGrouped(chain, ids, rows, i); }
    forall p | 0 <= p < |items| ensures items[p] in target { EveryGroupIsBlock(chain, ids, rows, p); }
    SameElementsSameMultiset(items, target);
    SortOfPermutation(items, target);
    assert Untag(target) == RereadChain(chain);
  }

  lemma KeyIsBlock(chain: seq<Block>, ids: seq<seq<int>>, rows: seq<Row>, k: int) returns (i: nat)
    requires IdsFit(chain, ids) && k in Keys(rows) && multiset(rows) == multiset(Flatten(chain, ids))
    ensures i < |chain| && chain[i].index == k
  {
    FirstRowFound(rows, k);
    var r := FirstRow(rows, k);
    assert r in multiset(rows);
    assert r in Flatten(chain, ids);
    i := RowOrigin(chain, ids, r);
    assert HeaderBlock(r).index == r.index;
  }

  lemma RereadBlockSameIff(b: Block)
    ensures (forall k :: 0 <= k < |b.transactions| ==> Insertable(b.transactions[k]))
            && SameTransactions(RereadBlock(b).transactions, b.transactions)
       <==> forall k :: 0 <= k < |b.transactions| ==> HeldExactly(b.transactions[k])
  {
    var txs := b.transactions;
    forall k | 0 <= k < |txs|
      ensures Insertable(txs[k]) && SameByValue(RereadAll(txs)[k], txs[k]) <==> HeldExactly(txs[k])
    {
      RereadSameIff(txs[k]);
    }
  }

  /**
   * What storage keeps, exactly: a chain can be written and then reads back equal by value, in any row order, if and
   * only if every amount is a whole number of 10^-8 units within its column's range and the integers fit theirs.
   */
  lemma ReloadSameIff(chain: seq<Block>, ids: seq<seq<int>>, rows: seq<Row>)
    requires IdsFit(chain, ids) && AscendingIndexes(chain)
    requires multiset(rows) == multiset(Flatten(chain, ids))
    ensures InsertableChain(chain) && SameChain(Regroup(rows), chain) <==> ChainHeldExactly(chain)
  {
    RegroupInvertsFlatten(chain, ids, rows);
    var back := RereadChain(chain);
    forall i | 0 <= i < |chain|
      ensures InsertableBlock(chain[i]) && SameTransactions(back[i].transactions, chain[i].transactions)
         <==> FitsWidth(chain[i].index, INTEGER_LIMIT) && FitsWidth(chain[i].proof, INTEGER_LIMIT)
              && forall k :: 0 <= k < |chain[i].transactions| ==> HeldExactly(chain[i].transactions[k])
    {
      RereadBlockSameIff(chain[i]);
    }
  }
}
