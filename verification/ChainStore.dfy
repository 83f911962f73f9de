/** The flat store of blocks: string keys, serialised values, and the list of blocks that they
    stand for. */
module ChainStore {
  import opened Types
  import opened Numerals

  // ---------- Keys ----------

  datatype Key =
    | Canonical(number: nat) | NumberOf(hash: Hash)
    | HeaderAt(number: nat, hash: Hash) | BodyAt(number: nat, hash: Hash)
    | TxLookup(hash: Hash) | LastBlock
  {
    function Tag(): char {
      match this
      case Canonical(_) => 'H'
      case NumberOf(_) => 'n'
      case HeaderAt(_, _) => 'h'
      case BodyAt(_, _) => 'b'
      case TxLookup(_) => 'l'
      case LastBlock => 'L'
    }

    function Argument(): string {
      match this
      case Canonical(n) => Print(n, Dec)
      case NumberOf(h) => h
      case HeaderAt(n, h) => Print(n, Dec) + h
      case BodyAt(n, h) => Print(n, Dec) + h
      case TxLookup(h) => h
      case LastBlock => "astBlock"
    }

    /** The key as it is stored. */
    function Text(): string {
      [Tag()] + Argument()
    }

    /** The hash behind a number is recognisable by its prefix. */
    predicate Good() {
      HeaderAt? || BodyAt? ==> Prefixed(hash)
    }
  }

  /** A decimal number ends where a prefixed hash begins. */
  lemma NumberHashInjective(m: nat, g: Hash, n: nat, h: Hash)
    requires Prefixed(g) && Prefixed(h) && Print(m, Dec) + g == Print(n, Dec) + h
    ensures m == n && g == h
  {
    var p, q := Print(m, Dec), Print(n, Dec);
    if |p| < |q| {
      XIsNoDigit(p, g, q, h);
    } else if |q| < |p| {
      XIsNoDigit(q, h, p, g);
    } else {
      assert p == (p + g)[..|p|] == (q + h)[..|q|] == q;
      assert g == (p + g)[|p|..] == (q + h)[|q|..] == h;
      PrintInjective(m, n, Dec);
    }
  }

  lemma XIsNoDigit(p: string, g: Hash, q: string, h: Hash)
    requires Prefixed(g) && Prefixed(h) && AllDigits(q, Dec) && |p| < |q|
    ensures p + g != q + h
  {
    var k := |p| + 1;
    assert (p + g)[k] == 'x';
    if k < |q| {
      assert (q + h)[k] == q[k] && DigitValue(q[k]) < 10;
    } else {
      assert (q + h)[k] == h[0];
    }
  }

  /** Keys of different kinds, or of one kind with different arguments, are different strings. */
  lemma KeysDistinct(j: Key, k: Key)
    requires j.Good() && k.Good() && j.Text() == k.Text()
    ensures j == k
  {
    assert j.Tag() == j.Text()[0] == k.Tag();
    assert j.Argument() == j.Text()[1..] == k.Argument();
    hide Prefixed, Print, Key.Text;
    if j.Canonical? {
      PrintInjective(j.number, k.number, Dec);
    } else if j.HeaderAt? || j.BodyAt? {
      NumberHashInjective(j.number, j.hash, k.number, k.hash);
    }
  }

  // ---------- Values ----------

  /** A plain string, a serialised list of fields, or a serialised list of such lists. */
  datatype Stored = Plain(text: string) | Fields(items: seq<string>) | Rows(rows: seq<seq<string>>)

  datatype Header = Header(
    number: nat, hash: Hash, parentHash: Hash, timestamp: nat, proposer: Address,
    stateRoot: Hash, transactionsRoot: Hash, receiptsRoot: Hash, transactionCount: nat)

  /** What of a transaction survives being stored. */
  datatype StoredTx = StoredTx(
    hash: Hash, from: Address, to: Option<Address>, value: int, nonce: int, r: string, s: string,
    gasPrice: int, gasLimit: int)

  datatype StoredBlock = StoredBlock(header: Header, transactions: seq<StoredTx>)

  function HeaderOf(b: Block): Header {
    var p := b.preimage;
    Header(p.number, b.hash, p.parentHash, p.timestamp, p.proposer, p.stateRoot, p.transactionsRoot,
           p.receiptsRoot, |b.transactions|)
  }

  /** Each field of the header is the block's own. */
  ghost predicate HeaderReadsBack(h: Header, b: Block) {
    && Preimage(h.parentHash, h.stateRoot, h.transactionsRoot, h.receiptsRoot, h.number, h.timestamp, h.proposer)
      == b.preimage
    && h.hash == b.hash && h.transactionCount == |b.transactions|
  }

  lemma HeaderOfReadsBack(b: Block)
    ensures HeaderReadsBack(HeaderOf(b), b)
  {
  }

  function ParseNat(s: string): nat {
    if AllDigits(s, Dec) then Value(s, Dec) else 0
  }

  function ParseInt(s: string): int {
    if |s| > 0 && s[0] == '-' then 0 - ParseNat(s[1..]) else ParseNat(s)
  }

  lemma ParsePrinted(n: int)
    ensures ParseInt(PrintInt(n)) == n
    ensures n >= 0 ==> ParseNat(Print(n, Dec)) == n
  {
    ValueOfPrint(if n < 0 then -n else n, Dec);
    if n >= 0 {
      assert DigitValue(Print(n, Dec)[0]) < 10;
    } else {
      assert PrintInt(n)[1..] == Print(-n, Dec);
    }
  }

  function SerializeHeader(h: Header): Stored {
    Fields([Print(h.number, Dec), h.hash, h.parentHash, Print(h.timestamp, Dec), h.proposer,
            h.stateRoot, h.transactionsRoot, h.receiptsRoot, Print(h.transactionCount, Dec)])
  }

  function DeserializeHeader(v: Stored): Option<Header> {
    if !v.Fields? || |v.items| != 9 then None
    else
      var i := v.items;
      Some(Header(ParseNat(i[0]), i[1], i[2], ParseNat(i[3]), i[4], i[5], i[6], i[7], ParseNat(i[8])))
  }

  lemma HeaderRoundTrip(h: Header)
    ensures DeserializeHeader(SerializeHeader(h)) == Some(h)
  {
    ParsePrinted(h.number);
    ParsePrinted(h.timestamp);
    ParsePrinted(h.transactionCount);
  }

  /** Hexadecimal text is stored as bytes; from no bytes at all the prefix alone is read back. */
  function HexText(s: string): string {
    if s == "" then "0x" else s
  }

  /** What is read back of a transaction. */
  function Kept(tx: Tx): StoredTx {
    var p := tx.payload;
    var to := if p.to.Some? then p.to.value else "";
    StoredTx(tx.hash, tx.from, Some(HexText(to)), p.value, p.nonce, HexText(tx.signature.r), HexText(tx.signature.s),
             p.gasPrice, p.gasLimit)
  }

  /** Each field that is read back is the transaction's own, but for texts without any digits, which come
      back as the prefix alone. */
  ghost predicate TxReadsBack(t: StoredTx, tx: Tx) {
    && t.hash == tx.hash && t.from == tx.from
    && t.value == tx.payload.value && t.nonce == tx.payload.nonce
    && t.gasPrice == tx.payload.gasPrice && t.gasLimit == tx.payload.gasLimit
    && t.r == (if tx.signature.r == "" then "0x" else tx.signature.r)
    && t.s == (if tx.signature.s == "" then "0x" else tx.signature.s)
    && t.to == if tx.payload.to.None? || tx.payload.to == Some("") then Some("0x") else tx.payload.to
  }

  ghost predicate BodyReadsBack(ts: seq<StoredTx>, txs: seq<Tx>) {
    |ts| == |txs| && forall i | 0 <= i < |ts| :: TxReadsBack(ts[i], txs[i])
  }

  lemma KeptReadsBack(txs: seq<Tx>)
    ensures BodyReadsBack(KeptAll(txs), txs)
  {
  }

  /** The recipient is read back exactly if there is one: a stored deployment has gained one. */
  lemma RecipientKeptIff(tx: Tx)
    ensures Kept(tx).to == tx.payload.to <==> tx.payload.to.Some? && tx.payload.to.value != ""
    ensures tx.payload.to == None ==> Kept(tx).to == Some("0x")
  {
  }

  function SerializeTx(tx: Tx): seq<string> {
    var p := tx.payload;
    [tx.hash, tx.from, if p.to.Some? then p.to.value else "", PrintInt(p.value), PrintInt(p.nonce),
     tx.signature.r, tx.signature.s, PrintInt(p.gasPrice), PrintInt(p.gasLimit)]
  }

  function DeserializeTx(row: seq<string>): Option<StoredTx> {
    if |row| != 9 then None
    else Some(StoredTx(row[0], row[1], Some(HexText(row[2])), ParseInt(row[3]), ParseInt(row[4]),
                       HexText(row[5]), HexText(row[6]), ParseInt(row[7]), ParseInt(row[8])))
  }

  lemma TxRoundTrip(tx: Tx)
    ensures DeserializeTx(SerializeTx(tx)) == Some(Kept(tx))
  {
    ParsePrinted(tx.payload.value);
    ParsePrinted(tx.payload.nonce);
    ParsePrinted(tx.payload.gasPrice);
    ParsePrinted(tx.payload.gasLimit);
  }

  function SerializeBody(txs: seq<Tx>): Stored {
    Rows(seq(|txs|, i requires 0 <= i < |txs| => SerializeTx(txs[i])))
  }

  function DeserializeRows(rows: seq<seq<string>>): Option<seq<StoredTx>> {
    if |rows| == 0 then Some([])
    else
      match (DeserializeRows(rows[..|rows| - 1]), DeserializeTx(rows[|rows| - 1]))
      case (Some(init), Some(last)) => Some(init + [last])
      case _ => None
  }

  function DeserializeBody(v: Stored): Option<seq<StoredTx>> {
    if v.Rows? then DeserializeRows(v.rows) else None
  }

  function KeptAll(txs: seq<Tx>): seq<StoredTx> {
    seq(|txs|, i requires 0 <= i < |txs| => Kept(txs[i]))
  }

  lemma RowsSplit(txs: seq<Tx>)
    requires |txs| > 0
    ensures
      var init, last := txs[..|txs| - 1], txs[|txs| - 1];
      && SerializeBody(txs).rows == SerializeBody(init).rows + [SerializeTx(last)]
      && KeptAll(txs) == KeptAll(init) + [Kept(last)]
  {
    hide SerializeTx, Kept;
  }

  lemma RowsAppend(rows: seq<seq<string>>, row: seq<string>)
    requires DeserializeRows(rows).Some? && DeserializeTx(row).Some?
    ensures DeserializeRows(rows + [row]) == Some(DeserializeRows(rows).value + [DeserializeTx(row).value])
  {
    hide DeserializeTx;
    assert (rows + [row])[..|rows|] == rows;
  }

  lemma {:induction false} BodyRoundTrip(txs: seq<Tx>)
    ensures DeserializeBody(SerializeBody(txs)) == Some(KeptAll(txs))
  {
    hide SerializeTx, DeserializeTx, Kept;
    if |txs| > 0 {
      var init, last := txs[..|txs| - 1], txs[|txs| - 1];
      BodyRoundTrip(init);
      TxRoundTrip(last);
      RowsSplit(txs);
      RowsAppend(SerializeBody(init).rows, SerializeTx(last));
    } else {
      assert KeptAll(txs) == [] && SerializeBody(txs).rows == [];
    }
  }

  datatype Position = Position(blockHash: Hash, blockNumber: nat, txIndex: nat)

  function SerializePosition(p: Position): Stored {
    Fields([p.blockHash, Print(p.blockNumber, Dec), Print(p.txIndex, Dec)])
  }

  function DeserializePosition(v: Stored): Option<Position> {
    if !v.Fields? || |v.items| != 3 then None
    else Some(Position(v.items[0], ParseNat(v.items[1]), ParseNat(v.items[2])))
  }

  lemma PositionRoundTrip(p: Position)
    ensures DeserializePosition(SerializePosition(p)) == Some(p)
  {
    ParsePrinted(p.blockNumber);
    ParsePrinted(p.txIndex);
  }

  // ---------- The store under its abstract keys ----------

  type Entries = map<Key, Stored>

  /** The entries of a block itself. */
  function PutBlock(m: Entries, b: Block): Entries {
    var n := b.preimage.number;
    m[HeaderAt(n, b.hash) := SerializeHeader(HeaderOf(b))]
     [BodyAt(n, b.hash) := SerializeBody(b.transactions)]
     [Canonical(n) := Plain(b.hash)]
     [NumberOf(b.hash) := Plain(Print(n, Dec))]
     [LastBlock := Plain(b.hash)]
  }

  /** The lookup entries of its first n transactions, later ones overwriting. */
  function PutLookups(m: Entries, b: Block, n: nat): Entries
    requires n <= |b.transactions|
  {
    if n == 0 then m
    else PutLookups(m, b, n - 1)[TxLookup(b.transactions[n - 1].hash) :=
      SerializePosition(Position(b.hash, b.preimage.number, n - 1))]
  }

  /** The store that saving these blocks in this order leaves. */
  function Image(blocks: seq<Block>): Entries {
    if |blocks| == 0 then map[]
    else
      var b := blocks[|blocks| - 1];
      PutLookups(PutBlock(Image(blocks[..|blocks| - 1]), b), b, |b.transactions|)
  }

  /** Numbered from zero, with different hashes that carry the prefix. */
  ghost predicate Listed(blocks: seq<Block>) {
    && (forall k | 0 <= k < |blocks| :: blocks[k].preimage.number == k && Prefixed(blocks[k].hash))
    && (forall i, j | 0 <= i < j < |blocks| :: blocks[i].hash != blocks[j].hash)
  }

  lemma {:induction false} PutLookupsOther(m: Entries, b: Block, n: nat, k: Key)
    requires n <= |b.transactions| && !k.TxLookup?
    ensures k in PutLookups(m, b, n) <==> k in m
    ensures k in m ==> PutLookups(m, b, n)[k] == m[k]
  {
    if n > 0 {
      PutLookupsOther(m, b, n - 1, k);
    }
  }

  /** Saving one more block adds its entries, and leaves other blocks' entries alone. */
  lemma ImageStep(blocks: seq<Block>, k: Key)
    requires |blocks| > 0 && !k.TxLookup?
    ensures
      var m, saved := Image(blocks), PutBlock(Image(blocks[..|blocks| - 1]), blocks[|blocks| - 1]);
      (k in m <==> k in saved) && (k in m ==> m[k] == saved[k])
  {
    hide PutBlock, PutLookups;
    var b := blocks[|blocks| - 1];
    PutLookupsOther(PutBlock(Image(blocks[..|blocks| - 1]), b), b, |b.transactions|, k);
  }

  /** The block that was last saved with a hash. */
  function LastWithHash(blocks: seq<Block>, h: Hash): Option<Block> {
    if |blocks| == 0 then None
    else if blocks[|blocks| - 1].hash == h then Some(blocks[|blocks| - 1])
    else LastWithHash(blocks[..|blocks| - 1], h)
  }

  /** The block that was last saved with a number. */
  function LastWithNumber(blocks: seq<Block>, n: nat): Option<Block> {
    if |blocks| == 0 then None
    else if blocks[|blocks| - 1].preimage.number == n then Some(blocks[|blocks| - 1])
    else LastWithNumber(blocks[..|blocks| - 1], n)
  }

  /** A block number is stored exactly if a saved block has it, with the hash of the last one. */
  lemma {:induction false} ImageNumbers(blocks: seq<Block>, n: nat)
    ensures
      var m, b := Image(blocks), LastWithNumber(blocks, n);
      && (Canonical(n) in m <==> b.Some?)
      && (b.Some? ==> m[Canonical(n)] == Plain(b.value.hash))
  {
    hide SerializeHeader, SerializeBody, HeaderOf, Image;
    if |blocks| > 0 {
      ImageNumbers(blocks[..|blocks| - 1], n);
      ImageStep(blocks, Canonical(n));
    } else {
      EmptyImage();
    }
  }

  lemma EmptyImage()
    ensures Image([]) == map[]
  {
  }

  lemma ImageLatest(blocks: seq<Block>)
    ensures LastBlock in Image(blocks) <==> |blocks| > 0
    ensures |blocks| > 0 ==> Image(blocks)[LastBlock] == Plain(blocks[|blocks| - 1].hash)
  {
    hide SerializeHeader, SerializeBody, HeaderOf, Image;
    EmptyImage();
    if |blocks| > 0 {
      ImageStep(blocks, LastBlock);
    }
  }

  /** A hash is stored exactly if a saved block has it, with everything of the last one. */
  lemma {:induction false} ImageHashes(blocks: seq<Block>, h: Hash)
    ensures
      var m, last := Image(blocks), LastWithHash(blocks, h);
      && (NumberOf(h) in m <==> last.Some?)
      && (last.Some? ==>
        var b := last.value;
        var n := b.preimage.number;
        && b.hash == h && m[NumberOf(h)] == Plain(Print(n, Dec))
        && HeaderAt(n, h) in m && m[HeaderAt(n, h)] == SerializeHeader(HeaderOf(b))
        && BodyAt(n, h) in m && m[BodyAt(n, h)] == SerializeBody(b.transactions))
  {
    hide SerializeHeader, SerializeBody, HeaderOf, Image;
    EmptyImage();
    if |blocks| > 0 {
      ImageHashes(blocks[..|blocks| - 1], h);
      ImageStep(blocks, NumberOf(h));
      if LastWithHash(blocks, h).Some? {
        var n := LastWithHash(blocks, h).value.preimage.number;
        ImageStep(blocks, HeaderAt(n, h));
        ImageStep(blocks, BodyAt(n, h));
      }
    }
  }

  /** The k-th block has the hash, and no later one does. */
  ghost predicate LastAtHash(blocks: seq<Block>, h: Hash, k: nat) {
    k < |blocks| && blocks[k].hash == h && forall j | k < j < |blocks| :: blocks[j].hash != h
  }

  ghost predicate LastAtNumber(blocks: seq<Block>, n: nat, k: nat) {
    && k < |blocks| && blocks[k].preimage.number == n
    && forall j | k < j < |blocks| :: blocks[j].preimage.number != n
  }

  lemma {:induction false} LastHashMeans(blocks: seq<Block>, h: Hash)
    ensures LastWithHash(blocks, h).None? <==> forall k | 0 <= k < |blocks| :: blocks[k].hash != h
    ensures LastWithHash(blocks, h).Some? ==>
      exists k: nat :: LastAtHash(blocks, h, k) && blocks[k] == LastWithHash(blocks, h).value
  {
    if |blocks| > 0 {
      var init, last := blocks[..|blocks| - 1], |blocks| - 1;
      LastHashMeans(init, h);
      assert forall k | 0 <= k < last :: init[k] == blocks[k];
      if blocks[last].hash == h {
        assert LastAtHash(blocks, h, last);
      } else if LastWithHash(init, h).Some? {
        var k: nat :| LastAtHash(init, h, k) && init[k] == LastWithHash(init, h).value;
        assert LastAtHash(blocks, h, k);
      }
    }
  }

  lemma {:induction false} LastNumberMeans(blocks: seq<Block>, n: nat)
    ensures LastWithNumber(blocks, n).None? <==> forall k | 0 <= k < |blocks| :: blocks[k].preimage.number != n
    ensures LastWithNumber(blocks, n).Some? ==>
      exists k: nat :: LastAtNumber(blocks, n, k) && blocks[k] == LastWithNumber(blocks, n).value
  {
    if |blocks| > 0 {
      var init, last := blocks[..|blocks| - 1], |blocks| - 1;
      LastNumberMeans(init, n);
      assert forall k | 0 <= k < last :: init[k] == blocks[k];
      if blocks[last].preimage.number == n {
        assert LastAtNumber(blocks, n, last);
      } else if LastWithNumber(init, n).Some? {
        var k: nat :| LastAtNumber(init, n, k) && init[k] == LastWithNumber(init, n).value;
        assert LastAtNumber(blocks, n, k);
      }
    }
  }

  /** What is stored under a hash reads back as the block that was last saved with it, field by field. */
  lemma StoredReadsBack(blocks: seq<Block>, h: Hash, k: nat)
    requires LastAtHash(blocks, h, k)
    ensures
      var m, b := Image(blocks), blocks[k];
      var at, body := HeaderAt(b.preimage.number, h), BodyAt(b.preimage.number, h);
      && at in m && DeserializeHeader(m[at]).Some? && HeaderReadsBack(DeserializeHeader(m[at]).value, b)
      && body in m && DeserializeBody(m[body]).Some?
      && BodyReadsBack(DeserializeBody(m[body]).value, b.transactions)
  {
    hide Image, SerializeHeader, SerializeBody, DeserializeHeader, DeserializeBody, HeaderReadsBack, BodyReadsBack,
      HeaderOf, KeptAll;
    ImageHashes(blocks, h);
    LastHashMeans(blocks, h);
    HeaderRoundTrip(HeaderOf(blocks[k]));
    HeaderOfReadsBack(blocks[k]);
    BodyRoundTrip(blocks[k].transactions);
    KeptReadsBack(blocks[k].transactions);
  }

  /** In a list numbered from zero, with different hashes, each block is the last with its hash. */
  lemma {:induction false} ListedByHash(blocks: seq<Block>, k: nat)
    requires Listed(blocks) && k < |blocks|
    ensures LastWithHash(blocks, blocks[k].hash) == Some(blocks[k])
  {
    if k < |blocks| - 1 {
      ListedByHash(blocks[..|blocks| - 1], k);
    }
  }

  lemma {:induction false} ListedByNumber(blocks: seq<Block>, n: nat)
    requires Listed(blocks)
    ensures LastWithNumber(blocks, n) == if n < |blocks| then Some(blocks[n]) else None
  {
    if |blocks| > 0 {
      ListedByNumber(blocks[..|blocks| - 1], n);
    }
  }

  // ---------- The transaction index ----------

  /** The last position at which a block holds a transaction hash. */
  function LastIn(txs: seq<Tx>, h: Hash): Option<nat> {
    if |txs| == 0 then None
    else if txs[|txs| - 1].hash == h then Some(|txs| - 1)
    else LastIn(txs[..|txs| - 1], h)
  }

  /** The last position at which a list of blocks holds a transaction hash. */
  function LastPosition(blocks: seq<Block>, h: Hash): Option<Position> {
    if |blocks| == 0 then None
    else
      var b := blocks[|blocks| - 1];
      match LastIn(b.transactions, h)
      case Some(i) => Some(Position(b.hash, b.preimage.number, i))
      case None => LastPosition(blocks[..|blocks| - 1], h)
  }

  lemma {:induction false} PutLookupsLast(m: Entries, b: Block, n: nat, h: Hash)
    requires n <= |b.transactions|
    ensures
      var r, i := PutLookups(m, b, n), LastIn(b.transactions[..n], h);
      && (TxLookup(h) in r <==> i.Some? || TxLookup(h) in m)
      && (i.Some? ==> r[TxLookup(h)] == SerializePosition(Position(b.hash, b.preimage.number, i.value)))
      && (i.None? && TxLookup(h) in m ==> r[TxLookup(h)] == m[TxLookup(h)])
  {
    hide SerializePosition;
    if n > 0 {
      PutLookupsLast(m, b, n - 1, h);
      assert b.transactions[..n][..n - 1] == b.transactions[..n - 1];
    }
  }

  lemma PutBlockLookups(m: Entries, b: Block, h: Hash)
    ensures TxLookup(h) in PutBlock(m, b) <==> TxLookup(h) in m
    ensures TxLookup(h) in m ==> PutBlock(m, b)[TxLookup(h)] == m[TxLookup(h)]
  {
    hide SerializeHeader, SerializeBody, HeaderOf;
  }

  /** The index gives, for every hash, the last position of the list that holds it. */
  lemma {:induction false} IndexIsLastPosition(blocks: seq<Block>, h: Hash)
    ensures
      var m, p := Image(blocks), LastPosition(blocks, h);
      && (TxLookup(h) in m <==> p.Some?)
      && (p.Some? ==> m[TxLookup(h)] == SerializePosition(p.value))
  {
    hide PutBlock, PutLookups, LastIn, SerializePosition;
    if |blocks| > 0 {
      var init, b := blocks[..|blocks| - 1], blocks[|blocks| - 1];
      IndexIsLastPosition(init, h);
      PutBlockLookups(Image(init), b, h);
      PutLookupsLast(PutBlock(Image(init), b), b, |b.transactions|, h);
      assert b.transactions[..|b.transactions|] == b.transactions;
    }
  }

  lemma {:induction false} LastInMeaning(txs: seq<Tx>, h: Hash)
    ensures LastIn(txs, h).Some? <==> exists i :: 0 <= i < |txs| && txs[i].hash == h
    ensures LastIn(txs, h).Some? ==> LastIn(txs, h).value < |txs| && txs[LastIn(txs, h).value].hash == h
    ensures LastIn(txs, h).Some? ==> forall i | LastIn(txs, h).value < i < |txs| :: txs[i].hash != h
  {
    if |txs| > 0 {
      LastInMeaning(txs[..|txs| - 1], h);
    }
  }

  /** Sound and complete: an entry names a saved block and an index that holds that very hash,
      and every transaction of every saved block has an entry. */
  lemma {:induction false} IndexSoundComplete(blocks: seq<Block>, h: Hash)
    requires Listed(blocks)
    ensures LastPosition(blocks, h).Some? <==>
      exists k, i :: 0 <= k < |blocks| && 0 <= i < |blocks[k].transactions| && blocks[k].transactions[i].hash == h
    ensures LastPosition(blocks, h).Some? ==>
      var p := LastPosition(blocks, h).value;
      && p.blockNumber < |blocks| && blocks[p.blockNumber].hash == p.blockHash
      && p.txIndex < |blocks[p.blockNumber].transactions|
      && blocks[p.blockNumber].transactions[p.txIndex].hash == h
  {
    if |blocks| > 0 {
      var init, b := blocks[..|blocks| - 1], blocks[|blocks| - 1];
      IndexSoundComplete(init, h);
      LastInMeaning(b.transactions, h);
      if LastPosition(init, h).Some? {
        var k, i :| 0 <= k < |init| && 0 <= i < |init[k].transactions| && init[k].transactions[i].hash == h;
        assert blocks[k].transactions[i].hash == h;
      }
    }
  }

  /** The hash stands at one place and at no later one. */
  ghost predicate LastPlace(blocks: seq<Block>, h: Hash, k: nat, i: nat) {
    && k < |blocks| && i < |blocks[k].transactions| && blocks[k].transactions[i].hash == h
    && (forall j | i < j < |blocks[k].transactions| :: blocks[k].transactions[j].hash != h)
    && forall m | k < m < |blocks| :: Lacks(blocks[m].transactions, h)
  }

  ghost predicate Lacks(txs: seq<Tx>, h: Hash) {
    forall i | 0 <= i < |txs| :: txs[i].hash != h
  }

  /** Of several places the index names the last. */
  lemma {:induction false} IndexNamesLast(blocks: seq<Block>, h: Hash)
    requires Listed(blocks) && LastPosition(blocks, h).Some?
    ensures var p := LastPosition(blocks, h).value; LastPlace(blocks, h, p.blockNumber, p.txIndex)
  {
    var init, b := blocks[..|blocks| - 1], blocks[|blocks| - 1];
    LastInMeaning(b.transactions, h);
    if LastIn(b.transactions, h).None? {
      IndexNamesLast(init, h);
      assert Lacks(b.transactions, h);
      assert forall m | 0 <= m < |init| :: init[m] == blocks[m];
    }
  }

  // ---------- The string store holds the abstract one ----------

  ghost predicate Represents(db: map<string, Stored>, m: Entries) {
    forall k: Key | k.Good() :: (k.Text() in db <==> k in m) && (k in m ==> db[k.Text()] == m[k])
  }

  lemma PutRepresents(db: map<string, Stored>, m: Entries, k: Key, v: Stored)
    requires Represents(db, m) && k.Good()
    ensures Represents(db[k.Text() := v], m[k := v])
  {
    forall j: Key | j.Good()
      ensures (j.Text() in db[k.Text() := v] <==> j in m[k := v])
      ensures j in m[k := v] ==> db[k.Text() := v][j.Text()] == m[k := v][j]
    {
      if j.Text() == k.Text() {
        KeysDistinct(j, k);
      }
    }
  }
}
