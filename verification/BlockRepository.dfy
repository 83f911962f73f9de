/** The block repository object: the string store and its lossy header cache answer every query
    as the list of saved blocks would. */
module BlockRepositories {
  import opened Types
  import opened Numerals
  import opened ChainStore

  /** A block as it is read back. */
  function Restored(b: Block): StoredBlock {
    StoredBlock(HeaderOf(b), KeptAll(b.transactions))
  }

  /** Each field of a block that is read back is the saved block's own. */
  ghost predicate ReadsBack(r: StoredBlock, b: Block) {
    HeaderReadsBack(r.header, b) && BodyReadsBack(r.transactions, b.transactions)
  }

  lemma RestoredReadsBack(b: Block)
    ensures ReadsBack(Restored(b), b)
  {
    HeaderOfReadsBack(b);
    KeptReadsBack(b.transactions);
  }

  /** The answer is the block that was last saved with the hash, or none if none was. */
  ghost predicate AnswersHash(blocks: seq<Block>, h: Hash, r: Option<StoredBlock>) {
    if r.None? then forall k | 0 <= k < |blocks| :: blocks[k].hash != h
    else exists k: nat :: LastAtHash(blocks, h, k) && ReadsBack(r.value, blocks[k])
  }

  /** The answer is the last block with the hash that the last block with the number has. */
  ghost predicate AnswersNumber(blocks: seq<Block>, n: nat, r: Option<StoredBlock>) {
    if r.None? then forall k | 0 <= k < |blocks| :: blocks[k].preimage.number != n
    else exists k: nat :: LastAtNumber(blocks, n, k) && AnswersHash(blocks, blocks[k].hash, r)
  }

  /** The answers are the blocks, one by one. */
  ghost predicate AllReadBack(rs: seq<StoredBlock>, blocks: seq<Block>) {
    |rs| == |blocks| && forall i | 0 <= i < |rs| :: ReadsBack(rs[i], blocks[i])
  }

  lemma HashAnswered(blocks: seq<Block>, h: Hash)
    ensures AnswersHash(blocks, h, ByHash(blocks, h))
  {
    LastHashMeans(blocks, h);
    hide ReadsBack, Restored;
    if k: nat :| LastAtHash(blocks, h, k) && LastWithHash(blocks, h) == Some(blocks[k]) {
      RestoredReadsBack(blocks[k]);
    }
  }

  lemma NumberAnswered(blocks: seq<Block>, n: nat)
    ensures AnswersNumber(blocks, n, ByNumber(blocks, n))
  {
    LastNumberMeans(blocks, n);
    hide AnswersHash, ByHash;
    if k: nat :| LastAtNumber(blocks, n, k) && LastWithNumber(blocks, n) == Some(blocks[k]) {
      HashAnswered(blocks, blocks[k].hash);
      HashFound(blocks, k);
    }
  }

  lemma HashFound(blocks: seq<Block>, k: nat)
    requires k < |blocks|
    ensures ByHash(blocks, blocks[k].hash).Some?
  {
    LastHashMeans(blocks, blocks[k].hash);
  }

  lemma AllRestoredReadBack(blocks: seq<Block>)
    ensures AllReadBack(AllRestored(blocks), blocks)
  {
    hide ReadsBack, Restored;
    forall i | 0 <= i < |blocks| ensures ReadsBack(AllRestored(blocks)[i], blocks[i]) {
      RestoredReadsBack(blocks[i]);
    }
  }

  function RestoredIf(b: Option<Block>): Option<StoredBlock> {
    if b.Some? then Some(Restored(b.value)) else None
  }

  /** The answer of the saved blocks to a query by hash. */
  function ByHash(blocks: seq<Block>, h: Hash): Option<StoredBlock> {
    RestoredIf(LastWithHash(blocks, h))
  }

  /** The answer to a query by number, which goes by the hash that the number last had. */
  function ByNumber(blocks: seq<Block>, n: nat): Option<StoredBlock> {
    match LastWithNumber(blocks, n)
    case None => None
    case Some(b) => ByHash(blocks, b.hash)
  }

  /** The answers to the queries for a range of numbers. */
  function ByRange(blocks: seq<Block>, from: nat, last: int): seq<StoredBlock>
    decreases last - from
  {
    if last < from then []
    else ByRange(blocks, from, last - 1) + if ByNumber(blocks, last).Some? then [ByNumber(blocks, last).value] else []
  }

  function AllRestored(blocks: seq<Block>): seq<StoredBlock> {
    seq(|blocks|, i requires 0 <= i < |blocks| => Restored(blocks[i]))
  }

  /** The blocks numbered from..last, as far as there are any. */
  function InRange(blocks: seq<Block>, from: nat, last: int): seq<Block> {
    var end := if last < |blocks| then last + 1 else |blocks|;
    if from < end then blocks[from..end] else []
  }

  /** In a list numbered from zero, with different hashes, the answers are those of the list. */
  lemma ListedAnswers(blocks: seq<Block>, n: nat)
    requires Listed(blocks)
    ensures ByNumber(blocks, n) == if n < |blocks| then Some(Restored(blocks[n])) else None
    ensures n < |blocks| ==> ByHash(blocks, blocks[n].hash) == Some(Restored(blocks[n]))
    ensures n < |blocks| ==> ReadsBack(Restored(blocks[n]), blocks[n])
  {
    hide Restored;
    ListedByNumber(blocks, n);
    if n < |blocks| {
      ListedByHash(blocks, n);
      RestoredReadsBack(blocks[n]);
      hide ReadsBack;
    }
  }

  lemma {:induction false} ListedRange(blocks: seq<Block>, from: nat, last: int)
    requires Listed(blocks)
    ensures ByRange(blocks, from, last) == AllRestored(InRange(blocks, from, last))
    decreases last - from
  {
    hide Restored, ByNumber, Listed, ReadsBack;
    if last >= from {
      hide InRange, AllRestored;
      ListedRange(blocks, from, last - 1);
      ListedAnswers(blocks, last);
      RangeMore(blocks, from, last);
    }
  }

  lemma RangeMore(blocks: seq<Block>, from: nat, last: int)
    requires last >= from
    ensures AllRestored(InRange(blocks, from, last))
      == AllRestored(InRange(blocks, from, last - 1)) + if last < |blocks| then [Restored(blocks[last])] else []
  {
    hide Restored;
    if last < |blocks| {
      assert InRange(blocks, from, last) == InRange(blocks, from, last - 1) + [blocks[last]];
    }
  }

  class BlockRepository {
    var db: map<string, Stored>
    var headerCache: map<Hash, Header>
    /** The blocks saved so far. */
    ghost var saved: seq<Block>

    ghost predicate Valid()
      reads this
    {
      && (forall k | 0 <= k < |saved| :: Prefixed(saved[k].hash))
      && Represents(db, Image(saved))
      && CacheAgrees(headerCache, saved)
    }

    constructor ()
      ensures Valid() && saved == []
    {
      db, headerCache, saved := map[], map[], [];
    }

    /** Entries may leave the header cache at any time. */
    method EvictHeaders(hashes: set<Hash>)
      requires Valid()
      modifies this`headerCache
      ensures Valid() && headerCache == old(headerCache) - hashes
    {
      hide Image, Represents;
      headerCache := headerCache - hashes;
    }

    /** Whatever number and hash it has, the block overwrites what was stored under them. */
    method Save(block: Block)
      requires Valid() && Prefixed(block.hash)
      modifies this
      ensures Valid() && saved == old(saved) + [block]
    {
      hide Image, Represents, CacheAgrees, SerializeHeader, SerializeBody, Key.Text;
      var n := block.preimage.number;
      var batch := db;
      batch := batch[HeaderAt(n, block.hash).Text() := SerializeHeader(HeaderOf(block))];
      batch := batch[BodyAt(n, block.hash).Text() := SerializeBody(block.transactions)];
      batch := batch[Canonical(n).Text() := Plain(block.hash)];
      batch := batch[NumberOf(block.hash).Text() := Plain(Print(n, Dec))];
      batch := batch[LastBlock.Text() := Plain(block.hash)];
      BlockPut(db, Image(saved), block);
      hide PutBlock;
      for i := 0 to |block.transactions|
        invariant Represents(batch, PutLookups(PutBlock(Image(saved), block), block, i))
        invariant saved == old(saved) && db == old(db) && headerCache == old(headerCache)
      {
        var key, value := TxLookup(block.transactions[i].hash), SerializePosition(Position(block.hash, n, i));
        PutRepresents(batch, PutLookups(PutBlock(Image(saved), block), block, i), key, value);
        batch := batch[key.Text() := value];
      }
      ImageAppend(saved, block);
      db := batch;
      CacheGrows(headerCache, saved, block);
      headerCache := headerCache[block.hash := HeaderOf(block)];
      saved := saved + [block];
    }

    method FindByHash(hash: Hash) returns (block: Option<StoredBlock>)
      requires Valid()
      modifies this`headerCache
      ensures Valid() && block == ByHash(saved, hash)
      ensures AnswersHash(saved, hash, block)
    {
      HashAnswered(saved, hash);
      hide Image, Represents, CacheAgrees, HeaderOf, KeptAll, LastWithHash, AnswersHash;
      ReadHash(db, saved, hash);
      var numberKey := NumberOf(hash).Text();
      if numberKey !in db {
        return None;
      }
      var number := ParseNat(db[numberKey].text);
      var header;
      if hash in headerCache {
        CacheHit(headerCache, saved, hash);
        header := headerCache[hash];
      } else {
        header := DeserializeHeader(db[HeaderAt(number, hash).Text()]).value;
        CacheFill(headerCache, saved, hash);
        headerCache := headerCache[hash := header];
      }
      var body := DeserializeBody(db[BodyAt(number, hash).Text()]).value;
      return Some(StoredBlock(header, body));
    }

    method FindByNumber(blockNumber: nat) returns (block: Option<StoredBlock>)
      requires Valid()
      modifies this`headerCache
      ensures Valid() && block == ByNumber(saved, blockNumber)
      ensures Listed(saved) ==> block == if blockNumber < |saved| then Some(Restored(saved[blockNumber])) else None
      ensures AnswersNumber(saved, blockNumber, block)
      ensures Listed(saved) && blockNumber < |saved| ==> ReadsBack(block.value, saved[blockNumber])
    {
      NumberAnswered(saved, blockNumber);
      hide Image, Represents, Listed, CacheAgrees, Restored, ByHash, AnswersNumber, AnswersHash, ReadsBack;
      ReadNumber(db, saved, blockNumber);
      if Listed(saved) {
        ListedAnswers(saved, blockNumber);
      }
      var key := Canonical(blockNumber).Text();
      if key !in db {
        return None;
      }
      block := FindByHash(db[key].text);
    }

    method FindLatest() returns (block: Option<StoredBlock>)
      requires Valid()
      modifies this`headerCache
      ensures Valid() && block == if saved == [] then None else Some(Restored(saved[|saved| - 1]))
      ensures saved != [] ==> ReadsBack(block.value, saved[|saved| - 1])
    {
      hide Image, Represents, CacheAgrees, Restored, ReadsBack, AnswersHash;
      if saved != [] {
        RestoredReadsBack(saved[|saved| - 1]);
      }
      ReadLatest(db, saved);
      var key := LastBlock.Text();
      if key !in db {
        return None;
      }
      block := FindByHash(db[key].text);
    }

    method FindByRange(from: nat, last: int) returns (blocks: seq<StoredBlock>)
      requires Valid()
      modifies this`headerCache
      ensures Valid() && blocks == ByRange(saved, from, last)
      ensures Listed(saved) ==> blocks == AllRestored(InRange(saved, from, last))
      ensures Listed(saved) ==> AllReadBack(blocks, InRange(saved, from, last))
    {
      AllRestoredReadBack(InRange(saved, from, last));
      hide AnswersNumber, AnswersHash, ReadsBack, AllReadBack;
      hide Image, Represents, Listed, CacheAgrees, Restored, ByNumber, InRange;
      blocks := [];
      if Listed(saved) {
        ListedRange(saved, from, last);
      }
      var i := from;
      while i <= last
        invariant Valid() && from <= i && (if from <= last then i <= last + 1 else i == from)
        invariant blocks == ByRange(saved, from, i - 1)
        decreases last - i
      {
        var block := FindByNumber(i);
        if block.Some? {
          blocks := blocks + [block.value];
        }
        i := i + 1;
      }
    }

    method Count() returns (n: nat)
      requires Valid()
      modifies this`headerCache
      ensures Valid() && n == if saved == [] then 0 else saved[|saved| - 1].preimage.number + 1
      ensures Listed(saved) ==> n == |saved|
    {
      hide Image, Represents, CacheAgrees, KeptAll;
      var latest := FindLatest();
      return if latest.Some? then latest.value.header.number + 1 else 0;
    }

    method FindAll() returns (blocks: seq<StoredBlock>)
      requires Valid()
      modifies this`headerCache
      ensures Valid() && (saved == [] ==> blocks == [])
      ensures saved != [] ==> blocks == ByRange(saved, 0, saved[|saved| - 1].preimage.number)
      ensures Listed(saved) ==> blocks == AllRestored(saved) && AllReadBack(blocks, saved)
    {
      AllRestoredReadBack(saved);
      hide AllReadBack;
      hide Image, Represents, CacheAgrees, Restored, ByRange;
      var count := Count();
      assert saved[0..|saved|] == saved;
      if count == 0 {
        return [];
      }
      blocks := FindByRange(0, count - 1);
    }

    method FindTxLookup(txHash: Hash) returns (position: Option<Position>)
      requires Valid()
      ensures position == LastPosition(saved, txHash)
    {
      hide Image, Represents, CacheAgrees, LastPosition;
      ReadPosition(db, saved, txHash);
      var key := TxLookup(txHash).Text();
      if key !in db {
        return None;
      }
      return DeserializePosition(db[key]);
    }
  }

  // ---------- Saving ----------

  lemma BlockPut(db: map<string, Stored>, m: Entries, b: Block)
    requires Represents(db, m) && Prefixed(b.hash)
    ensures
      var n := b.preimage.number;
      Represents(db[HeaderAt(n, b.hash).Text() := SerializeHeader(HeaderOf(b))]
                   [BodyAt(n, b.hash).Text() := SerializeBody(b.transactions)]
                   [Canonical(n).Text() := Plain(b.hash)]
                   [NumberOf(b.hash).Text() := Plain(Print(n, Dec))]
                   [LastBlock.Text() := Plain(b.hash)], PutBlock(m, b))
  {
    hide Represents, SerializeHeader, SerializeBody, HeaderOf, Key.Text, Print;
    var n := b.preimage.number;
    var header, body := SerializeHeader(HeaderOf(b)), SerializeBody(b.transactions);
    PutRepresents(db, m, HeaderAt(n, b.hash), header);
    var db1, m1 := db[HeaderAt(n, b.hash).Text() := header], m[HeaderAt(n, b.hash) := header];
    PutRepresents(db1, m1, BodyAt(n, b.hash), body);
    var db2, m2 := db1[BodyAt(n, b.hash).Text() := body], m1[BodyAt(n, b.hash) := body];
    PutRepresents(db2, m2, Canonical(n), Plain(b.hash));
    var db3, m3 := db2[Canonical(n).Text() := Plain(b.hash)], m2[Canonical(n) := Plain(b.hash)];
    PutRepresents(db3, m3, NumberOf(b.hash), Plain(Print(n, Dec)));
    var db4, m4 := db3[NumberOf(b.hash).Text() := Plain(Print(n, Dec))], m3[NumberOf(b.hash) := Plain(Print(n, Dec))];
    PutRepresents(db4, m4, LastBlock, Plain(b.hash));
  }

  lemma ImageAppend(saved: seq<Block>, b: Block)
    ensures Image(saved + [b]) == PutLookups(PutBlock(Image(saved), b), b, |b.transactions|)
  {
    hide PutBlock, PutLookups;
    assert (saved + [b])[..|saved|] == saved;
  }

  // ---------- Reading ----------

  ghost predicate CacheAgrees(cache: map<Hash, Header>, saved: seq<Block>) {
    forall h | h in cache && LastWithHash(saved, h).Some? :: cache[h] == HeaderOf(LastWithHash(saved, h).value)
  }

  lemma CacheHit(cache: map<Hash, Header>, saved: seq<Block>, h: Hash)
    requires CacheAgrees(cache, saved) && h in cache && LastWithHash(saved, h).Some?
    ensures cache[h] == HeaderOf(LastWithHash(saved, h).value)
  {
  }

  lemma CacheFill(cache: map<Hash, Header>, saved: seq<Block>, h: Hash)
    requires CacheAgrees(cache, saved) && LastWithHash(saved, h).Some?
    ensures CacheAgrees(cache[h := HeaderOf(LastWithHash(saved, h).value)], saved)
  {
    hide LastWithHash, HeaderOf;
  }

  lemma CacheGrows(cache: map<Hash, Header>, saved: seq<Block>, b: Block)
    requires CacheAgrees(cache, saved)
    ensures CacheAgrees(cache[b.hash := HeaderOf(b)], saved + [b])
  {
    hide HeaderOf;
    assert (saved + [b])[..|saved|] == saved;
  }

  /** What the store holds for a hash: nothing, if no saved block has it; or everything needed to
      read back the one that was last saved with it. */
  lemma ReadHash(db: map<string, Stored>, saved: seq<Block>, h: Hash)
    requires Represents(db, Image(saved)) && forall k | 0 <= k < |saved| :: Prefixed(saved[k].hash)
    ensures NumberOf(h).Text() in db <==> LastWithHash(saved, h).Some?
    ensures LastWithHash(saved, h).Some? ==>
      var b := LastWithHash(saved, h).value;
      var k := b.preimage.number;
      && db[NumberOf(h).Text()].Plain? && ParseNat(db[NumberOf(h).Text()].text) == k
      && HeaderAt(k, h).Text() in db && DeserializeHeader(db[HeaderAt(k, h).Text()]) == Some(HeaderOf(b))
      && BodyAt(k, h).Text() in db && DeserializeBody(db[BodyAt(k, h).Text()]) == Some(KeptAll(b.transactions))
  {
    hide Image, Key.Text, SerializeHeader, SerializeBody, DeserializeHeader, DeserializeBody, LastWithHash, ParseNat;
    ImageHashes(saved, h);
    if LastWithHash(saved, h).Some? {
      LastIsSaved(saved, h);
      var b := LastWithHash(saved, h).value;
      ParsePrinted(b.preimage.number);
      HeaderRoundTrip(HeaderOf(b));
      BodyRoundTrip(b.transactions);
    }
  }

  lemma {:induction false} LastIsSaved(blocks: seq<Block>, h: Hash)
    requires LastWithHash(blocks, h).Some?
    ensures exists k :: 0 <= k < |blocks| && blocks[k].hash == h
  {
    if blocks[|blocks| - 1].hash != h {
      LastIsSaved(blocks[..|blocks| - 1], h);
    }
  }

  lemma ReadNumber(db: map<string, Stored>, saved: seq<Block>, n: nat)
    requires Represents(db, Image(saved))
    ensures Canonical(n).Text() in db <==> LastWithNumber(saved, n).Some?
    ensures LastWithNumber(saved, n).Some? ==> db[Canonical(n).Text()] == Plain(LastWithNumber(saved, n).value.hash)
  {
    hide Image, Key.Text, LastWithNumber;
    ImageNumbers(saved, n);
  }

  lemma ReadLatest(db: map<string, Stored>, saved: seq<Block>)
    requires Represents(db, Image(saved))
    ensures LastBlock.Text() in db <==> |saved| > 0
    ensures |saved| > 0 ==> db[LastBlock.Text()] == Plain(saved[|saved| - 1].hash)
  {
    hide Image, Key.Text;
    ImageLatest(saved);
  }

  lemma ReadPosition(db: map<string, Stored>, saved: seq<Block>, h: Hash)
    requires Represents(db, Image(saved))
    ensures TxLookup(h).Text() in db <==> LastPosition(saved, h).Some?
    ensures LastPosition(saved, h).Some? ==> DeserializePosition(db[TxLookup(h).Text()]) == LastPosition(saved, h)
  {
    hide Image, Key.Text, LastPosition, SerializePosition, DeserializePosition;
    IndexIsLastPosition(saved, h);
    if LastPosition(saved, h).Some? {
      PositionRoundTrip(LastPosition(saved, h).value);
    }
  }
}
