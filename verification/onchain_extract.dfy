/**
 * The on-chain extractor: walk the most recent blocks from the chain head
 * downward, turn each fetched block into a record, skip the blocks whose
 * fetch or conversion fails, and save the records unless there are none.
 * The node is replaced by a function from block number to the block it
 * returns, `None` standing for a failed request.
 */
module OnchainExtract {
  import opened Wrappers
  import Seqs
  import UtcTime

  /** A transaction hash, as listed in a block fetched without full transactions. */
  type TxHash = nat

  /** The fields of a fetched block that the extractor reads. */
  datatype Block = Block(number: nat, timestamp: nat, transactions: seq<TxHash>, baseFeePerGas: Option<nat>)

  /** One output row: `block_number, timestamp, transaction_count, base_fee_per_gas_gwei`. */
  datatype BlockRecord = BlockRecord(
    blockNumber: nat,
    timestamp: UtcTime.DateTime,
    transactionCount: nat,
    baseFeePerGasGwei: real)

  const WeiPerGwei: int := 1_000_000_000

  /** Largest amount `from_wei` accepts, 2^256 - 1; a larger one makes it raise `ValueError`. */
  const MaxWei: int := 0xffff_ffff_ffff_ffff_ffff_ffff_ffff_ffff_ffff_ffff_ffff_ffff_ffff_ffff_ffff_ffff

  /** The block's base fee, if it has one, is within the range `from_wei` accepts. */
  predicate BaseFeeConvertible(b: Block) {
    b.baseFeePerGas.None? || b.baseFeePerGas.value <= MaxWei
  }

  /** The lowest block of the window: `latest - numBlocks + 1`, raised to 0 when negative. */
  function StartBlock(latest: nat, numBlocks: int): (start: nat)
    ensures start >= latest - numBlocks + 1
    ensures start == 0 || start == latest - numBlocks + 1
  {
    if latest - numBlocks + 1 < 0 then 0 else latest - numBlocks + 1
  }

  /** Python's `range(first, stop, -1)`. */
  function RangeDown(first: int, stop: int): (r: seq<int>)
    ensures |r| == if first > stop then first - stop else 0
    ensures forall i :: 0 <= i < |r| ==> r[i] == first - i
    decreases first - stop
  {
    if first <= stop then [] else [first] + RangeDown(first - 1, stop)
  }

  /**
   * The block numbers the extractor requests, in request order:
   * `range(latest, start - 1, -1)`. They are the numbers from `latest` down
   * to the start block, none negative, and there are `min(numBlocks, latest + 1)`
   * of them (none when `numBlocks <= 0`).
   */
  function Window(latest: nat, numBlocks: int): (w: seq<nat>)
    ensures |w| == if numBlocks <= 0 then 0 else if numBlocks < latest + 1 then numBlocks else latest + 1
    ensures forall i :: 0 <= i < |w| ==> w[i] == latest - i
    ensures forall i, j :: 0 <= i < j < |w| ==> w[i] > w[j]
    ensures |w| > 0 ==> w[0] == latest && w[|w| - 1] == StartBlock(latest, numBlocks)
    ensures forall n: nat :: n in w <==> StartBlock(latest, numBlocks) <= n <= latest
  {
    var start: int := StartBlock(latest, numBlocks);
    var r := RangeDown(latest, start - 1);
    var w := seq(|r|, i requires 0 <= i < |r| => r[i] as nat);
    forall n: nat | start <= n <= latest
      ensures n in w
    {
      assert w[latest - n] == n;
    }
    w
  }

  /** The base fee in gwei: the wei amount divided by 10^9, or 0 for a block without a base fee. */
  function GweiOf(baseFeePerGas: Option<nat>): (gwei: real)
    ensures baseFeePerGas.None? ==> gwei == 0.0
    ensures baseFeePerGas.Some? ==> gwei * WeiPerGwei as real == baseFeePerGas.value as real
    ensures gwei >= 0.0
  {
    match baseFeePerGas
    case None => 0.0
    case Some(wei) => wei as real / WeiPerGwei as real
  }

  /**
   * The record of one fetched block. `datetime.fromtimestamp` raises for a
   * timestamp after year 9999, and `from_wei` raises for a base fee above
   * 2^256 - 1; either exception skips the block like a failed fetch.
   */
  function ToRecord(b: Block): (r: Option<BlockRecord>)
    ensures r.Some? <==> b.timestamp <= UtcTime.MaxDatetimeSeconds && BaseFeeConvertible(b)
    ensures r.Some? ==> r.value.blockNumber == b.number
    ensures r.Some? ==> r.value.transactionCount == |b.transactions|
    ensures r.Some? ==> r.value.timestamp.Valid() && r.value.timestamp.UnixSeconds() == b.timestamp
    ensures r.Some? ==> r.value.baseFeePerGasGwei == GweiOf(b.baseFeePerGas)
  {
    if b.timestamp > UtcTime.MaxDatetimeSeconds then None
    else if !BaseFeeConvertible(b) then None
    else Some(BlockRecord(b.number, UtcTime.FromUnixSeconds(b.timestamp), |b.transactions|,
                          GweiOf(b.baseFeePerGas)))
  }

  /** One iteration of the loop body: fetch block `n` and convert it; `None` when any step raises. */
  function FetchRecord(getBlock: nat -> Option<Block>, n: nat): (r: Option<BlockRecord>)
    ensures r.Some? <==> getBlock(n).Some? && getBlock(n).value.timestamp <= UtcTime.MaxDatetimeSeconds &&
                         BaseFeeConvertible(getBlock(n).value)
    ensures r.Some? ==> Some(r.value) == ToRecord(getBlock(n).value)
  {
    match getBlock(n)
    case None => None
    case Some(b) => ToRecord(b)
  }

  /** The loop body as a function of the block number. */
  function Fetcher(getBlock: nat -> Option<Block>): (f: nat -> Option<BlockRecord>) {
    (n: nat) => FetchRecord(getBlock, n)
  }

  /** What the extractor should return: the records of the window's successful blocks, in request order. */
  function Extracted(getBlock: nat -> Option<Block>, latest: nat, numBlocks: int): seq<BlockRecord> {
    Seqs.FilterMap(Window(latest, numBlocks), Fetcher(getBlock))
  }

  /**
   * `extract_block_data`: request each block of the window from the head
   * downward, append the record of each one that succeeds and go on after
   * each one that fails.
   */
  method ExtractBlockData(getBlock: nat -> Option<Block>, latest: nat, numBlocks: int)
    returns (data: seq<BlockRecord>)
    ensures data == Extracted(getBlock, latest, numBlocks)
  {
    var start: int := StartBlock(latest, numBlocks);
    ghost var w := Window(latest, numBlocks);
    ghost var f := Fetcher(getBlock);
    data := [];
    var blockNum: int := latest;
    while blockNum > start - 1
      invariant blockNum <= latest
      invariant latest - blockNum <= |w|
      invariant blockNum < latest ==> blockNum >= start - 1
      invariant forall i :: 0 <= i < latest - blockNum ==> w[i] == latest - i
      invariant data == Seqs.FilterMap(w[..latest - blockNum], f)
    {
      var done := latest - blockNum;
      assert w[done] == blockNum;
      var record := FetchRecord(getBlock, blockNum);
      if record.Some? {
        data := data + [record.value];
      }
      assert w[..done + 1] == w[..done] + [w[done]];
      Seqs.FilterMapAppend(w[..done], [w[done]], f);
      blockNum := blockNum - 1;
    }
    assert w[..latest - blockNum] == w;
  }

  /**
   * The extractor returns at most one record per requested block, and one
   * for every requested block exactly when no fetch or conversion fails.
   */
  lemma ExtractedCount(getBlock: nat -> Option<Block>, latest: nat, numBlocks: int)
    ensures |Extracted(getBlock, latest, numBlocks)| <= |Window(latest, numBlocks)|
    ensures |Extracted(getBlock, latest, numBlocks)| == |Window(latest, numBlocks)| <==>
              forall n: nat :: StartBlock(latest, numBlocks) <= n <= latest ==> FetchRecord(getBlock, n).Some?
  {
    var w := Window(latest, numBlocks);
    var f := Fetcher(getBlock);
    Seqs.FilterMapKeepsAll(w, f);
    if forall i :: 0 <= i < |w| ==> f(w[i]).Some? {
      forall n: nat | StartBlock(latest, numBlocks) <= n <= latest
        ensures FetchRecord(getBlock, n).Some?
      {
        assert w[latest - n] == n;
      }
    }
  }

  /**
   * A record is extracted exactly when it is the record of some block of
   * the window whose fetch and conversion succeed: a failing block is
   * skipped without losing any other.
   */
  lemma ExtractedMember(getBlock: nat -> Option<Block>, latest: nat, numBlocks: int, rec: BlockRecord)
    ensures rec in Extracted(getBlock, latest, numBlocks) <==>
              exists n: nat :: StartBlock(latest, numBlocks) <= n <= latest && FetchRecord(getBlock, n) == Some(rec)
  {
    var w := Window(latest, numBlocks);
    var f := Fetcher(getBlock);
    Seqs.FilterMapMember(w, f, rec);
    if exists n: nat :: StartBlock(latest, numBlocks) <= n <= latest && FetchRecord(getBlock, n) == Some(rec) {
      var n: nat :| StartBlock(latest, numBlocks) <= n <= latest && FetchRecord(getBlock, n) == Some(rec);
      assert w[latest - n] == n;
      assert f(w[latest - n]) == Some(rec);
    }
  }

  /** The node answers each request with the block of that number, if at all. */
  ghost predicate Consistent(getBlock: nat -> Option<Block>) {
    forall n: nat :: getBlock(n).Some? ==> getBlock(n).value.number == n
  }

  /** From a consistent node the records come out in strictly descending block order. */
  lemma {:induction false} RecordsDescend(getBlock: nat -> Option<Block>, xs: seq<nat>)
    requires Consistent(getBlock)
    requires forall i, j :: 0 <= i < j < |xs| ==> xs[i] > xs[j]
    ensures var out := Seqs.FilterMap(xs, Fetcher(getBlock));
            forall k, l :: 0 <= k < l < |out| ==> out[k].blockNumber > out[l].blockNumber
  {
    var f := Fetcher(getBlock);
    if |xs| > 0 {
      var rest := Seqs.FilterMap(xs[1..], f);
      RecordsDescend(getBlock, xs[1..]);
      forall k | 0 <= k < |rest|
        ensures rest[k].blockNumber < xs[0]
      {
        Seqs.FilterMapMember(xs[1..], f, rest[k]);
        var i :| 0 <= i < |xs[1..]| && f(xs[1..][i]) == Some(rest[k]);
        assert rest[k].blockNumber == xs[i + 1];
      }
      if f(xs[0]).Some? {
        assert f(xs[0]).value.blockNumber == xs[0];
      }
    }
  }

  /** Extracted records of a consistent node carry strictly descending block numbers. */
  lemma ExtractedDescending(getBlock: nat -> Option<Block>, latest: nat, numBlocks: int)
    requires Consistent(getBlock)
    ensures var out := Extracted(getBlock, latest, numBlocks);
            forall k, l :: 0 <= k < l < |out| ==> out[k].blockNumber > out[l].blockNumber
  {
    var w := Window(latest, numBlocks);
    RecordsDescend(getBlock, w);
    assert Extracted(getBlock, latest, numBlocks) == Seqs.FilterMap(w, Fetcher(getBlock));
  }

  /** The output directory: file name to the records last written there. */
  type Files = map<string, seq<BlockRecord>>

  /** Whether a file was written, and the directory afterwards. */
  datatype SaveResult = SaveResult(written: bool, files: Files)

  /**
   * `save_to_csv` of the on-chain pipeline: nothing is written for an empty
   * record list; otherwise the named file is created or overwritten with the
   * records, and no other file changes.
   */
  function SaveToCsv(files: Files, data: seq<BlockRecord>, filename: string): (r: SaveResult)
    ensures r.written <==> |data| > 0
    ensures !r.written ==> r.files == files
    ensures r.written ==> filename in r.files && r.files[filename] == data
    ensures forall f :: f != filename ==> (f in r.files <==> f in files)
    ensures forall f :: f != filename && f in files ==> r.files[f] == files[f]
  {
    if |data| == 0 then SaveResult(false, files)
    else SaveResult(true, files[filename := data])
  }
}
