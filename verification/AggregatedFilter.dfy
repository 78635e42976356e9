/**
 The aggregated bloom filter: per-block blooms rotated into the columns of a bit
 matrix, decoded in memory or read in place from its stored blob.

 Models core/aggregated_bloom_filter.go, core/aggregated_bloom_filter_view.go and
 the row operations of core/aggregated_bloom_filter_rows.go. The Go type
 `filterView[R]` is generic in its rows; here `Bitmap` has one constructor per
 instantiation.
 */
module AggregatedFilter {
  import opened Common
  import opened Words
  import opened Bloom
  import opened FilterCodec

  // ---------------------------------------------------------------- rows as bit vectors

  predicate RowBit(row: Row, j: nat)
    requires ValidRow(row) && j < NUM_BLOCKS
  {
    Bit(row[j / 64], j % 64)
  }

  function FillRow(w: Word): (row: Row)
    ensures ValidRow(row)
  {
    seq(WORDS_PER_ROW, _ => w)
  }

  function AndRows(a: Row, b: Row): (row: Row)
    requires ValidRow(a) && ValidRow(b)
    ensures ValidRow(row)
  {
    seq(WORDS_PER_ROW, w requires 0 <= w < WORDS_PER_ROW => And(a[w], b[w]))
  }

  function OrRows(a: Row, b: Row): (row: Row)
    requires ValidRow(a) && ValidRow(b)
    ensures ValidRow(row)
  {
    seq(WORDS_PER_ROW, w requires 0 <= w < WORDS_PER_ROW => OrWord(a[w], b[w]))
  }

  function RowWithBit(row: Row, j: nat, on: bool): (r: Row)
    requires ValidRow(row) && j < NUM_BLOCKS
    ensures ValidRow(r)
  {
    Pow2Of64(); WithBitBound(row[j / 64], j % 64, on, 64);
    row[j / 64 := WithBit(row[j / 64], j % 64, on)]
  }

  lemma FillRowBits()
    ensures forall j: nat :: j < NUM_BLOCKS ==> !RowBit(FillRow(0), j)
    ensures forall j: nat :: j < NUM_BLOCKS ==> RowBit(FillRow(MAX_WORD), j)
  {
    forall j: nat | j < NUM_BLOCKS ensures !RowBit(FillRow(0), j) && RowBit(FillRow(MAX_WORD), j) {
      BitZero(j % 64);
      Pow2Of64();
      BitAllOnes(64, j % 64);
    }
  }

  lemma AndRowsBits(a: Row, b: Row)
    requires ValidRow(a) && ValidRow(b)
    ensures forall j: nat :: j < NUM_BLOCKS ==> (RowBit(AndRows(a, b), j) <==> RowBit(a, j) && RowBit(b, j))
  {
    forall j: nat | j < NUM_BLOCKS ensures RowBit(AndRows(a, b), j) <==> RowBit(a, j) && RowBit(b, j) {
      BitAnd(a[j / 64], b[j / 64], j % 64);
    }
  }

  lemma OrRowsBits(a: Row, b: Row)
    requires ValidRow(a) && ValidRow(b)
    ensures forall j: nat :: j < NUM_BLOCKS ==> (RowBit(OrRows(a, b), j) <==> RowBit(a, j) || RowBit(b, j))
  {
    forall j: nat | j < NUM_BLOCKS ensures RowBit(OrRows(a, b), j) <==> RowBit(a, j) || RowBit(b, j) {
      BitOr(a[j / 64], b[j / 64], j % 64);
    }
  }

  lemma RowWithBitBits(row: Row, i: nat, on: bool)
    requires ValidRow(row) && i < NUM_BLOCKS
    ensures forall j: nat :: j < NUM_BLOCKS ==>
              (RowBit(RowWithBit(row, i, on), j) <==> if j == i then on else RowBit(row, j))
  {
    forall j: nat | j < NUM_BLOCKS
      ensures RowBit(RowWithBit(row, i, on), j) <==> if j == i then on else RowBit(row, j)
    {
      if j / 64 == i / 64 {
        BitWithBit(row[i / 64], i % 64, on, j % 64);
      }
    }
  }

  // ---------------------------------------------------------------- bitset of candidate blocks

  /** The part of the `bitset` package that event queries use. */
  class BitSet {
    const len: nat
    var words: Row

    constructor (len: nat)
      ensures Valid() && this.len == len
      ensures len == NUM_BLOCKS ==> forall j: nat :: j < NUM_BLOCKS ==> !Test(j)
    {
      this.len := len;
      this.words := if len == NUM_BLOCKS then FillRow(0) else [];
      new;
      FillRowBits();
    }

    ghost predicate Valid()
      reads this
    {
      len == NUM_BLOCKS ==> ValidRow(words)
    }

    predicate Test(j: nat)
      requires Valid() && len == NUM_BLOCKS && j < NUM_BLOCKS
      reads this
    {
      RowBit(words, j)
    }

    method SetAll()
      requires Valid() && len == NUM_BLOCKS
      modifies this
      ensures Valid() && forall j: nat :: j < NUM_BLOCKS ==> Test(j)
    {
      words := FillRow(MAX_WORD);
      FillRowBits();
    }

    method ClearAll()
      requires Valid() && len == NUM_BLOCKS
      modifies this
      ensures Valid() && forall j: nat :: j < NUM_BLOCKS ==> !Test(j)
    {
      words := FillRow(0);
      FillRowBits();
    }

    method InPlaceUnion(other: Row)
      requires Valid() && len == NUM_BLOCKS && ValidRow(other)
      modifies this
      ensures Valid()
      ensures forall j: nat :: j < NUM_BLOCKS ==> (Test(j) <==> old(Test(j)) || RowBit(other, j))
    {
      OrRowsBits(words, other);
      words := OrRows(words, other);
    }

    method InPlaceIntersection(other: Row)
      requires Valid() && len == NUM_BLOCKS && ValidRow(other)
      modifies this
      ensures Valid()
      ensures forall j: nat :: j < NUM_BLOCKS ==> (Test(j) <==> old(Test(j)) && RowBit(other, j))
    {
      AndRowsBits(words, other);
      words := AndRows(words, other);
    }

    method None() returns (r: bool)
      requires Valid() && len == NUM_BLOCKS
      ensures r <==> forall j: nat :: j < NUM_BLOCKS ==> !Test(j)
    {
      var found, _ := NextSet(0);
      r := !found;
    }

    /** The first set bit at or after `start`. */
    method NextSet(start: nat) returns (found: bool, index: nat)
      requires Valid() && len == NUM_BLOCKS
      ensures found ==> start <= index < NUM_BLOCKS && Test(index)
      ensures found ==> forall j: nat :: start <= j < index ==> !Test(j)
      ensures !found ==> forall j: nat :: start <= j < NUM_BLOCKS ==> !Test(j)
    {
      index := start;
      while index < NUM_BLOCKS && !Test(index)
        invariant start <= index
        invariant forall j: nat :: start <= j < index && j < NUM_BLOCKS ==> !Test(j)
        decreases NUM_BLOCKS - index
      {
        index := index + 1;
      }
      found := index < NUM_BLOCKS;
    }
  }

  // ---------------------------------------------------------------- bitmaps

  datatype Bitmap = MemRows(rows: seq<Row>) | BlobRows(data: seq<Byte>)

  ghost predicate ValidBitmap(b: Bitmap) {
    match b
    case MemRows(rows) => ValidRows(rows)
    case BlobRows(data) => |data| == BLOB_SIZE
  }

  /** Row `i`: held in memory, or decoded in place with its length prefixes checked. */
  ghost function RowAt(b: Bitmap, i: nat): (r: Result<Row>)
    requires ValidBitmap(b) && i < BLOOM_LENGTH
    ensures r.Ok? ==> ValidRow(r.value)
  {
    match b
    case MemRows(rows) => Ok(rows[i])
    case BlobRows(data) => DecodeRow(data, i)
  }

  /** The bit of bloom row `i` for the `j`-th block of the window. */
  ghost predicate Cell(b: Bitmap, i: nat, j: nat)
    requires ValidBitmap(b) && i < BLOOM_LENGTH && j < NUM_BLOCKS
  {
    RowAt(b, i).Ok? && RowBit(RowAt(b, i).value, j)
  }

  /** Column `j` is the block's bloom filter. */
  ghost predicate ColumnIs(b: Bitmap, j: nat, bloom: BloomFilter)
    requires ValidBitmap(b) && j < NUM_BLOCKS
  {
    |bloom| == BLOOM_LENGTH && forall i: nat :: i < BLOOM_LENGTH ==> (Cell(b, i, j) <==> bloom[i])
  }

  ghost predicate RowsReadable(b: Bitmap, indices: seq<nat>)
    requires ValidBitmap(b) && forall k :: 0 <= k < |indices| ==> indices[k] < BLOOM_LENGTH
  {
    forall k :: 0 <= k < |indices| ==> RowAt(b, indices[k]).Ok?
  }

  ghost predicate AllReadable(b: Bitmap, h: Locations, keys: seq<BloomKey>)
    requires ValidBitmap(b)
  {
    forall k :: 0 <= k < |keys| ==> RowsReadable(b, Indices(h, keys[k]))
  }

  ghost predicate FullyReadable(b: Bitmap)
    requires ValidBitmap(b)
  {
    forall i: nat :: i < BLOOM_LENGTH ==> RowAt(b, i).Ok?
  }

  ghost predicate RowsHit(b: Bitmap, indices: seq<nat>, j: nat)
    requires ValidBitmap(b) && j < NUM_BLOCKS
    requires forall k :: 0 <= k < |indices| ==> indices[k] < BLOOM_LENGTH
  {
    forall k :: 0 <= k < |indices| ==> Cell(b, indices[k], j)
  }

  /** Block `j` may contain one of the keys; no keys means every block. */
  ghost predicate KeysHit(b: Bitmap, h: Locations, keys: seq<BloomKey>, j: nat)
    requires ValidBitmap(b) && j < NUM_BLOCKS
  {
    keys == [] || exists k :: 0 <= k < |keys| && RowsHit(b, Indices(h, keys[k]), j)
  }

  lemma MemReadable(b: Bitmap)
    requires ValidBitmap(b) && b.MemRows?
    ensures FullyReadable(b)
  {
  }

  /** The rows with a bloom added to one column. */
  function InsertedRows(rows: seq<Row>, j: nat, bloom: BloomFilter): (r: seq<Row>)
    requires ValidRows(rows) && j < NUM_BLOCKS && |bloom| == BLOOM_LENGTH
    ensures |r| == BLOOM_LENGTH
  {
    seq(BLOOM_LENGTH, i requires 0 <= i < BLOOM_LENGTH => if bloom[i] then RowWithBit(rows[i], j, true) else rows[i])
  }

  lemma InsertedCells(rows: seq<Row>, column: nat, bloom: BloomFilter, i: nat, j: nat)
    requires ValidRows(rows) && column < NUM_BLOCKS && |bloom| == BLOOM_LENGTH && i < BLOOM_LENGTH && j < NUM_BLOCKS
    ensures ValidRows(InsertedRows(rows, column, bloom))
    ensures Cell(MemRows(InsertedRows(rows, column, bloom)), i, j) <==> Cell(MemRows(rows), i, j) || (j == column && bloom[i])
  {
    hide RowBit, RowWithBit;
    RowWithBitBits(rows[i], column, true);
  }

  /** A column that is a block's bloom answers a key exactly as the bloom itself does. */
  lemma ColumnAnswersLikeBloom(b: Bitmap, h: Locations, key: BloomKey, j: nat, bloom: BloomFilter)
    requires ValidBitmap(b) && j < NUM_BLOCKS && ColumnIs(b, j, bloom)
    ensures RowsHit(b, Indices(h, key), j) <==> BloomTest(h, bloom, key)
  {
    var indices := Indices(h, key);
    forall k | 0 <= k < |indices| ensures Cell(b, indices[k], j) <==> bloom[indices[k]] {
    }
  }

  /** Two bitmaps with the same rows, whatever their representation. */
  ghost predicate SameRows(a: Bitmap, b: Bitmap) {
    ValidBitmap(a) && ValidBitmap(b) && forall i: nat :: i < BLOOM_LENGTH ==> RowAt(a, i) == RowAt(b, i)
  }

  lemma BitInRow(row: Row, j: nat)
    requires ValidRow(row) && j < NUM_BLOCKS
    ensures |EncodeRow(row)| == ROW_SIZE
    ensures Bit(EncodeRow(row)[12 + 8 * (j / 64) + 7 - j % 64 / 8], j % 8) <==> RowBit(row, j)
  {
    hide EncodeRow, DecodeWords, GetBE, Bit;
    EncodeRowParts(row);
    var words, w := EncodeRow(row)[12..], j / 64;
    var word := words[w * 8..w * 8 + 8];
    assert row[w] == DecodeWords(words)[w] == GetBE(word);
    BitOfBytes(word, j % 64);
    assert j % 64 % 8 == j % 8;
  }

  /** Bit `j` of row `i` of a window is this bit of this byte of its blob. */
  lemma BitInBlob(fromBlock: nat, toBlock: nat, rows: seq<Row>, i: nat, j: nat)
    requires ValidRows(rows) && i < BLOOM_LENGTH && j < NUM_BLOCKS
    ensures |Encode(fromBlock, toBlock, rows)| == 20 + 8192 * 1036
    ensures Bit(Encode(fromBlock, toBlock, rows)[20 + i * 1036 + (12 + 8 * (j / 64) + 7 - j % 64 / 8)], j % 8) <==> RowBit(rows[i], j)
  {
    hide Encode, EncodeRow, RowBit, Bit;
    EncodeParts(fromBlock, toBlock, rows, i);
    BitInRow(rows[i], j);
    var k := 12 + 8 * (j / 64) + 7 - j % 64 / 8;
    assert 0 <= k < ROW_SIZE;
    var o := 20 + i * 1036;
    assert Encode(fromBlock, toBlock, rows)[o + k] == Encode(fromBlock, toBlock, rows)[o..o + ROW_SIZE][k];
  }

  /** A marshalled filter holds the rows of the filter. */
  lemma MarshalledRows(fromBlock: nat, toBlock: nat, rows: seq<Row>)
    requires ValidRows(rows)
    ensures SameRows(MemRows(rows), BlobRows(Encode(fromBlock, toBlock, rows)))
  {
    EncodeParts(fromBlock, toBlock, rows, 0);
    forall i: nat | i < BLOOM_LENGTH
      ensures RowAt(BlobRows(Encode(fromBlock, toBlock, rows)), i) == RowAt(MemRows(rows), i)
    {
      DecodeRowOfEncode(fromBlock, toBlock, rows, i);
    }
  }

  /** Reading the stored blob in place answers every query as the decoded matrix does. */
  lemma LazyViewRefinesMatrix(fromBlock: nat, toBlock: nat, rows: seq<Row>, h: Locations, keys: seq<BloomKey>)
    requires ValidRows(rows)
    ensures var blob := BlobRows(Encode(fromBlock, toBlock, rows));
            && ValidBitmap(blob)
            && AllReadable(blob, h, keys)
            && (forall j: nat :: j < NUM_BLOCKS ==> (KeysHit(blob, h, keys, j) <==> KeysHit(MemRows(rows), h, keys, j)))
  {
    var blob := BlobRows(Encode(fromBlock, toBlock, rows));
    MarshalledRows(fromBlock, toBlock, rows);
    forall j: nat, k | j < NUM_BLOCKS && 0 <= k < |keys|
      ensures RowsHit(blob, Indices(h, keys[k]), j) <==> RowsHit(MemRows(rows), Indices(h, keys[k]), j)
    {
      var indices := Indices(h, keys[k]);
      forall n | 0 <= n < |indices| ensures Cell(blob, indices[n], j) <==> Cell(MemRows(rows), indices[n], j) {
      }
    }
  }

  method IntersectMemRows(rows: seq<Row>, indices: seq<nat>, matchWords: array<Word>)
    requires ValidRows(rows) && matchWords.Length == WORDS_PER_ROW
    requires forall k :: 0 <= k < |indices| ==> indices[k] < BLOOM_LENGTH
    modifies matchWords
    ensures forall j: nat :: j < NUM_BLOCKS ==>
              (RowBit(matchWords[..], j) <==> old(RowBit(matchWords[..], j)) && RowsHit(MemRows(rows), indices, j))
  {
    ghost var init := matchWords[..];
    for n := 0 to |indices|
      invariant forall j: nat :: j < NUM_BLOCKS ==>
                  (RowBit(matchWords[..], j) <==> RowBit(init, j) && RowsHit(MemRows(rows), indices[..n], j))
    {
      var row := rows[indices[n]];
      ghost var before := matchWords[..];
      for w := 0 to WORDS_PER_ROW
        invariant forall v :: 0 <= v < w ==> matchWords[v] == And(before[v], row[v])
        invariant forall v :: w <= v < WORDS_PER_ROW ==> matchWords[v] == before[v]
      {
        matchWords[w] := And(matchWords[w], row[w]);
      }
      RowConjoined(MemRows(rows), indices, n, init, before, matchWords[..]);
    }
    assert indices[..|indices|] == indices;
  }

  method IntersectBlobRows(data: seq<Byte>, indices: seq<nat>, matchWords: array<Word>)
    returns (err: Option<Error>)
    requires |data| == BLOB_SIZE && matchWords.Length == WORDS_PER_ROW
    requires forall k :: 0 <= k < |indices| ==> indices[k] < BLOOM_LENGTH
    modifies matchWords
    ensures err.None? <==> RowsReadable(BlobRows(data), indices)
    ensures err.None? ==> forall j: nat :: j < NUM_BLOCKS ==>
              (RowBit(matchWords[..], j) <==> old(RowBit(matchWords[..], j)) && RowsHit(BlobRows(data), indices, j))
  {
    ghost var init := matchWords[..];
    for n := 0 to |indices|
      invariant RowsReadable(BlobRows(data), indices[..n])
      invariant forall j: nat :: j < NUM_BLOCKS ==>
                  (RowBit(matchWords[..], j) <==> RowBit(init, j) && RowsHit(BlobRows(data), indices[..n], j))
    {
      var wordBytes := RowWordBytes(data, indices[n]);
      if wordBytes.Err? {
        assert !RowAt(BlobRows(data), indices[n]).Ok?;
        return Some(wordBytes.error);
      }
      ghost var row := DecodeWords(wordBytes.value);
      ghost var before := matchWords[..];
      for w := 0 to WORDS_PER_ROW
        invariant forall v :: 0 <= v < w ==> matchWords[v] == And(before[v], row[v])
        invariant forall v :: w <= v < WORDS_PER_ROW ==> matchWords[v] == before[v]
      {
        matchWords[w] := And(matchWords[w], WordAt(wordBytes.value, w));
      }
      RowConjoined(BlobRows(data), indices, n, init, before, matchWords[..]);
      assert indices[..n + 1] == indices[..n] + [indices[n]];
    }
    assert indices[..|indices|] == indices;
    err := None;
  }

  /** One round of either row intersection, seen bit by bit. */
  lemma RowConjoined(b: Bitmap, indices: seq<nat>, n: nat, init: Row, before: Row, after: Row)
    requires ValidBitmap(b) && n < |indices|
    requires forall k :: 0 <= k < |indices| ==> indices[k] < BLOOM_LENGTH
    requires ValidRow(init) && ValidRow(before) && ValidRow(after) && RowAt(b, indices[n]).Ok?
    requires forall w :: 0 <= w < WORDS_PER_ROW ==> after[w] == And(before[w], RowAt(b, indices[n]).value[w])
    requires forall j: nat :: j < NUM_BLOCKS ==>
               (RowBit(before, j) <==> RowBit(init, j) && RowsHit(b, indices[..n], j))
    ensures forall j: nat :: j < NUM_BLOCKS ==>
              (RowBit(after, j) <==> RowBit(init, j) && RowsHit(b, indices[..n + 1], j))
  {
    var row := RowAt(b, indices[n]).value;
    assert after == AndRows(before, row);
    AndRowsBits(before, row);
    assert indices[..n + 1] == indices[..n] + [indices[n]];
    forall j: nat | j < NUM_BLOCKS
      ensures RowsHit(b, indices[..n + 1], j) <==> RowsHit(b, indices[..n], j) && RowBit(row, j)
    {
      if RowsHit(b, indices[..n + 1], j) {
        assert Cell(b, indices[..n + 1][n], j);
        forall k | 0 <= k < n ensures Cell(b, indices[..n][k], j) {
          assert Cell(b, indices[..n + 1][k], j);
        }
      }
    }
  }

  // ---------------------------------------------------------------- the filter

  class FilterView {
    var bitmap: Bitmap
    var fromBlock: nat
    var toBlock: nat

    ghost predicate Valid()
      reads this
    {
      ValidBitmap(bitmap) && toBlock == fromBlock + MAX_BLOCK_OFFSET
    }

    /** A decoded filter, as opposed to a view of a blob. */
    ghost predicate InMemory()
      reads this
    {
      Valid() && bitmap.MemRows?
    }

    /** NewAggregatedFilter: an empty window starting at `fromBlock`. */
    constructor New(fromBlock: nat)
      ensures InMemory() && this.fromBlock == fromBlock
      ensures forall i: nat, j: nat :: i < BLOOM_LENGTH && j < NUM_BLOCKS ==> !Cell(bitmap, i, j)
    {
      bitmap := MemRows(seq(BLOOM_LENGTH, _ => FillRow(0)));
      this.fromBlock := fromBlock;
      toBlock := fromBlock + MAX_BLOCK_OFFSET;
      new;
      FillRowBits();
    }

    constructor FromValue(bitmap: Bitmap, fromBlock: nat)
      requires ValidBitmap(bitmap)
      ensures Valid() && this.bitmap == bitmap && this.fromBlock == fromBlock
    {
      this.bitmap := bitmap;
      this.fromBlock := fromBlock;
      toBlock := fromBlock + MAX_BLOCK_OFFSET;
    }

    /** Adds a block's bloom to its column, leaving every other column alone. */
    method Insert(filter: Option<BloomFilter>, blockNumber: nat) returns (err: Option<Error>)
      requires InMemory()
      modifies this`bitmap
      ensures InMemory()
      ensures err == if blockNumber < fromBlock || toBlock < blockNumber then Some(BlockOutOfRange)
                     else if filter.Some? && |filter.value| != BLOOM_LENGTH then Some(BloomSizeMismatch)
                     else None
      ensures err.Some? || filter.None? ==> bitmap == old(bitmap)
      ensures err.None? && filter.Some? ==>
                forall i: nat, j: nat :: i < BLOOM_LENGTH && j < NUM_BLOCKS ==>
                  (Cell(bitmap, i, j) <==> old(Cell(bitmap, i, j)) || (j == blockNumber - fromBlock && filter.value[i]))
      ensures err.None? && filter.Some? ==>
                bitmap == MemRows(InsertedRows(old(bitmap.rows), blockNumber - fromBlock, filter.value))
    {
      if fromBlock > blockNumber || toBlock < blockNumber {
        return Some(BlockOutOfRange);
      }
      if filter.None? {
        return None;
      }
      var bits := filter.value;
      if |bits| != BLOOM_LENGTH {
        return Some(BloomSizeMismatch);
      }
      hide Cell, RowBit;
      var rel := blockNumber - fromBlock;
      ghost var before := bitmap;
      var index := 0;
      while index < BLOOM_LENGTH
        invariant 0 <= index <= BLOOM_LENGTH && InMemory()
        invariant forall i :: 0 <= i < BLOOM_LENGTH ==>
                    bitmap.rows[i] == if i < index then InsertedRows(before.rows, rel, bits)[i] else before.rows[i]
      {
        if bits[index] {
          bitmap := MemRows(bitmap.rows[index := RowWithBit(bitmap.rows[index], rel, true)]);
        }
        index := index + 1;
      }
      assert bitmap == MemRows(InsertedRows(before.rows, rel, bits));
      forall i: nat, j: nat | i < BLOOM_LENGTH && j < NUM_BLOCKS
        ensures Cell(bitmap, i, j) <==> Cell(before, i, j) || (j == rel && bits[i])
      {
        InsertedCells(before.rows, rel, bits, i, j);
      }
      err := None;
    }

    /** Clears a block's column, leaving every other column alone. */
    method Clear(blockNumber: nat) returns (err: Option<Error>)
      requires InMemory()
      modifies this`bitmap
      ensures InMemory()
      ensures err == if blockNumber < fromBlock || toBlock < blockNumber then Some(BlockOutOfRange) else None
      ensures err.Some? ==> bitmap == old(bitmap)
      ensures err.None? ==>
                forall i: nat, j: nat :: i < BLOOM_LENGTH && j < NUM_BLOCKS ==>
                  (Cell(bitmap, i, j) <==> old(Cell(bitmap, i, j)) && j != blockNumber - fromBlock)
    {
      if fromBlock > blockNumber || toBlock < blockNumber {
        return Some(BlockOutOfRange);
      }
      var rel := blockNumber - fromBlock;
      ghost var before := bitmap;
      for index := 0 to BLOOM_LENGTH
        invariant InMemory()
        invariant forall i: nat, j: nat :: i < BLOOM_LENGTH && j < NUM_BLOCKS ==>
                    (Cell(bitmap, i, j) <==> Cell(before, i, j) && (j != rel || i >= index))
      {
        RowWithBitBits(bitmap.rows[index], rel, false);
        bitmap := MemRows(bitmap.rows[index := RowWithBit(bitmap.rows[index], rel, false)]);
      }
      err := None;
    }

    /** The candidate blocks for a list of keys; an in-place view fails only on a corrupt row it reads. */
    method BlocksForKeysInto(h: Locations, keys: seq<BloomKey>, out: BitSet?) returns (err: Option<Error>)
      requires Valid() && (out != null ==> out.Valid())
      modifies out
      ensures out != null ==> out.Valid()
      ensures out == null ==> err == Some(BufferNil)
      ensures out != null && out.len != NUM_BLOCKS ==> err == Some(BufferSizeMismatch)
      ensures out != null && out.len == NUM_BLOCKS ==>
                (err.None? <==> AllReadable(bitmap, h, keys))
      ensures err.None? ==> out != null && out.len == NUM_BLOCKS
      ensures err.None? ==> forall j: nat :: j < NUM_BLOCKS ==> (out.Test(j) <==> KeysHit(bitmap, h, keys, j))
    {
      if out == null {
        return Some(BufferNil);
      }
      if out.len != NUM_BLOCKS {
        return Some(BufferSizeMismatch);
      }
      if |keys| == 0 {
        out.SetAll();
        return None;
      }
      hide RowsHit, RowsReadable, RowBit;
      out.ClearAll();
      var innerWords := new Word[WORDS_PER_ROW];
      for n := 0 to |keys|
        invariant out.Valid() && out.len == NUM_BLOCKS
        invariant AllReadable(bitmap, h, keys[..n])
        invariant forall j: nat :: j < NUM_BLOCKS ==>
                    (out.Test(j) <==> exists k :: 0 <= k < n && RowsHit(bitmap, Indices(h, keys[k]), j))
      {
        err := MatchKey(h, keys[n], innerWords);
        if err.Some? {
          return;
        }
        out.InPlaceUnion(innerWords[..]);
        assert keys[..n + 1] == keys[..n] + [keys[n]];
      }
      assert keys[..|keys|] == keys;
      err := None;
    }

    /** The blocks for one key: all ones, intersected with the rows of the key's locations. */
    method MatchKey(h: Locations, key: BloomKey, innerWords: array<Word>) returns (err: Option<Error>)
      requires Valid() && innerWords.Length == WORDS_PER_ROW
      modifies innerWords
      ensures err.None? <==> RowsReadable(bitmap, Indices(h, key))
      ensures err.None? ==> forall j: nat :: j < NUM_BLOCKS ==>
                (RowBit(innerWords[..], j) <==> RowsHit(bitmap, Indices(h, key), j))
    {
      forall w | 0 <= w < WORDS_PER_ROW { innerWords[w] := MAX_WORD; }
      FillRowBits();
      assert innerWords[..] == FillRow(MAX_WORD);
      var indices := Indices(h, key);
      match bitmap {
        case MemRows(rows) =>
          IntersectMemRows(rows, indices, innerWords);
          err := None;
        case BlobRows(data) =>
          err := IntersectBlobRows(data, indices, innerWords);
      }
    }

    /** Encodes the filter as its stored blob. */
    method MarshalBinary() returns (buf: seq<Byte>)
      requires InMemory()
      ensures buf == Encode(fromBlock, toBlock, bitmap.rows)
    {
      hide PutBE, EncodeRow;
      var rows := bitmap.rows;
      buf := PutBE(fromBlock, 8);
      buf := buf + PutBE(toBlock, 8);
      buf := buf + PutBE(|rows|, 4);
      ghost var header, chunks := buf, RowChunks(rows);
      for i := 0 to |rows|
        invariant buf == header + Concat(chunks[..i])
      {
        var b := MarshalBitset(rows[i]);
        var length := PutBE(|b|, 4);
        buf := buf + length;
        buf := buf + b;
        assert buf == header + (Concat(chunks[..i]) + (length + b));
        assert chunks[..i + 1][..i] == chunks[..i];
      }
      assert chunks[..|rows|] == chunks;
    }
  }

  /** The bitset library's encoding of one row: its length in bits, then its words. */
  method MarshalBitset(row: Row) returns (b: seq<Byte>)
    requires ValidRow(row)
    ensures PutBE(|b|, 4) + b == EncodeRow(row)
  {
    b := PutBE(NUM_BLOCKS, 8);
    ghost var chunks := WordChunks(row);
    for w := 0 to |row|
      invariant b == PutBE(NUM_BLOCKS, 8) + Concat(chunks[..w])
    {
      b := b + PutBE(row[w], 8);
      assert chunks[..w + 1][..w] == chunks[..w];
    }
    assert chunks[..|row|] == chunks;
    ConcatLength(chunks, 8);
  }

  /** UnmarshalBinary of a decoded filter: the header and every row are checked. */
  method UnmarshalRows(data: seq<Byte>) returns (r: Result<seq<Row>>)
    requires |data| == BLOB_SIZE
    ensures r.Ok? <==> FullyReadable(BlobRows(data))
    ensures r.Ok? ==> SameRows(BlobRows(data), MemRows(r.value))
  {
    var rows: seq<Row> := [];
    for i := 0 to BLOOM_LENGTH
      invariant |rows| == i
      invariant forall k :: 0 <= k < i ==> DecodeRow(data, k) == Ok(rows[k]) && ValidRow(rows[k])
    {
      var wordBytes := RowWordBytes(data, i);
      if wordBytes.Err? {
        assert RowAt(BlobRows(data), i).Err?;
        return Err(wordBytes.error);
      }
      var row: Row := [];
      for w := 0 to WORDS_PER_ROW
        invariant |row| == w && forall v :: 0 <= v < w ==> row[v] == WordAt(wordBytes.value, v)
      {
        row := row + [WordAt(wordBytes.value, w)];
      }
      assert row == DecodeWords(wordBytes.value);
      rows := rows + [row];
    }
    forall i: nat | i < BLOOM_LENGTH ensures RowAt(BlobRows(data), i) == RowAt(MemRows(rows), i) {
      assert DecodeRow(data, i) == Ok(rows[i]);
    }
    r := Ok(rows);
  }
}
