/**
 The stored form of an aggregated bloom filter: a header and one fixed-size blob
 per bloom row. A row blob can be read in place at a computed offset, so a query
 decodes only the rows it needs.

 Models core/aggregated_bloom_filter_rows.go, the header parsing of
 core/aggregated_bloom_filter_view.go and MarshalBinary of
 core/aggregated_bloom_filter.go.
 */
module FilterCodec {
  import opened Words
  import opened Bloom

  const NUM_BLOCKS: nat := 8192
  const MAX_BLOCK_OFFSET: nat := NUM_BLOCKS - 1
  const WORDS_PER_ROW: nat := 128

  const HEADER_SIZE: nat := 20
  const ROW_BLOB_LEN: nat := 8 + WORDS_PER_ROW * 8
  const ROW_SIZE: nat := 4 + ROW_BLOB_LEN
  const BLOB_SIZE: nat := HEADER_SIZE + BLOOM_LENGTH * ROW_SIZE

  datatype Error =
    | BlockOutOfRange
    | BloomSizeMismatch
    | BufferNil
    | BufferSizeMismatch
    | HeaderTooShort
    | RowCountMismatch
    | LenMismatch
    | RangeMismatch
    | RowBlobLenMismatch
    | RowBitsetLenMismatch

  datatype Result<+T> = Ok(value: T) | Err(error: Error)

  type Row = seq<Word>

  predicate ValidRow(row: Row) {
    |row| == WORDS_PER_ROW
  }

  ghost predicate ValidRows(rows: seq<Row>) {
    |rows| == BLOOM_LENGTH && forall i :: 0 <= i < |rows| ==> ValidRow(rows[i])
  }

  // ---------------------------------------------------------------- fixed-size chunks

  function Concat(chunks: seq<seq<Byte>>): (bytes: seq<Byte>) {
    if chunks == [] then [] else Concat(chunks[..|chunks| - 1]) + chunks[|chunks| - 1]
  }

  lemma {:induction false} ConcatLength(chunks: seq<seq<Byte>>, size: nat)
    requires forall i :: 0 <= i < |chunks| ==> |chunks[i]| == size
    ensures |Concat(chunks)| == |chunks| * size
  {
    if chunks != [] {
      ConcatLength(chunks[..|chunks| - 1], size);
      assert |chunks| * size == (|chunks| - 1) * size + size;
    }
  }

  lemma {:induction false} ConcatChunk(chunks: seq<seq<Byte>>, size: nat, i: nat)
    requires forall k :: 0 <= k < |chunks| ==> |chunks[k]| == size
    requires i < |chunks|
    ensures 0 <= i * size <= i * size + size <= |Concat(chunks)|
    ensures Concat(chunks)[i * size..i * size + size] == chunks[i]
  {
    var last := |chunks| - 1;
    ConcatLength(chunks[..last], size);
    if i < last {
      ConcatChunk(chunks[..last], size, i);
    }
  }

  /** Cutting a byte string into chunks loses nothing. */
  lemma {:induction false} ConcatOfSlices(bytes: seq<Byte>, chunks: seq<seq<Byte>>, size: nat, n: nat)
    requires n <= |chunks| && |bytes| == |chunks| * size
    requires forall i :: 0 <= i < |chunks| ==> 0 <= i * size && i * size + size <= |bytes|
    requires forall i :: 0 <= i < |chunks| ==> chunks[i] == bytes[i * size..i * size + size]
    ensures 0 <= n * size <= |bytes|
    ensures Concat(chunks[..n]) == bytes[..n * size]
  {
    if n > 0 {
      ConcatOfSlices(bytes, chunks, size, n - 1);
      var k := (n - 1) * size;
      assert n * size == k + size;
      assert chunks[..n][..n - 1] == chunks[..n - 1];
      assert chunks[n - 1] == bytes[k..k + size];
      Split(bytes, 0, k, k + size);
      assert Concat(chunks[..n]) == Concat(chunks[..n - 1]) + chunks[n - 1];
    }
  }

  lemma ConcatOfAll(bytes: seq<Byte>, chunks: seq<seq<Byte>>, size: nat)
    requires |bytes| == |chunks| * size
    requires forall i :: 0 <= i < |chunks| ==> 0 <= i * size && i * size + size <= |bytes|
    requires forall i :: 0 <= i < |chunks| ==> chunks[i] == bytes[i * size..i * size + size]
    ensures Concat(chunks) == bytes
  {
    ConcatOfSlices(bytes, chunks, size, |chunks|);
    assert chunks[..|chunks|] == chunks && bytes[..|bytes|] == bytes;
  }

  lemma SliceOfSlice<T>(s: seq<T>, a: nat, b: nat, c: nat, d: nat)
    requires a <= b <= |s| && c <= d <= b - a
    ensures s[a..b][c..d] == s[a + c..a + d]
  {
    var slice := s[a..b][c..d];
    assert |slice| == d - c;
    assert forall i :: 0 <= i < d - c ==> slice[i] == s[a + c..a + d][i];
  }

  // ---------------------------------------------------------------- encoding

  function WordChunks(row: Row): (chunks: seq<seq<Byte>>)
    ensures |chunks| == |row|
    ensures forall w :: 0 <= w < |row| ==> chunks[w] == PutBE(row[w], 8) && |chunks[w]| == 8
  {
    seq(|row|, w requires 0 <= w < |row| => PutBE(row[w], 8))
  }

  /** The library's own encoding of a bitset row, behind its length prefix. */
  function EncodeRow(row: Row): (bytes: seq<Byte>) {
    PutBE(8 + 8 * |row|, 4) + PutBE(NUM_BLOCKS, 8) + Concat(WordChunks(row))
  }

  function RowChunks(rows: seq<Row>): (chunks: seq<seq<Byte>>)
    ensures |chunks| == |rows|
    ensures forall i :: 0 <= i < |rows| ==> chunks[i] == EncodeRow(rows[i])
  {
    seq(|rows|, i requires 0 <= i < |rows| => EncodeRow(rows[i]))
  }

  function EncodeHeader(fromBlock: nat, toBlock: nat, count: nat): (bytes: seq<Byte>)
    ensures |bytes| == HEADER_SIZE
  {
    PutBE(fromBlock, 8) + PutBE(toBlock, 8) + PutBE(count, 4)
  }

  function Encode(fromBlock: nat, toBlock: nat, rows: seq<Row>): (bytes: seq<Byte>) {
    EncodeHeader(fromBlock, toBlock, |rows|) + Concat(RowChunks(rows))
  }

  // ---------------------------------------------------------------- decoding

  datatype Header = Header(fromBlock: nat, toBlock: nat)

  /** Checks the framing of a blob and reads its block range. */
  function ParseHeader(data: seq<Byte>): (r: Result<Header>)
    ensures r.Ok? ==> |data| == BLOB_SIZE
  {
    if |data| < HEADER_SIZE then Err(HeaderTooShort)
    else
      var count := GetBE(data[16..20]);
      if count != BLOOM_LENGTH then Err(RowCountMismatch)
      else if |data| != HEADER_SIZE + count * ROW_SIZE then Err(LenMismatch)
      else
        var fromBlock, toBlock := GetBE(data[0..8]), GetBE(data[8..16]);
        if toBlock != (fromBlock + MAX_BLOCK_OFFSET) % TWO_64 then Err(RangeMismatch)
        else Ok(Header(fromBlock, toBlock))
  }

  /** Checks both length prefixes of row `index` and returns its raw word bytes. */
  function RowWordBytes(data: seq<Byte>, index: nat): (r: Result<seq<Byte>>)
    requires |data| == BLOB_SIZE && index < BLOOM_LENGTH
    ensures r.Ok? ==> |r.value| == WORDS_PER_ROW * 8
  {
    var offset := HEADER_SIZE + index * ROW_SIZE;
    if GetBE(data[offset..offset + 4]) != ROW_BLOB_LEN then Err(RowBlobLenMismatch)
    else if GetBE(data[offset + 4..offset + 12]) != NUM_BLOCKS then Err(RowBitsetLenMismatch)
    else Ok(data[offset + 12..offset + 12 + WORDS_PER_ROW * 8])
  }

  function WordAt(wordBytes: seq<Byte>, w: nat): (x: Word)
    requires |wordBytes| == WORDS_PER_ROW * 8 && w < WORDS_PER_ROW
  {
    Pow256Values();
    GetBE(wordBytes[w * 8..w * 8 + 8])
  }

  function DecodeWords(wordBytes: seq<Byte>): (row: Row)
    requires |wordBytes| == WORDS_PER_ROW * 8
    ensures ValidRow(row)
    ensures forall w :: 0 <= w < WORDS_PER_ROW ==> row[w] == WordAt(wordBytes, w)
  {
    seq(WORDS_PER_ROW, w requires 0 <= w < WORDS_PER_ROW => WordAt(wordBytes, w))
  }

  /** Row `index` of a blob, read in place. */
  function DecodeRow(data: seq<Byte>, index: nat): (r: Result<Row>)
    requires |data| == BLOB_SIZE && index < BLOOM_LENGTH
    ensures r.Ok? ==> ValidRow(r.value)
  {
    match RowWordBytes(data, index)
    case Err(e) => Err(e)
    case Ok(bytes) => Ok(DecodeWords(bytes))
  }

  // ---------------------------------------------------------------- the two directions

  lemma EncodeRowParts(row: Row)
    requires ValidRow(row)
    ensures |EncodeRow(row)| == ROW_SIZE
    ensures EncodeRow(row)[..4] == PutBE(ROW_BLOB_LEN, 4)
    ensures EncodeRow(row)[4..12] == PutBE(NUM_BLOCKS, 8)
    ensures |EncodeRow(row)[12..]| == WORDS_PER_ROW * 8
    ensures DecodeWords(EncodeRow(row)[12..]) == row
  {
    var chunks := WordChunks(row);
    ConcatLength(chunks, 8);
    var bytes := EncodeRow(row);
    assert bytes[12..] == Concat(chunks);
    forall w | 0 <= w < WORDS_PER_ROW ensures WordAt(bytes[12..], w) == row[w] {
      ConcatChunk(chunks, 8, w);
      Pow256Values();
      GetPut(row[w], 8);
    }
  }

  lemma EncodeParts(fromBlock: nat, toBlock: nat, rows: seq<Row>, i: nat)
    requires ValidRows(rows) && i < BLOOM_LENGTH
    ensures |Encode(fromBlock, toBlock, rows)| == BLOB_SIZE
    ensures var o := HEADER_SIZE + i * ROW_SIZE;
            Encode(fromBlock, toBlock, rows)[o..o + ROW_SIZE] == EncodeRow(rows[i])
  {
    var chunks := RowChunks(rows);
    forall k | 0 <= k < |chunks| ensures |chunks[k]| == ROW_SIZE {
      EncodeRowParts(rows[k]);
    }
    ConcatLength(chunks, ROW_SIZE);
    ConcatChunk(chunks, ROW_SIZE, i);
    var data := Encode(fromBlock, toBlock, rows);
    var o := HEADER_SIZE + i * ROW_SIZE;
    assert data[o..o + ROW_SIZE] == Concat(chunks)[i * ROW_SIZE..i * ROW_SIZE + ROW_SIZE];
  }

  /** Every row read in place from a marshalled filter is the row that was marshalled. */
  lemma DecodeRowOfEncode(fromBlock: nat, toBlock: nat, rows: seq<Row>, i: nat)
    requires ValidRows(rows) && i < BLOOM_LENGTH
    ensures |Encode(fromBlock, toBlock, rows)| == BLOB_SIZE
    ensures DecodeRow(Encode(fromBlock, toBlock, rows), i) == Ok(rows[i])
  {
    hide GetBE, PutBE, Encode, EncodeRow, DecodeWords;
    var data := Encode(fromBlock, toBlock, rows);
    var o := HEADER_SIZE + i * ROW_SIZE;
    EncodeParts(fromBlock, toBlock, rows, i);
    EncodeRowParts(rows[i]);
    var chunk := data[o..o + ROW_SIZE];
    SliceOfSlice(data, o, o + ROW_SIZE, 0, 4);
    SliceOfSlice(data, o, o + ROW_SIZE, 4, 12);
    SliceOfSlice(data, o, o + ROW_SIZE, 12, ROW_SIZE);
    assert chunk[0..4] == chunk[..4] && chunk[12..ROW_SIZE] == chunk[12..];
    Pow256Values();
    GetPut(ROW_BLOB_LEN, 4);
    GetPut(NUM_BLOCKS, 8);
  }

  lemma HeaderOfEncode(fromBlock: nat, rows: seq<Row>)
    requires ValidRows(rows) && fromBlock < TWO_64
    ensures var toBlock := (fromBlock + MAX_BLOCK_OFFSET) % TWO_64;
            ParseHeader(Encode(fromBlock, toBlock, rows)) == Ok(Header(fromBlock, toBlock))
    ensures var toBlock := (fromBlock + MAX_BLOCK_OFFSET) % TWO_64;
            var data := Encode(fromBlock, toBlock, rows);
            && |data| == 20 + 8192 * 1036
            && GetBE(data[0..8]) == fromBlock && GetBE(data[8..16]) == toBlock && GetBE(data[16..20]) == 8192
  {
    var toBlock := (fromBlock + MAX_BLOCK_OFFSET) % TWO_64;
    var data := Encode(fromBlock, toBlock, rows);
    EncodeParts(fromBlock, toBlock, rows, 0);
    assert data[0..8] == PutBE(fromBlock, 8);
    assert data[8..16] == PutBE(toBlock, 8);
    assert data[16..20] == PutBE(BLOOM_LENGTH, 4);
    Pow256Values();
    GetPut(fromBlock, 8);
    GetPut(toBlock, 8);
    GetPut(BLOOM_LENGTH, 4);
  }

  /** What is wrong with a blob whose header is not accepted. */
  lemma HeaderRefused(data: seq<Byte>)
    ensures ParseHeader(data) == Err(HeaderTooShort) <==> |data| < 20
    ensures ParseHeader(data) == Err(RowCountMismatch) <==> |data| >= 20 && GetBE(data[16..20]) != 8192
    ensures ParseHeader(data) == Err(LenMismatch) <==> |data| >= 20 && GetBE(data[16..20]) == 8192 && |data| != 20 + 8192 * 1036
    ensures ParseHeader(data) == Err(RangeMismatch) <==>
            |data| == 20 + 8192 * 1036 && GetBE(data[16..20]) == 8192 && GetBE(data[8..16]) != (GetBE(data[0..8]) + 8191) % TWO_64
  {
    hide GetBE;
  }

  lemma EncodeWordsOfDecode(bytes: seq<Byte>)
    requires |bytes| == WORDS_PER_ROW * 8
    ensures Concat(WordChunks(DecodeWords(bytes))) == bytes
  {
    var chunks := WordChunks(DecodeWords(bytes));
    forall w | 0 <= w < WORDS_PER_ROW ensures chunks[w] == bytes[w * 8..w * 8 + 8] {
      PutGet(bytes[w * 8..w * 8 + 8]);
    }
    ConcatOfAll(bytes, chunks, 8);
  }

  /** A row's bytes with both length prefixes right are the encoding of its words. */
  lemma EncodeRowOfParts(chunk: seq<Byte>)
    requires |chunk| == ROW_SIZE && GetBE(chunk[0..4]) == ROW_BLOB_LEN && GetBE(chunk[4..12]) == NUM_BLOCKS
    ensures EncodeRow(DecodeWords(chunk[12..ROW_SIZE])) == chunk
  {
    hide GetBE, PutBE, Concat, DecodeWords, WordChunks;
    EncodeWordsOfDecode(chunk[12..ROW_SIZE]);
    PutGet(chunk[0..4]);
    PutGet(chunk[4..12]);
    Split(chunk, 0, 4, 12);
    Split(chunk, 0, 12, ROW_SIZE);
  }

  lemma EncodeRowOfDecode(data: seq<Byte>, i: nat)
    requires |data| == BLOB_SIZE && i < BLOOM_LENGTH
    requires DecodeRow(data, i).Ok?
    ensures EncodeRow(DecodeRow(data, i).value) == data[HEADER_SIZE..][i * ROW_SIZE..i * ROW_SIZE + ROW_SIZE]
  {
    hide GetBE, PutBE, EncodeRow, DecodeWords;
    var o := HEADER_SIZE + i * ROW_SIZE;
    var chunk := data[o..o + ROW_SIZE];
    SliceOfSlice(data, o, o + ROW_SIZE, 0, 4);
    SliceOfSlice(data, o, o + ROW_SIZE, 4, 12);
    SliceOfSlice(data, o, o + ROW_SIZE, 12, ROW_SIZE);
    EncodeRowOfParts(chunk);
    SliceOfSlice(data, HEADER_SIZE, BLOB_SIZE, i * ROW_SIZE, i * ROW_SIZE + ROW_SIZE);
    assert data[HEADER_SIZE..] == data[HEADER_SIZE..BLOB_SIZE];
  }

  lemma Split<T>(s: seq<T>, a: nat, b: nat, c: nat)
    requires a <= b <= c <= |s|
    ensures s[a..c] == s[a..b] + s[b..c]
  {
  }

  ghost predicate Canonical(data: seq<Byte>, fromBlock: nat, rows: seq<Row>) {
    && ValidRows(rows)
    && fromBlock < TWO_64
    && data == Encode(fromBlock, (fromBlock + MAX_BLOCK_OFFSET) % TWO_64, rows)
  }

  /** The header check passes and every row decodes. */
  ghost predicate Decodes(data: seq<Byte>, fromBlock: nat, rows: seq<Row>) {
    && ParseHeader(data).Ok?
    && ParseHeader(data).value.fromBlock == fromBlock
    && |rows| == BLOOM_LENGTH
    && forall i :: 0 <= i < BLOOM_LENGTH ==> DecodeRow(data, i) == Ok(rows[i])
  }

  /**
   A blob decodes to a filter exactly when it is that filter's encoding, so decoding
   inverts encoding and the checks accept nothing but canonical blobs.
   */
  lemma DecodesIffCanonical(data: seq<Byte>, fromBlock: nat, rows: seq<Row>)
    ensures Decodes(data, fromBlock, rows) <==> Canonical(data, fromBlock, rows)
  {
    if Canonical(data, fromBlock, rows) {
      HeaderOfEncode(fromBlock, rows);
      forall i | 0 <= i < BLOOM_LENGTH ensures DecodeRow(data, i) == Ok(rows[i]) {
        DecodeRowOfEncode(fromBlock, (fromBlock + MAX_BLOCK_OFFSET) % TWO_64, rows, i);
      }
    }
    if Decodes(data, fromBlock, rows) {
      BodyOfDecode(data, rows);
      HeaderOfDecode(data);
      assert data == data[..HEADER_SIZE] + data[HEADER_SIZE..];
    }
  }

  lemma HeaderOfDecode(data: seq<Byte>)
    requires ParseHeader(data).Ok?
    ensures var from := ParseHeader(data).value.fromBlock;
            from < TWO_64
            && data[..HEADER_SIZE] == EncodeHeader(from, (from + MAX_BLOCK_OFFSET) % TWO_64, BLOOM_LENGTH)
  {
    PutGet(data[0..8]);
    PutGet(data[8..16]);
    PutGet(data[16..20]);
    Pow256Values();
    assert data[..HEADER_SIZE] == data[0..8] + data[8..16] + data[16..20];
  }

  lemma BodyOfDecode(data: seq<Byte>, rows: seq<Row>)
    requires |rows| == BLOOM_LENGTH && |data| == BLOB_SIZE
    requires forall i :: 0 <= i < BLOOM_LENGTH ==> DecodeRow(data, i) == Ok(rows[i])
    ensures ValidRows(rows)
    ensures data[HEADER_SIZE..] == Concat(RowChunks(rows))
  {
    forall i | 0 <= i < |rows|
      ensures ValidRow(rows[i])
      ensures EncodeRow(rows[i]) == data[HEADER_SIZE..][i * ROW_SIZE..i * ROW_SIZE + ROW_SIZE]
    {
      assert DecodeRow(data, i) == Ok(rows[i]);
      EncodeRowOfDecode(data, i);
    }
    BodyOfRows(data[HEADER_SIZE..], rows);
  }

  lemma BodyOfRows(body: seq<Byte>, rows: seq<Row>)
    requires |rows| == BLOOM_LENGTH && |body| == BLOOM_LENGTH * ROW_SIZE
    requires forall i :: 0 <= i < |rows| ==> EncodeRow(rows[i]) == body[i * ROW_SIZE..i * ROW_SIZE + ROW_SIZE]
    ensures body == Concat(RowChunks(rows))
  {
    var chunks := RowChunks(rows);
    forall i | 0 <= i < |chunks| ensures chunks[i] == body[i * ROW_SIZE..i * ROW_SIZE + ROW_SIZE] {
      assert chunks[i] == EncodeRow(rows[i]);
    }
    ConcatOfAll(body, chunks, ROW_SIZE);
  }
}
