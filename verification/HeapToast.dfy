/**
 The check of an out-of-line value against its chunks (contrib/amcheck/verify_heapam.c,
 `check_toast_tuple` and `check_toasted_attribute`).  The index scan is the sequence of chunks it returns.
 */
module HeapToast {

  const CHUNK: nat := 1996    // TOAST_MAX_CHUNK_SIZE

  /** The data of a chunk: null, a four-byte or one-byte header with a payload of some size, or neither. */
  datatype Data = NullData | Plain(size: int) | Short(size: int) | InvalidHeader

  datatype SeqNo = NullSeq | Seq(n: int)

  datatype Chunk = Chunk(seqNo: SeqNo, data: Data)

  datatype Report =
    | NullSequence | WrongSequence(got: int, expected: int)
    | NullChunk(n: int) | BadHeader(n: int) | BeyondLast(n: int) | WrongSize(n: int, size: int, expected: int)
    | NotFound | EndedEarly(expected: int)

  type uint32 = x: int | 0 <= x < 0x1_0000_0000

  /** The number of the last chunk; the subtraction is unsigned. */
  function Last(extsize: uint32): nat { (extsize - 1) % 0x1_0000_0000 / CHUNK }

  /** The size a chunk should have, cut to 32 bits. */
  function ExpectedSize(extsize: uint32, n: int): int {
    if n < Last(extsize) then CHUNK else (extsize - Last(extsize) * CHUNK) % 0x1_0000_0000
  }

  predicate ChunkOk(c: Chunk, n: int, extsize: uint32) {
    && c.seqNo == Seq(n) && n <= Last(extsize)
    && (c.data.Plain? || c.data.Short?) && c.data.size == ExpectedSize(extsize, n)
  }

  /** `check_toast_tuple`. */
  method CheckToastTuple(c: Chunk, expected: int, extsize: uint32) returns (reports: seq<Report>, next: int)
    ensures reports == [] <==> ChunkOk(c, expected, extsize)
    ensures next == if c.seqNo.NullSeq? then expected else c.seqNo.n + 1
  {
    reports, next := [], expected;
    if c.seqNo.NullSeq? { return [NullSequence], next; }
    var n := c.seqNo.n;
    if n != expected { reports := reports + [WrongSequence(n, expected)]; }
    next := n + 1;
    if c.data.NullData? { return reports + [NullChunk(n)], next; }
    if c.data.InvalidHeader? { return reports + [BadHeader(n)], next; }
    var size := c.data.size;
    if n > Last(extsize) { return reports + [BeyondLast(n)], next; }
    var want := ExpectedSize(extsize, n);
    if size != want { reports := reports + [WrongSize(n, size, want)]; }
  }

  /** The chunks 0 to the last, in order, each with valid data of the expected size. */
  predicate Complete(chunks: seq<Chunk>, extsize: uint32) {
    |chunks| == Last(extsize) + 1 && forall i :: 0 <= i < |chunks| ==> ChunkOk(chunks[i], i, extsize)
  }

  /** `check_toasted_attribute`: it reports nothing exactly for complete chunks. */
  method CheckToastedAttribute(chunks: seq<Chunk>, extsize: uint32) returns (reports: seq<Report>)
    ensures reports == [] <==> Complete(chunks, extsize)
  {
    hide Last, ExpectedSize;
    reports := [];
    var expected := 0;
    for i := 0 to |chunks|
      invariant reports == [] <==> forall j :: 0 <= j < i ==> ChunkOk(chunks[j], j, extsize)
      invariant reports == [] ==> expected == i
    {
      var more, next := CheckToastTuple(chunks[i], expected, extsize);
      reports, expected := reports + more, next;
    }
    if |chunks| == 0 {
      reports := reports + [NotFound];
    } else {
      assert reports == [] ==> ChunkOk(chunks[|chunks| - 1], |chunks| - 1, extsize);
      if expected <= Last(extsize) { reports := reports + [EndedEarly(expected)]; }
    }
  }

  /** Every stored size, 0 included, has chunks that pass. */
  lemma CompleteExists(extsize: uint32) returns (chunks: seq<Chunk>)
    ensures Complete(chunks, extsize)
  {
    chunks := seq(Last(extsize) + 1, i => Chunk(Seq(i), Plain(ExpectedSize(extsize, i))));
  }

  function Total(chunks: seq<Chunk>): int {
    if chunks == [] then 0
    else
      var c := chunks[|chunks| - 1];
      Total(chunks[..|chunks| - 1]) + if c.data.Plain? || c.data.Short? then c.data.size else 0
  }

  lemma {:induction false} TotalOfFull(chunks: seq<Chunk>, extsize: uint32, n: nat)
    requires Complete(chunks, extsize) && n <= Last(extsize)
    ensures Total(chunks[..n]) == n * CHUNK
  {
    hide Last;
    if n > 0 {
      TotalOfFull(chunks, extsize, n - 1);
      assert chunks[..n][..n - 1] == chunks[..n - 1];
      assert ChunkOk(chunks[n - 1], n - 1, extsize);
    }
  }

  /**
   Chunks that pass hold the stored size in total.  A stored size of 0, for which the unsigned subtraction
   wraps, is the exception: it passes only with chunks of 2^32 bytes.
   */
  lemma CompleteAddsUp(chunks: seq<Chunk>, extsize: uint32)
    requires Complete(chunks, extsize)
    ensures Total(chunks) == if extsize >= 1 then extsize else 0x1_0000_0000
  {
    var last := Last(extsize);
    TotalOfFull(chunks, extsize, last);
    assert chunks[..|chunks| - 1] == chunks[..last];
    assert ChunkOk(chunks[last], last, extsize);
    if extsize >= 1 { LastRemainder(extsize); }
  }

  lemma LastRemainder(extsize: uint32)
    requires extsize >= 1
    ensures ExpectedSize(extsize, Last(extsize)) == extsize - Last(extsize) * CHUNK
    ensures 1 <= extsize - Last(extsize) * CHUNK <= CHUNK
  {
  }
}
