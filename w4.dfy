/** The W4 container: a kernel image whose VxD archive is either stored as a
    plain "W3" archive or split into chunks, each stored verbatim or compressed
    with the DoubleSpace coder.  `W4ToW3` unwraps it into the W3 archive and
    the offset of the archive header. */
module W4 {
  import opened Bytes
  import opened Results
  import DoubleSpace

  /** Where the little-endian offset of the archive header is kept. */
  const HeaderOffsetAt: nat := 0x3C

  /** The length of a chunk that is stored without compression. */
  const StoredChunkSize: nat := 8192

  const LetterW: byte := 0x57
  const Digit3: byte := 0x33
  const Digit4: byte := 0x34

  /** One chunk's bytes, or why they could not be produced. */
  type Piece = Result<seq<byte>, W4Error>

  datatype W4Error =
    | BadSignature                            // neither "W3" nor "W4" at the header
    | DecodePanic(panic: DoubleSpace.Panic)   // the decoder of a chunk gave up

  /** The outcome of w4_to_w3: the W3 archive and the offset of its header
      in the image, or why the image was refused. */
  datatype Unwrapped = Archive(archive: seq<byte>, offset: nat) | Refused(error: W4Error)

  /** The offset of the archive header. */
  function HeaderOffset(input: seq<byte>): (r: u32)
    requires HeaderOffsetAt + 4 <= |input|
  {
    Le32(input, HeaderOffsetAt)
  }

  /** The start of chunk `index`: the little-endian u32 in the chunk table
      that follows the 16-byte archive header. */
  function ChunkOffset(input: seq<byte>, off: nat, index: nat): (r: u32)
    requires off + 16 + 4 * index + 4 <= |input|
    ensures r % 0x100 == input[off + 16 + 4 * index]
    ensures r / 0x100_0000 == input[off + 16 + 4 * index + 3]
  {
    Le32(input, off + 16 + 4 * index)
  }

  /** The signature test: "W" followed by "3" or "4". */
  predicate SignatureOk(input: seq<byte>, off: nat)
    requires off + 1 < |input|
  {
    input[off] == LetterW && (input[off + 1] == Digit3 || input[off + 1] == Digit4)
  }

  /** Chunk index + 1 does not start before chunk index. */
  predicate Ascending(input: seq<byte>, off: nat, index: nat)
    requires off + 16 + 4 * index + 8 <= |input|
  {
    ChunkOffset(input, off, index) <= ChunkOffset(input, off, index + 1)
  }

  /** A chunk table of `count` entries lies inside the input, every chunk
      starts inside it, and the starts never decrease.  An empty table is
      never read. */
  predicate ChunkTable(input: seq<byte>, off: nat, count: nat)
  {
    && (count == 0 || off + 16 + 4 * count <= |input|)
    && (forall i :: 0 <= i < count ==> ChunkOffset(input, off, i) <= |input|)
    && (forall i :: 0 <= i < count - 1 ==> Ascending(input, off, i))
  }

  /** Every byte the unwrapper indexes is inside the input, and chunk starts
      ascend, so that the byte distance between two chunk starts is never
      negative. */
  predicate Readable(input: seq<byte>)
  {
    && HeaderOffsetAt + 4 <= |input|
    && var off := HeaderOffset(input);
       && off < |input|
       && (input[off] == LetterW ==> off + 1 < |input|)
       && (input[off] == LetterW && input[off + 1] == Digit4 ==>
             off + 8 <= |input| && ChunkTable(input, off, Le16(input, off + 6)))
  }

  /** Chunk i of a table of count chunks: a chunk that is not the last one and
      is exactly 8192 bytes long is stored as is; any other chunk, the last one
      always, is the block decoded from its start to the end of the input. */
  function Chunk(input: seq<byte>, off: nat, count: nat, i: nat): Piece
    requires ChunkTable(input, off, count) && i < count
  {
    var offset := ChunkOffset(input, off, i);
    if i < count - 1 && ChunkOffset(input, off, i + 1) - offset == StoredChunkSize then
      Ok(input[offset..offset + StoredChunkSize])
    else
      match DoubleSpace.Decode(input[offset..])
      case Ok(block) => Ok(block)
      case Err(p) => Err(DecodePanic(p))
  }

  /** Every chunk of the table, in table order. */
  function Pieces(input: seq<byte>, off: nat, count: nat): (r: seq<Piece>)
    requires ChunkTable(input, off, count)
    ensures |r| == count
    ensures forall i :: 0 <= i < count ==> r[i] == Chunk(input, off, count, i)
  {
    seq(count, i requires 0 <= i < count => Chunk(input, off, count, i))
  }

  /** The first n pieces concatenated in order; the first piece that failed
      stops the whole. */
  function Concat(pieces: seq<Piece>, n: nat): Piece
    requires n <= |pieces|
  {
    if n == 0 then Ok([])
    else
      match Concat(pieces, n - 1)
      case Err(e) => Err(e)
      case Ok(prefix) =>
        match pieces[n - 1]
        case Err(e) => Err(e)
        case Ok(c) => Ok(prefix + c)
  }

  /** What unwrapping an image gives: the archive and its header offset. */
  function Unwrap(input: seq<byte>): Unwrapped
    requires Readable(input)
  {
    var off := HeaderOffset(input);
    if input[off] != LetterW || !SignatureOk(input, off) then Refused(BadSignature)
    else if input[off + 1] == Digit3 then Archive(input[off..], off)
    else
      var count := Le16(input, off + 6);
      ArchiveOf(Concat(Pieces(input, off, count), count), off)
  }

  /** The concatenated chunks as an archive whose header is at off. */
  function ArchiveOf(chunks: Piece, off: nat): Unwrapped
  {
    match chunks
    case Err(e) => Refused(e)
    case Ok(archive) => Archive(archive, off)
  }

  /** w4_to_w3. */
  method W4ToW3(input: seq<byte>) returns (r: Unwrapped)
    requires Readable(input)
    ensures r == Unwrap(input)
  {
    var off: nat := HeaderOffset(input);
    if input[off] != LetterW || !(input[off + 1] == Digit3 || input[off + 1] == Digit4) {
      return Refused(BadSignature);
    }
    if input[off] == LetterW && input[off + 1] == Digit3 {
      return Archive(input[off..], off);
    }
    var count := Le16(input, off + 6);
    UnwrapChunked(input);
    r := UnwrapChunks(input, off, count, Pieces(input, off, count));
  }

  /** The chunk loop of w4_to_w3: every chunk in table order, appended to
      the result, stopping at the first chunk that cannot be decoded. */
  method UnwrapChunks(input: seq<byte>, off: nat, count: nat, ghost pieces: seq<Piece>) returns (r: Unwrapped)
    requires ChunkTable(input, off, count) && PiecesOf(input, off, count, pieces)
    ensures r == ArchiveOf(Concat(pieces, count), off)
  {
    var result: seq<byte> := [];
    for index := 0 to count
      invariant Concat(pieces, index) == Ok(result)
    {
      var chunk := NextChunk(input, off, count, pieces, index, result);
      if chunk.Err? {
        return Refused(chunk.error);
      }
      result := result + chunk.value;
    }
    return Archive(result, off);
  }

  /** pieces are the chunks of the table, in table order. */
  predicate PiecesOf(input: seq<byte>, off: nat, count: nat, pieces: seq<Piece>)
    requires ChunkTable(input, off, count)
  {
    |pieces| == count && forall i :: 0 <= i < count ==> pieces[i] == Chunk(input, off, count, i)
  }

  /** One round of the chunk loop: chunk index, appended to the chunks
      before it, or the outcome of the whole loop when it fails. */
  method NextChunk(input: seq<byte>, off: nat, count: nat, ghost pieces: seq<Piece>, index: nat,
                   ghost result: seq<byte>) returns (chunk: Piece)
    requires ChunkTable(input, off, count) && PiecesOf(input, off, count, pieces)
    requires index < count && Concat(pieces, index) == Ok(result)
    ensures chunk.Ok? ==> Concat(pieces, index + 1) == Ok(result + chunk.value)
    ensures chunk.Err? ==> Concat(pieces, count) == chunk
  {
    chunk := UnwrapChunk(input, off, count, index);
    ConcatStep(pieces, index, result, chunk);
  }

  /** A "W4" image with no chunks is readable once its count field is, and
      unwraps to an empty archive: the chunk table is never read. */
  lemma EmptyArchive(input: seq<byte>)
    requires HeaderOffsetAt + 4 <= |input|
    requires var off := HeaderOffset(input);
             && off + 8 <= |input| && input[off] == LetterW && input[off + 1] == Digit4
             && Le16(input, off + 6) == 0
    ensures Readable(input)
    ensures Unwrap(input) == Archive([], HeaderOffset(input))
  {
  }

  /** A "W4" image unwraps to its chunks concatenated. */
  lemma UnwrapChunked(input: seq<byte>)
    requires Readable(input)
    requires input[HeaderOffset(input)] == LetterW && input[HeaderOffset(input) + 1] == Digit4
    ensures var off := HeaderOffset(input);
            var count := Le16(input, off + 6);
            Unwrap(input) == ArchiveOf(Concat(Pieces(input, off, count), count), off)
  {
    var off := HeaderOffset(input);
    assert SignatureOk(input, off) && input[off + 1] != Digit3;
  }

  /** The body of the chunk loop of w4_to_w3: chunk index, stored or decoded. */
  method UnwrapChunk(input: seq<byte>, off: nat, count: nat, index: nat) returns (r: Piece)
    requires ChunkTable(input, off, count) && index < count
    ensures r == Chunk(input, off, count, index)
  {
    var offset := ChunkOffset(input, off, index);
    if index < count - 1 && ChunkOffset(input, off, index + 1) - offset == StoredChunkSize {
      return Ok(input[offset..offset + StoredChunkSize]);
    }
    var block := DoubleSpace.DsDecode(input[offset..]);
    if block.Err? {
      return Err(DecodePanic(block.error));
    }
    return Ok(block.value);
  }

  // ---------------------------------------------------------------------
  // Concatenation of chunks
  // ---------------------------------------------------------------------

  /** One more piece: a successful piece is appended, and a failing one is
      the outcome of the whole concatenation. */
  lemma ConcatStep(pieces: seq<Piece>, n: nat, prefix: seq<byte>, piece: Piece)
    requires n < |pieces| && Concat(pieces, n) == Ok(prefix) && piece == pieces[n]
    ensures piece.Ok? ==> Concat(pieces, n + 1) == Ok(prefix + piece.value)
    ensures piece.Err? ==> Concat(pieces, |pieces|) == piece
  {
    if piece.Err? {
      ConcatStop(pieces, n + 1, |pieces|);
    }
  }

  /** Once a piece fails, every longer concatenation fails with its error:
      no piece after a failing one is looked at. */
  lemma {:induction false} ConcatStop(pieces: seq<Piece>, m: nat, n: nat)
    requires m <= n <= |pieces|
    requires Concat(pieces, m).Err?
    ensures Concat(pieces, n) == Concat(pieces, m)
    decreases n - m
  {
    if m < n {
      ConcatStop(pieces, m, n - 1);
    }
  }

  /** A concatenation succeeds exactly when every piece does, and when it
      fails its error is that of the first failing piece. */
  lemma {:induction false} ConcatFailure(pieces: seq<Piece>, n: nat)
    requires n <= |pieces|
    ensures Concat(pieces, n).Ok? <==> forall i :: 0 <= i < n ==> pieces[i].Ok?
    ensures Concat(pieces, n).Err? ==>
              exists i :: 0 <= i < n && Concat(pieces, i).Ok? && pieces[i] == Concat(pieces, n)
  {
    if n > 0 {
      ConcatFailure(pieces, n - 1);
      if Concat(pieces, n - 1).Ok? && pieces[n - 1].Err? {
        assert Concat(pieces, n - 1).Ok? && pieces[n - 1] == Concat(pieces, n);
      }
    }
  }

  /** Pieces are concatenated in order: in a successful concatenation of n
      pieces, piece m follows the first m pieces directly. */
  lemma {:induction false} ConcatPrefix(pieces: seq<Piece>, m: nat, n: nat)
    requires m < n <= |pieces|
    requires Concat(pieces, n).Ok?
    ensures Concat(pieces, m).Ok? && pieces[m].Ok?
    ensures Concat(pieces, m).value + pieces[m].value <= Concat(pieces, n).value
    decreases n - m
  {
    if m < n - 1 {
      ConcatPrefix(pieces, m, n - 1);
    }
  }

  /** n pieces of at most bound bytes each concatenate to at most n * bound
      bytes. */
  lemma {:induction false} ConcatLength(pieces: seq<Piece>, n: nat, bound: nat)
    requires n <= |pieces|
    requires forall i :: 0 <= i < n && pieces[i].Ok? ==> |pieces[i].value| <= bound
    requires Concat(pieces, n).Ok?
    ensures |Concat(pieces, n).value| <= n * bound
  {
    if n > 0 {
      ConcatLength(pieces, n - 1, bound);
    }
  }

  // ---------------------------------------------------------------------
  // Properties of the unwrapped image
  // ---------------------------------------------------------------------

  /** The image is rejected exactly when the signature is not "W3" or "W4";
      otherwise the header offset is the one stored at 0x3C, and a "W3"
      archive is handed back unchanged from its header on. */
  lemma UnwrapSignature(input: seq<byte>)
    requires Readable(input)
    ensures var off := HeaderOffset(input);
            Unwrap(input) == Refused(BadSignature) <==> !(off + 1 < |input| && SignatureOk(input, off))
    ensures Unwrap(input).Archive? ==> Unwrap(input).offset == HeaderOffset(input)
    ensures var off := HeaderOffset(input);
            off + 1 < |input| && input[off] == LetterW && input[off + 1] == Digit3 ==>
              Unwrap(input) == Archive(input[off..], off)
  {
    var off: nat := HeaderOffset(input);
    if input[off] == LetterW && input[off + 1] == Digit4 {
      var count := Le16(input, off + 6);
      var pieces := Pieces(input, off, count);
      ConcatFailure(pieces, count);
      if Concat(pieces, count).Err? {
        var i :| 0 <= i < count && Concat(pieces, i).Ok? && pieces[i] == Concat(pieces, count);
        ChunkBounds(input, off, count, i);
      }
    }
  }

  /** A chunk fails only with a decoder panic, and holds at most one block:
      8192 stored bytes, or a decoded block of at most 8191 + 512 bytes. */
  lemma ChunkBounds(input: seq<byte>, off: nat, count: nat, i: nat)
    requires ChunkTable(input, off, count) && i < count
    ensures Chunk(input, off, count, i).Err? ==> Chunk(input, off, count, i).error.DecodePanic?
    ensures Chunk(input, off, count, i).Ok? ==>
              |Chunk(input, off, count, i).value| <= DoubleSpace.BlockSize - 1 + 512
  {
    var offset := ChunkOffset(input, off, i);
    if !(i < count - 1 && ChunkOffset(input, off, i + 1) - offset == StoredChunkSize) {
      if DoubleSpace.Decode(input[offset..]).Ok? {
        DoubleSpace.DecodeLength(input[offset..]);
      }
    }
  }

  /** A "W4" archive holds at most one block per chunk. */
  lemma UnwrapLength(input: seq<byte>)
    requires Readable(input) && Unwrap(input).Archive?
    ensures var off := HeaderOffset(input);
            input[off + 1] == Digit4 ==>
              |Unwrap(input).archive| <= Le16(input, off + 6) * (DoubleSpace.BlockSize - 1 + 512)
  {
    var off: nat := HeaderOffset(input);
    if input[off + 1] == Digit4 {
      var count := Le16(input, off + 6);
      var pieces := Pieces(input, off, count);
      forall i | 0 <= i < count && pieces[i].Ok?
        ensures |pieces[i].value| <= DoubleSpace.BlockSize - 1 + 512
      {
        ChunkBounds(input, off, count, i);
      }
      ConcatLength(pieces, count, DoubleSpace.BlockSize - 1 + 512);
    }
  }

  /** A chunk that is not the last one and ends 8192 bytes after it starts
      is the 8192 input bytes from its start. */
  lemma StoredChunk(input: seq<byte>, off: nat, count: nat, i: nat)
    requires ChunkTable(input, off, count) && i < count - 1
    requires ChunkOffset(input, off, i + 1) - ChunkOffset(input, off, i) == StoredChunkSize
    ensures var start := ChunkOffset(input, off, i);
            start + StoredChunkSize <= |input|
            && Chunk(input, off, count, i) == Ok(input[start..start + StoredChunkSize])
  {
  }

  /** A chunk stored without compression reappears byte for byte in the
      archive, right after the chunks before it. */
  lemma StoredChunkVerbatim(input: seq<byte>, off: nat, count: nat, i: nat)
    requires ChunkTable(input, off, count) && i < count - 1
    requires Concat(Pieces(input, off, count), count).Ok?
    requires ChunkOffset(input, off, i + 1) - ChunkOffset(input, off, i) == StoredChunkSize
    ensures Concat(Pieces(input, off, count), i).Ok?
    ensures var at := |Concat(Pieces(input, off, count), i).value|;
            var start := ChunkOffset(input, off, i);
            var all := Concat(Pieces(input, off, count), count).value;
            && at + StoredChunkSize <= |all|
            && all[at..at + StoredChunkSize] == input[start..start + StoredChunkSize]
  {
    StoredChunk(input, off, count, i);
    ConcatPiece(Pieces(input, off, count), i, count);
  }

  /** In a successful concatenation, piece i sits right after the pieces
      before it. */
  lemma ConcatPiece(pieces: seq<Piece>, i: nat, n: nat)
    requires i < n <= |pieces| && Concat(pieces, n).Ok?
    ensures Concat(pieces, i).Ok? && pieces[i].Ok?
    ensures var at := |Concat(pieces, i).value|;
            var all := Concat(pieces, n).value;
            at + |pieces[i].value| <= |all| && all[at..at + |pieces[i].value|] == pieces[i].value
  {
    ConcatPrefix(pieces, i, n);
    var prefix, c, all := Concat(pieces, i).value, pieces[i].value, Concat(pieces, n).value;
    assert all[|prefix|..|prefix| + |c|] == (prefix + c)[|prefix|..];
  }

  /** The last chunk is always decoded, never stored, whatever the distance
      to the end of the input: the archive ends with its decoded block. */
  lemma LastChunkDecoded(input: seq<byte>, off: nat, count: nat)
    requires ChunkTable(input, off, count) && count >= 1
    requires Concat(Pieces(input, off, count), count).Ok?
    ensures var start := ChunkOffset(input, off, count - 1);
            var pieces := Pieces(input, off, count);
            && DoubleSpace.Decode(input[start..]).Ok?
            && Concat(pieces, count).value
                 == Concat(pieces, count - 1).value + DoubleSpace.Decode(input[start..]).value
  {
    var pieces := Pieces(input, off, count);
    assert pieces[count - 1] == Chunk(input, off, count, count - 1);
  }
}
