/**
 The encrypted file format: a 31-byte header and length-prefixed chunks.  The parser is modelled as
 it runs, on a reader that advances; the printer is the documented layout.  Parsing inverts printing.
 */
module FileFormat {
  import opened Prelude
  import opened Bytes

  const FILE_MAGIC: seq<byte> := [0xA3, 0x7F, 0x2C, 0x91, 0xE4, 0x5B]
  const HEADER_SIZE: nat := 31
  const MAX_CHUNK_SIZE: nat := 16 * 1024 * 1024 + 16

  datatype Algorithm = Aes256Gcm | ChaCha20Poly1305

  function FromByte(b: byte): Option<Algorithm> {
    if b == 0 then Some(Aes256Gcm) else if b == 1 then Some(ChaCha20Poly1305) else None
  }

  function ToByte(a: Algorithm): byte {
    match a
    case Aes256Gcm => 0
    case ChaCha20Poly1305 => 1
  }

  datatype Header = Header(
    magic: seq<byte>, algorithm: Algorithm, masterNonce: seq<byte>, originalSize: nat, totalChunks: nat)

  datatype Chunk = Chunk(nonce: seq<byte>, ciphertext: seq<byte>)

  datatype ParseError = InvalidFormat | CorruptedFile

  // ---------- the documented layout ----------

  predicate GoodHeader(h: Header) {
    && h.magic == FILE_MAGIC && |h.masterNonce| == 12
    && h.originalSize < Pow256(8) && h.totalChunks < Pow256(4)
  }

  predicate GoodChunk(c: Chunk) { |c.nonce| == 12 && |c.ciphertext| <= MAX_CHUNK_SIZE }

  predicate GoodChunks(cs: seq<Chunk>) { forall i :: 0 <= i < |cs| ==> GoodChunk(cs[i]) }

  predicate GoodFile(h: Header, cs: seq<Chunk>) {
    GoodHeader(h) && GoodChunks(cs) && h.totalChunks == |cs|
  }

  function EncodeHeader(h: Header): seq<byte> {
    h.magic + [ToByte(h.algorithm)] + h.masterNonce + ToLe(h.originalSize, 8) + ToLe(h.totalChunks, 4)
  }

  function EncodeChunk(c: Chunk): seq<byte> { c.nonce + ToLe(|c.ciphertext|, 4) + c.ciphertext }

  function EncodeChunks(cs: seq<Chunk>): seq<byte> {
    if cs == [] then [] else EncodeChunk(cs[0]) + EncodeChunks(cs[1..])
  }

  function EncodeFile(h: Header, cs: seq<Chunk>): seq<byte> { EncodeHeader(h) + EncodeChunks(cs) }

  // ---------- what the parser computes: a result and the bytes left unread ----------

  function ParseHeader(b: seq<byte>): (Result<Header, ParseError>, seq<byte>) {
    if |b| < HEADER_SIZE then (Err(InvalidFormat), [])
    else
      var rest := b[HEADER_SIZE..];
      if b[0..6] != FILE_MAGIC then (Err(InvalidFormat), rest)
      else
        match FromByte(b[6])
        case None => (Err(InvalidFormat), rest)
        case Some(a) => (Ok(Header(b[0..6], a, b[7..19], FromLe(b[19..27]), FromLe(b[27..31]))), rest)
  }

  function ParseChunk(b: seq<byte>): (Result<Chunk, ParseError>, seq<byte>) {
    if |b| < 16 then (Err(CorruptedFile), [])
    else
      var len := FromLe(b[12..16]);
      var rest := b[16..];
      if len > MAX_CHUNK_SIZE then (Err(CorruptedFile), rest)
      else if |rest| < len then (Err(CorruptedFile), [])
      else (Ok(Chunk(b[..12], rest[..len])), rest[len..])
  }

  function ParseChunks(n: nat, b: seq<byte>): (Result<seq<Chunk>, ParseError>, seq<byte>) {
    if n == 0 then (Ok([]), b)
    else
      var first := ParseChunk(b);
      match first.0
      case Err(e) => (Err(e), first.1)
      case Ok(c) =>
        var others := ParseChunks(n - 1, first.1);
        match others.0
        case Err(e) => (Err(e), others.1)
        case Ok(cs) => (Ok([c] + cs), others.1)
  }

  function ParseFile(b: seq<byte>): (Result<(Header, seq<Chunk>), ParseError>, seq<byte>) {
    var header := ParseHeader(b);
    match header.0
    case Err(e) => (Err(e), header.1)
    case Ok(h) =>
      var chunks := ParseChunks(h.totalChunks, header.1);
      match chunks.0
      case Err(e) => (Err(e), chunks.1)
      case Ok(cs) => (Ok((h, cs)), chunks.1)
  }

  // ---------- the parser as it runs ----------

  /** A byte source that is read front to back. */
  class Reader {
    var rest: seq<byte>

    constructor (b: seq<byte>)
      ensures rest == b
    {
      rest := b;
    }

    /** `read_exact`: exactly `n` bytes, or the unexpected-end error with everything consumed. */
    method ReadExact(n: nat) returns (b: Option<seq<byte>>)
      modifies this
      ensures b == if |old(rest)| < n then None else Some(old(rest)[..n])
      ensures rest == if |old(rest)| < n then [] else old(rest)[n..]
    {
      if |rest| < n {
        rest := [];
        return None;
      }
      b := Some(rest[..n]);
      rest := rest[n..];
    }
  }

  method ReadHeader(reader: Reader) returns (h: Result<Header, ParseError>)
    modifies reader
    ensures (h, reader.rest) == ParseHeader(old(reader.rest))
  {
    var bytes := reader.ReadExact(HEADER_SIZE);
    if bytes.None? {
      return Err(InvalidFormat);
    }
    var b := bytes.value;
    ghost var whole := old(reader.rest);
    assert b[0..6] == whole[0..6] && b[7..19] == whole[7..19];
    assert b[19..27] == whole[19..27] && b[27..31] == whole[27..31];
    if b[0..6] != FILE_MAGIC {
      return Err(InvalidFormat);
    }
    var algorithm := FromByte(b[6]);
    if algorithm.None? {
      return Err(InvalidFormat);
    }
    return Ok(Header(b[0..6], algorithm.value, b[7..19], FromLe(b[19..27]), FromLe(b[27..31])));
  }

  class ChunkReader {
    const reader: Reader
    const totalChunks: nat
    var currentChunk: nat

    constructor (reader: Reader, totalChunks: nat)
      ensures this.reader == reader && this.totalChunks == totalChunks && currentChunk == 0
    {
      this.reader := reader;
      this.totalChunks := totalChunks;
      currentChunk := 0;
    }

    method ReadNextChunk() returns (c: Result<Option<Chunk>, ParseError>)
      modifies this, reader
      ensures old(currentChunk) >= totalChunks ==>
        c == Ok(None) && reader.rest == old(reader.rest) && currentChunk == old(currentChunk)
      ensures old(currentChunk) < totalChunks ==>
        && reader.rest == ParseChunk(old(reader.rest)).1
        && (match ParseChunk(old(reader.rest)).0
            case Err(e) => c == Err(e) && currentChunk == old(currentChunk)
            case Ok(chunk) => c == Ok(Some(chunk)) && currentChunk == old(currentChunk) + 1)
    {
      if currentChunk >= totalChunks {
        return Ok(None);
      }
      ghost var b := reader.rest;
      var nonce := reader.ReadExact(12);
      if nonce.None? {
        return Err(CorruptedFile);
      }
      var lenBytes := reader.ReadExact(4);
      if lenBytes.None? {
        return Err(CorruptedFile);
      }
      assert lenBytes.value == b[12..16] && reader.rest == b[16..];
      var len := FromLe(lenBytes.value);
      if len > MAX_CHUNK_SIZE {
        return Err(CorruptedFile);
      }
      var ciphertext := reader.ReadExact(len);
      if ciphertext.None? {
        return Err(CorruptedFile);
      }
      currentChunk := currentChunk + 1;
      return Ok(Some(Chunk(nonce.value, ciphertext.value)));
    }
  }

  // ---------- parsing inverts printing ----------

  lemma ParseEncodedHeader(h: Header, tail: seq<byte>)
    requires GoodHeader(h)
    ensures ParseHeader(EncodeHeader(h) + tail) == (Ok(h), tail)
  {
    var b := EncodeHeader(h) + tail;
    assert b[0..6] == h.magic;
    assert b[7..19] == h.masterNonce;
    assert b[19..27] == ToLe(h.originalSize, 8);
    assert b[27..31] == ToLe(h.totalChunks, 4);
    assert b[31..] == tail;
    FromToLe(h.originalSize, 8);
    FromToLe(h.totalChunks, 4);
  }

  lemma EncodeParsedHeader(b: seq<byte>)
    requires ParseHeader(b).0.Ok?
    ensures GoodHeader(ParseHeader(b).0.value)
    ensures b == EncodeHeader(ParseHeader(b).0.value) + ParseHeader(b).1
  {
    ToFromLe(b[19..27]);
    ToFromLe(b[27..31]);
    assert b == b[0..6] + [b[6]] + b[7..19] + b[19..27] + b[27..31] + b[31..];
  }

  lemma ParseEncodedChunk(c: Chunk, tail: seq<byte>)
    requires GoodChunk(c)
    ensures ParseChunk(EncodeChunk(c) + tail) == (Ok(c), tail)
  {
    var b := EncodeChunk(c) + tail;
    WordSizes();
    FromToLe(|c.ciphertext|, 4);
    assert b[..12] == c.nonce;
    assert b[12..16] == ToLe(|c.ciphertext|, 4);
    assert b[16..] == c.ciphertext + tail;
  }

  lemma EncodeParsedChunk(b: seq<byte>)
    requires ParseChunk(b).0.Ok?
    ensures GoodChunk(ParseChunk(b).0.value)
    ensures b == EncodeChunk(ParseChunk(b).0.value) + ParseChunk(b).1
  {
    ToFromLe(b[12..16]);
    var len := FromLe(b[12..16]);
    assert b == b[..12] + b[12..16] + b[16..][..len] + b[16..][len..];
  }

  lemma {:induction false} ParseEncodedChunks(cs: seq<Chunk>, tail: seq<byte>)
    requires GoodChunks(cs)
    ensures ParseChunks(|cs|, EncodeChunks(cs) + tail) == (Ok(cs), tail)
  {
    if cs == [] {
      assert EncodeChunks(cs) + tail == tail;
    } else {
      var later := EncodeChunks(cs[1..]) + tail;
      assert EncodeChunks(cs) + tail == EncodeChunk(cs[0]) + later;
      ParseEncodedChunk(cs[0], later);
      ParseEncodedChunks(cs[1..], tail);
      assert [cs[0]] + cs[1..] == cs;
    }
  }

  lemma {:induction false} EncodeParsedChunks(n: nat, b: seq<byte>)
    requires ParseChunks(n, b).0.Ok?
    ensures var r := ParseChunks(n, b);
            |r.0.value| == n && GoodChunks(r.0.value) && b == EncodeChunks(r.0.value) + r.1
  {
    if n == 0 {
      assert b == EncodeChunks([]) + b;
    } else {
      var first := ParseChunk(b);
      EncodeParsedChunk(b);
      EncodeParsedChunks(n - 1, first.1);
      var cs := ParseChunks(n - 1, first.1).0.value;
      assert ([first.0.value] + cs)[1..] == cs;
      var tail := ParseChunks(n, b).1;
      assert EncodeChunks([first.0.value] + cs) == EncodeChunk(first.0.value) + EncodeChunks(cs);
      Associates(EncodeChunk(first.0.value), EncodeChunks(cs), tail);
    }
  }

  /** Parsing an encoded file returns its header and chunks and leaves exactly the bytes after it. */
  lemma ParseEncodedFile(h: Header, cs: seq<Chunk>, tail: seq<byte>)
    requires GoodFile(h, cs)
    ensures ParseFile(EncodeFile(h, cs) + tail) == (Ok((h, cs)), tail)
  {
    Associates(EncodeHeader(h), EncodeChunks(cs), tail);
    ParseEncodedHeader(h, EncodeChunks(cs) + tail);
    ParseEncodedChunks(cs, tail);
  }

  /** A successful parse means that what was consumed is exactly the encoding of what was returned. */
  lemma EncodeParsedFile(b: seq<byte>)
    requires ParseFile(b).0.Ok?
    ensures var (r, tail) := ParseFile(b);
            GoodFile(r.value.0, r.value.1) && b == EncodeFile(r.value.0, r.value.1) + tail
  {
    EncodeParsedHeader(b);
    var (header, after) := ParseHeader(b);
    EncodeParsedChunks(header.value.totalChunks, after);
    var (r, tail) := ParseFile(b);
    assert EncodeHeader(r.value.0) + (EncodeChunks(r.value.1) + tail) == EncodeFile(r.value.0, r.value.1) + tail;
  }

  /** A file cut off anywhere is rejected. */
  lemma PrefixIsRejected(h: Header, cs: seq<Chunk>, k: nat)
    requires GoodFile(h, cs)
    requires k < |EncodeFile(h, cs)|
    ensures ParseFile(EncodeFile(h, cs)[..k]).0.Err?
  {
    var whole := EncodeFile(h, cs);
    var b, cut := whole[..k], whole[k..];
    if ParseFile(b).0.Ok? {
      EncodeParsedFile(b);
      var (r, tail) := ParseFile(b);
      Associates(EncodeFile(r.value.0, r.value.1), tail, cut);
      assert whole == b + cut;
      assert whole + [] == whole;
      ParseEncodedFile(h, cs, []);
      ParseEncodedFile(r.value.0, r.value.1, tail + cut);
      assert false;
    }
  }

  // ---------- chunk nonces ----------

  /** The first `i` of the last four bytes combined with `x`. */
  function XorTail(master: seq<byte>, x: seq<byte>, i: nat): (n: seq<byte>)
    requires |master| == 12 && |x| == 4 && i <= 4
    ensures |n| == 12
  {
    if i == 0 then master
    else
      var before := XorTail(master, x, i - 1);
      before[7 + i := Xor(before[7 + i], x[i - 1])]
  }

  /** The master nonce with its last four bytes combined with the chunk index. */
  function ChunkNonce(master: seq<byte>, index: nat): (n: seq<byte>)
    requires |master| == 12
    ensures |n| == 12
  {
    XorTail(master, ToLe(index, 4), 4)
  }

  method DeriveChunkNonce(master: seq<byte>, index: nat) returns (nonce: seq<byte>)
    requires |master| == 12
    ensures nonce == ChunkNonce(master, index)
  {
    nonce := master;
    var x := ToLe(index, 4);
    var i := 0;
    while i < 4
      invariant 0 <= i <= 4 && |nonce| == 12
      invariant nonce == XorTail(master, x, i)
    {
      nonce := nonce[8 + i := Xor(nonce[8 + i], x[i])];
      i := i + 1;
    }
  }

  /** The first eight bytes stay, the others are combined one by one. */
  lemma {:induction false} TailByte(m: seq<byte>, x: seq<byte>, i: nat, j: nat)
    requires |m| == 12 && |x| == 4 && i <= 4 && j < 12
    ensures XorTail(m, x, i)[j] == if 8 <= j < 8 + i then Xor(m[j], x[j - 8]) else m[j]
  {
    if i > 0 {
      TailByte(m, x, i - 1, j);
      TailByte(m, x, i - 1, 7 + i);
    }
  }

  /** What was combined in can be read back from the two nonces. */
  lemma TailReadsBack(m: seq<byte>, x: seq<byte>, k: nat)
    requires |m| == 12 && |x| == 4 && k < 4
    ensures x[k] == Xor(XorTail(m, x, 4)[8 + k], m[8 + k])
  {
    TailByte(m, x, 4, 8 + k);
    XorCancels(m[8 + k], x[k]);
  }

  /** No two chunks of a file share a nonce: indices that fit 32 bits give distinct nonces. */
  lemma NoncesAreDistinct(master: seq<byte>, i: nat, j: nat)
    requires |master| == 12 && i < Pow256(4) && j < Pow256(4)
    requires ChunkNonce(master, i) == ChunkNonce(master, j)
    ensures i == j
  {
    var a, b := ToLe(i, 4), ToLe(j, 4);
    forall k | 0 <= k < 4
      ensures a[k] == b[k]
    {
      TailReadsBack(master, a, k);
      TailReadsBack(master, b, k);
    }
    SameBytes(a, b);
    FromToLe(i, 4);
    FromToLe(j, 4);
  }

  lemma SameBytes(a: seq<byte>, b: seq<byte>)
    requires |a| == |b| && forall k :: 0 <= k < |a| ==> a[k] == b[k]
    ensures a == b
  {
  }

  // ---------- the layout, byte by byte ----------

  /** Where the fields of a header stand: magic, algorithm, nonce, original size, chunk count. */
  lemma HeaderLayout(h: Header)
    requires GoodHeader(h)
    ensures var b := EncodeHeader(h);
            && |b| == 31
            && b[..6] == [0xA3, 0x7F, 0x2C, 0x91, 0xE4, 0x5B]
            && b[6] == (if h.algorithm == Aes256Gcm then 0 else 1)
            && b[7..19] == h.masterNonce
            && (forall k :: 0 <= k < 8 ==> b[19 + k] == (h.originalSize / Pow256(k)) % 256)
            && forall k :: 0 <= k < 4 ==> b[27 + k] == (h.totalChunks / Pow256(k)) % 256
  {
    var b := EncodeHeader(h);
    forall k | 0 <= k < 8
      ensures b[19 + k] == (h.originalSize / Pow256(k)) % 256
    {
      LittleEndian(h.originalSize, 8, k);
    }
    forall k | 0 <= k < 4
      ensures b[27 + k] == (h.totalChunks / Pow256(k)) % 256
    {
      LittleEndian(h.totalChunks, 4, k);
    }
  }

  /** Where the fields of a chunk stand: nonce, length, ciphertext. */
  lemma ChunkLayout(c: Chunk)
    requires GoodChunk(c)
    ensures var b := EncodeChunk(c);
            && |b| == 16 + |c.ciphertext| && b[..12] == c.nonce && b[16..] == c.ciphertext
            && forall k :: 0 <= k < 4 ==> b[12 + k] == (|c.ciphertext| / Pow256(k)) % 256
  {
    forall k | 0 <= k < 4
      ensures EncodeChunk(c)[12 + k] == (|c.ciphertext| / Pow256(k)) % 256
    {
      LittleEndian(|c.ciphertext|, 4, k);
    }
  }

  /** A header is refused exactly when it is short, has another magic, or an unknown algorithm, and always as a
      bad format. */
  lemma HeaderIsRefused(b: seq<byte>)
    ensures ParseHeader(b).0.Err? <==> |b| < 31 || b[..6] != [0xA3, 0x7F, 0x2C, 0x91, 0xE4, 0x5B] || b[6] > 1
    ensures ParseHeader(b).0.Err? ==> ParseHeader(b).0.error == InvalidFormat
  {
    if |b| >= 6 { assert b[0..6] == b[..6]; }
  }

  /** A chunk is refused exactly when nonce and length are cut off, the length exceeds 16 MiB and a tag, or the
      ciphertext is cut off, and always as a corrupted file. */
  lemma ChunkIsRefused(b: seq<byte>)
    ensures ParseChunk(b).0.Err? <==>
      |b| < 16 || FromLe(b[12..16]) > 16 * 1024 * 1024 + 16 || |b| < 16 + FromLe(b[12..16])
    ensures ParseChunk(b).0.Err? ==> ParseChunk(b).0.error == CorruptedFile
  {
  }

  /** The nonce of a chunk: the first eight bytes of the master nonce, then its last four, each combined with
      one byte of the chunk index, least significant first. */
  lemma NonceLayout(master: seq<byte>, index: nat, k: nat)
    requires |master| == 12 && k < 12
    ensures ChunkNonce(master, index)[k] ==
      if k < 8 then master[k] else Xor(master[k], (index / Pow256(k - 8)) % 256)
  {
    TailByte(master, ToLe(index, 4), 4, k);
    if k >= 8 { LittleEndian(index, 4, k - 8); }
  }
}
