/**
 Decrypting one file, with one key or trying several, and how that undoes what the backend's
 encryption service writes.  The two ciphers are one abstract pair of functions: sealing and opening.
 */
module DecryptFile {
  import opened Prelude
  import opened Bytes
  import opened FileFormat

  type Key = seq<byte>

  /** Authenticated encryption under a key, an algorithm and a nonce. */
  datatype Cipher = Cipher(
    seal: (Key, Algorithm, seq<byte>, seq<byte>) -> seq<byte>,
    open: (Key, Algorithm, seq<byte>, seq<byte>) -> Option<seq<byte>>)

  /** What is sealed opens again under the same key, algorithm and nonce; sealing adds 16 bytes. */
  ghost predicate RoundTrips(c: Cipher) {
    forall k: Key, a: Algorithm, n: seq<byte>, p: seq<byte> ::
      c.open(k, a, n, c.seal(k, a, n, p)) == Some(p) && |c.seal(k, a, n, p)| == |p| + 16
  }

  /** Nothing sealed under `(k, a)` opens under `(k', a')`: what authentication promises of two keys. */
  ghost predicate Rejects(c: Cipher, k: Key, a: Algorithm, k': Key, a': Algorithm) {
    forall n: seq<byte>, p: seq<byte> :: c.open(k', a', n, c.seal(k, a, n, p)) == None
  }

  datatype DecryptError = BadFormat | Corrupted | KeyDecode | OpenFailed | NoKey

  function OfParse(e: ParseError): DecryptError {
    match e
    case InvalidFormat => BadFormat
    case CorruptedFile => Corrupted
  }

  // ---------- decrypting ----------

  /** The plaintext of `n` chunks read from `b`, or the first error met. */
  function OpenChunks(c: Cipher, k: Key, a: Algorithm, n: nat, b: seq<byte>): Result<seq<byte>, DecryptError> {
    if n == 0 then Ok([])
    else
      var first := ParseChunk(b);
      match first.0
      case Err(e) => Err(OfParse(e))
      case Ok(chunk) =>
        match c.open(k, a, chunk.nonce, chunk.ciphertext)
        case None => Err(OpenFailed)
        case Some(p) =>
          match OpenChunks(c, k, a, n - 1, first.1)
          case Err(e) => Err(e)
          case Ok(rest) => Ok(p + rest)
  }

  /** Decrypting a file; a key is `None` when its text does not decode to 32 bytes. */
  function Decrypted(c: Cipher, b: seq<byte>, key: Option<Key>): Result<seq<byte>, DecryptError> {
    match ParseHeader(b).0
    case Err(e) => Err(OfParse(e))
    case Ok(h) =>
      match key
      case None => Err(KeyDecode)
      case Some(k) => OpenChunks(c, k, h.algorithm, h.totalChunks, ParseHeader(b).1)
  }

  lemma {:induction false} OpenChunksAppends(
      c: Cipher, k: Key, a: Algorithm, n: nat, b: seq<byte>, p: seq<byte>, rest: Result<seq<byte>, DecryptError>)
    requires n > 0 && ParseChunk(b).0.Ok?
    requires c.open(k, a, ParseChunk(b).0.value.nonce, ParseChunk(b).0.value.ciphertext) == Some(p)
    requires rest == OpenChunks(c, k, a, n - 1, ParseChunk(b).1)
    ensures OpenChunks(c, k, a, n, b) == Joined(p, rest)
  {
  }

  function Joined(p: seq<byte>, r: Result<seq<byte>, DecryptError>): Result<seq<byte>, DecryptError> {
    match r
    case Err(e) => Err(e)
    case Ok(q) => Ok(p + q)
  }

  lemma JoinedNothing(r: Result<seq<byte>, DecryptError>)
    ensures Joined([], r) == r
  {
    if r.Ok? {
      assert [] + r.value == r.value;
    }
  }

  lemma JoinedTwice(p: seq<byte>, q: seq<byte>, r: Result<seq<byte>, DecryptError>)
    ensures Joined(p, Joined(q, r)) == Joined(p + q, r)
  {
    if r.Ok? {
      assert p + (q + r.value) == (p + q) + r.value;
    }
  }

  method DecryptBytes(c: Cipher, b: seq<byte>, key: Option<Key>) returns (out: Result<seq<byte>, DecryptError>)
    ensures out == Decrypted(c, b, key)
  {
    var reader := new Reader(b);
    var header := ReadHeader(reader);
    if header.Err? {
      return Err(OfParse(header.error));
    }
    if key.None? {
      return Err(KeyDecode);
    }
    var h := header.value;
    var chunks := new ChunkReader(reader, h.totalChunks);
    var written := [];
    JoinedNothing(OpenChunks(c, key.value, h.algorithm, h.totalChunks, reader.rest));
    ghost var whole := OpenChunks(c, key.value, h.algorithm, h.totalChunks, reader.rest);
    while chunks.currentChunk < h.totalChunks
      invariant chunks.reader == reader && chunks.totalChunks == h.totalChunks
      invariant chunks.currentChunk <= h.totalChunks
      invariant whole
             == Joined(written, OpenChunks(c, key.value, h.algorithm, h.totalChunks - chunks.currentChunk, reader.rest))
      decreases h.totalChunks - chunks.currentChunk
    {
      ghost var rest, left := reader.rest, h.totalChunks - chunks.currentChunk;
      var chunk := chunks.ReadNextChunk();
      if chunk.Err? {
        return Err(OfParse(chunk.error));
      }
      var plain := c.open(key.value, h.algorithm, chunk.value.value.nonce, chunk.value.value.ciphertext);
      if plain.None? {
        return Err(OpenFailed);
      }
      ghost var later := OpenChunks(c, key.value, h.algorithm, left - 1, reader.rest);
      OpenChunksAppends(c, key.value, h.algorithm, left, rest, plain.value, later);
      JoinedTwice(written, plain.value, later);
      written := written + plain.value;
    }
    assert written + [] == written;
    return Ok(written);
  }

  // ---------- trying several keys ----------

  /** The first key whose attempt does not end in a failed opening decides; if every opening fails, so
      does the whole. */
  function WithAnyKey(c: Cipher, b: seq<byte>, keys: seq<Option<Key>>): Result<seq<byte>, DecryptError> {
    if keys == [] then Err(NoKey)
    else
      var first := Decrypted(c, b, keys[0]);
      if first != Err(OpenFailed) || |keys| == 1 then first
      else WithAnyKey(c, b, keys[1..])
  }

  method DecryptWithAnyKey(c: Cipher, b: seq<byte>, keys: seq<Option<Key>>) returns (r: Result<seq<byte>, DecryptError>)
    ensures r == WithAnyKey(c, b, keys)
  {
    if keys == [] {
      return Err(NoKey);
    }
    var last := Err(NoKey);
    var i := 0;
    while i < |keys|
      invariant 0 <= i <= |keys|
      invariant i < |keys| ==> WithAnyKey(c, b, keys) == WithAnyKey(c, b, keys[i..])
      invariant i > 0 ==> last == Err(OpenFailed)
      invariant i == |keys| ==> WithAnyKey(c, b, keys) == Err(OpenFailed)
    {
      var attempt := DecryptBytes(c, b, keys[i]);
      assert keys[i..][0] == keys[i] && keys[i..][1..] == keys[i + 1..];
      if attempt != Err(OpenFailed) {
        return attempt;
      }
      last := attempt;
      i := i + 1;
    }
    return last;
  }

  /** The error of a file that cannot be decrypted: a bad header first, then an unusable key. */
  lemma HeaderComesFirst(c: Cipher, b: seq<byte>, key: Option<Key>)
    ensures ParseHeader(b).0.Err? ==> Decrypted(c, b, key) == Err(BadFormat)
    ensures ParseHeader(b).0.Ok? && key == None ==> Decrypted(c, b, key) == Err(KeyDecode)
  {
  }

  /** Then the first chunk that is not right decides: corrupted when it cannot be read, failed when it does not
      open.  Here the chunks before it are whole and open. */
  lemma {:induction false} FirstBadChunkDecides(
      c: Cipher, k: Key, a: Algorithm, n: nat, good: seq<Chunk>, tail: seq<byte>)
    requires |good| < n && GoodChunks(good)
    requires forall i :: 0 <= i < |good| ==> c.open(k, a, good[i].nonce, good[i].ciphertext).Some?
    ensures ParseChunk(tail).0.Err? ==> OpenChunks(c, k, a, n, EncodeChunks(good) + tail) == Err(Corrupted)
    ensures ParseChunk(tail).0.Ok?
            && c.open(k, a, ParseChunk(tail).0.value.nonce, ParseChunk(tail).0.value.ciphertext) == None ==>
              OpenChunks(c, k, a, n, EncodeChunks(good) + tail) == Err(OpenFailed)
  {
    if good == [] {
      assert EncodeChunks(good) + tail == tail;
      ChunkIsRefused(tail);
    } else {
      var later := EncodeChunks(good[1..]) + tail;
      assert EncodeChunks(good) + tail == EncodeChunk(good[0]) + later;
      ParseEncodedChunk(good[0], later);
      FirstBadChunkDecides(c, k, a, n - 1, good[1..], tail);
    }
  }

  /** Trying keys answers with the first attempt that is not a failed opening; when all are, with a failed
      opening, and without keys with that. */
  lemma {:induction false} FirstDecidingKeyAnswers(c: Cipher, b: seq<byte>, keys: seq<Option<Key>>, i: nat)
    requires i <= |keys| && forall j :: 0 <= j < i ==> Decrypted(c, b, keys[j]) == Err(OpenFailed)
    requires i < |keys| ==> Decrypted(c, b, keys[i]) != Err(OpenFailed)
    ensures WithAnyKey(c, b, keys) ==
      if keys == [] then Err(NoKey) else if i < |keys| then Decrypted(c, b, keys[i]) else Err(OpenFailed)
  {
    if i > 0 && |keys| > 1 {
      FirstDecidingKeyAnswers(c, b, keys[1..], i - 1);
    }
  }

  // ---------- what the encryption service writes ----------

  const PIECE: nat := 16 * 1024 * 1024

  /** The input cut into pieces of 16 MiB. */
  function Pieces(p: seq<byte>): (r: seq<seq<byte>>)
    ensures forall i :: 0 <= i < |r| ==> |r[i]| <= PIECE
    ensures |r| == (|p| + PIECE - 1) / PIECE
    decreases |p|
  {
    if p == [] then []
    else if |p| <= PIECE then [p]
    else [p[..PIECE]] + Pieces(p[PIECE..])
  }

  function Flat(pieces: seq<seq<byte>>): seq<byte> {
    if pieces == [] then [] else pieces[0] + Flat(pieces[1..])
  }

  /** Pieces sealed one by one under nonces derived from the master nonce and the running index. */
  function SealPieces(c: Cipher, k: Key, a: Algorithm, master: seq<byte>, index: nat, pieces: seq<seq<byte>>)
    : (r: seq<Chunk>)
    requires |master| == 12
    ensures |r| == |pieces|
    decreases |pieces|
  {
    if pieces == [] then []
    else
      var nonce := ChunkNonce(master, index);
      [Chunk(nonce, c.seal(k, a, nonce, pieces[0]))] + SealPieces(c, k, a, master, index + 1, pieces[1..])
  }

  /** A file whose header announces `announced` and whose pieces are sealed with `a`. */
  function EncryptedAs(c: Cipher, k: Key, announced: Algorithm, a: Algorithm, master: seq<byte>, p: seq<byte>)
    : seq<byte>
    requires |master| == 12
  {
    var pieces := Pieces(p);
    EncodeFile(Header(FILE_MAGIC, announced, master, |p|, |pieces|), SealPieces(c, k, a, master, 0, pieces))
  }

  lemma {:induction false} FlatPieces(p: seq<byte>)
    ensures Flat(Pieces(p)) == p
    decreases |p|
  {
    if |p| > PIECE {
      FlatPieces(p[PIECE..]);
      assert ([p[..PIECE]] + Pieces(p[PIECE..]))[1..] == Pieces(p[PIECE..]);
    } else if p != [] {
      assert [p][1..] == [];
      assert p + [] == p;
    }
  }

  lemma {:induction false} SealedIsGood(
      c: Cipher, k: Key, a: Algorithm, master: seq<byte>, index: nat, pieces: seq<seq<byte>>)
    requires RoundTrips(c) && |master| == 12
    requires forall i :: 0 <= i < |pieces| ==> |pieces[i]| <= PIECE
    ensures GoodChunks(SealPieces(c, k, a, master, index, pieces))
    decreases |pieces|
  {
    if pieces != [] {
      SealedIsGood(c, k, a, master, index + 1, pieces[1..]);
    }
  }

  /** Opening an encoded list of chunks, one at a time. */
  lemma OpenEncoded(c: Cipher, k: Key, a: Algorithm, cs: seq<Chunk>, tail: seq<byte>)
    requires GoodChunks(cs) && cs != []
    ensures OpenChunks(c, k, a, |cs|, EncodeChunks(cs) + tail)
         == match c.open(k, a, cs[0].nonce, cs[0].ciphertext)
            case None => Err(OpenFailed)
            case Some(p) => Joined(p, OpenChunks(c, k, a, |cs| - 1, EncodeChunks(cs[1..]) + tail))
  {
    var later := EncodeChunks(cs[1..]) + tail;
    assert EncodeChunks(cs) + tail == EncodeChunk(cs[0]) + later;
    ParseEncodedChunk(cs[0], later);
  }

  lemma {:induction false} OpenSealed(
      c: Cipher, k: Key, a: Algorithm, master: seq<byte>, index: nat, pieces: seq<seq<byte>>)
    requires RoundTrips(c) && |master| == 12
    requires forall i :: 0 <= i < |pieces| ==> |pieces[i]| <= PIECE
    ensures var cs := SealPieces(c, k, a, master, index, pieces);
            OpenChunks(c, k, a, |cs|, EncodeChunks(cs) + []) == Ok(Flat(pieces))
    decreases |pieces|
  {
    var cs := SealPieces(c, k, a, master, index, pieces);
    if pieces != [] {
      SealedIsGood(c, k, a, master, index, pieces);
      OpenEncoded(c, k, a, cs, []);
      assert cs[1..] == SealPieces(c, k, a, master, index + 1, pieces[1..]);
      OpenSealed(c, k, a, master, index + 1, pieces[1..]);
    }
  }

  /** Sizes the format can express: the chunk count fits its four bytes. */
  predicate Fits(p: seq<byte>) { |p| <= (Pow256(4) - 1) * PIECE }

  lemma PieceCount(p: seq<byte>)
    ensures Fits(p) <==> |Pieces(p)| < Pow256(4)
    ensures Fits(p) ==> |p| < Pow256(8)
  {
    WordSizes();
  }

  lemma EncryptedParses(c: Cipher, k: Key, announced: Algorithm, a: Algorithm, master: seq<byte>, p: seq<byte>)
    requires RoundTrips(c) && |master| == 12 && Fits(p)
    ensures var pieces := Pieces(p);
            ParseHeader(EncryptedAs(c, k, announced, a, master, p))
            == (Ok(Header(FILE_MAGIC, announced, master, |p|, |pieces|)),
                EncodeChunks(SealPieces(c, k, a, master, 0, pieces)) + [])
  {
    var pieces := Pieces(p);
    var h := Header(FILE_MAGIC, announced, master, |p|, |pieces|);
    PieceCount(p);
    var body := EncodeChunks(SealPieces(c, k, a, master, 0, pieces));
    assert body + [] == body;
    ParseEncodedHeader(h, body + []);
  }

  /** The command line tool recovers what was encrypted under the announced algorithm. */
  lemma DecryptionInverts(c: Cipher, k: Key, a: Algorithm, master: seq<byte>, p: seq<byte>)
    requires RoundTrips(c) && |master| == 12 && Fits(p)
    ensures Decrypted(c, EncryptedAs(c, k, a, a, master, p), Some(k)) == Ok(p)
  {
    EncryptedParses(c, k, a, a, master, p);
    OpenSealed(c, k, a, master, 0, Pieces(p));
    FlatPieces(p);
  }

  /** A file with at least one chunk does not open under a key or algorithm that rejects its chunks. */
  lemma WrongKeyFails(c: Cipher, k: Key, announced: Algorithm, a: Algorithm, master: seq<byte>, p: seq<byte>, k': Key)
    requires RoundTrips(c) && Rejects(c, k, a, k', announced) && |master| == 12 && Fits(p) && p != []
    ensures Decrypted(c, EncryptedAs(c, k, announced, a, master, p), Some(k')) == Err(OpenFailed)
  {
    EncryptedParses(c, k, announced, a, master, p);
    var pieces := Pieces(p);
    assert pieces != [];
    SealedIsGood(c, k, a, master, 0, pieces);
    OpenEncoded(c, k', announced, SealPieces(c, k, a, master, 0, pieces), []);
  }

  /** The chunked path of the service seals with AES whatever algorithm it announces, so its files come
      back exactly when it announced AES or there was nothing to seal. */
  lemma ServiceFileRoundTrip(c: Cipher, k: Key, announced: Algorithm, master: seq<byte>, p: seq<byte>)
    requires RoundTrips(c) && |master| == 12 && Fits(p)
    requires announced != Aes256Gcm ==> Rejects(c, k, Aes256Gcm, k, announced)
    ensures Decrypted(c, EncryptedAs(c, k, announced, Aes256Gcm, master, p), Some(k)) == Ok(p)
       <==> announced == Aes256Gcm || p == []
  {
    if announced == Aes256Gcm {
      DecryptionInverts(c, k, announced, master, p);
    } else if p == [] {
      EncryptedParses(c, k, announced, Aes256Gcm, master, p);
    } else {
      WrongKeyFails(c, k, announced, Aes256Gcm, master, p, k);
    }
  }

  /** Position of the first key that ends the search: the right one, or one that does not decode. */
  function Decider(keys: seq<Option<Key>>, k: Key): (i: nat)
    ensures i <= |keys|
  {
    if keys == [] then 0
    else if keys[0] == None || keys[0] == Some(k) then 0
    else 1 + Decider(keys[1..], k)
  }

  /** Trying keys recovers a file exactly when its key is among them and no key before it fails to decode;
      an empty file, which has nothing to open, exactly when the first key decodes. */
  lemma {:induction false} AnyKeyFindsTheKey(
      c: Cipher, k: Key, a: Algorithm, master: seq<byte>, p: seq<byte>, keys: seq<Option<Key>>)
    requires RoundTrips(c) && |master| == 12 && Fits(p)
    requires forall i :: 0 <= i < |keys| && keys[i].Some? && keys[i].value != k ==> Rejects(c, k, a, keys[i].value, a)
    ensures WithAnyKey(c, EncryptedAs(c, k, a, a, master, p), keys) == Ok(p)
       <==> if p == [] then keys != [] && keys[0].Some?
            else Decider(keys, k) < |keys| && keys[Decider(keys, k)] == Some(k)
    decreases |keys|
  {
    if keys != [] {
      var b := EncryptedAs(c, k, a, a, master, p);
      if keys[0] == Some(k) {
        DecryptionInverts(c, k, a, master, p);
      } else if keys[0] == None || p == [] {
        EncryptedParses(c, k, a, a, master, p);
      } else {
        WrongKeyFails(c, k, a, a, master, p, keys[0].value);
        AnyKeyFindsTheKey(c, k, a, master, p, keys[1..]);
      }
    }
  }

  /** Every piece but the last is full, and the last is not empty. */
  lemma {:induction false} PiecesAreFull(p: seq<byte>)
    ensures forall i :: 0 <= i < |Pieces(p)| - 1 ==> |Pieces(p)[i]| == 16 * 1024 * 1024
    ensures p != [] ==> Pieces(p) != [] && Pieces(p)[|Pieces(p)| - 1] != []
    decreases |p|
  {
    if |p| > PIECE { PiecesAreFull(p[PIECE..]); }
  }
}
