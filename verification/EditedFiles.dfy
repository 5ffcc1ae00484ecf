/**
 Which edited files the decryption accepts.  Chunk nonces are read from the file and the original size
 in the header is never compared, so chunks of a file can be dropped, repeated or moved.
 */
module EditedFiles {
  import opened Prelude
  import opened Bytes
  import opened FileFormat
  import opened DecryptFile

  /** The plaintexts of the chunks, if all of them open. */
  function OpenAll(c: Cipher, k: Key, a: Algorithm, cs: seq<Chunk>): Option<seq<seq<byte>>> {
    if cs == [] then Some([])
    else
      match (c.open(k, a, cs[0].nonce, cs[0].ciphertext), OpenAll(c, k, a, cs[1..]))
      case (Some(p), Some(ps)) => Some([p] + ps)
      case _ => None
  }

  function OfOpened(r: Option<seq<seq<byte>>>): Result<seq<byte>, DecryptError> {
    match r
    case None => Err(OpenFailed)
    case Some(ps) => Ok(Flat(ps))
  }

  lemma {:induction false} OpenParsedChunks(c: Cipher, k: Key, a: Algorithm, n: nat, b: seq<byte>)
    ensures var parsed := ParseChunks(n, b).0;
            if parsed.Ok? then OpenChunks(c, k, a, n, b) == OfOpened(OpenAll(c, k, a, parsed.value))
            else OpenChunks(c, k, a, n, b).Err?
  {
    if n > 0 && ParseChunk(b).0.Ok? {
      var (first, rest) := ParseChunk(b);
      OpenParsedChunks(c, k, a, n - 1, rest);
      if ParseChunks(n - 1, rest).0.Ok? { OpenFirst(c, k, a, n, b, ParseChunks(n - 1, rest).0.value); }
    }
  }

  lemma OpenFirst(c: Cipher, k: Key, a: Algorithm, n: nat, b: seq<byte>, later: seq<Chunk>)
    requires n > 0 && ParseChunk(b).0.Ok?
    requires OpenChunks(c, k, a, n - 1, ParseChunk(b).1) == OfOpened(OpenAll(c, k, a, later))
    ensures OpenChunks(c, k, a, n, b) == OfOpened(OpenAll(c, k, a, [ParseChunk(b).0.value] + later))
  {
    var cs := [ParseChunk(b).0.value] + later;
    assert cs[1..] == later;
    var p, ps := c.open(k, a, cs[0].nonce, cs[0].ciphertext), OpenAll(c, k, a, later);
    if p.Some? && ps.Some? {
      assert ([p.value] + ps.value)[1..] == ps.value;
    }
  }

  /** Decrypting any bytes succeeds exactly when they parse and every chunk they announce opens, and then
      yields the opened chunks in the order in which they stand: nothing else is checked. */
  lemma DecryptedIs(c: Cipher, b: seq<byte>, k: Key)
    ensures var parsed := ParseFile(b).0;
            if parsed.Err? then Decrypted(c, b, Some(k)).Err?
            else Decrypted(c, b, Some(k)) == OfOpened(OpenAll(c, k, parsed.value.0.algorithm, parsed.value.1))
  {
    var (header, rest) := ParseHeader(b);
    if header.Ok? { OpenParsedChunks(c, k, header.value.algorithm, header.value.totalChunks, rest); }
  }

  lemma {:induction false} OpenAllIs(c: Cipher, k: Key, a: Algorithm, cs: seq<Chunk>)
    ensures OpenAll(c, k, a, cs).Some?
       <==> forall i :: 0 <= i < |cs| ==> c.open(k, a, cs[i].nonce, cs[i].ciphertext).Some?
    ensures OpenAll(c, k, a, cs).Some? ==>
              && |OpenAll(c, k, a, cs).value| == |cs|
              && forall i :: 0 <= i < |cs| ==>
                   c.open(k, a, cs[i].nonce, cs[i].ciphertext) == Some(OpenAll(c, k, a, cs).value[i])
  {
    if cs != [] {
      OpenAllIs(c, k, a, cs[1..]);
      assert forall i :: 0 < i < |cs| ==> cs[i] == cs[1..][i - 1];
    }
  }

  // ---------- files made of a file's own chunks ----------

  /** The pieces sealed in place: each under the nonce of its position. */
  ghost predicate SealedInPlace(
      c: Cipher, k: Key, a: Algorithm, master: seq<byte>, pieces: seq<seq<byte>>, cs: seq<Chunk>)
    requires |master| == 12
  {
    && |cs| == |pieces| < Pow256(4)
    && forall i :: 0 <= i < |cs| ==> IsSealed(c, k, a, ChunkNonce(master, i), pieces[i], cs[i])
  }

  predicate IsSealed(c: Cipher, k: Key, a: Algorithm, nonce: seq<byte>, piece: seq<byte>, x: Chunk) {
    x == Chunk(nonce, c.seal(k, a, nonce, piece))
  }

  lemma {:induction false} SealedAt(
      c: Cipher, k: Key, a: Algorithm, master: seq<byte>, index: nat, pieces: seq<seq<byte>>, i: nat)
    requires |master| == 12 && i < |pieces|
    ensures IsSealed(c, k, a, ChunkNonce(master, index + i), pieces[i], SealPieces(c, k, a, master, index, pieces)[i])
    decreases |pieces|
  {
    if i > 0 { SealedAt(c, k, a, master, index + 1, pieces[1..], i - 1); }
  }

  /** What the encryption service writes is sealed in place. */
  lemma ServiceSealsInPlace(c: Cipher, k: Key, a: Algorithm, master: seq<byte>, p: seq<byte>)
    requires |master| == 12 && Fits(p)
    ensures SealedInPlace(c, k, a, master, Pieces(p), SealPieces(c, k, a, master, 0, Pieces(p)))
  {
    PieceCount(p);
    var cs := SealPieces(c, k, a, master, 0, Pieces(p));
    forall i | 0 <= i < |cs|
      ensures IsSealed(c, k, a, ChunkNonce(master, i), Pieces(p)[i], cs[i])
    {
      SealedAt(c, k, a, master, 0, Pieces(p), i);
    }
  }

  /** The elements at these positions, in this order. */
  function Pick<T>(s: seq<T>, picks: seq<nat>): (r: seq<T>)
    requires forall i :: 0 <= i < |picks| ==> picks[i] < |s|
    ensures |r| == |picks| && forall i :: 0 <= i < |r| ==> r[i] == s[picks[i]]
  {
    seq(|picks|, i requires 0 <= i < |picks| => s[picks[i]])
  }

  /** Chunks of a file, in any order and number, open to the pieces in that order. */
  lemma PickedOpen(c: Cipher, k: Key, a: Algorithm, master: seq<byte>, pieces: seq<seq<byte>>, original: seq<Chunk>,
                   picks: seq<nat>)
    requires RoundTrips(c) && |master| == 12 && SealedInPlace(c, k, a, master, pieces, original)
    requires forall i :: 0 <= i < |picks| ==> picks[i] < |pieces|
    ensures OpenAll(c, k, a, Pick(original, picks)) == Some(Pick(pieces, picks))
  {
    var cs := Pick(original, picks);
    OpenAllIs(c, k, a, cs);
    forall i | 0 <= i < |picks|
      ensures c.open(k, a, cs[i].nonce, cs[i].ciphertext) == Some(pieces[picks[i]])
    {
      assert IsSealed(c, k, a, ChunkNonce(master, picks[i]), pieces[picks[i]], original[picks[i]]);
    }
    assert OpenAll(c, k, a, cs).value == Pick(pieces, picks);
  }

  /** A file that announces and holds any chunks of an original file, in any order and number, is accepted
      and decrypts to the pieces of the original in that order. */
  lemma RearrangedIsAccepted(c: Cipher, k: Key, a: Algorithm, master: seq<byte>, pieces: seq<seq<byte>>,
                             original: seq<Chunk>, picks: seq<nat>, b: seq<byte>)
    requires RoundTrips(c) && |master| == 12 && SealedInPlace(c, k, a, master, pieces, original)
    requires forall i :: 0 <= i < |picks| ==> picks[i] < |pieces|
    requires ParseFile(b).0.Ok? && ParseFile(b).0.value.1 == Pick(original, picks)
    requires picks != [] ==> ParseFile(b).0.value.0.algorithm == a
    ensures Decrypted(c, b, Some(k)) == Ok(Flat(Pick(pieces, picks)))
  {
    DecryptedIs(c, b, k);
    PickedOpen(c, k, a, master, pieces, original, picks);
  }

  // ---------- exactly which files are accepted ----------

  /** No chunk was forged: what opens under the key is a chunk of the original, under its algorithm. */
  predicate Unforged(c: Cipher, k: Key, a: Algorithm, original: seq<Chunk>, h: Header, cs: seq<Chunk>) {
    forall i :: 0 <= i < |cs| && c.open(k, h.algorithm, cs[i].nonce, cs[i].ciphertext).Some? ==>
      h.algorithm == a && cs[i] in original
  }

  predicate Genuine(a: Algorithm, original: seq<Chunk>, h: Header, cs: seq<Chunk>) {
    forall i :: 0 <= i < |cs| ==> h.algorithm == a && cs[i] in original
  }

  function PositionOf(original: seq<Chunk>, x: Chunk): (r: nat)
    requires x in original
    ensures r < |original| && original[r] == x
  {
    if original[0] == x then 0 else 1 + PositionOf(original[1..], x)
  }

  /** Positions in the original of chunks that are all among its own. */
  function Positions(original: seq<Chunk>, cs: seq<Chunk>): (r: seq<nat>)
    requires forall i :: 0 <= i < |cs| ==> cs[i] in original
    ensures |r| == |cs| && forall i :: 0 <= i < |cs| ==> r[i] < |original| && original[r[i]] == cs[i]
  {
    seq(|cs|, i requires 0 <= i < |cs| => PositionOf(original, cs[i]))
  }

  /** When nothing can be forged, a file that parses is accepted exactly when all the chunks it announces are
      chunks of the original, under its algorithm.  The plaintext is then the original's pieces in the
      edited order. */
  lemma AcceptedEdits(c: Cipher, k: Key, a: Algorithm, master: seq<byte>, pieces: seq<seq<byte>>, original: seq<Chunk>,
                      b: seq<byte>, h: Header, cs: seq<Chunk>)
    requires RoundTrips(c) && |master| == 12 && SealedInPlace(c, k, a, master, pieces, original)
    requires ParseFile(b).0 == Ok((h, cs)) && Unforged(c, k, a, original, h, cs)
    ensures Decrypted(c, b, Some(k)).Ok? <==> Genuine(a, original, h, cs)
    ensures Genuine(a, original, h, cs) ==>
      Decrypted(c, b, Some(k)) == Ok(Flat(Pick(pieces, Positions(original, cs))))
  {
    DecryptedIs(c, b, k);
    OpenAllIs(c, k, h.algorithm, cs);
    if Genuine(a, original, h, cs) {
      assert Pick(original, Positions(original, cs)) == cs;
      RearrangedIsAccepted(c, k, a, master, pieces, original, Positions(original, cs), b);
    }
  }

  /** A chunk of the original shows by its nonce which one it is. */
  lemma NonceTellsPosition(c: Cipher, k: Key, a: Algorithm, master: seq<byte>, pieces: seq<seq<byte>>,
                           original: seq<Chunk>, x: Chunk, i: nat)
    requires |master| == 12 && SealedInPlace(c, k, a, master, pieces, original)
    requires x in original && i < |original|
    ensures x == original[i] <==> x.nonce == ChunkNonce(master, i)
  {
    var j := PositionOf(original, x);
    assert IsSealed(c, k, a, ChunkNonce(master, i), pieces[i], original[i]);
    assert IsSealed(c, k, a, ChunkNonce(master, j), pieces[j], x);
    if x.nonce == ChunkNonce(master, i) { NoncesAreDistinct(master, i, j); }
  }

  function Identity(n: nat): (r: seq<nat>)
    ensures |r| == n && forall i :: 0 <= i < n ==> r[i] == i
  {
    seq(n, i requires 0 <= i < n => i)
  }

  /** What a reader would have to compare: an accepted file has the original's chunks exactly when it has as
      many, each with the nonce of its position.  Then success means the original plaintext. */
  lemma OrderedNoncesMeanOriginal(c: Cipher, k: Key, a: Algorithm, master: seq<byte>, pieces: seq<seq<byte>>,
                                  original: seq<Chunk>, b: seq<byte>, h: Header, cs: seq<Chunk>)
    requires RoundTrips(c) && |master| == 12 && SealedInPlace(c, k, a, master, pieces, original)
    requires ParseFile(b).0 == Ok((h, cs)) && Unforged(c, k, a, original, h, cs)
    requires Decrypted(c, b, Some(k)).Ok?
    ensures cs == original
       <==> |cs| == |original| && forall i :: 0 <= i < |cs| ==> cs[i].nonce == ChunkNonce(master, i)
    ensures cs == original ==> Decrypted(c, b, Some(k)) == Ok(Flat(pieces))
  {
    AcceptedEdits(c, k, a, master, pieces, original, b, h, cs);
    if |cs| == |original| {
      forall i | 0 <= i < |cs|
        ensures cs[i] == original[i] <==> cs[i].nonce == ChunkNonce(master, i)
      {
        NonceTellsPosition(c, k, a, master, pieces, original, cs[i], i);
      }
    }
    if cs == original { WholeFileDecrypts(c, k, a, master, pieces, original, b); }
  }

  lemma WholeFileDecrypts(c: Cipher, k: Key, a: Algorithm, master: seq<byte>, pieces: seq<seq<byte>>,
                          original: seq<Chunk>, b: seq<byte>)
    requires RoundTrips(c) && |master| == 12 && SealedInPlace(c, k, a, master, pieces, original)
    requires ParseFile(b).0.Ok? && ParseFile(b).0.value.1 == original
    requires original != [] ==> ParseFile(b).0.value.0.algorithm == a
    ensures Decrypted(c, b, Some(k)) == Ok(Flat(pieces))
  {
    var picks := Identity(|pieces|);
    assert Pick(original, picks) == original && Pick(pieces, picks) == pieces;
    RearrangedIsAccepted(c, k, a, master, pieces, original, picks, b);
  }

  // ---------- it happens ----------

  /** The file of these chunks of an original, under a header that announces their number and the size of
      the original. */
  function Rearranged(a: Algorithm, master: seq<byte>, size: nat, original: seq<Chunk>, picks: seq<nat>): seq<byte>
    requires forall i :: 0 <= i < |picks| ==> picks[i] < |original|
  {
    EncodeFile(Header(FILE_MAGIC, a, master, size, |picks|), Pick(original, picks))
  }

  lemma RearrangedParses(a: Algorithm, master: seq<byte>, size: nat, original: seq<Chunk>, picks: seq<nat>)
    requires |master| == 12 && size < Pow256(8) && |picks| < Pow256(4) && GoodChunks(original)
    requires forall i :: 0 <= i < |picks| ==> picks[i] < |original|
    ensures ParseFile(Rearranged(a, master, size, original, picks)).0
         == Ok((Header(FILE_MAGIC, a, master, size, |picks|), Pick(original, picks)))
  {
    var b := Rearranged(a, master, size, original, picks);
    assert b + [] == b;
    ParseEncodedFile(Header(FILE_MAGIC, a, master, size, |picks|), Pick(original, picks), []);
  }

  lemma RearrangedDecrypts(c: Cipher, k: Key, a: Algorithm, master: seq<byte>, size: nat, pieces: seq<seq<byte>>,
                           original: seq<Chunk>, picks: seq<nat>)
    requires RoundTrips(c) && |master| == 12 && SealedInPlace(c, k, a, master, pieces, original)
    requires size < Pow256(8) && |picks| < Pow256(4) && GoodChunks(original)
    requires forall i :: 0 <= i < |picks| ==> picks[i] < |pieces|
    ensures Decrypted(c, Rearranged(a, master, size, original, picks), Some(k)) == Ok(Flat(Pick(pieces, picks)))
  {
    RearrangedParses(a, master, size, original, picks);
    RearrangedIsAccepted(c, k, a, master, pieces, original, picks, Rearranged(a, master, size, original, picks));
  }

  /** Without its last chunk, and announcing one fewer, a file is accepted and decrypts to the text without
      its last piece. */
  lemma TruncatedIsAccepted(c: Cipher, k: Key, a: Algorithm, master: seq<byte>, size: nat, pieces: seq<seq<byte>>,
                            original: seq<Chunk>)
    requires RoundTrips(c) && |master| == 12 && SealedInPlace(c, k, a, master, pieces, original)
    requires size < Pow256(8) && GoodChunks(original) && pieces != []
    ensures var n := |pieces| - 1;
            Decrypted(c, Rearranged(a, master, size, original, Identity(n)), Some(k)) == Ok(Flat(pieces[..n]))
  {
    var n := |pieces| - 1;
    RearrangedDecrypts(c, k, a, master, size, pieces, original, Identity(n));
    assert Pick(pieces, Identity(n)) == pieces[..n];
  }

  /** With two chunks exchanged, a file of two chunks is accepted and decrypts to the exchanged text. */
  lemma SwappedIsAccepted(c: Cipher, k: Key, a: Algorithm, master: seq<byte>, size: nat, pieces: seq<seq<byte>>,
                          original: seq<Chunk>)
    requires RoundTrips(c) && |master| == 12 && SealedInPlace(c, k, a, master, pieces, original)
    requires size < Pow256(8) && GoodChunks(original) && |pieces| == 2
    ensures Decrypted(c, Rearranged(a, master, size, original, [1, 0]), Some(k)) == Ok(pieces[1] + pieces[0])
  {
    WordSizes();
    RearrangedDecrypts(c, k, a, master, size, pieces, original, [1, 0]);
    assert Pick(pieces, [1, 0]) == [pieces[1], pieces[0]];
    FlatPair(pieces[1], pieces[0]);
  }

  /** So every non-empty file the service writes has a shorter one, announcing the same original size, that
      is accepted with a shorter text. */
  lemma ServiceFilesCanBeCut(c: Cipher, k: Key, a: Algorithm, master: seq<byte>, p: seq<byte>)
    requires RoundTrips(c) && |master| == 12 && Fits(p) && p != []
    ensures var pieces := Pieces(p);
            var short := Flat(pieces[..|pieces| - 1]);
            var cut := Rearranged(a, master, |p|, SealPieces(c, k, a, master, 0, pieces), Identity(|pieces| - 1));
            Decrypted(c, cut, Some(k)) == Ok(short) && |short| < |p|
  {
    PieceCount(p);
    ServiceSealsInPlace(c, k, a, master, p);
    SealedIsGood(c, k, a, master, 0, Pieces(p));
    TruncatedIsAccepted(c, k, a, master, |p|, Pieces(p), SealPieces(c, k, a, master, 0, Pieces(p)));
    ShorterText(p);
  }

  lemma ShorterText(p: seq<byte>)
    requires p != []
    ensures |Pieces(p)| > 0 && |Flat(Pieces(p)[..|Pieces(p)| - 1])| < |p|
  {
    FlatPieces(p);
    FlatFront(Pieces(p));
    LastPiece(p);
  }

  lemma FlatPair(x: seq<byte>, y: seq<byte>)
    ensures Flat([x, y]) == x + y
  {
    assert [x, y][1..] == [y];
    assert Flat([y]) == y + Flat([y][1..]);
    assert Flat([y][1..]) == [];
  }

  lemma {:induction false} FlatFront(pieces: seq<seq<byte>>)
    requires pieces != []
    ensures |Flat(pieces)| == |Flat(pieces[..|pieces| - 1])| + |pieces[|pieces| - 1]|
  {
    if |pieces| > 1 {
      FlatFront(pieces[1..]);
      assert pieces[1..][..|pieces| - 2] == pieces[..|pieces| - 1][1..];
    }
  }

  lemma {:induction false} LastPiece(p: seq<byte>)
    requires p != []
    ensures |Pieces(p)[|Pieces(p)| - 1]| > 0
    decreases |p|
  {
    if |p| > PIECE { LastPiece(p[PIECE..]); }
  }
}
