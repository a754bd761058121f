/** What becomes of a plaintext that was sealed in blocks of uneven size. The encrypter (`internal/crypt/cipher.go`)
    drops the error of a source that fails inside a block and seals what it has; the decrypter always reads whole
    blocks. */
module Chunks {
  import opened Arith
  import opened Bytes
  import opened Layout
  import opened Format
  import Nonce

  /** The seals of a list of chunks, each under the next nonce. */
  function SealedChunks(box: Box, nonce: Bytes, chunks: seq<Bytes>): Bytes
  {
    if chunks == [] then []
    else
      var k := |chunks| - 1;
      SealedChunks(box, nonce, chunks[..k]) + box.seal(chunks[k], Nonce.At(nonce, k))
  }

  lemma {:induction false} SealedChunksSnoc(box: Box, nonce: Bytes, chunks: seq<Bytes>, c: Bytes)
    ensures SealedChunks(box, nonce, chunks + [c])
            == SealedChunks(box, nonce, chunks) + box.seal(c, Nonce.At(nonce, |chunks|))
  {
    assert (chunks + [c])[..|chunks|] == chunks;
  }

  /** Every chunk holds something and fits a block. */
  predicate FitBlocks(chunks: seq<Bytes>)
  {
    forall i :: 0 <= i < |chunks| ==> 0 < |chunks[i]| <= DATA
  }

  lemma {:induction false} FlatFront(chunks: seq<Bytes>, k: nat)
    requires k <= |chunks|
    ensures Flat(chunks) == Flat(chunks[..k]) + Flat(chunks[k..])
  {
    assert chunks == chunks[..k] + chunks[k..];
    FlatAppend(chunks[..k], chunks[k..]);
  }

  lemma {:induction false} FlatLast(chunks: seq<Bytes>)
    requires chunks != []
    ensures Flat(chunks) == Flat(chunks[..|chunks| - 1]) + chunks[|chunks| - 1]
  {
    assert chunks == chunks[..|chunks| - 1] + [chunks[|chunks| - 1]];
    FlatSnoc(chunks[..|chunks| - 1], chunks[|chunks| - 1]);
  }

  lemma {:induction false} ChunksSize(box: Box, nonce: Bytes, chunks: seq<Bytes>)
    requires box.Lawful()
    ensures |SealedChunks(box, nonce, chunks)| == |Flat(chunks)| + |chunks| * OVERHEAD
  {
    if chunks == [] {
    } else {
      FlatLast(chunks);
      ChunksSize(box, nonce, chunks[..|chunks| - 1]);
    }
  }

  lemma {:induction false} FlatBounds(chunks: seq<Bytes>)
    requires FitBlocks(chunks)
    ensures |chunks| <= |Flat(chunks)| <= |chunks| * DATA
  {
    if chunks == [] {
    } else {
      var front := chunks[..|chunks| - 1];
      FlatLast(chunks);
      FlatBounds(front);
      MulNext(|front|, |chunks|, DATA);
    }
  }

  // ---- When the length survives ---------------------------------------------------------------

  lemma {:induction false} PlainSizeOfChunks(total: nat, count: nat)
    requires 0 < count && total <= count * DATA
    ensures PlainSize(total + count * OVERHEAD) == total <==> (count - 1) * DATA <= total
  {
    var n := total + count * OVERHEAD;
    var q, r := n / BLOCK, n % BLOCK;
    DivMod(n, BLOCK);
    if (count - 1) * DATA <= total {
      if total == count * DATA {
        DivModUnique(n, count, 0, BLOCK);
      } else {
        DivModUnique(n, count - 1, total - (count - 1) * DATA + OVERHEAD, BLOCK);
      }
    } else if q >= count - 1 {
      MulLe(count - 1, q, BLOCK);
      assert r < OVERHEAD && q == count - 1;
    }
  }

  /** A file sealed in uneven blocks decrypts to as many bytes as went in exactly when they fill all but the last of
      the blocks that were sealed. */
  lemma {:induction false} LengthSurvives(box: Box, nonce: Bytes, chunks: seq<Bytes>)
    requires box.Lawful() && chunks != [] && FitBlocks(chunks)
    ensures |Opened(box, nonce, SealedChunks(box, nonce, chunks))| == |Flat(chunks)|
            <==> (|chunks| - 1) * DATA <= |Flat(chunks)|
  {
    hide PlainSize, SealedChunks, Flat;
    ChunksSize(box, nonce, chunks);
    FlatBounds(chunks);
    PlainSizeOfChunks(|Flat(chunks)|, |chunks|);
  }

  /** Whatever the cipher, a plaintext of less than a block whose source fails once inside it does not come back, not
      even in length. */
  lemma {:induction false} DroppedErrorBreaksFile(box: Box, nonce: Bytes, p: Bytes, j: nat)
    requires box.Lawful() && 0 < j < |p| < DATA
    ensures |Opened(box, nonce, SealedChunks(box, nonce, [p[..j], p[j..]]))| != |p|
  {
    var chunks := [p[..j], p[j..]];
    assert Flat(chunks) == p by {
      var tail := chunks[1..];
      assert tail == [p[j..]] && |tail[1..]| == 0;
      assert Flat(tail) == p[j..] + [];
    }
    LengthSurvives(box, nonce, chunks);
  }

  // ---- When the contents survive ----------------------------------------------------------------

  /** Where the first chunk that does not fill its block stands. */
  function FirstShort(chunks: seq<Bytes>): (a: nat)
    ensures a <= |chunks|
    ensures forall i :: 0 <= i < a ==> |chunks[i]| == DATA
    ensures a < |chunks| ==> |chunks[a]| != DATA
  {
    if chunks == [] || |chunks[0]| != DATA then 0 else 1 + FirstShort(chunks[1..])
  }

  /** Misplaced ciphertext does not authenticate: block `k` of the body opens only if it is the `k`-th seal, in its
      place and whole. */
  ghost predicate OnlyWholeSeals(box: Box, nonce: Bytes, chunks: seq<Bytes>)
  {
    var body := SealedChunks(box, nonce, chunks);
    forall k: nat {:trigger Piece(body, k, BLOCK)} ::
      box.open(Piece(body, k, BLOCK), Nonce.At(nonce, k)).Some? ==>
        && k < |chunks| && |SealedChunks(box, nonce, chunks[..k])| == k * BLOCK
        && |Piece(body, k, BLOCK)| == |chunks[k]| + OVERHEAD
  }

  /** Up to the first short chunk every seal is in its place; after it none is. */
  lemma {:induction false} SealStart(box: Box, nonce: Bytes, chunks: seq<Bytes>, k: nat)
    requires box.Lawful() && FitBlocks(chunks) && k <= |chunks|
    ensures |SealedChunks(box, nonce, chunks[..k])| == k * BLOCK <==> k <= FirstShort(chunks)
    ensures |SealedChunks(box, nonce, chunks[..k])| <= k * BLOCK
  {
    if k == 0 {
      assert chunks[..0] == [];
    } else {
      SealStart(box, nonce, chunks, k - 1);
      assert chunks[..k][..k - 1] == chunks[..k - 1];
      MulNext(k - 1, k, BLOCK);
    }
  }

  lemma {:induction false} ShortInFront(chunks: seq<Bytes>, n: nat)
    requires n <= |chunks|
    ensures FirstShort(chunks[..n]) == Min(n, FirstShort(chunks))
  {
    var a, b := FirstShort(chunks[..n]), FirstShort(chunks);
    assert a < n ==> |chunks[..n][a]| == |chunks[a]|;
    assert b < n ==> |chunks[..n][b]| == |chunks[b]|;
  }

  lemma {:induction false} SealsGrow(box: Box, nonce: Bytes, chunks: seq<Bytes>, k: nat)
    requires box.Lawful() && k <= |chunks|
    ensures |SealedChunks(box, nonce, chunks[..k])| + (|chunks| - k) * OVERHEAD <= |SealedChunks(box, nonce, chunks)|
    decreases |chunks|
  {
    var n := |chunks| - 1;
    if k == |chunks| {
      assert chunks[..k] == chunks;
    } else {
      SealsGrow(box, nonce, chunks[..n], k);
      assert chunks[..n][..k] == chunks[..k];
    }
  }

  /** The seal of a chunk stays where it is when later ones are appended. */
  lemma {:induction false} SealInPlace(box: Box, nonce: Bytes, chunks: seq<Bytes>, k: nat)
    requires box.Lawful() && FitBlocks(chunks) && k < FirstShort(chunks)
    ensures Piece(SealedChunks(box, nonce, chunks), k, BLOCK) == box.seal(chunks[k], Nonce.At(nonce, k))
  {
    hide Piece, Nonce.At, FirstShort;
    var n := |chunks| - 1;
    var front, last := chunks[..n], box.seal(chunks[n], Nonce.At(nonce, n));
    assert chunks[..n + 1] == chunks;
    if k == n {
      SealStart(box, nonce, chunks, n);
      LastPiece(SealedChunks(box, nonce, front), last, k);
    } else {
      ShortInFront(chunks, n);
      SealInPlace(box, nonce, front, k);
      SealStart(box, nonce, front, k + 1);
      SealsGrow(box, nonce, front, k + 1);
      EarlierPiece(SealedChunks(box, nonce, front), last, k);
    }
  }

  lemma {:induction false} SealNext(box: Box, nonce: Bytes, chunks: seq<Bytes>, k: nat)
    requires box.Lawful() && k < |chunks|
    ensures |SealedChunks(box, nonce, chunks[..k + 1])|
            == |SealedChunks(box, nonce, chunks[..k])| + |chunks[k]| + OVERHEAD
  {
    assert chunks[..k + 1][..k] == chunks[..k];
  }

  /** From the first short chunk on nothing opens, unless that chunk is the last. */
  lemma {:induction false} NothingOpensAfterShort(box: Box, nonce: Bytes, chunks: seq<Bytes>, k: nat)
    requires box.Lawful() && FitBlocks(chunks) && OnlyWholeSeals(box, nonce, chunks)
    requires FirstShort(chunks) + 1 < |chunks| && FirstShort(chunks) <= k
    ensures box.open(Piece(SealedChunks(box, nonce, chunks), k, BLOCK), Nonce.At(nonce, k)).None?
  {
    hide SealedChunks, Nonce.At, FirstShort;
    var body := SealedChunks(box, nonce, chunks);
    var a := FirstShort(chunks);
    if k == a {
      SealStart(box, nonce, chunks, a);
      SealsGrow(box, nonce, chunks, a + 1);
      SealNext(box, nonce, chunks, a);
      MulNext(a, a + 1, BLOCK);
      assert |Piece(body, a, BLOCK)| > |chunks[a]| + OVERHEAD;
    } else if k < |chunks| {
      SealStart(box, nonce, chunks, k);
    }
  }

  /** A byte of a full chunk before the first short one, in the plaintext. */
  lemma {:induction false} FullChunkByte(chunks: seq<Bytes>, i: nat)
    requires i < FirstShort(chunks) * DATA
    ensures i / DATA < FirstShort(chunks) && i < |Flat(chunks)|
    ensures Flat(chunks)[i] == chunks[i / DATA][i % DATA]
  {
    hide Flat, FirstShort;
    var a, k := FirstShort(chunks), i / DATA;
    DivMod(i, DATA);
    if k >= a {
      MulLe(a, k, DATA);
    }
    var full := chunks[..a];
    FlatFront(chunks, a);
    assert Uniform(full, DATA);
    PartInWhole(full, DATA, k);
    assert Flat(full)[k * DATA..k * DATA + |full[k]|][i % DATA] == full[k][i % DATA];
  }

  /** What a file sealed in uneven blocks reads as: its plaintext up to the first short chunk, zeros from there on. */
  lemma {:induction false} ZerosAfterShort(box: Box, nonce: Bytes, chunks: seq<Bytes>, i: nat)
    requires box.Lawful() && FitBlocks(chunks) && OnlyWholeSeals(box, nonce, chunks)
    requires FirstShort(chunks) + 1 < |chunks|
    requires i < |Opened(box, nonce, SealedChunks(box, nonce, chunks))|
    ensures i < FirstShort(chunks) * DATA ==> i < |Flat(chunks)|
    ensures Opened(box, nonce, SealedChunks(box, nonce, chunks))[i]
            == if i < FirstShort(chunks) * DATA then Flat(chunks)[i] else 0
  {
    hide SealedChunks, Nonce.At, FirstShort, Flat, OnlyWholeSeals;
    var body := SealedChunks(box, nonce, chunks);
    var a, k := FirstShort(chunks), i / DATA;
    DivMod(i, DATA);
    OpenBlockSize(box, nonce, body, k);
    PlainIndex(|body|, i);
    if i < a * DATA {
      FullChunkByte(chunks, i);
      SealInPlace(box, nonce, chunks, k);
    } else {
      if k < a {
        MulNext(k, a, DATA);
      }
      NothingOpensAfterShort(box, nonce, chunks, k);
      assert OpenBlock(box, nonce, body, k) == Zeros(|OpenBlock(box, nonce, body, k)|);
    }
  }

  /** Full chunks with a shorter last one are sealed exactly as the plaintext they make up. */
  lemma {:induction false} FullChunksSealed(box: Box, nonce: Bytes, chunks: seq<Bytes>, k: nat)
    requires Uniform(chunks, DATA) && k <= |chunks|
    ensures SealedChunks(box, nonce, chunks[..k]) == Sealed(box, nonce, Flat(chunks), k)
  {
    if k == 0 {
    } else {
      FullChunksSealed(box, nonce, chunks, k - 1);
      PartInWhole(chunks, DATA, k - 1);
      MulNext(k - 1, k, DATA);
      assert Piece(Flat(chunks), k - 1, DATA) == chunks[k - 1] by {
        if k < |chunks| {
          PartInWhole(chunks, DATA, k);
        }
      }
      assert chunks[..k][..k - 1] == chunks[..k - 1];
    }
  }

  /** However often the source fails, as long as it fails only between full blocks the file decrypts to the plaintext. */
  lemma {:induction false} FullChunksDecrypt(box: Box, nonce: Bytes, chunks: seq<Bytes>)
    requires box.Lawful() && Uniform(chunks, DATA)
    ensures Opened(box, nonce, SealedChunks(box, nonce, chunks)) == Flat(chunks)
  {
    hide Opened, Sealed, SealedChunks, Flat;
    var n := |chunks|;
    FullChunksSealed(box, nonce, chunks, n);
    assert chunks[..n] == chunks;
    PartInWhole(chunks, DATA, n - 1);
    assert Blocks(|Flat(chunks)|, DATA) == n;
    OpenedSealed(box, nonce, Flat(chunks));
  }

  /** All that follows the first short chunk, counted in full blocks, is zeros. */
  predicate ZeroFrom(p: Bytes, lo: nat)
  {
    forall i :: lo <= i < |p| ==> p[i] == 0
  }

  /** The exact condition for a file sealed in uneven blocks to decrypt to its plaintext: every chunk but the last is
      full, or the length survives and everything from the block of the first short chunk on is zeros, which is what
      blocks that fail authentication read as. */
  lemma {:induction false} ContentsSurvive(box: Box, nonce: Bytes, chunks: seq<Bytes>)
    requires box.Lawful() && chunks != [] && FitBlocks(chunks) && OnlyWholeSeals(box, nonce, chunks)
    ensures Opened(box, nonce, SealedChunks(box, nonce, chunks)) == Flat(chunks) <==>
            || Uniform(chunks, DATA)
            || ((|chunks| - 1) * DATA <= |Flat(chunks)| && ZeroFrom(Flat(chunks), FirstShort(chunks) * DATA))
  {
    hide Opened, SealedChunks, Flat, FirstShort, OnlyWholeSeals;
    var a, p := FirstShort(chunks), Flat(chunks);
    var q := Opened(box, nonce, SealedChunks(box, nonce, chunks));
    LengthSurvives(box, nonce, chunks);
    if a + 1 >= |chunks| {
      FullChunksDecrypt(box, nonce, chunks);
    } else {
      assert |chunks[a]| != DATA && !Uniform(chunks, DATA);
      forall i | 0 <= i < |q|
        ensures i < a * DATA ==> i < |p|
        ensures q[i] == if i < a * DATA then p[i] else 0
      {
        ZerosAfterShort(box, nonce, chunks, i);
      }
    }
  }

  /** The assumption can be met by a file a failure has broken: the length tag of `Format` gives it away. */
  lemma {:induction false} OnlyWholeSealsIsConsistent(nonce: Bytes, chunks: seq<Bytes>)
    requires chunks == [[1], [2]]
    ensures LengthTagged().Lawful() && OnlyWholeSeals(LengthTagged(), nonce, chunks)
    ensures FitBlocks(chunks) && !Uniform(chunks, DATA)
  {
    hide Nonce.At, Nonce.Digits, Nonce.Pow256;
    var box := LengthTagged();
    LengthTaggedLawful();
    var none: seq<Bytes> := [];
    assert |chunks[0]| == 1 && none + [[1]] == [[1]] && [[1]] + [[2]] == chunks;
    SealedChunksSnoc(box, nonce, none, [1]);
    SealedChunksSnoc(box, nonce, [[1]], [2]);
    var body := SealedChunks(box, nonce, chunks);
    var tag := Nonce.Digits(1, OVERHEAD);
    assert box.seal([1], Nonce.At(nonce, 0)) == tag + [1] && box.seal([2], Nonce.At(nonce, 1)) == tag + [2];
    assert body == [] + (tag + [1]) + (tag + [2]);
    assert |body| == 34 && body[..OVERHEAD] == tag;
    Nonce.Pow256Grows(OVERHEAD);
    Nonce.DistinctResidues(1, 18, OVERHEAD);
    assert Piece(body, 0, BLOCK) == body;
    assert forall k: nat :: k > 0 ==> |Piece(body, k, BLOCK)| == 0;
  }
}
