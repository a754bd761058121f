/** The streaming encrypter (`internal/crypt/cipher.go`), proved against `Format`. */
module Cipher {
  import opened Bytes
  import opened Layout
  import opened Format
  import opened Chunks
  import opened Upstream
  import Nonce

  // ---- Encrypter ------------------------------------------------------------------

  /** The sealed blocks of `p` from block `k` on. */
  function SealedFrom(box: Box, nonce: Bytes, p: Bytes, k: nat): Bytes
    decreases Blocks(|p|, DATA) - k
  {
    if k >= Blocks(|p|, DATA) then []
    else box.seal(Piece(p, k, DATA), Nonce.At(nonce, k)) + SealedFrom(box, nonce, p, k + 1)
  }

  lemma {:induction false} SealedSplit(box: Box, nonce: Bytes, p: Bytes, k: nat)
    requires k <= Blocks(|p|, DATA)
    ensures Sealed(box, nonce, p, k) + SealedFrom(box, nonce, p, k) == Sealed(box, nonce, p, Blocks(|p|, DATA))
    decreases Blocks(|p|, DATA) - k
  {
    if k == Blocks(|p|, DATA) {
    } else {
      SealedSplit(box, nonce, p, k + 1);
    }
  }

  /** A read-ahead of one block's worth takes the next piece of the plaintext. */
  lemma {:induction false} NextPiece(p: Bytes, k: nat, got: Bytes, rest: Bytes)
    requires p[Min(k * DATA, |p|)..] == got + rest
    requires |got| == DATA || (|got| < DATA && rest == [])
    ensures got == Piece(p, k, DATA) && rest == p[Min((k + 1) * DATA, |p|)..]
    ensures got != [] <==> k < Blocks(|p|, DATA)
    ensures got == [] ==> |p| <= k * DATA
  {
    var lo := Min(k * DATA, |p|);
    assert got == p[lo..lo + |got|];
    assert rest == p[lo + |got|..];
    LastBlock(|p|);
    if k < Blocks(|p|, DATA) {
      BlockStart(|p|, k);
    }
  }

  class Encrypter {
    const box: Box
    const input: MemoryStream
    const nonce: array<byte>
    var buf: Bytes
    var bufIndex: nat
    var bufSize: nat
    var err: Err
    ghost const plain: Bytes
    ghost const initial: Bytes
    ghost var chunks: seq<Bytes>  // what has been read and sealed, block by block
    ghost var handed: Bytes       // ciphertext handed out so far

    /** Whatever the source does: the chunks sealed are what has been read of the plaintext, and what has been handed
        out, with what is in the buffer, is the header and their seals. */
    ghost predicate Traced()
      reads this`buf, this`bufIndex, this`bufSize, this`chunks, this`handed, input, nonce
    {
      && box.Lawful() && nonce.Length == Nonce.NONCE_SIZE
      && bufIndex <= bufSize <= |buf|
      && nonce[..] == Nonce.At(initial, |chunks|)
      && Flat(chunks) + input.rest == plain && FitBlocks(chunks)
      && handed + buf[bufIndex..bufSize] == Header(initial) + SealedChunks(box, initial, chunks)
    }

    /** The ciphertext not handed out yet. */
    ghost function Pending(): Bytes
      requires bufIndex <= bufSize <= |buf|
      reads this
    {
      buf[bufIndex..bufSize] + SealedFrom(box, initial, plain, |chunks|)
    }

    /** An error is final, and reported only when all that was sealed has been handed out; the end of the stream only
        when the source has been read to its end. */
    ghost predicate Valid()
      reads this, input, nonce
    {
      && Traced()
      && (err == Ok || err == Eof || (err == Transport && input.faulty))
      && (err != Ok ==> bufIndex == bufSize)
      && (err == Eof ==> input.rest == [])
      && (!input.faulty ==>
            && input.rest == plain[Min(|chunks| * DATA, |plain|)..]
            && (err != Ok ==> err == Eof && Pending() == []))
    }

    constructor (box: Box, input: MemoryStream, nonce: array<byte>)
      requires box.Lawful() && nonce.Length == Nonce.NONCE_SIZE
      ensures Valid() && this.box == box && this.input == input && this.nonce == nonce
      ensures Pending() == Encrypt(box, nonce[..], input.rest) && handed == []
      ensures plain == input.rest && initial == nonce[..]
    {
      this.box, this.input, this.nonce := box, input, nonce;
      buf, bufIndex, bufSize, err := Header(nonce[..]), 0, HEADER, Ok;
      plain, initial, chunks, handed := input.rest, nonce[..], [], [];
      Nonce.AtZero(nonce[..]);
      SealedSplit(box, nonce[..], input.rest, 0);
    }

    /** Read the next block's worth, seal it and step the nonce. */
    method SealNext() returns (e: Err)
      requires Traced() && bufIndex == bufSize
      modifies this`buf, this`bufIndex, this`bufSize, this`chunks, input, nonce
      ensures Traced()
      ensures e == Ok || (e == Eof && input.rest == []) || (e == Transport && input.faulty)
      ensures e == Ok ==> |input.rest| < |old(input.rest)|
      ensures e == Ok ==> |chunks| == |old(chunks)| + 1 && chunks[..|old(chunks)|] == old(chunks) && bufIndex < bufSize
      ensures e != Ok ==> chunks == old(chunks) && buf == old(buf) && bufIndex == old(bufIndex) && bufSize == old(bufSize)
      ensures e != Ok ==> input.rest == old(input.rest)
      ensures !input.faulty && e == Ok ==>
                var got := chunks[|old(chunks)|];
                && old(input.rest) == got + input.rest && got != []
                && (|got| == DATA || (|got| < DATA && input.rest == []))
                && buf[bufIndex..bufSize] == box.seal(got, Nonce.At(initial, |old(chunks)|))
    {
      hide Nonce.At, Flat, SealedChunks, Header;
      var got;
      got, e := ReadFill(Memory(input), DATA);
      Nonce.AtAdd(initial, |chunks|, 1);
      if |got| == 0 {
        assert [] + input.rest == input.rest;
        return;
      }
      assert buf[bufIndex..bufSize] == [] && handed + [] == handed;
      FlatSnoc(chunks, got);
      Moved(Flat(chunks), got, input.rest);
      SealedChunksSnoc(box, initial, chunks, got);
      Moved(Header(initial), SealedChunks(box, initial, chunks), box.seal(got, nonce[..]));
      buf := box.seal(got, nonce[..]);
      bufIndex, bufSize := 0, OVERHEAD + |got|;
      assert buf[0..bufSize] == buf;
      Nonce.Increment(nonce);
      chunks := chunks + [got];
      e := Ok;
    }

    /** Refilling does not change what is still to come. */
    method Refill() returns (e: Err)
      requires Valid() && err == Ok && bufIndex == bufSize
      modifies this`buf, this`bufIndex, this`bufSize, this`chunks, input, nonce
      ensures Traced() && (e == Ok ==> Valid() && bufIndex < bufSize && |input.rest| < |old(input.rest)|)
      ensures e == Ok || (e == Eof && input.rest == []) || (e == Transport && input.faulty)
      ensures e != Ok ==> bufIndex == bufSize
      ensures !input.faulty ==> Valid() && Pending() == old(Pending()) && (e == Ok || (e == Eof && Pending() == []))
    {
      hide Piece, Nonce.At, SealedChunks, Flat, Header;
      ghost var k := |chunks|;
      assert Pending() == SealedFrom(box, initial, plain, k);
      e := SealNext();
      if !input.faulty {
        if e == Ok {
          NextPiece(plain, k, chunks[k], input.rest);
          assert SealedFrom(box, initial, plain, k)
                 == box.seal(Piece(plain, k, DATA), Nonce.At(initial, k)) + SealedFrom(box, initial, plain, k + 1);
        } else {
          NextPiece(plain, k, [], input.rest);
          assert SealedFrom(box, initial, plain, k) == [];
        }
      }
    }

    /** Copy out of the buffer. */
    method Deliver(n: nat) returns (got: Bytes)
      requires Valid() && err == Ok && bufIndex < bufSize
      modifies this`bufIndex, this`handed
      ensures Valid() && handed == old(handed) + got && |got| <= n && bufIndex == old(bufIndex) + |got|
      ensures old(Pending()) == got + Pending() && (n > 0 ==> got != [])
    {
      hide SealedFrom, SealedChunks, Flat, Nonce.At, Header, FitBlocks, Box.Lawful;
      var k := Min(n, bufSize - bufIndex);
      got := buf[bufIndex..bufIndex + k];
      JoinSlices(buf, bufIndex, bufIndex + k, bufSize);
      Moved(got, buf[bufIndex + k..bufSize], SealedFrom(box, initial, plain, |chunks|));
      Moved(handed, got, buf[bufIndex + k..bufSize]);
      bufIndex := bufIndex + k;
      handed := handed + got;
    }

    /** Whatever the source does, what has been handed out grows by what is returned, and an error, which is repeated
        ever after, is reported only once the header and every seal have been handed out: the end of the stream when the
        whole source has been sealed, a failure only if the source is faulty. If the source does not fail, what is handed
        out is the encryption of the plaintext, in order and in full, however short its reads. */
    method Read(n: nat) returns (got: Bytes, e: Err)
      requires Valid()
      modifies this, input, nonce
      ensures Valid() && handed == old(handed) + got && |got| <= n
      ensures e == Ok || e == Eof || (e == Transport && input.faulty)
      ensures old(err) != Ok ==> e == old(err)
      ensures e != Ok ==> err == e && got == [] && handed == Header(initial) + SealedChunks(box, initial, chunks)
      ensures e == Eof ==> Flat(chunks) == plain
      ensures e == Ok ==> err == Ok && (n > 0 ==> got != [])
      ensures e == Ok && n > 0 ==>
                || |input.rest| < |old(input.rest)|
                || (input.rest == old(input.rest) && bufSize - bufIndex < old(bufSize - bufIndex))
      ensures !input.faulty ==> ReadStep(old(Pending()), n, got, e, Pending())
    {
      hide SealedFrom, SealedChunks, Flat, Nonce.At, Header, FitBlocks, Box.Lawful;
      if err != Ok {
        return [], err;
      }
      if bufIndex >= bufSize {
        e := Refill();
        if e != Ok {
          err := e;
          return [], e;
        }
      }
      got := Deliver(n);
      e := Ok;
    }
  }
}
