/** Whole runs of the cipher: encrypting and decrypting a stream, and seeking after any history. */
module RoundTrip {
  import opened Bytes
  import opened Layout
  import opened Format
  import opened Upstream
  import opened Chunks
  import opened Cipher
  import opened Decrypter
  import Nonce

  /** Read a decrypter until it reports something, with buffers of any size: what comes out is what was pending,
      unless a faulty transport cuts it short. A body without a short tail ends in an end-of-file. */
  method ReadToEnd(d: Decrypter) returns (out: Bytes, e: Err)
    requires d.Valid() && d.err == Ok
    modifies d.Repr()
    ensures d.Core() && d.plain == old(d.plain) && d.up == old(d.up) && d.body == old(d.body) && d.err == e
    ensures e == Eof || (e == BadHeader && ShortTail(d.body)) || (e == Transport && d.faulty)
    ensures old(d.limit) < 0 && OnTrack(d.body, old(d.next), old(d.last)) ==> (e == Eof ==> !ShortTail(d.body))
    ensures out <= old(d.Pending()) && (e != Transport ==> out == old(d.Pending()))
  {
    hide Decrypter.Core, Decrypter.Positioned, Decrypter.BufferOk, Decrypter.Covered, Decrypter.Pending;
    hide ShortTail, OnTrack;
    out, e := [], Ok;
    ghost var all := d.Pending();
    ghost var whole := d.limit < 0 && OnTrack(d.body, d.next, d.last);
    while e == Ok
      invariant d.Valid() && d.up == old(d.up) && d.plain == old(d.plain) && d.body == old(d.body) && d.err == e
      invariant e == Ok || e == Eof || (e == BadHeader && ShortTail(d.body)) || (e == Transport && d.faulty)
      invariant out <= all && (e == Ok ==> all == out + d.Pending())
      invariant whole && e == Ok ==> d.limit < 0 && OnTrack(d.body, d.next, d.last)
      invariant whole && e == Eof ==> !ShortTail(d.body)
      invariant e == Eof || e == BadHeader ==> out == all
      decreases e == Ok, |all| - |out|
    {
      var n: int := *;
      ghost var before := d.Pending();
      var got;
      got, e := d.Read(Max(n, 1));
      assert before == got + before[|got|..];
      Moved(out, got, before[|got|..]);
      out := out + got;
    }
  }

  /** Drain an encrypter with buffers of any size, until it reports something. What comes out completes the header and
      the seals of the chunks read from the source; if the source does not fail, it is all that was pending. */
  method Drain(f: Encrypter) returns (out: Bytes, e: Err)
    requires f.Valid()
    modifies f, f.input, f.nonce
    ensures f.Valid() && f.err == e && f.handed == old(f.handed) + out
    ensures e == Eof || (e == Transport && f.input.faulty)
    ensures f.handed == Header(f.initial) + SealedChunks(f.box, f.initial, f.chunks)
    ensures e == Eof ==> Flat(f.chunks) == f.plain
    ensures FitBlocks(f.chunks) && Flat(f.chunks) <= f.plain
    ensures !f.input.faulty ==> out == old(f.Pending())
  {
    hide SealedFrom, SealedChunks, Flat, FitBlocks, Nonce.At;
    out, e := [], Ok;
    ghost var all := f.Pending();
    while e == Ok
      invariant f.Valid() && f.handed == old(f.handed) + out
      invariant e == Ok || (f.err == e && (e == Eof || (e == Transport && f.input.faulty)))
      invariant e != Ok ==> f.handed == Header(f.initial) + SealedChunks(f.box, f.initial, f.chunks)
      invariant e == Eof ==> Flat(f.chunks) == f.plain
      invariant !f.input.faulty ==> all == out + f.Pending() && (e == Eof ==> f.Pending() == [])
      decreases e == Ok, |f.input.rest|, f.bufSize - f.bufIndex
    {
      var n: int := *;
      var got;
      got, e := f.Read(Max(n, 1));
      Moved(out, got, f.Pending());
      out := out + got;
    }
  }

  lemma {:induction false} PlainOfChunks(box: Box, nonce: Bytes, chunks: seq<Bytes>)
    requires box.Lawful() && |nonce| == Nonce.NONCE_SIZE
    ensures var file := Header(nonce) + SealedChunks(box, nonce, chunks);
            && HeaderOk(file) && Plain(box, file) == Opened(box, nonce, SealedChunks(box, nonce, chunks))
            && (chunks == [] ==> Plain(box, file) == [])
  {
    hide SealedChunks, Opened;
    var file := Header(nonce) + SealedChunks(box, nonce, chunks);
    assert file[..MAGIC_SIZE] == MAGIC && FileNonce(file) == nonce && Body(file) == SealedChunks(box, nonce, chunks);
    if chunks == [] {
      ChunksSize(box, nonce, chunks);
    }
  }

  /** Encrypting any source, however it fails, gives the header and the seals of the chunks it was read in. If it was
      read to its end, what the file decrypts to has the length of the plaintext, and is the plaintext, exactly under
      the conditions of `LengthSurvives` and `ContentsSurvive`. */
  method EncryptSource(box: Box, nonce: array<byte>, source: MemoryStream)
    returns (cipher: Bytes, e: Err, ghost chunks: seq<Bytes>)
    requires box.Lawful() && nonce.Length == Nonce.NONCE_SIZE
    modifies nonce, source
    ensures e == Eof || (e == Transport && source.faulty)
    ensures cipher == Header(old(nonce[..])) + SealedChunks(box, old(nonce[..]), chunks) && FitBlocks(chunks)
    ensures Flat(chunks) <= old(source.rest) && (e == Eof ==> Flat(chunks) == old(source.rest))
    ensures !source.faulty ==> cipher == Encrypt(box, old(nonce[..]), old(source.rest))
    ensures HeaderOk(cipher)
    ensures e == Eof && chunks != [] ==>
              (|Plain(box, cipher)| == |old(source.rest)| <==> (|chunks| - 1) * DATA <= |old(source.rest)|)
    ensures e == Eof && chunks != [] && OnlyWholeSeals(box, old(nonce[..]), chunks) ==>
              (Plain(box, cipher) == old(source.rest) <==>
               || Uniform(chunks, DATA)
               || ((|chunks| - 1) * DATA <= |old(source.rest)| && ZeroFrom(old(source.rest), FirstShort(chunks) * DATA)))
    ensures e == Eof && chunks == [] ==> Plain(box, cipher) == old(source.rest) == []
  {
    hide Encrypt, SealedChunks, Opened, OnlyWholeSeals, FirstShort, Uniform, FitBlocks, Box.Lawful;
    ghost var first := nonce[..];
    var f := new Encrypter(box, source, nonce);
    cipher, e := Drain(f);
    chunks := f.chunks;
    PlainOfChunks(box, first, chunks);
    if chunks != [] {
      LengthSurvives(box, first, chunks);
      if OnlyWholeSeals(box, first, chunks) {
        ContentsSurvive(box, first, chunks);
      }
    }
  }

  /** Decrypting a file whose header is sound, through arbitrarily short reads, gives its plaintext, and ends in a bad
      header exactly when a fragment too short for a block follows it. */
  method DecryptFile(box: Box, file: Bytes) returns (out: Bytes, e: Err)
    requires box.Lawful()
    ensures HeaderOk(file) ==> out == Plain(box, file) && e == if ShortTail(Body(file)) then BadHeader else Eof
    ensures !HeaderOk(file) ==> out == [] && e == if |file| < HEADER then TooShort else BadMagic
  {
    hide Decrypter.Core, Decrypter.Positioned, Decrypter.BufferOk, Decrypter.Covered, Decrypter.Pending, Opened;
    hide ShortTail, OnTrack;
    var stored := new MemoryStream(file, false);
    var d;
    d, e := DecryptData(box, Memory(stored), file);
    out := [];
    if e == Ok {
      out, e := ReadToEnd(d);
    }
  }

  /** The body of an encrypted file does not end in a fragment. */
  lemma {:induction false} EncryptedTail(body: Bytes, size: nat)
    requires |body| == EncryptedSize(size) - HEADER
    ensures !ShortTail(body)
  {
    SizeRoundTrip(size);
  }

  /** Encrypting any plaintext through arbitrarily short reads gives a file of `EncryptedSize` bytes, and decrypting
      that through arbitrarily short reads gives the plaintext back and ends in an end-of-file. */
  method EncryptThenDecrypt(box: Box, nonce: array<byte>, plain: Bytes) returns (cipher: Bytes, back: Bytes, e: Err)
    requires box.Lawful() && nonce.Length == Nonce.NONCE_SIZE
    modifies nonce
    ensures cipher == Encrypt(box, old(nonce[..]), plain)
    ensures |cipher| == EncryptedSize(|plain|) && back == plain && e == Eof
  {
    hide Encrypt, Opened, SealedChunks, OnlyWholeSeals, FirstShort, Uniform, ZeroFrom, FitBlocks, Flat;
    ghost var first := nonce[..];
    EncryptedLength(box, first, plain);
    PlainOfEncrypt(box, first, plain);
    var source := new MemoryStream(plain, false);
    ghost var chunks;
    cipher, e, chunks := EncryptSource(box, nonce, source);
    EncryptedTail(Body(cipher), |plain|);
    back, e := DecryptFile(box, cipher);
  }

  datatype Op = ReadOp(n: nat) | SeekOp(offset: nat, limit: int)

  /** The source can serve a seek to `offset`. */
  predicate CanSeek(open: Opener, offset: nat, limit: int)
  {
    && offset <= INT64_MAX
    && var w := CalculateUnderlying(offset, limit);
       w.offset >= 0 && open.Servable(w.offset, w.limit)
  }

  /** A seek there succeeds or reports the end of the file: the offset is inside the plaintext or at its end, or the
      block it falls in does not exist. */
  predicate Lands(plain: Bytes, offset: nat)
  {
    offset <= |plain| || |plain| <= offset / DATA * DATA
  }

  /** Seeking forgets the past. After any reads and seeks, on any source, the decrypter is either `sound` or stuck with
      an error, which it then repeats; it is sound if nothing failed and every seek landed. From a sound state
      `RangeSeek(offset, limit)` and reading on delivers the plaintext from `offset`, up to the limit or the end, or a
      prefix of that when the transport fails. */
  method SeekAfterHistory(d: Decrypter, history: seq<Op>, offset: nat, limit: int)
    returns (out: Bytes, e: Err, sound: bool)
    requires d.Valid() && d.err == Ok && d.open.Some? && CanSeek(d.open.value, offset, limit)
    requires forall i :: 0 <= i < |history| && history[i].SeekOp? ==>
               CanSeek(d.open.value, history[i].offset, history[i].limit)
    modifies d.Repr()
    ensures d.plain == old(d.plain) && d.body == old(d.body)
    ensures sound && offset < |d.plain| && d.open.value.Heeds(limit) ==>
              && out <= Slice(d.plain, offset, limit)
              && (out == Slice(d.plain, offset, limit) || (e == Transport && d.faulty))
    ensures !sound || offset >= |d.plain| || !d.open.value.Heeds(limit) ==> out == []
    ensures !sound ==> e == BadSeek || (e == BadHeader && ShortTail(d.body)) || (e == Transport && d.faulty)
    ensures !d.faulty && !ShortTail(d.body)
            && (forall i :: 0 <= i < |history| && history[i].SeekOp? ==> Lands(d.plain, history[i].offset))
            ==> sound
  {
    hide Decrypter.Positioned, Decrypter.BufferOk, Decrypter.Covered, Decrypter.Pending, Decrypter.Core;
    hide CalculateUnderlying, Opener.Servable, ShortTail;
    var i := 0;
    while i < |history|
      invariant 0 <= i <= |history| && d.Valid()
      invariant d.plain == old(d.plain) && d.body == old(d.body) && fresh(d.Repr() - old(d.Repr()))
      invariant || d.err == Ok || d.err == Eof || d.err == BadSeek || (d.err == BadHeader && ShortTail(d.body))
                || (d.err == Transport && d.faulty)
      invariant !d.faulty && !ShortTail(d.body)
                && (forall j :: 0 <= j < i && history[j].SeekOp? ==> Lands(d.plain, history[j].offset))
                ==> d.err == Ok || d.err == Eof
    {
      match history[i] {
        case ReadOp(n) =>
          var got, _ := d.Read(n);
        case SeekOp(o, l) =>
          assert CanSeek(d.open.value, history[i].offset, history[i].limit);
          var _ := d.RangeSeek(o, 0, l);
      }
      i := i + 1;
    }
    sound := d.err == Ok || d.err == Eof;
    out := [];
    e := d.RangeSeek(offset, 0, limit);
    if e == Ok {
      out, e := ReadToEnd(d);
    }
  }
}
