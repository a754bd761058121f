/** The seekable decrypter (`internal/crypt/cipher.go`), proved against `Format.Opened`. */
module Decrypter {
  import opened Bytes
  import opened Layout
  import opened Format
  import opened Upstream
  import Nonce

  // ---- What a stored file stands for ---------------------------------------------------

  predicate HeaderOk(file: Bytes) { |file| >= HEADER && file[..MAGIC_SIZE] == MAGIC }

  function FileNonce(file: Bytes): Bytes
    requires |file| >= HEADER
  {
    file[MAGIC_SIZE..HEADER]
  }

  function Body(file: Bytes): Bytes
    requires |file| >= HEADER
  {
    file[HEADER..]
  }

  /** The plaintext a stored file reads as; blocks that fail authentication read as zeros. */
  ghost function Plain(box: Box, file: Bytes): Bytes
    requires box.Lawful() && |file| >= HEADER
  {
    Opened(box, FileNonce(file), Body(file))
  }

  /** `p` from `offset`, at most `limit` bytes, or all of the rest for a negative limit. */
  function Slice(p: Bytes, offset: nat, limit: int): Bytes
    requires offset <= |p|
  {
    p[offset..if limit < 0 then |p| else Min(offset + limit, |p|)]
  }

  /** An encrypted file reads as its plaintext. */
  lemma {:induction false} PlainOfEncrypt(box: Box, nonce: Bytes, p: Bytes)
    requires box.Lawful() && |nonce| == Nonce.NONCE_SIZE
    ensures HeaderOk(Encrypt(box, nonce, p))
    ensures Plain(box, Encrypt(box, nonce, p)) == p
  {
    var c := Encrypt(box, nonce, p);
    assert c[..MAGIC_SIZE] == MAGIC && FileNonce(c) == nonce;
    assert Body(c) == Sealed(box, nonce, p, Blocks(|p|, DATA));
    OpenedSealed(box, nonce, p);
  }

  // ---- One block at a time ----------------------------------------------------------------

  /** The part of the body a window ending before block `last` has left at block `next`. */
  function WindowRest(body: Bytes, next: nat, last: nat): Bytes
  {
    var stop := Min(last * BLOCK, |body|);
    body[Min(next * BLOCK, stop)..stop]
  }

  /** The body ends in a fragment too short to be a block. */
  predicate ShortTail(body: Bytes) { 0 < |body| % BLOCK <= OVERHEAD }

  /** What `got` read from a window tells about the next block, when the read ended there (`cut` is false) or was
      cut off by a failure. A read that opens, or that was not cut off, is the whole block. */
  lemma {:induction false} BlockRead(box: Box, nonce: Bytes, body: Bytes, next: nat, last: nat,
                                     got: Bytes, rest: Bytes, cut: bool)
    requires box.Lawful() && next <= last && WindowRest(body, next, last) == got + rest && |got| <= BLOCK
    requires !cut ==> |got| == BLOCK || rest == []
    requires cut ==> RejectsTruncation(box, nonce, body)
    ensures |got| <= OVERHEAD && !cut ==> last <= next || |Piece(body, next, BLOCK)| <= OVERHEAD
    ensures got != [] ==> next < last
    ensures 0 < |got| <= OVERHEAD && !cut ==> ShortTail(body)
    ensures |got| > OVERHEAD && (!cut || box.open(got, Nonce.At(nonce, next)).Some?) ==>
              && got == Piece(body, next, BLOCK) && rest == WindowRest(body, next + 1, last)
              && |OpenBlock(box, nonce, body, next)| == |got| - OVERHEAD
  {
    var stop := Min(last * BLOCK, |body|);
    var lo := Min(next * BLOCK, stop);
    SplitSlice(body, lo, stop, got, rest);
    OpenBlockSize(box, nonce, body, next);
    if got != [] {
      assert next < last;
      assert (next + 1) * BLOCK <= last * BLOCK;
      var c := Piece(body, next, BLOCK);
      assert got == c[..|got|];
      if cut && |got| > OVERHEAD && |got| < |c| {
        assert box.open(c[..|got|], Nonce.At(nonce, next)).None?;
      }
    }
  }

  /** The window reaches the end of the body, and block `next` is not past a fragment there. */
  predicate OnTrack(body: Bytes, next: nat, last: nat)
  {
    |body| <= last * BLOCK && (ShortTail(body) ==> next * BLOCK <= |body|)
  }

  /** On the way through the whole body no fragment at its end is passed over. */
  lemma {:induction false} TailSeen(body: Bytes, next: nat, last: nat)
    requires OnTrack(body, next, last)
    ensures WindowRest(body, next, last) == [] ==> !ShortTail(body)
    ensures |WindowRest(body, next, last)| > OVERHEAD ==> OnTrack(body, next + 1, last)
  {
    if ShortTail(body) {
      assert |WindowRest(body, next, last)| == |body| - next * BLOCK;
      assert |body| == |body| / BLOCK * BLOCK + |body| % BLOCK;
    }
  }

  /** `plain` is what `body` decrypts to, block by block. */
  ghost predicate Decodes(box: Box, nonce: Bytes, body: Bytes, plain: Bytes)
  {
    && |plain| == PlainSize(|body|)
    && forall k: nat {:trigger OpenBlock(box, nonce, body, k)} ::
         |Piece(body, k, BLOCK)| > OVERHEAD ==> Piece(plain, k, DATA) == OpenBlock(box, nonce, body, k)
  }

  lemma {:induction false} OpenedDecodes(box: Box, nonce: Bytes, body: Bytes)
    requires box.Lawful()
    ensures Decodes(box, nonce, body, Opened(box, nonce, body))
  {
    forall k: nat | |Piece(body, k, BLOCK)| > OVERHEAD
      ensures Piece(Opened(box, nonce, body), k, DATA) == OpenBlock(box, nonce, body, k)
    {
      OpenedPiece(box, nonce, body, k);
    }
  }

  /** Where block `k` of the plaintext begins, if there is one. */
  function BlockAt(plain: Bytes, k: nat): (i: nat)
    ensures i <= |plain|
  {
    Min(k * DATA, |plain|)
  }

  /** A block that holds a tag carries the plaintext up to the next block. */
  lemma {:induction false} BlockExtent(box: Box, nonce: Bytes, body: Bytes, plain: Bytes, k: nat)
    requires Decodes(box, nonce, body, plain) && |Piece(body, k, BLOCK)| > OVERHEAD
    ensures BlockAt(plain, k) < BlockAt(plain, k + 1) == BlockAt(plain, k) + |Piece(body, k, BLOCK)| - OVERHEAD
    ensures OpenBlock(box, nonce, body, k) == plain[BlockAt(plain, k)..BlockAt(plain, k + 1)]
  {
    PieceExtent(|body|, k);
  }

  /** Where a window is used up, so is the plaintext it covers. */
  lemma {:induction false} WindowUsedUp(body: Bytes, plain: Bytes, k: nat, last: nat)
    requires |plain| == PlainSize(|body|) && k <= last
    requires last <= k || |Piece(body, k, BLOCK)| <= OVERHEAD
    ensures BlockAt(plain, k) == BlockAt(plain, last)
  {
    if k < last {
      var n := |body|;
      assert n == n / BLOCK * BLOCK + n % BLOCK;
      assert k >= n / BLOCK;
    }
  }

  /** The window opened for a range is the body from the block of `offset` on, and reaches far enough. */
  lemma {:induction false} OpenWindow(file: Bytes, plain: Bytes, offset: nat, limit: int) returns (last: nat)
    requires |file| >= HEADER && |plain| == PlainSize(|file| - HEADER)
    ensures var w := CalculateUnderlying(offset, limit);
            && 0 <= w.blocks < last && w.blocks * DATA + w.discard == offset && 0 <= w.discard < DATA
            && w.offset == HEADER + w.blocks * BLOCK
            && Range(file, w.offset, w.limit) == WindowRest(Body(file), w.blocks, last)
            && (if limit < 0 then |plain| else Min(offset + limit, |plain|)) <= BlockAt(plain, last)
  {
    var w := CalculateUnderlying(offset, limit);
    var body := Body(file);
    if limit < 0 {
      last := w.blocks + |body| + 1;
    } else {
      WindowEnds(offset, limit);
      var count: nat :| count >= 1 && w.limit == count * BLOCK && offset + limit <= (w.blocks + count) * DATA;
      last := w.blocks + count;
    }
    var stop := Min(last * BLOCK, |body|);
    SubSlice(file, HEADER, |file|, Min(w.blocks * BLOCK, stop), stop);
    assert file[HEADER..|file|] == body;
  }

  lemma {:induction false} WindowOffset(offset: nat, limit: int)
    ensures var w := CalculateUnderlying(offset, limit);
            w.offset >= HEADER && (limit >= 0 ==> w.limit > 0)
  {
    if limit >= 0 {
      WindowEnds(offset, limit);
    }
  }

  /** The window an opened stream stands for: none at all if it does not heed the limit. */
  lemma {:induction false} StreamWindow(open: Opener, plain: Bytes, offset: nat, limit: int) returns (last: nat)
    requires |open.data| >= HEADER && |plain| == PlainSize(|open.data| - HEADER)
    ensures var w := CalculateUnderlying(offset, limit);
            && 0 <= w.blocks <= last && w.blocks * DATA + w.discard == offset && 0 <= w.discard < DATA
            && w.offset == HEADER + w.blocks * BLOCK
            && open.Stream(w.offset, w.limit) == WindowRest(Body(open.data), w.blocks, last)
            && (w.blocks < last <==> open.Heeds(limit))
            && (open.Heeds(limit) ==>
                  (if limit < 0 then |plain| else Min(offset + limit, |plain|)) <= BlockAt(plain, last))
  {
    var w := CalculateUnderlying(offset, limit);
    last := OpenWindow(open.data, plain, offset, limit);
    WindowOffset(offset, limit);
    if !open.Heeds(limit) {
      last := w.blocks;
    }
  }

  /** Where in the buffer a position inside block `k` falls, once the block (of `size` bytes) has been read. */
  lemma {:induction false} SeekInside(plain: Bytes, k: nat, size: nat, discard: nat)
    requires 0 < size && BlockAt(plain, k) + size == BlockAt(plain, k + 1) && discard < DATA
    ensures BlockAt(plain, k) == k * DATA < |plain|
    ensures discard <= size <==> k * DATA + discard <= |plain|
  {
  }

  /** A position inside the plaintext has a block to be read. */
  lemma {:induction false} SeekPastEnd(plain: Bytes, k: nat, last: nat)
    requires BlockAt(plain, k) == BlockAt(plain, last) && k < last
    ensures k * DATA >= |plain|
  {
  }

  // ---- The class ------------------------------------------------------------------------------

  class Decrypter {
    const box: Box
    const open: Option<Opener>
    const faulty: bool
    const nonce: array<byte>
    var up: Upstream
    var initialNonce: Bytes
    var buf: Bytes
    var bufIndex: nat
    var bufSize: nat
    var err: Err
    var limit: int
    ghost var body: Bytes  // the ciphertext after the header
    ghost var plain: Bytes // what it decrypts to
    ghost var pos: nat     // plaintext position of the next byte to deliver
    ghost var next: nat    // block the upstream will deliver next
    ghost var last: nat    // the upstream window ends before this block

    ghost function Repr(): set<object>
      reads this
    {
      {this, nonce, up.Obj()}
    }

    /** Facts fixed once the header has been read. */
    ghost predicate Core()
      reads this`up, this`initialNonce, this`body, this`plain
    {
      && box.Lawful()
      && nonce.Length == Nonce.NONCE_SIZE == |initialNonce|
      && up.Obj() != this && up.Obj() != nonce
      && (faulty ==> RejectsTruncation(box, initialNonce, body))
      && Decodes(box, initialNonce, body, plain)
      && (open.Some? ==> open.value.faulty == faulty && |open.value.data| >= HEADER && Body(open.value.data) == body)
    }

    /** The upstream stands at block `next` of the body, and the nonce is the one that block was sealed under. */
    ghost predicate Positioned()
      requires Core()
      reads this`up, this`initialNonce, this`body, this`plain, this`next, this`last, nonce, up.Obj()
    {
      && up.Valid() && up.Faulty() == faulty
      && next <= last
      && up.Rest() == WindowRest(body, next, last)
      && nonce[..] == Nonce.At(initialNonce, next)
    }

    /** One past the last byte the limit allows to be read. */
    ghost function Hi(): int
      reads this
    {
      if limit < 0 then |plain| else Min(pos + limit, |plain|)
    }

    /** The buffer holds the plaintext from `pos` to the block the upstream stands at. */
    ghost predicate BufferOk()
      reads this
    {
      && pos <= |plain| && bufIndex <= bufSize <= |buf|
      && pos + (bufSize - bufIndex) == BlockAt(plain, next)
      && buf[bufIndex..bufSize] == plain[pos..pos + (bufSize - bufIndex)]
    }

    /** The window still holds everything the limit allows to be read. */
    ghost predicate Covered()
      reads this
    {
      Hi() <= BlockAt(plain, last)
    }

    ghost predicate Valid()
      reads this, nonce, up.Obj()
    {
      && Core()
      && (err == Ok ==> Positioned() && BufferOk() && Covered())
    }

    /** The bytes reads will still deliver. */
    ghost function Pending(): Bytes
      requires Valid()
      reads this, nonce, up.Obj()
    {
      if err == Ok then plain[pos..Hi()] else []
    }

    constructor (box: Box, up: Upstream, open: Option<Opener>, faulty: bool)
      requires box.Lawful() && up.Valid() && up.Faulty() == faulty
      ensures this.box == box && this.up == up && this.open == open && this.faulty == faulty
      ensures fresh(nonce) && nonce.Length == Nonce.NONCE_SIZE
      ensures err == Ok && limit == -1 && bufIndex == bufSize == 0
    {
      this.box, this.up, this.open, this.faulty := box, up, open, faulty;
      nonce := new byte[Nonce.NONCE_SIZE](_ => 0);
      initialNonce, buf, bufIndex, bufSize, err, limit := [], [], 0, 0, Ok, -1;
      body, plain, pos, next, last := [], [], 0, 0, 0;
    }

    /** The opening steps of `newDecrypter`: read and check the header. Each error names its cause exactly. */
    method ReadHeader(ghost file: Bytes) returns (e: Err)
      requires box.Lawful() && nonce.Length == Nonce.NONCE_SIZE
      requires up.Valid() && up.Faulty() == faulty && up.Obj() != this && up.Obj() != nonce
      requires up.Rest() <= file
      modifies this`initialNonce, this`body, this`plain, this`pos, this`next, nonce, up.Obj()
      ensures up.Valid()
      ensures e == Ok ==>
                && HeaderOk(file) && initialNonce == FileNonce(file) && body == Body(file) && plain == Plain(box, file)
                && Decodes(box, initialNonce, body, plain) && pos == next == 0
                && nonce[..] == initialNonce
                && |old(up.Rest())| >= HEADER && up.Rest() == old(up.Rest())[HEADER..]
      ensures e == TooShort ==> |old(up.Rest())| < HEADER
      ensures e == BadMagic ==> |old(up.Rest())| >= HEADER && !HeaderOk(file)
      ensures e == Ok || e == TooShort || e == BadMagic || (e == Transport && faulty)
    {
      var got;
      got, e := ReadFill(up, HEADER);
      if |got| < HEADER && e == Eof {
        return TooShort;
      }
      if e == Transport {
        return;
      }
      assert got == file[..HEADER];
      if got[..MAGIC_SIZE] != MAGIC {
        return BadMagic;
      }
      var loaded := Nonce.Load(nonce, got[MAGIC_SIZE..]);
      initialNonce := got[MAGIC_SIZE..];
      body, pos, next := file[HEADER..], 0, 0;
      plain := Opened(box, initialNonce, body);
      OpenedDecodes(box, initialNonce, body);
      e := Ok;
    }

    /** Read, authenticate and decrypt the next block. A block that fails authentication reads as zeros, but a
        transport failure is reported, never turned into zeros. */
    method ReadBlock() returns (e: Err, block: Bytes, size: nat)
      requires Core() && Positioned()
      modifies up.Obj()
      ensures e == Ok ==>
                && up.Valid() && next < last && up.Rest() == WindowRest(body, next + 1, last)
                && 0 < size <= |block| && BlockAt(plain, next) + size == BlockAt(plain, next + 1)
                && block[..size] == plain[BlockAt(plain, next)..BlockAt(plain, next + 1)]
      ensures e == Ok || (e == Transport && faulty) || e == Eof || e == BadHeader
      ensures e == Eof || e == BadHeader ==> BlockAt(plain, next) == BlockAt(plain, last)
      ensures e == BadHeader ==> ShortTail(body) && next < last
      ensures e == Eof ==> WindowRest(body, next, last) == []
      ensures e == BadHeader ==> 0 < |WindowRest(body, next, last)| <= OVERHEAD
      ensures e == Ok ==> |WindowRest(body, next, last)| > OVERHEAD
    {
      var got;
      hide RejectsTruncation, Nonce.At, BlockAt, WindowRest, Upstream.Valid, Upstream.Rest;
      got, e := ReadFill(up, BLOCK);
      block, size := [], 0;
      BlockRead(box, initialNonce, body, next, last, got, up.Rest(), e == Transport);
      if |got| <= OVERHEAD {
        if e != Transport {
          WindowUsedUp(body, plain, next, last);
          e := if |got| == 0 then e else BadHeader;
        }
        return;
      }
      var message := box.open(got, nonce[..]);
      if message.None? && e == Transport {
        return;
      }
      BlockExtent(box, initialNonce, body, plain, next);
      e, size := Ok, |got| - OVERHEAD;
      block := if message.Some? then message.value else Zeros(|got|);
    }

    /** Put the next block in the buffer and step the nonce. */
    method FillBuffer() returns (e: Err)
      requires Core() && Positioned()
      modifies this`buf, this`bufIndex, this`bufSize, this`next, nonce, up.Obj()
      ensures Core()
      ensures e == Ok ==>
                && Positioned() && next == old(next) + 1
                && bufIndex == 0 < bufSize <= |buf| && BlockAt(plain, old(next)) + bufSize == BlockAt(plain, next)
                && buf[..bufSize] == plain[BlockAt(plain, old(next))..BlockAt(plain, next)]
      ensures e == Ok || (e == Transport && faulty) || e == Eof || e == BadHeader
      ensures e == Eof || e == BadHeader ==> BlockAt(plain, next) == BlockAt(plain, last)
      ensures e == BadHeader ==> ShortTail(body)
      ensures e == Ok || e == BadHeader ==> old(next) < last
      ensures e == Eof ==> WindowRest(body, old(next), last) == []
      ensures e == BadHeader ==> 0 < |WindowRest(body, old(next), last)| <= OVERHEAD
      ensures e == Ok ==> |WindowRest(body, old(next), last)| > OVERHEAD
      ensures e != Ok ==> next == old(next)
    {
      hide RejectsTruncation, Box.Lawful, Decodes, Nonce.At, BlockAt, WindowRest, Upstream.Valid, Upstream.Rest;
      var block, size;
      e, block, size := ReadBlock();
      if e != Ok {
        return;
      }
      Nonce.AtAdd(initialNonce, next, 1);
      buf, bufIndex, bufSize := block, 0, size;
      Nonce.Increment(nonce);
      next := next + 1;
    }

    /** Refill an empty buffer without changing what is pending. */
    method Refill() returns (e: Err)
      requires Valid() && err == Ok && bufIndex == bufSize
      modifies this`buf, this`bufIndex, this`bufSize, this`next, nonce, up.Obj()
      ensures Core()
      ensures e == Ok || (e == Transport && faulty) || e == Eof || e == BadHeader
      ensures e == Ok ==> Valid() && bufIndex < bufSize
      ensures e == Eof || e == BadHeader ==> Hi() == pos
      ensures e == BadHeader ==> ShortTail(body)
      ensures OnTrack(body, old(next), last) ==> (e == Ok ==> OnTrack(body, next, last)) && (e == Eof ==> !ShortTail(body))
    {
      hide Core, Positioned, OnTrack, WindowRest, ShortTail, BlockAt;
      ghost var k := next;
      e := FillBuffer();
      if OnTrack(body, k, last) {
        TailSeen(body, k, last);
      }
    }

    method CopyOut(k: nat) returns (got: Bytes)
      requires BufferOk() && k <= bufSize - bufIndex
      modifies this`bufIndex, this`pos
      ensures BufferOk() && pos == old(pos) + k && |got| == k && got == plain[old(pos)..pos]
    {
      hide BlockAt;
      got := buf[bufIndex..bufIndex + k];
      CutBoth(buf, bufIndex, plain, pos, bufSize - bufIndex, k);
      bufIndex := bufIndex + k;
      pos := pos + k;
    }

    /** Copy out of the buffer, up to the limit. */
    method Deliver(n: nat) returns (got: Bytes, e: Err)
      requires err == Ok && bufIndex < bufSize && BufferOk() && Covered()
      modifies this`bufIndex, this`limit, this`err, this`pos
      ensures pos == old(pos) + |got| && |got| <= n
      ensures limit == if old(limit) < 0 then old(limit) else old(limit) - |got|
      ensures BufferOk() && Covered() && pos <= Hi() == old(Hi())
      ensures got == plain[old(pos)..pos]
      ensures err == e == if limit == 0 then Eof else Ok
      ensures e == Ok && n > 0 ==> got != []
    {
      hide BlockAt;
      var toCopy := bufSize - bufIndex;
      if limit >= 0 && limit < toCopy {
        toCopy := limit;
      }
      got := CopyOut(Min(n, toCopy));
      e := Ok;
      if limit >= 0 {
        limit := limit - |got|;
        if limit == 0 {
          e := Eof;
        }
      }
      err := e;
    }

    /** Delivers the pending plaintext in order. The end is reported only when nothing is left, and at once when a
        limit is used up; a transport failure or a truncated tail delivers nothing. */
    method Read(n: nat) returns (got: Bytes, e: Err)
      requires Valid()
      modifies Repr()
      ensures Valid() && up == old(up) && plain == old(plain) && body == old(body) && last == old(last)
      ensures old(err) != Ok ==> got == [] && e == old(err) && err == old(err)
      ensures old(err) == Ok && old(limit) < 0 && OnTrack(body, old(next), last) ==>
                (e == Ok ==> OnTrack(body, next, last)) && (e == Eof ==> !ShortTail(body))
      ensures old(err) == Ok ==>
                && (e == Ok || e == Eof || e == BadHeader || (e == Transport && faulty))
                && (e == Ok || e == Eof ==> ReadStep(old(Pending()), n, got, e, Pending()))
                && (e == BadHeader ==> old(Pending()) == [] && ShortTail(body))
                && (e == Transport || e == BadHeader ==> got == [])
                && err == e
      ensures e == Ok ==> limit == (if old(limit) < 0 then old(limit) else old(limit) - |got|) && limit != 0
    {
      hide Core, Positioned, OnTrack, ShortTail, BlockAt;
      if err != Ok {
        return [], err;
      }
      if bufIndex >= bufSize {
        e := Refill();
        if e != Ok {
          err := e;
          return [], e;
        }
      }
      ghost var from := pos;
      got, e := Deliver(n);
      JoinSlices(plain, from, pos, Hi());
    }

    lemma {:induction false} PlainLength()
      requires Core()
      ensures |plain| == PlainSize(|body|)
    {
    }

    method Finish(e: Err) returns (r: Err)
      requires e != Ok
      modifies this`err
      ensures r == err == if old(err) != Ok then old(err) else e
    {
      if err == Ok {
        err := e;
      }
      r := err;
    }

    /** Move the nonce and the upstream to the block that holds `offset`. */
    method Reposition(w: Window, ghost newLast: nat) returns (e: Err)
      requires Core() && open.Some?
      requires 0 <= w.blocks < Nonce.Pow256(8) && 0 <= w.offset && w.blocks <= newLast
      requires open.value.Servable(w.offset, w.limit)
      requires open.value.Stream(w.offset, w.limit) == WindowRest(body, w.blocks, newLast)
      modifies this`up, this`next, this`last, nonce
      ensures Core() && fresh(up.Obj()) && next == w.blocks && last == newLast
      ensures e == Ok || (e == Transport && faulty)
      ensures e == Ok ==> Positioned()
    {
      hide RejectsTruncation, Decodes, Box.Lawful, Nonce.At;
      var loaded := Nonce.Load(nonce, initialNonce);
      assert initialNonce[..nonce.Length] == initialNonce;
      Nonce.Add(nonce, w.blocks);
      var opener := open.value;
      up, e := opener.Open(w.offset, w.limit);
      next, last := w.blocks, newLast;
    }

    /** Put the cursor on `offset` in the block just read. */
    method Land(ghost k: nat, offset: nat, discard: nat, limit: int)
      requires Core() && Positioned() && err == Ok
      requires bufIndex == 0 && discard <= bufSize <= |buf| && offset == k * DATA + discard
      requires k * DATA + bufSize == BlockAt(plain, next) && buf[..bufSize] == plain[k * DATA..BlockAt(plain, next)]
      requires (if limit < 0 then |plain| else Min(offset + limit, |plain|)) <= BlockAt(plain, last)
      modifies this`bufIndex, this`limit, this`pos
      ensures Valid() && this.limit == limit && offset <= |plain| && Pending() == Slice(plain, offset, limit)
    {
      hide Positioned, BlockAt, RejectsTruncation, Box.Lawful, Decodes;
      assert buf[0..bufSize] == buf[..bufSize];
      CutBoth(buf, 0, plain, k * DATA, bufSize, discard);
      bufIndex := discard;
      this.limit := limit;
      pos := offset;
    }

    /** Read the block that holds `offset` and skip to it. */
    method SeekInBlock(offset: nat, discard: nat, limit: int) returns (e: Err)
      requires Core() && Positioned() && err == Ok
      requires offset == next * DATA + discard && discard < DATA && next <= last
      requires next < last ==> (if limit < 0 then |plain| else Min(offset + limit, |plain|)) <= BlockAt(plain, last)
      modifies this`buf, this`bufIndex, this`bufSize, this`next, this`limit, this`err, this`pos, nonce, up.Obj()
      ensures Core()
      ensures e == Ok ==>
                && Valid() && err == Ok && this.limit == limit
                && offset <= |plain| && Pending() == Slice(plain, offset, limit)
      ensures e != Ok ==> err == e
      ensures e == Ok || (e == Transport && faulty) || e == Eof || e == BadHeader || e == BadSeek
      ensures e == Eof || e == BadHeader ==> |plain| <= offset - discard || old(next) == last
      ensures old(next) == last ==> e == Eof || e == Transport
      ensures e == BadHeader ==> ShortTail(body)
      ensures e == BadSeek ==> offset - discard < |plain| < offset
      ensures e == Ok ==> offset - discard < |plain|
    {
      hide Core, Positioned, BlockAt;
      ghost var k := next;
      e := FillBuffer();
      if e != Ok {
        if e != Transport && k < last {
          SeekPastEnd(plain, k, last);
        }
        e := Finish(e);
        return;
      }
      SeekInside(plain, k, bufSize, discard);
      if discard > bufSize {
        e := Finish(BadSeek);
        return;
      }
      Land(k, offset, discard, limit);
    }

    /** The seek proper, once its arguments and the state have been found in order. */
    method SeekTo(offset: nat, limit: int) returns (e: Err)
      requires Core() && err == Ok && open.Some? && offset <= INT64_MAX
      requires var w := CalculateUnderlying(offset, limit); w.offset >= 0 && open.value.Servable(w.offset, w.limit)
      modifies Repr()
      ensures Core() && plain == old(plain) && body == old(body)
      ensures up == old(up) || fresh(up.Obj())
      ensures e == Ok ==>
                && Valid() && err == Ok && this.limit == limit
                && offset <= |plain| && Pending() == Slice(plain, offset, limit)
      ensures e != Ok ==> err == e
      ensures || (e == Transport && faulty)
              || (if !open.value.Heeds(limit) then e == Eof
                  else if |plain| <= offset / DATA * DATA then e == Eof || (e == BadHeader && ShortTail(body))
                  else if |plain| < offset then e == BadSeek
                  else e == Ok)
    {
      hide RejectsTruncation, Box.Lawful, Positioned, CalculateUnderlying, WindowRest, Range, BlockAt, Decodes;
      PlainLength();
      var w := CalculateUnderlying(offset, limit);
      ghost var newLast := StreamWindow(open.value, plain, offset, limit);
      Nonce.Pow256Of8();
      assert offset / DATA * DATA == offset - w.discard;
      e := Reposition(w, newLast);
      if e != Ok {
        e := Finish(e);
        return;
      }
      e := SeekInBlock(offset, w.discard, limit);
    }

    /** After any history that ended normally or at the end of the file, seeking to `offset` makes the next reads
        deliver the plaintext from there, up to the limit or the end. A seek past the end is an end-of-file when the
        block of `offset` does not exist, and a bad seek when it does. A source that does not heed a negative limit
        turns every such seek into an end-of-file. */
    method RangeSeek(offset: nat, whence: int, limit: int) returns (e: Err)
      requires Core() && offset <= INT64_MAX
      requires open.Some? ==>
                 var w := CalculateUnderlying(offset, limit);
                 w.offset >= 0 && open.value.Servable(w.offset, w.limit)
      modifies Repr()
      ensures Core() && plain == old(plain) && body == old(body)
      ensures up == old(up) || fresh(up.Obj())
      ensures e == Ok ==>
                && Valid() && err == Ok && this.limit == limit
                && offset <= |plain| && Pending() == Slice(plain, offset, limit)
      ensures open.Some? && whence == 0 && old(err) != Ok && old(err) != Eof ==> e == old(err)
      ensures open.None? ==> e == if old(err) != Ok then old(err) else NotSeekable
      ensures open.Some? && whence != 0 ==> e == if old(err) != Ok then old(err) else BadWhence
      ensures e != Ok ==> err == e
      ensures (old(err) == Ok || old(err) == Eof) && open.Some? && whence == 0 ==>
                || (e == Transport && faulty)
                || (if !open.value.Heeds(limit) then e == Eof
                    else if |plain| <= offset / DATA * DATA then e == Eof || (e == BadHeader && ShortTail(body))
                    else if |plain| < offset then e == BadSeek
                    else e == Ok)
    {
      hide RejectsTruncation, Box.Lawful, Positioned, CalculateUnderlying, BlockAt, Decodes;
      if open.None? {
        e := Finish(NotSeekable);
        return;
      }
      if whence != 0 {
        e := Finish(BadWhence);
        return;
      }
      if err == Eof {
        err, bufIndex, bufSize := Ok, 0, 0;
      } else if err != Ok {
        return err;
      }
      e := SeekTo(offset, limit);
    }
  }

  // ---- Opening ----------------------------------------------------------------------------------

  /** `newDecrypter`: take over a stream that begins with the file's header. */
  method NewDecrypter(box: Box, up: Upstream, open: Option<Opener>, ghost file: Bytes) returns (d: Decrypter, e: Err)
    requires box.Lawful() && up.Valid()
    requires up.Rest() <= file
    requires open.Some? ==> open.value.faulty == up.Faulty() && open.value.data == file
    requires up.Faulty() && |file| >= HEADER ==> RejectsTruncation(box, FileNonce(file), Body(file))
    modifies up.Obj()
    ensures fresh(d) && fresh(d.nonce) && d.up == up && d.faulty == up.Faulty() && d.open == open && d.box == box
    ensures e == Ok ==>
              && HeaderOk(file) && d.Core() && d.plain == Plain(box, file) && d.body == Body(file)
              && d.err == Ok && d.limit == -1 && d.pos == d.next == d.bufIndex == d.bufSize == 0
              && d.nonce[..] == Nonce.At(d.initialNonce, 0)
              && up.Valid() && |old(up.Rest())| >= HEADER && up.Rest() == old(up.Rest())[HEADER..]
    ensures e == TooShort ==> |old(up.Rest())| < HEADER
    ensures e == BadMagic ==> |old(up.Rest())| >= HEADER && !HeaderOk(file)
    ensures e == Ok || e == TooShort || e == BadMagic || (e == Transport && up.Faulty())
  {
    hide RejectsTruncation, Box.Lawful, Decodes, Nonce.At, Opened, Upstream.Valid, Upstream.Rest;
    d := new Decrypter(box, up, open, up.Faulty());
    e := d.ReadHeader(file);
    if e == Ok {
      Nonce.AtZero(d.initialNonce);
    }
  }

  lemma {:induction false} WholeWindow(body: Bytes, plain: Bytes)
    requires |plain| == PlainSize(|body|)
    ensures WindowRest(body, 0, |body|) == body
    ensures BlockAt(plain, |body|) == |plain| && BlockAt(plain, 0) == 0
  {
    assert body[0..|body|] == body;
  }

  /** `DecryptData`: decrypting a whole stream from its start delivers the plaintext of the file. */
  method DecryptData(box: Box, up: Upstream, ghost file: Bytes) returns (d: Decrypter, e: Err)
    requires box.Lawful() && up.Valid() && up.Rest() == file
    requires up.Faulty() && |file| >= HEADER ==> RejectsTruncation(box, FileNonce(file), Body(file))
    modifies up.Obj()
    ensures fresh(d.Repr() - {up.Obj()}) && d.faulty == up.Faulty()
    ensures e == Ok ==> HeaderOk(file) && d.Valid() && d.err == Ok && d.Pending() == Plain(box, file)
    ensures e == Ok ==> d.body == Body(file) && d.limit < 0 && OnTrack(d.body, d.next, d.last)
    ensures || (e == Transport && up.Faulty())
            || e == if HeaderOk(file) then Ok else if |file| < HEADER then TooShort else BadMagic
  {
    hide RejectsTruncation, Box.Lawful, Nonce.At, Opened, Upstream.Valid, Upstream.Rest;
    d, e := NewDecrypter(box, up, None, file);
    if e == Ok {
      d.last := |d.body|;
      WholeWindow(d.body, d.plain);
    }
  }

  /** The bytes opened from the start of the file are its header and the first blocks of the window. */
  lemma {:induction false} OpenStart(file: Bytes, plain: Bytes, limit: int) returns (last: nat)
    requires |file| >= HEADER && |plain| == PlainSize(|file| - HEADER)
    ensures var w := CalculateUnderlying(0, limit);
            var front := Range(file, 0, if limit < 0 then -1 else HEADER + w.limit);
            && |front| >= HEADER && front[HEADER..] == WindowRest(Body(file), 0, last)
            && (if limit < 0 then |plain| else Min(limit, |plain|)) <= BlockAt(plain, last)
  {
    var w := CalculateUnderlying(0, limit);
    last := OpenWindow(file, plain, 0, limit);
    var top := if limit < 0 then |file| else Min(HEADER + w.limit, |file|);
    SubSlice(file, 0, top, HEADER, top);
    assert file[0..top] == Range(file, 0, if limit < 0 then -1 else HEADER + w.limit);
  }

  /** The preconditions a range must meet for its opener to serve every request made for it. */
  predicate Openable(opener: Opener, offset: nat, limit: int)
  {
    && offset <= INT64_MAX
    && var w := CalculateUnderlying(offset, limit);
       if offset == 0 then opener.Servable(0, if limit < 0 then -1 else HEADER + w.limit)
       else opener.Servable(0, HEADER) && w.offset >= 0 && opener.Servable(w.offset, w.limit)
  }

  lemma {:induction false} BlockZero(plain: Bytes)
    ensures BlockAt(plain, 0) == 0
  {
  }

  lemma {:induction false} FrontOfFile(file: Bytes, limit: int)
    requires limit < 0 || limit >= HEADER
    ensures var front := Range(file, 0, limit);
            front <= file && (|front| >= HEADER || front == file)
  {
  }

  method OpenAtStart(box: Box, opener: Opener, limit: int) returns (d: Decrypter, e: Err)
    requires box.Lawful() && Openable(opener, 0, limit)
    requires opener.faulty && |opener.data| >= HEADER ==> RejectsTruncation(box, FileNonce(opener.data), Body(opener.data))
    ensures fresh(d.Repr())
    ensures e == Ok ==>
              && HeaderOk(opener.data) && d.Valid() && d.err == Ok && d.faulty == opener.faulty
              && d.plain == Plain(box, opener.data) && d.Pending() == Slice(d.plain, 0, limit)
              && (limit >= 0 ==> d.limit == limit)
    ensures HeaderOk(opener.data) ==>
              e == (if opener.Heeds(limit) then Ok else TooShort) || (e == Transport && opener.faulty)
    ensures e == TooShort ==> |opener.data| < HEADER || !opener.Heeds(limit)
    ensures e == BadMagic ==> |opener.data| >= HEADER && !HeaderOk(opener.data)
  {
    hide RejectsTruncation, Box.Lawful, Nonce.At, Opened, Upstream.Valid, Upstream.Rest, BlockAt, WindowRest;
    var up;
    hide CalculateUnderlying, Range;
    var w := CalculateUnderlying(0, limit);
    WindowOffset(0, limit);
    FrontOfFile(opener.data, if limit < 0 then -1 else HEADER + w.limit);
    up, e := opener.Open(0, if limit < 0 then -1 else HEADER + w.limit);
    if e != Ok {
      d := new Decrypter(box, up, Some(opener), opener.faulty);
      return;
    }
    d, e := NewDecrypter(box, up, Some(opener), opener.data);
    if e == Ok {
      ghost var last := OpenStart(opener.data, d.plain, limit);
      d.last := last;
      BlockZero(d.plain);
      if limit >= 0 {
        d.limit := limit;
      }
    }
  }

  method OpenBySeek(box: Box, opener: Opener, offset: nat, limit: int) returns (d: Decrypter, e: Err)
    requires box.Lawful() && offset > 0 && Openable(opener, offset, limit)
    requires opener.faulty && |opener.data| >= HEADER ==> RejectsTruncation(box, FileNonce(opener.data), Body(opener.data))
    ensures fresh(d.Repr())
    ensures e == Ok ==>
              && HeaderOk(opener.data) && d.Valid() && d.err == Ok && d.faulty == opener.faulty
              && d.plain == Plain(box, opener.data) && offset <= |d.plain|
              && d.Pending() == Slice(d.plain, offset, limit)
              && d.limit == limit
    ensures HeaderOk(opener.data) && opener.Heeds(limit) && offset < |Plain(box, opener.data)| ==>
              e == Ok || (e == Transport && opener.faulty)
    ensures !opener.Heeds(limit) && HeaderOk(opener.data) ==> e == Eof || (e == Transport && opener.faulty)
    ensures e == TooShort ==> |opener.data| < HEADER
    ensures e == BadMagic ==> |opener.data| >= HEADER && !HeaderOk(opener.data)
  {
    hide RejectsTruncation, Box.Lawful, Nonce.At, Opened, Upstream.Valid, Upstream.Rest, BlockAt, WindowRest;
    hide CalculateUnderlying, Range, Decodes;
    var up;
    FrontOfFile(opener.data, HEADER);
    up, e := opener.Open(0, HEADER);
    if e != Ok {
      d := new Decrypter(box, up, Some(opener), opener.faulty);
      return;
    }
    d, e := NewDecrypter(box, up, Some(opener), opener.data);
    if e == Ok {
      WindowOffset(offset, limit);
      e := d.RangeSeek(offset, 0, limit);
    }
  }

  /** `newDecrypterSeek`: open a file for reading from `offset`. A source that does not heed a negative limit is never
      opened with one: its header is found too short at offset 0, and the end of the file is reported elsewhere. */
  method NewDecrypterSeek(box: Box, opener: Opener, offset: nat, limit: int) returns (d: Decrypter, e: Err)
    requires box.Lawful() && Openable(opener, offset, limit)
    requires opener.faulty && |opener.data| >= HEADER ==> RejectsTruncation(box, FileNonce(opener.data), Body(opener.data))
    ensures fresh(d.Repr())
    ensures e == Ok ==>
              && HeaderOk(opener.data) && d.Valid() && d.err == Ok && d.faulty == opener.faulty
              && d.plain == Plain(box, opener.data) && offset <= |d.plain|
              && d.Pending() == Slice(d.plain, offset, limit)
              && (limit >= 0 ==> d.limit == limit)
    ensures HeaderOk(opener.data) && opener.Heeds(limit) && (offset == 0 || offset < |Plain(box, opener.data)|) ==>
              e == Ok || (e == Transport && opener.faulty)
    ensures !opener.Heeds(limit) && HeaderOk(opener.data) ==>
              e == (if offset == 0 then TooShort else Eof) || (e == Transport && opener.faulty)
    ensures e == TooShort ==> |opener.data| < HEADER || (offset == 0 && !opener.Heeds(limit))
    ensures e == BadMagic ==> |opener.data| >= HEADER && !HeaderOk(opener.data)
  {
    if offset == 0 {
      d, e := OpenAtStart(box, opener, limit);
    } else {
      d, e := OpenBySeek(box, opener, offset, limit);
    }
  }
}
