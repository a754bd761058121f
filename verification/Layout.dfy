/** Sizes and offsets of the encrypted file format (`internal/crypt/cipher.go`). */
module Layout {
  import opened Bytes

  const MAGIC_SIZE := 10
  const HEADER := 34          // magic string and initial nonce
  const OVERHEAD := 16        // secretbox tag of one block
  const DATA := 65536         // plaintext bytes of a full block
  const BLOCK := 65552        // ciphertext bytes of a full block
  const INT64_MAX := 0x7fff_ffff_ffff_ffff

  function EncryptedSize(size: nat): nat
  {
    var blocks, residue := size / DATA, size % DATA;
    HEADER + blocks * BLOCK + (if residue != 0 then OVERHEAD + residue else 0)
  }

  datatype SizeResult = Size(value: nat) | Rejected(err: Err)

  function DecryptedSize(size: int): SizeResult
  {
    var size := size - HEADER;
    if size < 0 then Rejected(TooShort)
    else
      var blocks, residue := size / BLOCK, size % BLOCK;
      if residue == 0 then Size(blocks * DATA)
      else if residue <= OVERHEAD then Rejected(BadHeader)
      else Size(blocks * DATA + (residue - OVERHEAD))
  }

  /** `DecryptedSize` undoes `EncryptedSize`. */
  lemma {:induction false} SizeRoundTrip(size: nat)
    ensures DecryptedSize(EncryptedSize(size)) == Size(size)
  {
    var blocks, residue := size / DATA, size % DATA;
    var body := EncryptedSize(size) - HEADER;
    var tail := if residue != 0 then OVERHEAD + residue else 0;
    assert body == blocks * BLOCK + tail && 0 <= tail < BLOCK;
    assert body / BLOCK == blocks && body % BLOCK == tail;
  }

  /** It accepts exactly the lengths an encrypted file can have. */
  lemma {:induction false} SizeRejectsExactly(c: int)
    ensures DecryptedSize(c).Size? <==> exists p: nat :: EncryptedSize(p) == c
    ensures DecryptedSize(c).Size? ==> EncryptedSize(DecryptedSize(c).value) == c
    ensures DecryptedSize(c).Rejected? ==> DecryptedSize(c).err == if c < 34 then TooShort else BadHeader
  {
    if DecryptedSize(c).Size? {
      var p := DecryptedSize(c).value;
      var blocks, residue := (c - HEADER) / BLOCK, (c - HEADER) % BLOCK;
      var tail := if residue == 0 then 0 else residue - OVERHEAD;
      assert p == blocks * DATA + tail && 0 <= tail < DATA;
      assert p / DATA == blocks && p % DATA == tail;
      assert EncryptedSize(p) == c;
    }
    forall p: nat | EncryptedSize(p) == c
      ensures DecryptedSize(c).Size?
    {
      SizeRoundTrip(p);
    }
  }

  /** Whenever the encrypted size fits a signed 64-bit integer, so does every intermediate value of
      both computations; and every plaintext up to 2^63 - 2^51 bytes has such a size. */
  lemma {:induction false} SizesFitInt64(size: nat)
    ensures EncryptedSize(size) <= INT64_MAX ==>
              size / DATA * BLOCK + HEADER <= INT64_MAX && size <= EncryptedSize(size) - HEADER
    ensures size <= 0x7ff8_0000_0000_0000 ==> EncryptedSize(size) <= INT64_MAX
  {
    var blocks, residue := size / DATA, size % DATA;
    assert size == blocks * DATA + residue;
  }

  /** The ciphertext window a plaintext range is read through. */
  datatype Window = Window(offset: int, limit: int, discard: int, blocks: int)

  /** `calculateUnderlying`; a negative limit means "to the end of the file". */
  function CalculateUnderlying(offset: nat, limit: int): Window
  {
    var blocks, discard := offset / DATA, offset % DATA;
    var blocksToRead :=
      var bytesToRead := limit - (DATA - discard);
      if bytesToRead > 0
      then 1 + bytesToRead / DATA + (if bytesToRead % DATA != 0 then 1 else 0)
      else 1;
    Window(HEADER + blocks * BLOCK, if limit >= 0 then blocksToRead * BLOCK else -1, discard, blocks)
  }

  /** Block `b` lies in the ciphertext window `w`. */
  predicate InWindow(w: Window, b: nat)
  {
    w.offset <= HEADER + b * BLOCK && HEADER + (b + 1) * BLOCK <= w.offset + w.limit
  }

  /** The plaintext of block `b` meets [offset, offset + limit). */
  predicate Meets(b: nat, offset: nat, limit: nat)
  {
    b * DATA < offset + limit && offset < (b + 1) * DATA
  }

  /** The window starts at the block holding `offset`, spans whole blocks, and its last block is the one
      that holds the last byte asked for. */
  lemma {:induction false} WindowEnds(offset: nat, limit: nat)
    ensures var w := CalculateUnderlying(offset, limit);
            && w.blocks * DATA + w.discard == offset && 0 <= w.discard < DATA
            && w.offset == HEADER + w.blocks * BLOCK
            && exists count: nat ::
                 && count >= 1
                 && w.limit == count * BLOCK
                 && offset + limit <= (w.blocks + count) * DATA
                 && (limit > 0 ==> (w.blocks + count - 1) * DATA < offset + limit)
  {
    var w := CalculateUnderlying(offset, limit);
    var bytesToRead := limit - (DATA - w.discard);
    var extra := if bytesToRead > 0 then bytesToRead / DATA + (if bytesToRead % DATA != 0 then 1 else 0) else 0;
    var count := 1 + extra;
    assert w.limit == count * BLOCK;
    assert offset == w.blocks * DATA + w.discard;
    assert offset + limit == (w.blocks + 1) * DATA + bytesToRead;
    assert offset + limit <= (w.blocks + count) * DATA;
    assert limit > 0 ==> (w.blocks + count - 1) * DATA < offset + limit;
  }

  /** For a positive limit the window is precisely the blocks that meet the range: no more, no fewer. */
  lemma {:induction false} WindowIsExact(offset: nat, limit: nat, b: nat)
    requires limit > 0
    ensures InWindow(CalculateUnderlying(offset, limit), b) <==> Meets(b, offset, limit)
  {
    WindowEnds(offset, limit);
  }
}
