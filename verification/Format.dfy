/** The encrypted file format as a relation between byte strings: a header, then one sealed block for
    every 64 KiB of plaintext under consecutive nonces. The encrypter in `Cipher` and the decrypter in `Decrypter` are proved
    against it. */
module Format {
  import opened Bytes
  import opened Layout
  import Nonce

  /** A keyed authenticated box, standing for `secretbox` under one data key. */
  datatype Box = Box(seal: (Bytes, Bytes) -> Bytes, open: (Bytes, Bytes) -> Option<Bytes>)
  {
    /** The tag costs 16 bytes, opening inverts sealing, and only sealed boxes open. */
    ghost predicate Lawful()
    {
      && (forall m: Bytes, n: Bytes {:trigger seal(m, n)} ::
            |seal(m, n)| == |m| + OVERHEAD && open(seal(m, n), n) == Some(m))
      && (forall c: Bytes, n: Bytes {:trigger open(c, n)} ::
            open(c, n).Some? ==> c == seal(open(c, n).value, n))
    }
  }

  const MAGIC: Bytes := [84, 69, 76, 68, 82, 73, 86, 69, 0, 0]  // "TELDRIVE\0\0"

  function Header(nonce: Bytes): Bytes { MAGIC + nonce }

  lemma {:induction false} PieceSize(p: Bytes, k: nat)
    ensures |Piece(p, k, DATA)| <= DATA
  {
  }

  /** The first `k` sealed blocks of plaintext `p`. */
  function Sealed(box: Box, nonce: Bytes, p: Bytes, k: nat): Bytes
  {
    if k == 0 then []
    else Sealed(box, nonce, p, k - 1) + box.seal(Piece(p, k - 1, DATA), Nonce.At(nonce, k - 1))
  }

  function Encrypt(box: Box, nonce: Bytes, p: Bytes): Bytes
  {
    Header(nonce) + Sealed(box, nonce, p, Blocks(|p|, DATA))
  }

  /** Plaintext bytes carried by a body of `n` bytes; a tail too short to hold a tag carries none. */
  function PlainSize(n: nat): nat
  {
    n / BLOCK * DATA + Max(n % BLOCK - OVERHEAD, 0)
  }

  /** What block `k` of a body reads as: its plaintext, or zeros when it fails authentication. */
  function OpenBlock(box: Box, nonce: Bytes, body: Bytes, k: nat): Bytes
  {
    var c := Piece(body, k, BLOCK);
    match box.open(c, Nonce.At(nonce, k))
    case Some(m) => m
    case None => Zeros(Max(|c| - OVERHEAD, 0))
  }

  lemma {:induction false} OpenBlockSize(box: Box, nonce: Bytes, body: Bytes, k: nat)
    requires box.Lawful()
    ensures |OpenBlock(box, nonce, body, k)| == Max(|Piece(body, k, BLOCK)| - OVERHEAD, 0)
  {
    var c := Piece(body, k, BLOCK);
    var o := box.open(c, Nonce.At(nonce, k));
    if o.Some? {
      assert c == box.seal(o.value, Nonce.At(nonce, k));
    }
  }

  /** Every plaintext index falls inside the payload of its block. */
  lemma {:induction false} PlainIndex(n: nat, i: nat)
    requires i < PlainSize(n)
    ensures i % DATA < Min((i / DATA + 1) * BLOCK, n) - Min(i / DATA * BLOCK, n) - OVERHEAD
  {
    var full, tail := n / BLOCK, n % BLOCK;
    var k := i / DATA;
    assert n == full * BLOCK + tail;
    assert i == k * DATA + i % DATA;
    if k < full {
      assert (k + 1) * BLOCK <= full * BLOCK;
    } else {
      assert k == full;
    }
  }

  /** The plaintext view of a body, whatever its contents: byte `i` is byte `i % DATA` of block `i / DATA`. */
  ghost function Opened(box: Box, nonce: Bytes, body: Bytes): (p: Bytes)
    requires box.Lawful()
    ensures |p| == PlainSize(|body|)
  {
    seq(PlainSize(|body|), i requires 0 <= i < PlainSize(|body|) =>
      (OpenBlockSize(box, nonce, body, i / DATA);
       PlainIndex(|body|, i);
       OpenBlock(box, nonce, body, i / DATA)[i % DATA]))
  }

  lemma {:induction false} PieceExtent(n: nat, k: nat)
    requires Min((k + 1) * BLOCK, n) - Min(k * BLOCK, n) > OVERHEAD
    ensures k * DATA < PlainSize(n)
    ensures Min((k + 1) * DATA, PlainSize(n)) == k * DATA + Min((k + 1) * BLOCK, n) - Min(k * BLOCK, n) - OVERHEAD
  {
    var full, tail := n / BLOCK, n % BLOCK;
    assert n == full * BLOCK + tail;
    if k < full {
      assert (k + 1) * BLOCK <= full * BLOCK;
    } else {
      assert k == full;
    }
  }

  /** Block `k` of the plaintext view is what block `k` of the body opens to. */
  lemma {:induction false} OpenedPiece(box: Box, nonce: Bytes, body: Bytes, k: nat)
    requires box.Lawful()
    requires |Piece(body, k, BLOCK)| > OVERHEAD
    ensures Piece(Opened(box, nonce, body), k, DATA) == OpenBlock(box, nonce, body, k)
    ensures k * DATA < PlainSize(|body|)
    ensures Min((k + 1) * DATA, PlainSize(|body|)) == k * DATA + |Piece(body, k, BLOCK)| - OVERHEAD
  {
    PieceExtent(|body|, k);
    OpenBlockSize(box, nonce, body, k);
    var p := Opened(box, nonce, body);
    var q := OpenBlock(box, nonce, body, k);
    assert |Piece(p, k, DATA)| == |q|;
    forall j | 0 <= j < |q|
      ensures Piece(p, k, DATA)[j] == q[j]
    {
      assert (k * DATA + j) / DATA == k && (k * DATA + j) % DATA == j;
    }
  }

  // ---- Sealing -------------------------------------------------------------

  lemma {:induction false} BlockStart(n: nat, k: nat)
    requires k < Blocks(n, DATA)
    ensures k * DATA < n
  {
    assert n == n / DATA * DATA + n % DATA;
  }

  /** The first `k` sealed blocks of `p`, all of them full when `k * DATA <= |p|`. */
  lemma {:induction false} SealedSize(box: Box, nonce: Bytes, p: Bytes, k: nat)
    requires box.Lawful() && k <= Blocks(|p|, DATA)
    ensures |Sealed(box, nonce, p, k)| == Min(k * DATA, |p|) + k * OVERHEAD
  {
    if k == 0 {
    } else {
      SealedSize(box, nonce, p, k - 1);
      BlockStart(|p|, k - 1);
    }
  }

  lemma {:induction false} LastBlock(n: nat)
    ensures n <= Blocks(n, DATA) * DATA
  {
    assert n == n / DATA * DATA + n % DATA;
  }

  /** The length of an encrypted file is `EncryptedSize` of its plaintext. */
  lemma {:induction false} EncryptedLength(box: Box, nonce: Bytes, p: Bytes)
    requires box.Lawful() && |nonce| == Nonce.NONCE_SIZE
    ensures |Encrypt(box, nonce, p)| == EncryptedSize(|p|)
  {
    SealedSize(box, nonce, p, Blocks(|p|, DATA));
    LastBlock(|p|);
  }

  lemma {:induction false} LastPiece(front: Bytes, last: Bytes, k: nat)
    requires |front| == k * BLOCK && |last| <= BLOCK
    ensures Piece(front + last, k, BLOCK) == last
  {
    assert (front + last)[|front|..|front| + |last|] == last;
  }

  lemma {:induction false} EarlierPiece(front: Bytes, last: Bytes, k: nat)
    requires (k + 1) * BLOCK <= |front|
    ensures Piece(front + last, k, BLOCK) == Piece(front, k, BLOCK)
  {
    assert (front + last)[k * BLOCK..(k + 1) * BLOCK] == front[k * BLOCK..(k + 1) * BLOCK];
  }

  /** A block already sealed stays where it is when later blocks are appended. */
  lemma {:induction false} SealedPiece(box: Box, nonce: Bytes, p: Bytes, n: nat, k: nat)
    requires box.Lawful() && k < n <= Blocks(|p|, DATA)
    ensures Piece(Sealed(box, nonce, p, n), k, BLOCK) == box.seal(Piece(p, k, DATA), Nonce.At(nonce, k))
  {
    hide Piece, Nonce.At;
    var front := Sealed(box, nonce, p, n - 1);
    var last := box.seal(Piece(p, n - 1, DATA), Nonce.At(nonce, n - 1));
    SealedSize(box, nonce, p, n - 1);
    BlockStart(|p|, n - 1);
    PieceSize(p, n - 1);
    if k == n - 1 {
      LastPiece(front, last, k);
    } else {
      SealedPiece(box, nonce, p, n - 1, k);
      EarlierPiece(front, last, k);
    }
  }

  lemma {:induction false} InBody(c: Bytes, body: Bytes, k: nat)
    requires |c| >= HEADER && c[HEADER..] == body && Piece(body, k, BLOCK) != []
    ensures HEADER + k * BLOCK <= |c|
    ensures c[HEADER + k * BLOCK..Min(HEADER + (k + 1) * BLOCK, |c|)] == Piece(body, k, BLOCK)
  {
    assert c[HEADER..] == c[HEADER..|c|];
    SubSlice(c, HEADER, |c|, Min(k * BLOCK, |body|), Min((k + 1) * BLOCK, |body|));
  }

  /** The file byte by byte: ten bytes "TELDRIVE" and two zeros, 24 bytes of nonce, then from byte 34 on a seal of up to
      65552 bytes for every 65536 bytes of plaintext, under the nonce plus its number. */
  lemma {:induction false} OnDisk(box: Box, nonce: Bytes, p: Bytes, k: nat)
    requires box.Lawful() && |nonce| == 24
    ensures var c := Encrypt(box, nonce, p);
            && |c| >= 34 && c[..10] == [84, 69, 76, 68, 82, 73, 86, 69, 0, 0] && c[10..34] == nonce
            && (k * 65536 < |p| ==>
                  && 34 + k * 65552 <= |c|
                  && c[34 + k * 65552..Min(34 + (k + 1) * 65552, |c|)]
                     == box.seal(p[k * 65536..Min((k + 1) * 65536, |p|)], Nonce.At(nonce, k)))
  {
    hide Nonce.At, Sealed;
    var n := Blocks(|p|, DATA);
    var c, body := Encrypt(box, nonce, p), Sealed(box, nonce, p, n);
    assert c[..10] == MAGIC && c[10..34] == nonce && c[34..] == body;
    if k * DATA < |p| {
      SealedSize(box, nonce, p, n);
      LastBlock(|p|);
      assert k < n;
      SealedPiece(box, nonce, p, n, k);
      InBody(c, body, k);
    }
  }

  /** Round trip: the plaintext view of an encrypted body is the plaintext. */
  lemma {:induction false} OpenedSealed(box: Box, nonce: Bytes, p: Bytes)
    requires box.Lawful()
    ensures Opened(box, nonce, Sealed(box, nonce, p, Blocks(|p|, DATA))) == p
  {
    var n := Blocks(|p|, DATA);
    var body := Sealed(box, nonce, p, n);
    SealedSize(box, nonce, p, n);
    LastBlock(|p|);
    assert HEADER + |body| == EncryptedSize(|p|);
    SizeRoundTrip(|p|);
    assert PlainSize(|body|) == |p|;
    forall i | 0 <= i < |p|
      ensures Opened(box, nonce, body)[i] == p[i]
    {
      var k := i / DATA;
      assert i == k * DATA + i % DATA;
      assert k < n;
      SealedPiece(box, nonce, p, n, k);
      assert OpenBlock(box, nonce, body, k) == Piece(p, k, DATA);
      assert Piece(p, k, DATA)[i % DATA] == p[i];
    }
  }

  // ---- Corruption ----------------------------------------------------------

  /** Corruption stays in its block: if every block of `body'` either equals that of `body` or fails
      authentication, the plaintext has the same length, failing blocks read as zeros, and every other
      byte is unchanged. */
  lemma {:induction false} CorruptionStaysInBlock(box: Box, nonce: Bytes, body: Bytes, body': Bytes, bad: set<nat>)
    requires box.Lawful() && |body'| == |body|
    requires forall k: nat :: k !in bad ==> Piece(body', k, BLOCK) == Piece(body, k, BLOCK)
    requires forall k: nat :: k in bad ==> box.open(Piece(body', k, BLOCK), Nonce.At(nonce, k)).None?
    ensures |Opened(box, nonce, body')| == |Opened(box, nonce, body)|
    ensures forall i :: 0 <= i < |Opened(box, nonce, body)| ==>
              Opened(box, nonce, body')[i] == if i / DATA in bad then 0 else Opened(box, nonce, body)[i]
  {
    forall i | 0 <= i < |Opened(box, nonce, body)|
      ensures Opened(box, nonce, body')[i] == if i / DATA in bad then 0 else Opened(box, nonce, body)[i]
    {
      PlainIndex(|body|, i);
    }
  }

  // ---- Truncation ----------------------------------------------------------

  /** No block of `body` authenticates when it is cut short; what keeps a broken connection from being
      mistaken for a shorter block. */
  ghost predicate RejectsTruncation(box: Box, nonce: Bytes, body: Bytes)
  {
    forall k: nat, j: nat {:trigger box.open(Piece(body, k, BLOCK)[..j], Nonce.At(nonce, k))} ::
      OVERHEAD < j < |Piece(body, k, BLOCK)| ==> box.open(Piece(body, k, BLOCK)[..j], Nonce.At(nonce, k)).None?
  }

  /** The laws asked of a box are consistent: a tag that spells out the message length meets them all. */
  function LengthTagged(): Box
  {
    Box((m: Bytes, n: Bytes) => Nonce.Digits(|m|, OVERHEAD) + m,
        (c: Bytes, n: Bytes) =>
          if |c| >= OVERHEAD && c[..OVERHEAD] == Nonce.Digits(|c| - OVERHEAD, OVERHEAD)
          then Some(c[OVERHEAD..]) else None)
  }

  lemma {:induction false} LengthTagCut(m: Bytes, n: Bytes, j: nat)
    requires |m| <= DATA && OVERHEAD < j < |m| + OVERHEAD
    ensures |LengthTagged().seal(m, n)| == |m| + OVERHEAD
    ensures LengthTagged().open(LengthTagged().seal(m, n)[..j], n).None?
  {
    hide Nonce.Digits, Nonce.Pow256;
    var cut := LengthTagged().seal(m, n)[..j];
    assert cut[..OVERHEAD] == Nonce.Digits(|m|, OVERHEAD);
    Nonce.Pow256Grows(OVERHEAD);
    Nonce.DistinctResidues(j - OVERHEAD, |m|, OVERHEAD);
  }

  lemma {:induction false} LengthTaggedLawful()
    ensures LengthTagged().Lawful()
  {
    var box := LengthTagged();
    forall m: Bytes, n: Bytes
      ensures |box.seal(m, n)| == |m| + OVERHEAD && box.open(box.seal(m, n), n) == Some(m)
    {
      assert box.seal(m, n)[..OVERHEAD] == Nonce.Digits(|m|, OVERHEAD);
      assert box.seal(m, n)[OVERHEAD..] == m;
    }
    forall c: Bytes, n: Bytes | box.open(c, n).Some?
      ensures c == box.seal(box.open(c, n).value, n)
    {
      assert c == c[..OVERHEAD] + c[OVERHEAD..];
    }
  }

  lemma {:induction false} LawsAreConsistent(nonce: Bytes, p: Bytes)
    ensures LengthTagged().Lawful()
    ensures RejectsTruncation(LengthTagged(), nonce, Sealed(LengthTagged(), nonce, p, Blocks(|p|, DATA)))
  {
    var box := LengthTagged();
    LengthTaggedLawful();
    var body := Sealed(box, nonce, p, Blocks(|p|, DATA));
    forall k: nat, j: nat | OVERHEAD < j < |Piece(body, k, BLOCK)|
      ensures box.open(Piece(body, k, BLOCK)[..j], Nonce.At(nonce, k)).None?
    {
      var n := Blocks(|p|, DATA);
      SealedSize(box, nonce, p, n);
      LastBlock(|p|);
      assert k < n;
      SealedPiece(box, nonce, p, n, k);
      LengthTagCut(Piece(p, k, DATA), Nonce.At(nonce, k), j);
    }
  }
}
