/** `Reader` (`internal/reader/reader.go`): a byte range of a file stored as several parts, each of them plain or
    encrypted, delivered through one stream. */
module Reader {
  import opened Arith
  import opened Bytes
  import opened Layout
  import opened Format
  import opened ChunkPlan
  import opened Upstream
  import opened Decrypter
  import Nonce
  import Pipe
  import TgReader

  // ---- Splitting a range over parts ---------------------------------------------------

  datatype PartRange = PartRange(start: int, end: int, partNo: int)

  /** The range of request `k` of a plan whose chunks are whole parts, relative to its part. */
  function RangeOf(plan: Plan, k: nat): PartRange
  {
    PartRange(plan.Lo(k) - plan.Offset(k), plan.Lo(k + 1) - 1 - plan.Offset(k), plan.start / Max(plan.chunkSize, 1) + k)
  }

  function RangesOf(plan: Plan): seq<PartRange>
  {
    seq(plan.totalParts, k requires 0 <= k < plan.totalParts => RangeOf(plan, k))
  }

  /** The formula the loop uses for each part. */
  lemma {:induction false} RangeFormula(start: nat, end: nat, partSize: nat, k: nat)
    requires start <= end && partSize > 0 && k <= end / partSize - start / partSize
    ensures var part := start / partSize + k;
            RangeOf(MakePlan(start, end, partSize), k)
            == PartRange(Max(start - part * partSize, 0), Min(partSize - 1, end - part * partSize), part)
  {
    MakePlanValid(start, end, partSize);
    var plan := MakePlan(start, end, partSize);
    PiecesTile(plan, k);
    MulDiff(start / partSize + k, k, partSize);
    if k > 0 {
      MulNext(0, k, partSize);
    }
    if k + 1 < plan.totalParts {
      MulNext(k, plan.totalParts - 1, partSize);
    }
  }

  /** One range for every part the file range meets. */
  method CalculatePartByteRanges(start: nat, end: nat, partSize: nat) returns (ranges: seq<PartRange>)
    requires start <= end && partSize > 0
    ensures ranges == RangesOf(MakePlan(start, end, partSize))
  {
    ranges := [];
    var startPart, endPart := start / partSize, end / partSize;
    ghost var plan := MakePlan(start, end, partSize);
    MakePlanValid(start, end, partSize);
    var part := startPart;
    while part <= endPart
      invariant startPart <= part <= endPart + 1 && |ranges| == part - startPart
      invariant forall k :: 0 <= k < |ranges| ==> ranges[k] == RangeOf(plan, k)
    {
      RangeFormula(start, end, partSize, part - startPart);
      var partStart := Max(start - part * partSize, 0);
      var partEnd := Min(partSize - 1, end - part * partSize);
      ranges := ranges + [PartRange(partStart, partEnd, part)];
      part := part + 1;
    }
  }

  /** A file position below the end lies in a part that exists. */
  lemma {:induction false} PartExists(contents: seq<Bytes>, size: nat, p: nat, i: nat)
    requires Uniform(contents, size) && p * size <= i < |Flat(contents)|
    ensures p < |contents|
    ensures i < (p + 1) * size ==> i < p * size + |contents[p]|
  {
    hide Flat;
    var n := |contents|;
    PartInWhole(contents, size, n - 1);
    if p >= n {
      MulNext(n - 1, p, size);
    }
    MulNext(p, p + 1, size);
  }

  /** Where the range of request `k` lies: in part `start / size + k`, at these offsets of the whole file. */
  lemma {:induction false} RangePlace(start: nat, end: nat, size: nat, k: nat)
    requires start <= end && size > 0 && k < MakePlan(start, end, size).totalParts
    ensures var plan := MakePlan(start, end, size);
            var r := RangeOf(plan, k);
            && r.partNo == start / size + k && 0 <= r.start <= r.end < size
            && plan.Lo(k) == r.partNo * size + r.start
            && plan.Lo(k + 1) == r.partNo * size + r.end + 1 <= end + 1
  {
    var plan := MakePlan(start, end, size);
    MakePlanValid(start, end, size);
    PiecesTile(plan, k);
    MulDiff(start / size + k, k, size);
  }

  /** Each range, read from its own part, is the piece of the file range that falls in that part. */
  lemma {:induction false} RangeInPart(contents: seq<Bytes>, size: nat, start: nat, end: nat, k: nat)
    requires Uniform(contents, size) && start <= end < |Flat(contents)|
    requires k < MakePlan(start, end, size).totalParts
    ensures var plan := MakePlan(start, end, size);
            var r := RangeOf(plan, k);
            && plan.Lo(k) <= plan.Lo(k + 1) <= |Flat(contents)|
            && 0 <= r.partNo < |contents| && 0 <= r.start <= r.end < |contents[r.partNo]|
            && contents[r.partNo][r.start..r.end + 1] == Flat(contents)[plan.Lo(k)..plan.Lo(k + 1)]
  {
    hide Flat, MakePlan, Plan.Lo, Plan.Offset, RangeOf;
    RangePlace(start, end, size, k);
    var r := RangeOf(MakePlan(start, end, size), k);
    var p := r.partNo;
    MulNext(p, p + 1, size);
    PartExists(contents, size, p, p * size + r.end);
    PartInWhole(contents, size, p);
    SubSlice(Flat(contents), p * size, p * size + |contents[p]|, r.start, r.end + 1);
  }

  // ---- What the parts hold ------------------------------------------------------------------

  /** One stored part and the box its own salt keys. */
  datatype Part = Part(stored: Bytes, box: Box)
  {
    /** An encrypted part has a sound header and a length some plaintext can have, and, where connections can
        break, no cut-off block authenticates. */
    ghost predicate Ok(encrypted: bool, faulty: bool)
    {
      encrypted ==>
        && box.Lawful() && HeaderOk(stored) && DecryptedSize(|stored|).Size?
        && (faulty ==> RejectsTruncation(box, FileNonce(stored), Body(stored)))
    }

    /** What the part contributes to the file. */
    ghost function Content(encrypted: bool): Bytes
      requires Ok(encrypted, false)
    {
      if encrypted then Plain(box, stored) else stored
    }

    /** The size the reader works with: of the stored bytes, or what `DecryptedSize` makes of it. */
    function Size(encrypted: bool): nat
    {
      if !encrypted then |stored|
      else match DecryptedSize(|stored|)
           case Size(n) => n
           case Rejected(_) => 0
    }
  }

  lemma {:induction false} SizeIsLength(p: Part, encrypted: bool)
    requires p.Ok(encrypted, false)
    ensures p.Size(encrypted) == |p.Content(encrypted)|
  {
  }

  datatype Setup = Setup(parts: seq<Part>, encrypted: bool, concurrency: nat, capacity: nat, faulty: bool)
  {
    ghost predicate PartsOk()
    {
      forall k :: 0 <= k < |parts| ==> parts[k].Ok(encrypted, false) && parts[k].Ok(encrypted, faulty)
    }

    ghost function Contents(): seq<Bytes>
      requires PartsOk()
    {
      seq(|parts|, k requires 0 <= k < |parts| => parts[k].Content(encrypted))
    }

    /** The whole file. */
    ghost function File(): Bytes
      requires PartsOk()
    {
      Flat(Contents())
    }

    /** Parts of one size but for the last, and a concurrency of at least one. */
    ghost predicate Valid()
    {
      && concurrency >= 1 && parts != [] && PartsOk()
      && Uniform(Contents(), parts[0].Size(encrypted))
      && |File()| <= INT64_MAX
    }
  }

  // ---- The stream of one part ------------------------------------------------------------------

  datatype Inner = Raw(t: TgReader.TgMultiReader) | Decrypting(d: Decrypter)
  {
    ghost function Objs(): set<object>
      reads if Raw? then {} else {d}
    {
      if Raw? then {t} else d.Repr()
    }

    ghost predicate Valid()
      reads Objs()
    {
      if Raw? then t.Valid()
      else d.Valid() && (d.err == Ok ==> d.limit == |d.Pending()|)
    }

    predicate Faulty()
    {
      if Raw? then t.env.faulty else d.faulty
    }

    ghost function Pending(): Bytes
      requires Valid()
      reads Objs()
    {
      if Raw? then t.Rest() else d.Pending()
    }

    /** Both kinds of stream report the end together with their last bytes. */
    method Read(n: nat) returns (got: Bytes, err: Err)
      requires Valid() && Pending() != []
      modifies Objs()
      ensures err == Ok || err == Eof || (err == Transport && Faulty())
      ensures Objs() == old(Objs())
      ensures err != Transport ==> Valid() && ReadStep(old(Pending()), n, got, err, Pending())
      ensures err == Transport ==> got == []
      ensures err == Ok ==> Pending() != []
    {
      hide TgReader.TgMultiReader.Valid, TgReader.TgMultiReader.Rest;
      hide Decrypter.Core, Decrypter.Positioned, Decrypter.BufferOk, Decrypter.Covered, Decrypter.Hi;
      if Raw? {
        got, err := t.Read(n);
      } else {
        got, err := d.Read(n);
      }
    }
  }

  /** The window of a range that starts inside the plaintext starts inside the stored part. */
  lemma {:induction false} UnderlyingInFile(n: nat, offset: nat, limit: int)
    requires offset < PlainSize(n)
    ensures HEADER <= CalculateUnderlying(offset, limit).offset < HEADER + n
  {
    PlainIndex(n, offset);
  }

  /** The range `r` lies inside its part. */
  ghost predicate InPart(setup: Setup, r: PartRange)
    requires setup.PartsOk()
  {
    0 <= r.partNo < |setup.parts| && 0 <= r.start <= r.end < |setup.Contents()[r.partNo]| <= INT64_MAX
  }

  /** Each range, read from its part, yields its non-empty piece. */
  ghost predicate Fetches(setup: Setup, ranges: seq<PartRange>, pieces: seq<Bytes>)
    requires setup.PartsOk()
  {
    && |pieces| == |ranges|
    && forall k {:trigger ranges[k]} :: 0 <= k < |ranges| ==>
         && InPart(setup, ranges[k]) && pieces[k] != []
         && setup.Contents()[ranges[k].partNo][ranges[k].start..ranges[k].end + 1] == pieces[k]
  }

  method OpenRaw(part: Part, setup: Setup, start: nat, end: nat) returns (inner: Inner, e: Err)
    requires setup.concurrency >= 1 && start <= end < |part.stored|
    ensures fresh(inner.Objs()) && inner.Faulty() == setup.faulty && e == Ok
    ensures inner.Valid() && inner.Pending() == part.stored[start..end + 1]
  {
    hide TgReader.TgMultiReader.Valid, TgReader.TgMultiReader.Rest;
    var t := new TgReader.TgMultiReader(part.stored, start, end, setup.concurrency, setup.capacity, setup.faulty);
    return Raw(t), Ok;
  }

  method OpenEncrypted(part: Part, setup: Setup, start: nat, end: nat) returns (inner: Inner, e: Err)
    requires setup.concurrency >= 1 && part.Ok(true, false) && part.Ok(true, setup.faulty)
    requires start <= end < |Plain(part.box, part.stored)| <= INT64_MAX
    ensures fresh(inner.Objs())
    ensures e == Ok || (e == Transport && setup.faulty)
    ensures e == Ok ==> inner.Faulty() == setup.faulty && inner.Valid()
    ensures e == Ok ==> inner.Pending() == Plain(part.box, part.stored)[start..end + 1]
  {
    hide Opened, CalculateUnderlying, RejectsTruncation, Box.Lawful;
    hide Decrypter.Core, Decrypter.Positioned, Decrypter.BufferOk, Decrypter.Covered, Decrypter.Hi, Decrypter.Pending;
    UnderlyingInFile(|part.stored| - HEADER, start, end - start + 1);
    WindowOffset(start, end - start + 1);
    var opener := FromTelegram(part.stored, setup.faulty, setup.concurrency, setup.capacity);
    var d;
    d, e := NewDecrypterSeek(part.box, opener, start, end - start + 1);
    inner := Decrypting(d);
  }

  /** `getPartReader`: open the stream of one part at its range. */
  method GetPartReader(setup: Setup, r: PartRange) returns (inner: Inner, e: Err)
    requires setup.concurrency >= 1 && setup.PartsOk() && InPart(setup, r)
    ensures fresh(inner.Objs())
    ensures e == Ok || (e == Transport && setup.faulty)
    ensures e == Ok ==> inner.Faulty() == setup.faulty && inner.Valid()
    ensures e == Ok ==> inner.Pending() == setup.Contents()[r.partNo][r.start..r.end + 1]
  {
    hide RejectsTruncation, Box.Lawful, Opened, Inner.Valid, Inner.Pending;
    var part := setup.parts[r.partNo];
    if !setup.encrypted {
      inner, e := OpenRaw(part, setup, r.start, r.end);
    } else {
      inner, e := OpenEncrypted(part, setup, r.start, r.end);
    }
  }

  // ---- The reader ----------------------------------------------------------------------------------

  class FileReader {
    const setup: Setup
    const ranges: seq<PartRange>
    ghost const pieces: seq<Bytes>  // what each range contributes
    var pos: nat
    var inner: Inner
    var remaining: int

    ghost predicate Static()
    {
      setup.concurrency >= 1 && setup.PartsOk() && Fetches(setup, ranges, pieces)
    }

    ghost predicate Sound()
      reads this, inner.Objs()
    {
      && Static() && this !in inner.Objs() && inner.Faulty() == setup.faulty && remaining >= 0
      && (remaining > 0 ==> pos < |ranges| && inner.Valid() && inner.Pending() != [])
    }

    /** The bytes of the range not delivered yet. */
    ghost function Rest(): Bytes
      requires Sound()
      reads this, inner.Objs()
    {
      if remaining <= 0 then [] else inner.Pending() + Flat(pieces[pos + 1..])
    }

    ghost predicate Valid()
      reads this, inner.Objs()
    {
      Sound() && remaining == |Rest()|
    }

    constructor (setup: Setup, ranges: seq<PartRange>, ghost pieces: seq<Bytes>, inner: Inner, remaining: nat)
      ensures this.setup == setup && this.ranges == ranges && this.pieces == pieces && this.inner == inner
      ensures pos == 0 && this.remaining == remaining
    {
      this.setup, this.ranges, this.pieces, this.inner := setup, ranges, pieces, inner;
      pos, this.remaining := 0, remaining;
    }

    /** Leave an exhausted part for the next one; what is left of the range does not change. */
    method MoveToNextPart() returns (e: Err)
      requires Static() && pos < |ranges| && 0 < remaining == |Flat(pieces[pos + 1..])|
      modifies this`pos, this`inner
      ensures fresh(inner.Objs()) || inner == old(inner)
      ensures e == Ok || (e == Transport && setup.faulty)
      ensures e == Ok ==> Valid() && fresh(inner.Objs()) && Rest() == old(Flat(pieces[pos + 1..]))
    {
      hide Setup.Contents, Inner.Valid, Inner.Pending, Setup.PartsOk, InPart;
      TgReader.FlatFrom(pieces, pos + 1);
      pos := pos + 1;
      var next;
      next, e := GetPartReader(setup, ranges[pos]);
      if e == Ok {
        inner := next;
      }
    }

    /** Delivers the next bytes of the range, crossing from part to part without a gap; the end is reported only
        when the whole range has been delivered. */
    method Read(n: nat) returns (got: Bytes, err: Err)
      requires Valid()
      modifies this, inner.Objs()
      ensures fresh(inner.Objs() - old(inner.Objs()))
      ensures err == Ok || err == Eof || (err == Transport && setup.faulty)
      ensures err != Transport ==> Valid() && ReadStep(old(Rest()), n, got, err, Rest())
      ensures err == Transport ==> got <= old(Rest())
    {
      hide Setup.Contents, Setup.PartsOk, InPart, Inner.Valid, Inner.Pending, Flat;
      if remaining <= 0 {
        return [], Eof;
      }
      ghost var before, tail := inner.Pending(), Flat(pieces[pos + 1..]);
      got, err := inner.Read(n);
      remaining := remaining - |got|;
      assert before + tail == got + (before[|got|..] + tail);
      if err == Eof && remaining > 0 {
        err := MoveToNextPart();
      }
    }
  }

  /** The pieces of the file range, one per part it meets. */
  ghost function PiecesOf(setup: Setup, start: nat, end: nat): seq<Bytes>
    requires setup.Valid() && start <= end < |setup.File()|
  {
    MakePlanValid(start, end, setup.parts[0].Size(setup.encrypted));
    var plan := MakePlan(start, end, setup.parts[0].Size(setup.encrypted));
    Pipe.Env(setup.File(), plan, 1, 0, false).Pieces()
  }

  lemma {:induction false} PiecesAddUp(setup: Setup, start: nat, end: nat)
    requires setup.Valid() && start <= end < |setup.File()|
    ensures var pieces := PiecesOf(setup, start, end);
            && 0 < |pieces| == MakePlan(start, end, setup.parts[0].Size(setup.encrypted)).totalParts
            && Flat(pieces) == setup.File()[start..end + 1]
            && forall k :: 0 <= k < |pieces| ==> pieces[k] != []
  {
    hide Setup.Contents, Flat, Setup.PartsOk, Pipe.Env.Pieces, Pipe.Serves;
    var size := setup.parts[0].Size(setup.encrypted);
    MakePlanValid(start, end, size);
    var env := Pipe.Env(setup.File(), MakePlan(start, end, size), 1, 0, false);
    var pieces := PiecesOf(setup, start, end);
    Pipe.PiecesServed(env);
    Pipe.FlatPieces(env, 0);
    assert pieces[0..] == pieces;
  }

  lemma {:induction false} ContentsSize(setup: Setup)
    requires setup.PartsOk()
    ensures |setup.Contents()| == |setup.parts|
  {
  }

  lemma {:induction false} RangePiece(setup: Setup, start: nat, end: nat, k: nat)
    requires setup.Valid() && start <= end < |setup.File()|
    ensures var plan := MakePlan(start, end, setup.parts[0].Size(setup.encrypted));
            var r := RangeOf(plan, k);
            k < plan.totalParts ==>
              && setup.PartsOk() && InPart(setup, r) && k < |PiecesOf(setup, start, end)|
              && setup.Contents()[r.partNo][r.start..r.end + 1] == PiecesOf(setup, start, end)[k]
  {
    hide Flat, RangeOf, MakePlan, Setup.Contents, Part.Ok;
    if k >= MakePlan(start, end, setup.parts[0].Size(setup.encrypted)).totalParts {
      return;
    }
    var size := setup.parts[0].Size(setup.encrypted);
    MakePlanValid(start, end, size);
    RangeInPart(setup.Contents(), size, start, end, k);
    var r := RangeOf(MakePlan(start, end, size), k);
    PartInWhole(setup.Contents(), size, r.partNo);
    MulLe(0, r.partNo, size);
    ContentsSize(setup);
  }

  /** The ranges computed for the parts fetch exactly those pieces, and they add up to the file range. */
  lemma {:induction false} RangesFetchPieces(setup: Setup, start: nat, end: nat)
    requires setup.Valid() && start <= end < |setup.File()|
    ensures var ranges := RangesOf(MakePlan(start, end, setup.parts[0].Size(setup.encrypted)));
            var pieces := PiecesOf(setup, start, end);
            |ranges| > 0 && Flat(pieces) == setup.File()[start..end + 1] && Fetches(setup, ranges, pieces)
  {
    hide Flat, PiecesOf, RangeOf, MakePlan;
    PiecesAddUp(setup, start, end);
    var ranges := RangesOf(MakePlan(start, end, setup.parts[0].Size(setup.encrypted)));
    forall k | 0 <= k < |ranges|
      ensures InPart(setup, ranges[k])
      ensures setup.Contents()[ranges[k].partNo][ranges[k].start..ranges[k].end + 1] == PiecesOf(setup, start, end)[k]
    {
      RangePiece(setup, start, end, k);
    }
  }

  /** `NewReader`: open a file for the range start..end. */
  method NewReader(setup: Setup, start: nat, end: nat) returns (r: FileReader, e: Err)
    requires setup.Valid() && start <= end < |setup.File()|
    ensures fresh(r) && fresh(r.inner.Objs()) && r.setup == setup
    ensures e == Ok || (e == Transport && setup.faulty)
    ensures e == Ok ==> r.Valid() && r.Rest() == setup.File()[start..end + 1]
  {
    hide Setup.Contents, Setup.PartsOk, InPart, Inner.Valid, Inner.Pending, Setup.File, PiecesOf, RangesOf, MakePlan;
    var ranges := CalculatePartByteRanges(start, end, setup.parts[0].Size(setup.encrypted));
    RangesFetchPieces(setup, start, end);
    ghost var pieces := PiecesOf(setup, start, end);
    TgReader.FlatFrom(pieces, 0);
    assert pieces[0..] == pieces;
    var inner;
    inner, e := GetPartReader(setup, ranges[0]);
    r := new FileReader(setup, ranges, pieces, inner, end - start + 1);
    if e == Ok {
      assert r.inner.Valid() && r.inner.Pending() == pieces[0];
      assert pieces[0..][1..] == pieces[1..];
      assert r.Rest() == Flat(pieces) == setup.File()[start..end + 1];
    }
  }

  // ---- End to end ----------------------------------------------------------------------------------------

  /** Whatever the buffer sizes the caller uses and the order in which chunks arrive, what the reader delivers before
      the end of the stream is exactly the requested range of the file; after a failure it is a prefix of it. */
  method StreamRange(setup: Setup, start: nat, end: nat) returns (out: Bytes, e: Err)
    requires setup.Valid() && start <= end < |setup.File()|
    ensures e == Eof || (e == Transport && setup.faulty)
    ensures out <= setup.File()[start..end + 1]
    ensures e == Eof ==> out == setup.File()[start..end + 1]
  {
    hide Setup.Contents, Setup.PartsOk, Setup.File, Uniform, FileReader.Sound, FileReader.Rest;
    out := [];
    var r;
    r, e := NewReader(setup, start, end);
    ghost var all := setup.File()[start..end + 1];
    while e == Ok
      invariant e == Ok ==> r.Valid() && all == out + r.Rest()
      invariant fresh(r) && fresh(r.inner.Objs()) && r.setup == setup
      invariant e == Ok || e == Eof || (e == Transport && setup.faulty)
      invariant out <= all && (e == Eof ==> out == all)
      decreases e == Ok, |all| - |out|
    {
      var n: int := *;
      ghost var before := r.Rest();
      var got;
      got, e := r.Read(Max(n, 1));
      assert before == got + before[|got|..];
      Moved(out, got, before[|got|..]);
      out := out + got;
    }
  }

  lemma {:induction false} EncryptedPart(p: Part, nonce: Bytes, plain: Bytes)
    requires p.box.Lawful() && |nonce| == Nonce.NONCE_SIZE && p.stored == Encrypt(p.box, nonce, plain)
    ensures |p.stored| >= HEADER && FileNonce(p.stored) == nonce
    ensures Body(p.stored) == Sealed(p.box, nonce, plain, Blocks(|plain|, DATA))
    ensures p.Ok(true, false) && p.Content(true) == plain && p.Size(true) == |plain|
  {
    PlainOfEncrypt(p.box, nonce, plain);
    EncryptedLength(p.box, nonce, plain);
    SizeRoundTrip(|plain|);
    assert FileNonce(p.stored) == nonce;
  }

  /** The file a set of encrypted parts stands for is the concatenation of their plaintexts. */
  lemma {:induction false} EncryptedFile(setup: Setup, plains: seq<Bytes>, nonces: seq<Bytes>)
    requires setup.encrypted && |setup.parts| == |plains| == |nonces|
    requires forall k :: 0 <= k < |plains| ==>
               && setup.parts[k].box.Lawful() && |nonces[k]| == Nonce.NONCE_SIZE
               && setup.parts[k].stored == Encrypt(setup.parts[k].box, nonces[k], plains[k])
    requires setup.faulty ==> forall k :: 0 <= k < |plains| ==>
               RejectsTruncation(setup.parts[k].box, nonces[k],
                                 Sealed(setup.parts[k].box, nonces[k], plains[k], Blocks(|plains[k]|, DATA)))
    ensures setup.PartsOk() && setup.Contents() == plains && setup.File() == Flat(plains)
    ensures forall k :: 0 <= k < |plains| ==> setup.parts[k].Size(true) == |plains[k]|
  {
    forall k | 0 <= k < |plains|
      ensures setup.parts[k].Ok(true, false) && setup.parts[k].Ok(true, setup.faulty)
      ensures setup.parts[k].Content(true) == plains[k] && setup.parts[k].Size(true) == |plains[k]|
    {
      var p := setup.parts[k];
      EncryptedPart(p, nonces[k], plains[k]);
    }
    assert setup.Contents() == plains;
  }

  /** End to end: encrypt every part, store the parts, and read any range back; a connection that breaks gives a
      prefix, if no block authenticates when it is cut short. */
  method StreamEncryptedRange(setup: Setup, plains: seq<Bytes>, nonces: seq<Bytes>, start: nat, end: nat)
    returns (out: Bytes, e: Err)
    requires setup.encrypted && setup.concurrency >= 1
    requires |setup.parts| == |plains| == |nonces| > 0
    requires forall k :: 0 <= k < |plains| ==>
               && setup.parts[k].box.Lawful() && |nonces[k]| == Nonce.NONCE_SIZE
               && setup.parts[k].stored == Encrypt(setup.parts[k].box, nonces[k], plains[k])
    requires setup.faulty ==> forall k :: 0 <= k < |plains| ==>
               RejectsTruncation(setup.parts[k].box, nonces[k],
                                 Sealed(setup.parts[k].box, nonces[k], plains[k], Blocks(|plains[k]|, DATA)))
    requires Uniform(plains, |plains[0]|) && start <= end < |Flat(plains)| <= INT64_MAX
    ensures e == Eof || (e == Transport && setup.faulty)
    ensures out <= Flat(plains)[start..end + 1]
    ensures e == Eof ==> out == Flat(plains)[start..end + 1]
  {
    EncryptedFile(setup, plains, nonces);
    out, e := StreamRange(setup, start, end);
  }
}
