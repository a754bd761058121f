/** What the cipher and the file reader see of their sources: the `io.ReadCloser` and `OpenRangeSeek` of
    `internal/crypt/cipher.go`, as a choice between an arbitrary byte source and a Telegram stream. */
module Upstream {
  import opened Bytes
  import opened ChunkPlan
  import opened TgReader

  /** Any byte source: it may return fewer bytes than asked for, may report the end with the last bytes or
      after them, and, if faulty, may fail at any point. */
  class MemoryStream {
    var rest: Bytes
    const faulty: bool

    constructor (data: Bytes, faulty: bool)
      ensures rest == data && this.faulty == faulty
    {
      rest, this.faulty := data, faulty;
    }

    method Read(n: nat) returns (got: Bytes, err: Err)
      modifies this
      ensures err == Ok || err == Eof || err == Transport
      ensures ReadStep(old(rest), n, got, err, rest)
      ensures err == Transport ==> faulty
    {
      var k: int := *;
      var fail: bool := *;
      var early: bool := *;
      var most := Min(n, |rest|);
      k := Max(Min(k, most), if faulty && fail then 0 else Min(1, most));
      got, rest := rest[..k], rest[k..];
      err := if faulty && fail then Transport
             else if rest == [] && (early || got == []) then Eof
             else Ok;
    }
  }

  datatype Upstream = Memory(m: MemoryStream) | Telegram(t: TgMultiReader)
  {
    ghost function Obj(): object
    {
      if Memory? then m else t
    }

    ghost predicate Valid()
      reads Obj()
    {
      Telegram? ==> t.Valid()
    }

    /** The bytes this stream has still to deliver. */
    ghost function Rest(): Bytes
      requires Valid()
      reads Obj()
    {
      if Memory? then m.rest else t.Rest()
    }

    predicate Faulty()
    {
      if Memory? then m.faulty else t.env.faulty
    }

    method Read(n: nat) returns (got: Bytes, err: Err)
      requires Valid()
      modifies Obj()
      ensures Valid()
      ensures err == Ok || err == Eof || err == Transport
      ensures ReadStep(old(Rest()), n, got, err, Rest())
      ensures err == Transport ==> Faulty()
    {
      if Memory? {
        got, err := m.Read(n);
      } else {
        got, err := t.Read(n);
      }
    }
  }

  /** The bytes a range request stands for; a negative limit means "to the end". */
  function Range(data: Bytes, offset: nat, limit: int): Bytes
  {
    data[Min(offset, |data|)..if limit < 0 then |data| else Min(offset + limit, |data|)]
  }

  /** Something that can be opened at any offset: any byte source, or one stored part on Telegram. */
  datatype Opener =
    | FromMemory(data: Bytes, faulty: bool)
    | FromTelegram(data: Bytes, faulty: bool, concurrency: nat, capacity: nat)
  {
    /** The last byte the reader's callback asks for; it takes a negative limit to mean "up to byte 0". */
    function End(offset: nat, limit: int): int
    {
      if limit < 0 then 0 else Min(|data| - 1, offset + limit - 1)
    }

    /** The source means a negative limit as the cipher does, "to the end". */
    predicate Heeds(limit: int) { FromMemory? || limit >= 0 }

    /** The requests for the range can be made and cut: `errgroup` is given room for at least one, the range asked for
        is inside the part, and an empty one has no cuts that cross. */
    predicate Servable(offset: nat, limit: int)
    {
      FromTelegram? ==>
        && concurrency >= 1
        && if offset <= End(offset, limit) then End(offset, limit) < |data| else !CutsCross(offset, End(offset, limit))
    }

    /** The bytes that opening there gives. */
    function Stream(offset: nat, limit: int): (s: Bytes)
      ensures Heeds(limit) ==> s == Range(data, offset, limit)
      ensures !Heeds(limit) ==> s == if offset == 0 then data[..Min(1, |data|)] else []
    {
      if FromMemory? then Range(data, offset, limit)
      else if offset <= End(offset, limit) < |data| then data[offset..End(offset, limit) + 1]
      else []
    }

    method Open(offset: nat, limit: int) returns (up: Upstream, err: Err)
      requires Servable(offset, limit)
      ensures err == Ok || (err == Transport && faulty)
      ensures fresh(up.Obj()) && up.Valid() && up.Faulty() == faulty
      ensures err == Ok ==> up.Rest() == Stream(offset, limit)
    {
      if FromTelegram? {
        var end := End(offset, limit);
        if end < offset {
          // A stream over an empty range never gets to wait for its goroutine: every read reports the end.
          var none := new MemoryStream([], faulty);
          return Memory(none), Ok;
        }
        var t := new TgMultiReader(data, offset, end, concurrency, capacity, faulty);
        return Telegram(t), Ok;
      }
      var m := new MemoryStream(Range(data, offset, limit), faulty);
      var fail: bool := *;
      return Memory(m), if faulty && fail then Transport else Ok;
    }
  }

  /** Read until `n` bytes have come or the source reports something. */
  method ReadFill(up: Upstream, n: nat) returns (got: Bytes, err: Err)
    requires up.Valid()
    modifies up.Obj()
    ensures up.Valid()
    ensures old(up.Rest()) == got + up.Rest() && |got| <= n
    ensures err == Ok ==> |got| == n
    ensures err == Ok || (err == Eof && up.Rest() == []) || (err == Transport && up.Faulty())
  {
    hide Upstream.Valid, Upstream.Rest;
    got, err := [], Ok;
    ghost var all := up.Rest();
    while |got| < n && err == Ok
      invariant up.Valid() && all == got + up.Rest() && |got| <= n
      invariant err == Ok || (err == Eof && up.Rest() == []) || (err == Transport && up.Faulty())
      decreases err == Ok, n - |got|
    {
      var more;
      more, err := up.Read(n - |got|);
      got := got + more;
    }
  }
}
