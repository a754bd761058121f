/** How a byte range of one stored part is covered by aligned, fixed-size requests
    (`CalculateChunkSize` in `internal/tgc/helpers.go`, `newTGMultiReader` in `internal/reader/tg_reader.go`). */
module ChunkPlan {
  import opened Arith
  import opened Bytes

  const KIB := 1024
  const MIB := 1048576

  /** The request sizes that can occur: the powers of two from 1 KiB to 1 MiB. */
  predicate IsChunkSize(c: int)
  {
    c in {1024, 2048, 4096, 8192, 16384, 32768, 65536, 131072, 262144, 524288, 1048576}
  }

  /** The largest request size not above `span`, and at least 1 KiB. */
  ghost predicate Fits(c: int, span: int)
  {
    && IsChunkSize(c)
    && (c <= span || c == KIB)
    && (forall d :: IsChunkSize(d) && d <= span ==> d <= c)
  }

  method CalculateChunkSize(start: int, end: int) returns (chunkSize: int)
    ensures Fits(chunkSize, end - start)
  {
    chunkSize := MIB;
    while chunkSize > KIB && chunkSize > end - start
      invariant IsChunkSize(chunkSize)
      invariant forall d :: IsChunkSize(d) && d <= end - start ==> d <= chunkSize
      decreases chunkSize
    {
      chunkSize := chunkSize / 2;
    }
  }

  /** The requests for one range: `totalParts` of them, from `base`, each of `chunkSize` bytes; the first loses
      `leftCut` bytes at the front and the last is cut after `rightCut` bytes. */
  datatype Plan = Plan(start: nat, end: nat, chunkSize: nat, base: nat, leftCut: nat, rightCut: nat, totalParts: nat)
  {
    /** Where request `k` begins. */
    function Offset(k: nat): nat { base + k * chunkSize }

    /** First byte of the range served by request `k`; `Lo(totalParts)` is one past the range. */
    function Lo(k: nat): nat
    {
      if k == 0 then start else if k >= totalParts then end + 1 else Offset(k)
    }

    /** The fields fit together as the constructor computes them. */
    predicate Valid()
    {
      && chunkSize > 0
      && start <= end
      && totalParts >= 1
      && base + leftCut == start && leftCut < chunkSize
      && 1 <= rightCut <= chunkSize
      && Offset(totalParts - 1) + rightCut == end + 1
    }
  }

  /** The fields `newTGMultiReader` computes for a range and a request size. */
  function MakePlan(start: nat, end: nat, chunkSize: nat): Plan
    requires chunkSize > 0 && start <= end
  {
    var base := start - start % chunkSize;
    assert end - base + chunkSize >= 0;
    Plan(start, end, chunkSize, base, start - base, end % chunkSize + 1, (end - base + chunkSize) / chunkSize)
  }

  /** The only request for an empty range would be cut from its far end to its near one. */
  predicate CutsCross(start: nat, end: int)
  {
    start / KIB * KIB <= end < start - 1
  }

  /** What `newTGMultiReader` computes for an empty range: no request at all, or a single one whose cuts cross exactly
      when the range ends before `start` in the same KiB. (Go truncates the quotient; it is positive exactly when
      the dividend reaches the divisor.) */
  lemma {:induction false} EmptyPlan(start: nat, end: int, chunkSize: nat)
    requires end < start && Fits(chunkSize, end - start)
    ensures chunkSize == KIB
    ensures var base := start - start % chunkSize;
            && (chunkSize <= end - base + chunkSize <==> base <= end)
            && end - base + chunkSize < 2 * chunkSize
            && (base <= end && start - base > end % chunkSize + 1 <==> CutsCross(start, end))
  {
    var base := start - start % chunkSize;
    DivMod(start, KIB);
    if base <= end {
      DivModUnique(end, start / KIB, end - base, KIB);
    }
  }

  lemma {:induction false} MakePlanValid(start: nat, end: nat, chunkSize: nat)
    requires chunkSize > 0 && start <= end
    ensures var p := MakePlan(start, end, chunkSize);
            && p.Valid()
            && p.base == start / chunkSize * chunkSize
            && p.totalParts == end / chunkSize - start / chunkSize + 1
  {
    var c := chunkSize;
    var a, b, rb := start / c, end / c, end % c;
    DivMod(start, c);
    DivMod(end, c);
    MulDiff(b, a, c);
    MulDiff(b - a + 1, 1, c);
    MultipleIsLarge(b - a, c);
    DivModUnique(end - a * c + c, b - a + 1, rb, c);
  }

  /** The pieces the requests contribute are non-empty and follow one another, so they tile the range. */
  lemma {:induction false} PiecesTile(p: Plan, k: nat)
    requires p.Valid() && k < p.totalParts
    ensures p.Lo(k) < p.Lo(k + 1) <= p.end + 1
    ensures p.Lo(k) == p.Offset(k) + (if k == 0 then p.leftCut else 0)
    ensures p.Lo(k + 1) == p.Offset(k) + (if k + 1 == p.totalParts then p.rightCut else p.chunkSize)
  {
    var t, c := p.totalParts, p.chunkSize;
    MulNext(k, k + 1, c);
    if k < t - 1 {
      MulNext(k, t - 1, c);
    }
  }

  lemma {:induction false} AlignedWithin(q: nat, c: nat)
    requires IsChunkSize(c)
    ensures (q * c) % c == 0 && (q * c) / MIB == (q * c + c - 1) / MIB
  {
    var m := MIB / c;
    DivModUnique(q * c, q, 0, c);
    var w, r := q / m, q % m;
    DivMod(q, m);
    MulDiff(q, w * m, c);
    MulAssoc(w, m, c);
    assert m * c == MIB;
    MulLe(r, m - 1, c);
    MulDiff(m, 1, c);
    MulLe(0, r, c);
    DivModUnique(q * c, w, r * c, MIB);
    DivModUnique(q * c + c - 1, w, r * c + c - 1, MIB);
  }

  /** Every request is aligned to its size and stays within one 1 MiB window, as the transport demands. */
  lemma {:induction false} RequestsAligned(start: nat, end: nat, c: nat, k: nat)
    requires IsChunkSize(c) && start <= end
    ensures var p := MakePlan(start, end, c);
            p.Offset(k) % c == 0 && p.Offset(k) / MIB == (p.Offset(k) + c - 1) / MIB
  {
    MakePlanValid(start, end, c);
    MulDiff(start / c + k, k, c);
    AlignedWithin(start / c + k, c);
  }

  /** A range spanning less than 1 MiB needs at most three requests. */
  lemma {:induction false} FewRequests(start: nat, end: nat, c: nat)
    requires start <= end && end - start < MIB && Fits(c, end - start)
    ensures MakePlan(start, end, c).totalParts <= 3
  {
    assert end - start < 2 * c by {
      if 2 * c <= end - start {
        assert IsChunkSize(2 * c);
      }
    }
    MakePlanValid(start, end, c);
    var p := MakePlan(start, end, c);
    if p.totalParts > 3 {
      MulLe(3, p.totalParts - 1, c);
      assert false;
    }
  }
}
