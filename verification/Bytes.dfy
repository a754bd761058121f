/** Byte strings, the outcomes of an `io.Reader`, and the contract every reader in the
    streaming stack is held to. */
module Bytes {
  import opened Arith

  type byte = x: int | 0 <= x < 256
  type Bytes = seq<byte>

  datatype Option<+T> = None | Some(value: T)

  function Min(a: int, b: int): int { if a <= b then a else b }

  function Max(a: int, b: int): int { if a >= b then a else b }

  function Zeros(n: nat): Bytes { seq(n, _ => 0) }

  /** Number of blocks `n` bytes occupy, with blocks of `unit` bytes. */
  function Blocks(n: nat, unit: nat): nat
    requires unit > 0
  {
    n / unit + (if n % unit != 0 then 1 else 0)
  }

  /** Block `k` of `s`, cut into pieces of `unit` bytes; the last piece may be short, later ones are empty. */
  function Piece(s: Bytes, k: nat, unit: nat): (p: Bytes)
  {
    s[Min(k * unit, |s|)..Min((k + 1) * unit, |s|)]
  }

  /** Concatenation of a list of byte strings. */
  function Flat(ss: seq<Bytes>): Bytes
  {
    if ss == [] then [] else ss[0] + Flat(ss[1..])
  }

  lemma {:induction false} FlatAppend(a: seq<Bytes>, b: seq<Bytes>)
    ensures Flat(a + b) == Flat(a) + Flat(b)
  {
    if a == [] {
      assert a + b == b;
    } else {
      FlatAppend(a[1..], b);
      assert (a + b)[0] == a[0] && (a + b)[1..] == a[1..] + b;
      assert a[0] + (Flat(a[1..]) + Flat(b)) == (a[0] + Flat(a[1..])) + Flat(b);
    }
  }

  lemma {:induction false} FlatSnoc(ss: seq<Bytes>, b: Bytes)
    ensures Flat(ss + [b]) == Flat(ss) + b
  {
    FlatAppend(ss, [b]);
    assert Flat([b]) == b;
  }

  lemma {:induction false} DropFront(front: Bytes, tail: Bytes, lo: nat, n: nat)
    requires lo + n <= |tail|
    ensures (front + tail)[|front| + lo..|front| + lo + n] == tail[lo..lo + n]
  {
    assert (front + tail)[|front| + lo..|front| + lo + n] == tail[lo..lo + n];
  }

  /** All pieces but the last have the given size, and the last is no larger. */
  predicate Uniform(contents: seq<Bytes>, size: nat)
  {
    && contents != [] && size > 0
    && (forall k :: 0 <= k < |contents| - 1 ==> |contents[k]| == size)
    && 0 < |contents[|contents| - 1]| <= size
  }

  /** Piece `k` of a uniform list sits at offset `k * size` of their concatenation. */
  lemma {:induction false} PartInWhole(contents: seq<Bytes>, size: nat, k: nat)
    requires Uniform(contents, size) && k < |contents|
    ensures k * size + |contents[k]| <= |Flat(contents)|
    ensures Flat(contents)[k * size..k * size + |contents[k]|] == contents[k]
    ensures k + 1 == |contents| ==> k * size + |contents[k]| == |Flat(contents)|
    decreases k
  {
    var whole, tail := Flat(contents), Flat(contents[1..]);
    if k == 0 {
      assert whole[..|contents[0]|] == contents[0];
    } else {
      PartInWhole(contents[1..], size, k - 1);
      MulDiff(k, 1, size);
      assert contents[1..][k - 1] == contents[k];
      DropFront(contents[0], tail, (k - 1) * size, |contents[k]|);
    }
  }

  /** A slice that splits into two strings splits where the first one ends. */
  lemma {:induction false} SplitSlice(s: Bytes, lo: nat, hi: nat, front: Bytes, back: Bytes)
    requires lo <= hi <= |s| && s[lo..hi] == front + back
    ensures lo + |front| <= hi
    ensures front == s[lo..lo + |front|] && back == s[lo + |front|..hi]
  {
    assert |s[lo..hi]| == hi - lo;
    assert s[lo..hi][..|front|] == front && s[lo..hi][|front|..] == back;
  }

  lemma {:induction false} SubSlice(s: Bytes, lo: nat, hi: nat, a: nat, b: nat)
    requires lo <= hi <= |s| && a <= b <= hi - lo
    ensures s[lo..hi][a..b] == s[lo + a..lo + b]
  {
    var t := s[lo..hi];
    forall i | 0 <= i < b - a
      ensures t[a..b][i] == s[lo + a..lo + b][i]
    {
      assert t[a + i] == s[lo + (a + i)];
    }
    assert t[a..b] == s[lo + a..lo + b];
  }

  /** Equal slices stay equal when both are split at the same place. */
  lemma {:induction false} CutBoth(s: Bytes, i: nat, t: Bytes, j: nat, n: nat, k: nat)
    requires i + n <= |s| && j + n <= |t| && k <= n && s[i..i + n] == t[j..j + n]
    ensures s[i..i + k] == t[j..j + k] && s[i + k..i + n] == t[j + k..j + n]
  {
    SubSlice(s, i, i + n, 0, k);
    SubSlice(t, j, j + n, 0, k);
    SubSlice(s, i, i + n, k, n);
    SubSlice(t, j, j + n, k, n);
  }

  lemma {:induction false} JoinSlices(s: Bytes, a: nat, b: nat, c: nat)
    requires a <= b <= c <= |s|
    ensures s[a..c] == s[a..b] + s[b..c]
  {
    assert s[a..c] == s[a..b] + s[b..c];
  }

  /** Taking `got` from the front of what is left moves it to the end of what has come. */
  lemma {:induction false} Moved(out: Bytes, got: Bytes, after: Bytes)
    ensures out + (got + after) == (out + got) + after
  {
  }

  /** What a read may report: no error, the end of the stream, a transport failure (which includes a
      cancelled context and an abandoned stream), or one of the cipher's own errors. */
  datatype Err =
    | Ok
    | Eof
    | Transport
    | TooShort
    | BadHeader
    | BadMagic
    | BadSeek
    | BadWhence
    | NotSeekable
    | FileClosed

  /** One read of at most `n` bytes takes `got` from the front of what was pending; the end of the stream
      is reported only when nothing is left, and a read that reports no error makes progress. */
  ghost predicate ReadStep(before: Bytes, n: nat, got: Bytes, err: Err, after: Bytes)
  {
    && before == got + after
    && |got| <= n
    && (err == Eof ==> after == [])
    && (err == Ok && n > 0 ==> got != [])
  }
}
