/** The 192-bit little-endian block counter (`internal/crypt/cipher.go`, type `nonce`). */
module Nonce {
  import opened Arith
  import opened Bytes

  const NONCE_SIZE := 24

  function Pow256(k: nat): (p: nat)
    ensures p > 0
  {
    if k == 0 then 1 else 256 * Pow256(k - 1)
  }

  lemma {:induction false} Pow256Grows(k: nat)
    requires k >= 3
    ensures Pow256(k) >= 0x100_0000
  {
    if k == 3 {
      assert Pow256(2) == 65536;
    } else {
      Pow256Grows(k - 1);
    }
  }

  /** The number a little-endian digit string stands for. */
  function Value(n: Bytes): nat
  {
    if n == [] then 0 else n[0] + 256 * Value(n[1..])
  }

  /** The low `k` base-256 digits of `v`, least significant first. */
  function Digits(v: nat, k: nat): (n: Bytes)
    ensures |n| == k
  {
    if k == 0 then [] else [v % 256] + Digits(v / 256, k - 1)
  }

  /** The nonce `k` steps after `n`, wrapping around at the width of `n`. */
  function At(n: Bytes, k: nat): (r: Bytes)
    ensures |r| == |n|
  {
    Digits(Value(n) + k, |n|)
  }

  lemma {:induction false} DigitsOfValue(n: Bytes)
    ensures Value(n) < Pow256(|n|)
    ensures Digits(Value(n), |n|) == n
  {
    if n == [] {
    } else {
      DigitsOfValue(n[1..]);
      assert Value(n) % 256 == n[0] && Value(n) / 256 == Value(n[1..]);
    }
  }

  /** The digits of `v` lose exactly a multiple `c` of the modulus. */
  lemma {:induction false} ValueOfDigits(v: nat, k: nat) returns (c: nat)
    ensures Value(Digits(v, k)) < Pow256(k)
    ensures v == c * Pow256(k) + Value(Digits(v, k))
  {
    if k == 0 {
      c := v;
    } else {
      c := ValueOfDigits(v / 256, k - 1);
      MulAssoc(256, c, Pow256(k - 1));
      MulAssoc(c, 256, Pow256(k - 1));
      assert Value(Digits(v, k)) == v % 256 + 256 * Value(Digits(v / 256, k - 1)) by {
        assert Digits(v, k)[1..] == Digits(v / 256, k - 1);
      }
    }
  }

  lemma {:induction false} DigitsAreRemainder(v: nat, k: nat)
    ensures Value(Digits(v, k)) == v % Pow256(k)
  {
    var m, r := Pow256(k), Value(Digits(v, k));
    var c := ValueOfDigits(v, k);
    DivModUnique(v, c, r, m);
  }

  lemma {:induction false} ShiftOut(v: nat, x: nat)
    ensures (v + 256 * x) % 256 == v % 256 && (v + 256 * x) / 256 == v / 256 + x
  {
  }

  /** Adding a multiple of the modulus does not change the digits. */
  lemma {:induction false} DigitsWrap(v: nat, c: nat, k: nat)
    ensures Digits(v + c * Pow256(k), k) == Digits(v, k)
  {
    if k == 0 {
    } else {
      var q := Pow256(k - 1);
      assert c * Pow256(k) == 256 * (c * q);
      ShiftOut(v, c * q);
      DigitsWrap(v / 256, c, k - 1);
    }
  }

  /** Addition one digit at a time: the identity behind the carry loops. */
  lemma {:induction false} AtUnfold(n: Bytes, v: nat)
    requires n != []
    ensures At(n, v) == [(n[0] + v) % 256] + At(n[1..], (n[0] + v) / 256)
  {
  }

  lemma {:induction false} AtZero(n: Bytes)
    ensures At(n, 0) == n
  {
    DigitsOfValue(n);
  }

  /** Steps add up: `b` steps after `a` steps is `a + b` steps. */
  lemma {:induction false} AtAdd(n: Bytes, a: nat, b: nat)
    ensures At(At(n, a), b) == At(n, a + b)
  {
    var c := ValueOfDigits(Value(n) + a, |n|);
    DigitsWrap(Value(At(n, a)) + b, c, |n|);
  }

  /** `x` single steps, as the encrypter takes them, one per block. */
  function Stepped(n: Bytes, x: nat): Bytes
  {
    if x == 0 then n else At(Stepped(n, x - 1), 1)
  }

  /** One jump of `x`, as a seek takes it, lands where `x` single steps land. */
  lemma {:induction false} JumpIsRepeatedStep(n: Bytes, x: nat)
    ensures Stepped(n, x) == At(n, x)
  {
    if x == 0 {
      AtZero(n);
    } else {
      JumpIsRepeatedStep(n, x - 1);
      AtAdd(n, x - 1, 1);
    }
  }

  /** The nonce is a counter modulo 256^24, that is, 2^192. */
  lemma {:induction false} AtIsModularAddition(n: Bytes, k: nat)
    ensures Value(At(n, k)) == (Value(n) + k) % Pow256(|n|)
  {
    DigitsAreRemainder(Value(n) + k, |n|);
  }

  lemma {:induction false} SameResidueIsFar(x: nat, y: nat, m: nat, c: nat, c': nat, r: nat)
    requires x == c * m + r && y == c' * m + r
    ensures x >= y || y >= x + m
  {
    MultipleIsLarge(c' - c, m);
    MulDiff(c', c, m);
    if c' == c {
      assert x == y;
    }
  }

  lemma {:induction false} DistinctResidues(x: nat, y: nat, k: nat)
    requires x < y < x + Pow256(k)
    ensures Digits(x, k) != Digits(y, k)
  {
    var c := ValueOfDigits(x, k);
    var c' := ValueOfDigits(y, k);
    if Value(Digits(x, k)) == Value(Digits(y, k)) {
      SameResidueIsFar(x, y, Pow256(k), c, c', Value(Digits(x, k)));
    }
  }

  /** No nonce repeats within one period of the counter. */
  lemma {:induction false} NoncesDistinct(n: Bytes, a: nat, b: nat)
    requires a < b < a + Pow256(|n|)
    ensures At(n, a) != At(n, b)
  {
    if At(n, a) == At(n, b) {
      DistinctResidues(Value(n) + a, Value(n) + b, |n|);
    }
  }

  /** A carry runs through the leading 255s, clearing them, and stops at the first other digit. */
  lemma {:induction false} CarryStops(n: Bytes, j: nat)
    requires j < |n| && n[j] != 255 && forall t :: 0 <= t < j ==> n[t] == 255
    ensures At(n, 1) == Zeros(j) + [n[j] + 1] + n[j + 1..]
  {
    AtUnfold(n, 1);
    if j == 0 {
      AtZero(n[1..]);
    } else {
      CarryStops(n[1..], j - 1);
      assert [0] + (Zeros(j - 1) + [n[j] + 1] + n[j + 1..]) == Zeros(j) + [n[j] + 1] + n[j + 1..];
    }
  }

  lemma {:induction false} CarryOverflows(n: Bytes)
    requires forall t :: 0 <= t < |n| ==> n[t] == 255
    ensures At(n, 1) == Zeros(|n|)
  {
    if n == [] {
    } else {
      AtUnfold(n, 1);
      CarryOverflows(n[1..]);
    }
  }

  /** Overwrite the nonce with the given digits; too few of them overwrite its front and are reported. */
  method Load(n: array<byte>, digits: Bytes) returns (ok: bool)
    modifies n
    ensures ok <==> |digits| >= n.Length
    ensures ok ==> n[..] == digits[..n.Length]
    ensures !ok ==> n[..|digits|] == digits && n[|digits|..] == old(n[|digits|..])
  {
    var read := Min(|digits|, n.Length);
    forall i | 0 <= i < read {
      n[i] := digits[i];
    }
    return read == n.Length;
  }

  /** Ripple a carry upwards from digit `i`, in place. */
  method Carry(n: array<byte>, i: nat)
    requires i <= n.Length
    modifies n
    ensures n[..i] == old(n[..i])
    ensures n[i..] == At(old(n[i..]), 1)
  {
    ghost var was := n[i..];
    var j := i;
    while j < n.Length
      invariant i <= j <= n.Length
      invariant forall t :: 0 <= t < i ==> n[t] == old(n[t])
      invariant forall t :: i <= t < j ==> n[t] == 0
      invariant forall t :: 0 <= t < j - i ==> was[t] == 255
      invariant forall t :: j <= t < n.Length ==> n[t] == was[t - i]
    {
      var digit := n[j];
      var newDigit: byte := (digit as int + 1) % 256;
      n[j] := newDigit;
      if newDigit >= digit {
        CarryStops(was, j - i);
        return;
      }
      j := j + 1;
    }
    CarryOverflows(was);
  }

  method Increment(n: array<byte>)
    modifies n
    ensures n[..] == At(old(n[..]), 1)
  {
    assert n[0..] == n[..];
    Carry(n, 0);
    assert n[0..] == n[..];
  }

  /** One turn of the addition loop: digit sum, and the carry joins the shifted number. */
  lemma {:induction false} AddDigit(n: Bytes, carry: nat, rest: nat)
    requires n != []
    ensures var sum := carry + n[0] + rest % 256;
            At(n, carry + rest) == [sum % 256] + At(n[1..], sum / 256 + rest / 256)
  {
    AtUnfold(n, carry + rest);
  }

  /** Add a 64-bit number to the first eight digits, then ripple the carry. */
  method Add(n: array<byte>, x: nat)
    requires n.Length == NONCE_SIZE && x < Pow256(8)
    modifies n
    ensures n[..] == At(old(n[..]), x)
  {
    hide At, Digits, Value;
    ghost var was := n[..];
    var carry: nat := 0;
    var rest: nat := x;
    var i := 0;
    assert n[0..] == was;
    while i < 8
      invariant 0 <= i <= 8 && carry <= 1
      invariant rest < Pow256(8 - i)
      invariant At(was, x) == n[..i] + At(n[i..], carry + rest)
    {
      ghost var low, high := n[..i], n[i..];
      var digit, xDigit := n[i], rest % 256;
      AddDigit(high, carry, rest);
      rest := rest / 256;
      carry := carry + digit as nat + xDigit;
      n[i] := carry % 256;
      carry := carry / 256;
      assert n[..i + 1] == low + [n[i]] && n[i + 1..] == high[1..];
      i := i + 1;
    }
    if carry != 0 {
      Carry(n, 8);
    } else {
      AtZero(n[8..]);
    }
    assert n[..] == n[..8] + n[8..];
  }

  lemma {:induction false} Pow256Of8()
    ensures Pow256(8) == 0x1_0000_0000_0000_0000
  {
    assert Pow256(4) == 0x1_0000_0000;
  }
}
