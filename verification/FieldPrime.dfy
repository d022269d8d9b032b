/**
 The two checks of `flutter_libsparkmobile.cpp` that an x coordinate is below the secp256k1
 field prime (section 2.4.1 of SEC 2): `isCanonicalTag` on 32 bytes, `isHexCoordinate` on
 hexadecimal text. Both compare digit by digit; both mean "less than the prime".
 */
module FieldPrime {
  import opened Common

  const FIELD_PRIME: nat := 0xffffffff_ffffffff_ffffffff_ffffffff_ffffffff_ffffffff_fffffffe_fffffc2f

  const FIELD_PRIME_BYTES: seq<byte> := [
    0xff, 0xff, 0xff, 0xff, 0xff, 0xff, 0xff, 0xff, 0xff, 0xff, 0xff, 0xff,
    0xff, 0xff, 0xff, 0xff, 0xff, 0xff, 0xff, 0xff, 0xff, 0xff, 0xff, 0xff,
    0xff, 0xff, 0xff, 0xfe, 0xff, 0xff, 0xfc, 0x2f]

  const FIELD_PRIME_TEXT: string :=
    "ffffffff" + "ffffffff" + "ffffffff" + "ffffffff" + "ffffffff" + "ffffffff" + "fffffffe" + "fffffc2f"

  // ----- positional numbers

  /** The number written with the first `n` of the big-endian digits `ds`. */
  function Number(ds: seq<nat>, n: nat, radix: nat): nat
    requires n <= |ds|
  {
    if n == 0 then 0 else Number(ds, n - 1, radix) * radix + ds[n - 1]
  }

  predicate Digits(ds: seq<nat>, radix: nat) {
    forall k :: 0 <= k < |ds| ==> ds[k] < radix
  }

  /** `memcmp`-style order: the first difference at or after `k` decides. */
  predicate LexLess(a: seq<nat>, b: seq<nat>, k: nat)
    requires |a| == |b| && k <= |a|
    decreases |a| - k
  {
    k < |a| && (a[k] < b[k] || (a[k] == b[k] && LexLess(a, b, k + 1)))
  }

  lemma {:induction false} SamePrefix(a: seq<nat>, b: seq<nat>, n: nat, radix: nat)
    requires n <= |a| && n <= |b| && forall k :: 0 <= k < n ==> a[k] == b[k]
    ensures Number(a, n, radix) == Number(b, n, radix)
  {
    if n > 0 {
      SamePrefix(a, b, n - 1, radix);
    }
  }

  /** A difference in a higher digit cannot be made up by the lower ones. */
  lemma {:induction false} HigherDecides(a: seq<nat>, b: seq<nat>, m: nat, n: nat, radix: nat)
    requires m <= n <= |a| == |b| && Digits(a, radix) && radix >= 2
    requires Number(a, m, radix) < Number(b, m, radix)
    ensures Number(a, n, radix) < Number(b, n, radix)
  {
    if m < n {
      HigherDecides(a, b, m, n - 1, radix);
      Carry(Number(a, n - 1, radix), Number(b, n - 1, radix), radix);
    }
  }

  lemma {:induction false} Carry(x: nat, y: nat, radix: nat)
    requires x < y
    ensures x * radix + radix <= y * radix
  {
    if x + 1 < y {
      Carry(x, y - 1, radix);
      assert y * radix == (y - 1) * radix + radix;
    } else {
      assert y * radix == x * radix + radix;
    }
  }

  /** Between numbers of equal length, digit order is numeric order. */
  lemma {:induction false} LexIsNumeric(a: seq<nat>, b: seq<nat>, k: nat, radix: nat)
    requires k <= |a| == |b| && Digits(a, radix) && Digits(b, radix) && radix >= 2
    requires forall j :: 0 <= j < k ==> a[j] == b[j]
    ensures LexLess(a, b, k) <==> Number(a, |a|, radix) < Number(b, |b|, radix)
    decreases |a| - k
  {
    SamePrefix(a, b, k, radix);
    if k < |a| {
      if a[k] == b[k] {
        LexIsNumeric(a, b, k + 1, radix);
      } else if a[k] < b[k] {
        HigherDecides(a, b, k + 1, |a|, radix);
      } else {
        HigherDecides(b, a, k + 1, |a|, radix);
      }
    }
  }

  function Pow(radix: nat, n: nat): nat {
    if n == 0 then 1 else Pow(radix, n - 1) * radix
  }

  lemma {:induction false} NumberBound(ds: seq<nat>, n: nat, radix: nat)
    requires n <= |ds| && Digits(ds, radix)
    ensures Number(ds, n, radix) < Pow(radix, n)
  {
    if n > 0 {
      NumberBound(ds, n - 1, radix);
      Carry(Number(ds, n - 1, radix), Pow(radix, n - 1), radix);
    }
  }

  lemma {:induction false} NumberAtLeast(ds: seq<nat>, n: nat, radix: nat)
    requires 0 < n <= |ds| && ds[0] >= 1
    ensures Number(ds, n, radix) >= Pow(radix, n - 1)
  {
    if n == 1 {
      assert Number(ds, 0, radix) == 0;
    } else {
      NumberAtLeast(ds, n - 1, radix);
      Grow(Pow(radix, n - 2), Number(ds, n - 1, radix), radix);
    }
  }

  lemma Grow(x: nat, y: nat, radix: nat)
    requires x <= y
    ensures x * radix <= y * radix
  {
    if x < y {
      Carry(x, y, radix);
    }
  }

  lemma {:induction false} PowMonotone(radix: nat, m: nat, n: nat)
    requires m <= n && radix >= 1
    ensures 1 <= Pow(radix, m) <= Pow(radix, n)
  {
    if n > 0 {
      PowMonotone(radix, if m < n then m else n - 1, n - 1);
      Grow(1, radix, Pow(radix, n - 1));
    }
  }

  lemma {:induction false} LeadingZeros(ds: seq<nat>, z: nat, n: nat, radix: nat)
    requires z <= n <= |ds| && forall k :: 0 <= k < z ==> ds[k] == 0
    ensures Number(ds, n, radix) == Number(ds[z..], n - z, radix)
    decreases n
  {
    if n > z {
      LeadingZeros(ds, z, n - 1, radix);
    } else if n > 0 {
      LeadingZeros(ds, n - 1, n - 1, radix);
    }
  }

  // ----- the prime

  lemma {:induction false} PowSum(radix: nat, m: nat, n: nat)
    ensures Pow(radix, m + n) == Pow(radix, m) * Pow(radix, n)
  {
    if n > 0 {
      PowSum(radix, m, n - 1);
      Regroup(Pow(radix, m), Pow(radix, n - 1), radix);
    }
  }

  lemma Regroup(x: nat, y: nat, z: nat)
    ensures (x * y) * z == x * (y * z)
  {
  }

  lemma PowersUpTo32()
    ensures Pow(16, 7) == 0x1000_0000 && Pow(16, 8) == 0x1_0000_0000
    ensures Pow(16, 16) == 0x1_0000_0000_0000_0000
    ensures Pow(16, 32) == 0x1_0000_0000_0000_0000_0000_0000_0000_0000
  {
    assert Pow(16, 4) == 0x1_0000;
    PowSum(16, 8, 8);
    PowSum(16, 16, 16);
  }

  lemma PowersOf16()
    ensures Pow(16, 55) == 0x10000000000000000000000000000000000000000000000000000000
    ensures Pow(16, 63) == 0x1000000000000000000000000000000000000000000000000000000000000000
    ensures Pow(16, 64) == 0x10000000000000000000000000000000000000000000000000000000000000000
  {
    PowersUpTo32();
    PowSum(16, 32, 32);
    PowSum(16, 32, 16);
    PowSum(16, 48, 7);
    PowSum(16, 55, 8);
  }

  /** Digits that are all as large as they can be. */
  lemma {:induction false} AllOnes(ds: seq<nat>, n: nat, radix: nat)
    requires n <= |ds| && radix >= 1 && forall k :: 0 <= k < n ==> ds[k] == radix - 1
    ensures Number(ds, n, radix) + 1 == Pow(radix, n)
  {
    if n > 0 {
      AllOnes(ds, n - 1, radix);
      var x := Number(ds, n - 1, radix);
      assert (x + 1) * radix == x * radix + radix;
    }
  }

  lemma {:induction false} PowSquare(n: nat)
    ensures Pow(256, n) == Pow(16, 2 * n)
  {
    if n > 0 {
      PowSquare(n - 1);
      assert Pow(16, 2 * n) == Pow(16, 2 * n - 1) * 16 == Pow(16, 2 * n - 2) * 16 * 16;
    }
  }

  lemma PrimeValue()
    ensures FIELD_PRIME == Pow(256, 32) - Pow(256, 4) - 977
  {
    PowSquare(32);
    PowSquare(4);
    PowersUpTo32();
    PowersOf16();
  }

  lemma TopBytes()
    ensures Number(FIELD_PRIME_BYTES, 27, 256) == 0xffffffff_ffffffff_ffffffff_ffffffff_ffffffff_ffffffff_ffffff
  {
    AllOnes(FIELD_PRIME_BYTES, 27, 256);
    PowSquare(27);
    PowersOf16();
    assert Pow(16, 55) == Pow(16, 54) * 16;
  }

  /** Five more bytes. */
  lemma FiveBytes(ds: seq<nat>, n: nat)
    requires n + 5 <= |ds|
    ensures Number(ds, n + 5, 256) ==
      ((((Number(ds, n, 256) * 256 + ds[n]) * 256 + ds[n + 1]) * 256 + ds[n + 2]) * 256 + ds[n + 3]) * 256 + ds[n + 4]
  {
    assert Number(ds, n + 1, 256) == Number(ds, n, 256) * 256 + ds[n];
    assert Number(ds, n + 2, 256) == Number(ds, n + 1, 256) * 256 + ds[n + 1];
    assert Number(ds, n + 3, 256) == Number(ds, n + 2, 256) * 256 + ds[n + 2];
    assert Number(ds, n + 4, 256) == Number(ds, n + 3, 256) * 256 + ds[n + 3];
  }

  /** The table holds 2^256 - 2^32 - 977. */
  lemma PrimeBytes()
    ensures Number(FIELD_PRIME_BYTES, 32, 256) == FIELD_PRIME == Pow(256, 32) - Pow(256, 4) - 977
  {
    PrimeValue();
    TopBytes();
    FiveBytes(FIELD_PRIME_BYTES, 27);
  }

  // ----- 32 bytes

  /** A serialized tag: x in 32 bytes, a 0/1 oddness byte, a 0/1 infinity byte that must be 0. */
  predicate IsCanonicalTag(tag: seq<byte>)
    requires |tag| >= 34
  {
    LexLess(tag[..32], FIELD_PRIME_BYTES, 0) && tag[32] <= 1 && tag[33] == 0
  }

  lemma {:induction false} BytesLess(x: seq<byte>)
    requires |x| == 32
    ensures LexLess(x, FIELD_PRIME_BYTES, 0) <==> Number(x, 32, 256) < FIELD_PRIME
  {
    PrimeBytes();
    LexIsNumeric(x, FIELD_PRIME_BYTES, 0, 256);
  }

  /** The tag is canonical exactly when its x, read as a big-endian number, is below the prime. */
  lemma CanonicalTagIsNumeric(tag: seq<byte>)
    requires |tag| >= 34
    ensures IsCanonicalTag(tag) <==> Number(tag[..32], 32, 256) < FIELD_PRIME && tag[32] <= 1 && tag[33] == 0
  {
    BytesLess(tag[..32]);
  }

  // ----- hexadecimal text

  function ToDigits(s: string): (ds: seq<nat>)
    requires AllHex(s)
    ensures |ds| == |s| && Digits(ds, 16)
    ensures forall k :: 0 <= k < |s| ==> ds[k] == HexValue(s[k])
  {
    if s == "" then [] else ToDigits(s[..|s| - 1]) + [HexValue(s[|s| - 1])]
  }

  /** The number that a text stands for is that of its digits. */
  lemma {:induction false} TextNumber(s: string)
    requires AllHex(s)
    ensures HexNumber(s) == Number(ToDigits(s), |s|, 16)
  {
    if s != "" {
      var n := |s| - 1;
      TextNumber(s[..n]);
      SamePrefix(ToDigits(s), ToDigits(s[..n]), n, 16);
    }
  }

  /** `c | 0x20` for an ASCII character. */
  function SetBit5(c: char): char
    requires c < 128 as char
  {
    if c as int / 32 % 2 == 1 then c else (c as int + 32) as char
  }

  lemma FoldedOrder(c: char, d: char)
    requires IsHexDigit(c) && IsHexDigit(d) && SetBit5(d) == d
    ensures SetBit5(c) < d <==> HexValue(c) < HexValue(d)
    ensures SetBit5(c) == d <==> HexValue(c) == HexValue(d)
  {
  }

  /** The digits of the prime one by one. */
  function PrimeDigit(k: nat): char {
    if k < 55 then 'f' else if k == 55 then 'e' else if k < 61 then 'f' else if k == 61 then 'c'
    else if k == 62 then '2' else 'f'
  }

  lemma PrimeTextDigits()
    ensures |FIELD_PRIME_TEXT| == 64
    ensures forall k :: 0 <= k < 64 ==> FIELD_PRIME_TEXT[k] == PrimeDigit(k)
    ensures AllHex(FIELD_PRIME_TEXT)
  {
  }

  lemma PrimeText()
    requires AllHex(FIELD_PRIME_TEXT)
    ensures HexNumber(FIELD_PRIME_TEXT) == FIELD_PRIME
  {
    PrimeTextDigits();
    TextNumber(FIELD_PRIME_TEXT);
    var p := ToDigits(FIELD_PRIME_TEXT);
    AllOnes(p, 55, 16);
    PowersOf16();
    var top := Pow(16, 55) - 1;
    assert Number(p, 56, 16) == top * 16 + 14;
    assert Number(p, 58, 16) == (top * 16 + 14) * 0x100 + 0xff;
    assert Number(p, 60, 16) == (top * 16 + 14) * 0x1_0000 + 0xffff;
    assert Number(p, 62, 16) == (top * 16 + 14) * 0x100_0000 + 0xff_fffc;
    assert Number(p, 64, 16) == (top * 16 + 14) * 0x1_0000_0000 + 0xffff_fc2f;
  }

  lemma {:induction false} StrippedDigits(s: string, z: nat)
    requires AllHex(s) && z <= |s| && forall k :: 0 <= k < z ==> s[k] == '0'
    ensures AllHex(s[z..]) && Number(ToDigits(s), |s|, 16) == Number(ToDigits(s[z..]), |s| - z, 16)
  {
    LeadingZeros(ToDigits(s), z, |s|, 16);
    assert ToDigits(s)[z..] == ToDigits(s[z..]);
  }

  /** The value of a text whose first `z` characters are zeros is the value of the rest. */
  lemma {:induction false} StrippedValue(s: string, z: nat)
    requires AllHex(s) && z <= |s| && forall k :: 0 <= k < z ==> s[k] == '0'
    ensures AllHex(s[z..]) && HexNumber(s) == HexNumber(s[z..])
  {
    StrippedDigits(s, z);
    TextNumber(s);
    TextNumber(s[z..]);
  }

  /** Without leading zeros, a text of other than 64 digits is decided by its length. */
  lemma {:induction false} OtherLengths(s: string)
    requires AllHex(s) && |s| != 64 && (s != "" ==> s[0] != '0')
    ensures HexNumber(s) < FIELD_PRIME <==> |s| < 64
  {
    PowersOf16();
    TextNumber(s);
    if |s| < 64 {
      NumberBound(ToDigits(s), |s|, 16);
      PowMonotone(16, |s|, 63);
    } else {
      NumberAtLeast(ToDigits(s), |s|, 16);
      PowMonotone(16, 64, |s| - 1);
    }
  }

  /** `isHexCoordinate`; `None` is a null pointer. */
  method IsHexCoordinate(text: Option<string>) returns (ok: bool)
    ensures ok <==> text.Some? && text.value != "" && AllHex(text.value) && HexNumber(text.value) < FIELD_PRIME
  {
    if text.None? || text.value == "" {
      return false;
    }
    var s := text.value;
    var spanned := 0;
    while spanned < |s| && IsHexDigit(s[spanned])
      invariant spanned <= |s| && forall k :: 0 <= k < spanned ==> IsHexDigit(s[k])
    {
      spanned := spanned + 1;
    }
    if spanned != |s| {
      return false;
    }
    var z := 0;
    while z < |s| && s[z] == '0'
      invariant z <= |s| && forall k :: 0 <= k < z ==> s[k] == '0'
    {
      z := z + 1;
    }
    StrippedValue(s, z);
    var length := |s| - z;
    if length != 64 {
      OtherLengths(s[z..]);
      return length < 64;
    }
    ok := FoldedLess(s[z..]);
  }

  /** The loop over 64 digits. */
  method FoldedLess(value: string) returns (ok: bool)
    requires AllHex(value) && |value| == 64
    ensures ok <==> HexNumber(value) < FIELD_PRIME
  {
    PrimeTextDigits();
    PrimeText();
    ghost var ds, p := ToDigits(value), ToDigits(FIELD_PRIME_TEXT);
    LexIsNumeric(ds, p, 0, 16);
    TextNumber(value);
    TextNumber(FIELD_PRIME_TEXT);
    var i := 0;
    while i < 64
      invariant i <= 64 && (LexLess(ds, p, 0) <==> LexLess(ds, p, i))
    {
      var digit := SetBit5(value[i]);
      FoldedOrder(value[i], FIELD_PRIME_TEXT[i]);
      if digit != FIELD_PRIME_TEXT[i] {
        return digit < FIELD_PRIME_TEXT[i];
      }
      i := i + 1;
    }
    ok := false;
  }

  // ----- the two checks agree

  /** `t` spells the bytes `x`, two digits a byte, in any letter case. */
  predicate Spells(t: string, x: seq<byte>) {
    AllHex(t) && |t| == 2 * |x|
    && forall k :: 0 <= k < |x| ==> HexValue(t[2 * k]) * 16 + HexValue(t[2 * k + 1]) == x[k]
  }

  lemma TwoLowDigits(ds: seq<nat>, n: nat)
    requires n + 2 <= |ds|
    ensures Number(ds, n + 2, 16) == Number(ds, n, 16) * 256 + (ds[n] * 16 + ds[n + 1])
  {
    assert Number(ds, n + 2, 16) == Number(ds, n + 1, 16) * 16 + ds[n + 1];
    assert Number(ds, n + 1, 16) == Number(ds, n, 16) * 16 + ds[n];
  }

  /** The byte that the digits 2k and 2k + 1 spell. */
  function Pair(ds: seq<nat>, k: nat): nat
    requires 2 * k + 1 < |ds|
  {
    ds[2 * k] * 16 + ds[2 * k + 1]
  }

  lemma {:induction false} PairsValue(ds: seq<nat>, x: seq<byte>, n: nat)
    requires |ds| == 2 * |x| && n <= |x| && forall k :: 0 <= k < |x| ==> Pair(ds, k) == x[k]
    ensures Number(ds, 2 * n, 16) == Number(x, n, 256)
  {
    if n > 0 {
      PairsValue(ds, x, n - 1);
      TwoLowDigits(ds, 2 * (n - 1));
      assert Pair(ds, n - 1) == x[n - 1];
    }
  }

  lemma {:induction false} SpelledValue(t: string, x: seq<byte>)
    requires Spells(t, x)
    ensures HexNumber(t) == Number(x, |x|, 256)
  {
    TextNumber(t);
    PairsValue(ToDigits(t), x, |x|);
  }

  function Zeros(z: nat): (s: string)
    ensures |s| == z && forall k :: 0 <= k < z ==> s[k] == '0'
  {
    if z == 0 then "" else Zeros(z - 1) + "0"
  }

  /** On every x of 32 bytes and its hexadecimal form, with any number of leading zeros, both checks agree. */
  lemma {:induction false} ChecksAgree(tag: seq<byte>, t: string, z: nat)
    requires |tag| >= 34 && tag[32] <= 1 && tag[33] == 0 && Spells(t, tag[..32])
    ensures AllHex(Zeros(z) + t)
    ensures IsCanonicalTag(tag) <==> HexNumber(Zeros(z) + t) < FIELD_PRIME
  {
    CanonicalTagIsNumeric(tag);
    SpelledValue(t, tag[..32]);
    assert (Zeros(z) + t)[z..] == t;
    StrippedValue(Zeros(z) + t, z);
  }
}
