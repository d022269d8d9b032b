/** Shared vocabulary: optional results, C bytes, hexadecimal digits, division. */
module Common {

  datatype Option<+T> = None | Some(value: T)

  /** One `unsigned char`. */
  type byte = x: int | 0 <= x < 256

  lemma Assoc<T>(a: seq<T>, b: seq<T>, c: seq<T>)
    ensures (a + b) + c == a + (b + c)
  {
  }

  lemma NoChange<T>(s: seq<T>)
    ensures s + [] == s && [] + s == s
  {
  }

  // Hexadecimal digits, of either case.

  /** The code is that of a hexadecimal digit. */
  predicate IsHexCode(c: nat) {
    48 <= c <= 57 || 65 <= c <= 70 || 97 <= c <= 102
  }

  function HexCodeValue(c: nat): (v: nat)
    requires IsHexCode(c)
    ensures v < 16
  {
    if c <= 57 then c - 48 else if c <= 70 then c - 55 else c - 87
  }

  predicate IsHexDigit(c: char) {
    IsHexCode(c as nat)
  }

  function HexValue(c: char): (v: nat)
    requires IsHexDigit(c)
    ensures v < 16
  {
    HexCodeValue(c as nat)
  }

  predicate AllHex(s: string) {
    forall k :: 0 <= k < |s| ==> IsHexDigit(s[k])
  }

  /** The number that a hexadecimal text stands for. */
  function HexNumber(s: string): nat
    requires AllHex(s)
  {
    if s == "" then 0 else HexNumber(s[..|s| - 1]) * 16 + HexValue(s[|s| - 1])
  }

  /** Quotient and remainder are the only ones. */
  lemma Quotient(a: nat, size: nat, q: nat, r: nat)
    requires r < size && a == q * size + r
    ensures a / size == q && a % size == r
  {
    var d := a / size - q;
    assert d * size == a / size * size - q * size == r - a % size;
    assert d >= 1 ==> d * size >= size;
    assert d <= -1 ==> d * size + size <= 0;
  }
}
