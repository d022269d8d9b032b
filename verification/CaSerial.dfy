/**
 The serial field of the CA's certificate database (`ca.c`, `apps.c`): what the load check
 accepts, what the index compares, and which serial numbers that keeps apart.
 */
module CaSerial {
  import opened Common

  function Unsigned(s: string): string {
    if s != "" && s[0] == '-' then s[1..] else s
  }

  predicate SerialOk(s: string) {
    var t := Unsigned(s);
    |t| % 2 == 0 && |t| >= 2 && forall k :: 0 <= k < |t| ==> IsHexDigit(t[k])
  }

  /** What `index_serial_cmp` compares: the serial without leading zeros. */
  function Key(s: string): string {
    if s != "" && s[0] == '0' then Key(s[1..]) else s
  }

  function HexDigit(n: nat): (c: char)
    requires n < 16
  {
    if n < 10 then (n + 48) as char else (n + 55) as char
  }

  /** Two upper-case digits for every byte of `n`, no leading zero byte. */
  function HexBytes(n: nat): string {
    if n == 0 then "" else HexBytes(n / 256) + [HexDigit(n % 256 / 16), HexDigit(n % 16)]
  }

  /** The serial field for a serial number: `00` for zero, `BN_bn2hex` otherwise. */
  function SerialField(n: int): string {
    if n == 0 then "00" else if n > 0 then HexBytes(n) else "-" + HexBytes(-n)
  }

  lemma {:induction false} AppendByte(s: string, a: char, b: char)
    requires AllHex(s) && IsHexDigit(a) && IsHexDigit(b)
    ensures AllHex(s + [a, b]) && HexNumber(s + [a, b]) == HexNumber(s) * 256 + HexValue(a) * 16 + HexValue(b)
  {
    assert s + [a, b] == (s + [a]) + [b];
    assert (s + [a] + [b])[..|s| + 1] == s + [a] && (s + [a])[..|s|] == s;
  }

  lemma DigitValue(d: nat)
    requires d < 16
    ensures IsHexDigit(HexDigit(d)) && HexValue(HexDigit(d)) == d
  {
  }

  lemma {:induction false} HexBytesValue(n: nat)
    ensures AllHex(HexBytes(n)) && HexNumber(HexBytes(n)) == n && |HexBytes(n)| % 2 == 0
    ensures n > 0 ==> |HexBytes(n)| >= 2
  {
    if n > 0 {
      HexBytesValue(n / 256);
      HexBytesStep(n);
    }
  }

  lemma {:induction false} HexBytesStep(n: nat)
    requires n > 0 && AllHex(HexBytes(n / 256))
    ensures |HexBytes(n)| == |HexBytes(n / 256)| + 2
    ensures AllHex(HexBytes(n)) && HexNumber(HexBytes(n)) == HexNumber(HexBytes(n / 256)) * 256 + n % 256
  {
    var s, hi, lo := HexBytes(n / 256), n % 256 / 16, n % 16;
    DigitValue(hi);
    DigitValue(lo);
    AppendByte(s, HexDigit(hi), HexDigit(lo));
    SplitByte(n);
  }

  lemma SplitByte(n: nat)
    ensures n % 256 / 16 * 16 + n % 16 == n % 256
  {
    var q, r := n / 256, n % 256;
    var h, l := r / 16, r % 16;
    Remainder(n, 16 * q + h, l);
  }

  lemma Remainder(n: nat, k: nat, l: nat)
    requires n == 16 * k + l && l < 16
    ensures n % 16 == l
  {
  }

  lemma {:induction false} KeyValue(s: string)
    requires AllHex(s)
    ensures AllHex(Key(s)) && HexNumber(Key(s)) == HexNumber(s)
  {
    if s != "" && s[0] == '0' {
      KeyValue(s[1..]);
      LeadingZero(s);
    }
  }

  lemma {:induction false} LeadingZero(s: string)
    requires AllHex(s) && s != "" && s[0] == '0'
    ensures HexNumber(s[1..]) == HexNumber(s)
  {
    if |s| == 1 {
      assert s[..0] == "";
    } else {
      var t := s[..|s| - 1];
      LeadingZero(t);
      assert s[1..][..|s| - 2] == t[1..];
    }
  }

  lemma SerialFieldOk(n: int)
    ensures SerialOk(SerialField(n))
  {
    HexBytesValue(if n < 0 then -n else n);
  }

  /** Two serial numbers clash in the index exactly when they are equal. */
  lemma SerialFieldKey(m: int, n: int)
    ensures Key(SerialField(m)) == Key(SerialField(n)) <==> m == n
  {
    SerialFieldKeyValue(m);
    SerialFieldKeyValue(n);
  }

  lemma ZeroKey()
    ensures Key("00") == ""
  {
    assert "00"[1..] == "0";
    assert Key("0") == Key("0"[1..]);
  }

  lemma SerialFieldKeyValue(n: int)
    ensures var k := Key(SerialField(n));
      if n < 0 then k != "" && k[0] == '-' && AllHex(k[1..]) && HexNumber(k[1..]) == -n
      else AllHex(k) && HexNumber(k) == n
  {
    if n < 0 {
      var s := HexBytes(-n);
      HexBytesValue(-n);
      assert ("-" + s)[1..] == s;
    } else if n == 0 {
      ZeroKey();
    } else {
      HexBytesValue(n);
      KeyValue(HexBytes(n));
    }
  }

  // ----- the numbers that the fields stand for

  /** The serial number of a field that passes the load check. */
  function NumberOf(s: string): int
    requires SerialOk(s)
  {
    if s[0] == '-' then
      var n: int := HexNumber(s[1..]); -n
    else HexNumber(s)
  }

  predicate NoLowerCase(s: string) {
    forall k :: 0 <= k < |s| ==> !('a' <= s[k] <= 'f')
  }

  predicate LeadingZeroByte(s: string) {
    |s| >= 2 && s[0] == '0' && s[1] == '0'
  }

  /** A field of the kind that the program writes, up to leading zero bytes of a number that is not negative. */
  predicate Plain(s: string) {
    SerialOk(s) && NoLowerCase(s) && !(s[0] == '-' && LeadingZeroByte(s[1..]))
  }

  lemma {:induction false} KeyLowerCase(s: string)
    ensures NoLowerCase(Key(s)) <==> NoLowerCase(s)
  {
    if s != "" && s[0] == '0' {
      KeyLowerCase(s[1..]);
      assert forall k :: 0 < k < |s| ==> s[k] == s[1..][k - 1];
    }
  }

  lemma {:induction false} HexBytesPlain(n: nat)
    ensures NoLowerCase(HexBytes(n)) && !LeadingZeroByte(HexBytes(n))
  {
    if n > 0 {
      HexBytesPlain(n / 256);
      HexBytesValue(n / 256);
    }
  }

  lemma HexDigitOf(c: char)
    requires IsHexDigit(c) && !('a' <= c <= 'f')
    ensures HexDigit(HexValue(c)) == c
  {
  }

  lemma {:induction false} WrittenByte(s: string, a: char, b: char)
    requires AllHex(s) && s == HexBytes(HexNumber(s))
    requires IsHexDigit(a) && IsHexDigit(b) && !('a' <= a <= 'f') && !('a' <= b <= 'f')
    requires s != "" || a != '0' || b != '0'
    ensures AllHex(s + [a, b]) && s + [a, b] == HexBytes(HexNumber(s + [a, b]))
  {
    AppendByte(s, a, b);
    HexDigitOf(a);
    HexDigitOf(b);
    HexBytesAppend(HexNumber(s), HexValue(a), HexValue(b));
  }

  /** Upper-case digits without a leading zero byte are what the program writes for their number. */
  lemma {:induction false} WrittenForm(t: string)
    requires AllHex(t) && NoLowerCase(t) && |t| % 2 == 0 && !LeadingZeroByte(t)
    ensures t == HexBytes(HexNumber(t))
  {
    if t != "" {
      var n := |t| - 2;
      var s, a, b := t[..n], t[n], t[n + 1];
      WrittenForm(s);
      assert t == s + [a, b];
      assert n == 0 ==> t[0] == a && t[1] == b;
      WrittenByte(s, a, b);
    }
  }

  lemma HexBytesAppend(m: nat, hi: nat, lo: nat)
    requires hi < 16 && lo < 16 && m + hi + lo > 0
    ensures HexBytes(m * 256 + hi * 16 + lo) == HexBytes(m) + [HexDigit(hi), HexDigit(lo)]
  {
    var n := m * 256 + hi * 16 + lo;
    Quotient(n, 256, m, hi * 16 + lo);
    Quotient(hi * 16 + lo, 16, hi, lo);
    Quotient(n, 16, m * 16 + hi, lo);
  }

  lemma {:induction false} UnsignedForm(t: string)
    requires AllHex(t) && NoLowerCase(t) && |t| % 2 == 0
    ensures Key(t) == Key(HexBytes(HexNumber(t)))
  {
    if LeadingZeroByte(t) {
      LeadingZero(t);
      LeadingZero(t[1..]);
      assert t[1..][1..] == t[2..];
      UnsignedForm(t[2..]);
    } else {
      WrittenForm(t);
    }
  }

  /** The index takes a field for the one written for its number exactly when it is plain. */
  lemma {:induction false} PlainExactly(s: string)
    requires SerialOk(s)
    ensures Plain(s) <==> Key(s) == Key(SerialField(NumberOf(s)))
  {
    ZeroKey();
    if s[0] == '-' {
      NegativeExactly(s, s[1..]);
    } else {
      var n := HexNumber(s);
      KeyLowerCase(s);
      KeyLowerCase(HexBytes(n));
      HexBytesPlain(n);
      if NoLowerCase(s) {
        UnsignedForm(s);
      }
    }
  }

  lemma {:induction false} NegativeExactly(s: string, t: string)
    requires SerialOk(s) && s == "-" + t
    ensures Plain(s) <==> Key(s) == Key(SerialField(NumberOf(s)))
  {
    ZeroKey();
    var n: int := HexNumber(t);
    assert s[1..] == t;
    HexBytesPlain(n);
    assert ("-" + HexBytes(n))[1..] == HexBytes(n);
    assert NoLowerCase(s) <==> NoLowerCase(t) by {
      assert forall k :: 0 <= k < |t| ==> t[k] == s[k + 1];
    }
    if Plain(s) {
      WrittenForm(t);
    }
  }

  lemma SerialFieldNumber(n: int)
    ensures SerialOk(SerialField(n)) && NumberOf(SerialField(n)) == n && Plain(SerialField(n))
  {
    SerialFieldOk(n);
    if n == 0 {
      assert "00"[..1] == "0" && "0"[..0] == "";
      assert HexNumber("0") == 0;
    } else {
      HexBytesValue(if n < 0 then -n else n);
      assert n < 0 ==> SerialField(n)[1..] == HexBytes(-n);
    }
    PlainExactly(SerialField(n));
  }

  /** Fields that the index takes for the same stand for the same number. */
  lemma {:induction false} SameKeySameNumber(a: string, b: string)
    requires SerialOk(a) && SerialOk(b) && Key(a) == Key(b)
    ensures NumberOf(a) == NumberOf(b)
  {
    if a[0] != '-' {
      KeyValue(a);
    }
    if b[0] != '-' {
      KeyValue(b);
    }
  }

  /** Of plain fields the converse holds too. */
  lemma {:induction false} PlainFieldsKey(a: string, b: string)
    requires Plain(a) && Plain(b)
    ensures Key(a) == Key(b) <==> NumberOf(a) == NumberOf(b)
  {
    PlainExactly(a);
    PlainExactly(b);
    if Key(a) == Key(b) {
      SameKeySameNumber(a, b);
    }
  }
}
