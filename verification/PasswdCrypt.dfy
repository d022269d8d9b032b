/**
 `md5crypt` and `shacrypt` (`passwd.c`): from a password and a salt to the text of the hash. C
 strings are byte sequences without their NUL; the digests are arbitrary functions.
 */
module PasswdCrypt {
  import opened Common
  import opened PasswdFeed
  import opened PasswdEncode

  const DOLLAR: byte := 0x24

  /** The first characters that `OPENSSL_strlcpy` keeps. */
  function Truncated(s: seq<byte>, n: nat): (r: seq<byte>)
    ensures r <= s && |r| == if |s| <= n then |s| else n
  {
    if |s| <= n then s else s[..n]
  }

  /** Appends to the text in the output buffer. */
  method Append(out: array<byte>, at: nat, text: seq<byte>) returns (cp: nat)
    requires at + |text| <= out.Length
    modifies out
    ensures cp == at + |text| && out[..cp] == old(out[..at]) + text
  {
    CopyInto(out, at, text, |text|);
    assert text[..|text|] == text;
    cp := at + |text|;
  }

  // md5crypt.

  /** The digest before the rounds. */
  function Md5First(H: Digest, passwd: seq<byte>, magic: seq<byte>, salt: seq<byte>): seq<byte>
    requires forall x :: |H(x)| == 16
  {
    H(passwd + (if magic == [] then [] else [DOLLAR] + magic + [DOLLAR]) + salt
      + Cyclic(H(passwd + salt + passwd), |passwd|)
      + Chosen(Bits(|passwd|), [0], Truncated(passwd, 1)))
  }

  function Md5Digest(H: Digest, passwd: seq<byte>, magic: seq<byte>, salt: seq<byte>): seq<byte>
    requires forall x :: |H(x)| == 16
  {
    Stretched(H, Md5First(H, passwd, magic, salt), passwd, salt, 1000)
  }

  /** The text before the hash. */
  function Md5Prefix(magic: seq<byte>, salt: seq<byte>): seq<byte> {
    (if magic == [] then [] else [DOLLAR] + magic + [DOLLAR]) + salt + [DOLLAR]
  }

  method Md5Feed(H: Digest, passwd: seq<byte>, magic: seq<byte>, salt: seq<byte>) returns (buf: seq<byte>)
    requires forall x :: |H(x)| == 16
    ensures buf == Md5First(H, passwd, magic, salt)
  {
    var md := new Context();
    md.Update(passwd);
    ghost var fed := passwd;
    NoChange(fed);
    if |magic| > 0 {
      md.Update([DOLLAR]);
      md.Update(magic);
      md.Update([DOLLAR]);
      Assoc(passwd, [DOLLAR], magic);
      Assoc(passwd, [DOLLAR] + magic, [DOLLAR]);
    }
    fed := fed + if magic == [] then [] else [DOLLAR] + magic + [DOLLAR];
    md.Update(salt);
    assert md.fed == fed + salt;
    var alternate := FeedAlternate(H, passwd, salt);
    FeedCyclic(md, alternate, |passwd|);
    FeedBits(md, |passwd|, [0], Truncated(passwd, 1));
    buf := H(md.fed);
  }

  /** The second digest: password, salt, password. */
  method FeedAlternate(H: Digest, passwd: seq<byte>, salt: seq<byte>) returns (buf: seq<byte>)
    ensures buf == H(passwd + salt + passwd)
  {
    var md2 := new Context();
    md2.Update(passwd);
    NoChange(passwd);
    md2.Update(salt);
    md2.Update(passwd);
    buf := H(md2.fed);
  }

  /**
   `md5crypt`: null exactly for a magic of more than four characters, and otherwise the prefix and
   the encoded digest, with a NUL behind, in the buffer of 41 bytes.
   */
  method Md5Crypt(H: Digest, passwd: seq<byte>, magic: seq<byte>, salt: seq<byte>, out: array<byte>)
    returns (length: Option<nat>)
    requires (forall x :: |H(x)| == 16) && out.Length == 6 + 9 + 24 + 2
    modifies out
    ensures length == None <==> |magic| > 4
    ensures length.Some? ==>
      && length.value < out.Length && out[length.value] == 0
      && out[..length.value] == Md5Prefix(magic, Truncated(salt, 8))
           + Encoding(MD5_ROWS, Md5Digest(H, passwd, magic, Truncated(salt, 8)))
  {
    if |magic| > 4 {
      return None;
    }
    var ascii_salt := Truncated(salt, 8);
    var buf := Md5Feed(H, passwd, magic, ascii_salt);
    buf := Stretch(H, buf, passwd, ascii_salt, 1000);
    StretchedSize(H, Md5First(H, passwd, magic, ascii_salt), passwd, ascii_salt, 1000, 16);
    var cp := WriteMd5Prefix(out, magic, ascii_salt);
    cp := WriteMd5(out, cp, buf);
    out[cp] := 0;
    length := Some(cp);
  }

  method WriteMd5Prefix(out: array<byte>, magic: seq<byte>, salt: seq<byte>) returns (cp: nat)
    requires |magic| <= 4 && |salt| <= 8 && out.Length == 41
    modifies out
    ensures cp == |Md5Prefix(magic, salt)| <= 15 && out[..cp] == Md5Prefix(magic, salt)
  {
    cp := 0;
    if magic != [] {
      cp := Append(out, cp, [DOLLAR]);
      cp := Append(out, cp, magic);
      cp := Append(out, cp, [DOLLAR]);
      NoChange([DOLLAR]);
    }
    ghost var start := if magic == [] then [] else [DOLLAR] + magic + [DOLLAR];
    assert out[..cp] == start;
    cp := Append(out, cp, salt);
    cp := Append(out, cp, [DOLLAR]);
  }

  // The rounds of shacrypt.

  const ROUNDS_MIN: nat := 1000
  const ROUNDS_MAX: nat := 999999999
  const ROUNDS_DEFAULT: nat := 5000

  /** `rounds=` */
  const ROUNDS_PREFIX: seq<byte> := [0x72, 0x6F, 0x75, 0x6E, 0x64, 0x73, 0x3D]

  predicate IsSpace(c: byte) {
    c == 0x20 || 0x09 <= c <= 0x0D
  }

  predicate IsDigit(c: byte) {
    0x30 <= c <= 0x39
  }

  function SpacesEnd(s: seq<byte>, i: nat): (r: nat)
    requires i <= |s|
    ensures i <= r <= |s|
    decreases |s| - i
  {
    if i < |s| && IsSpace(s[i]) then SpacesEnd(s, i + 1) else i
  }

  function DigitsEnd(s: seq<byte>, i: nat): (r: nat)
    requires i <= |s|
    ensures i <= r <= |s|
    decreases |s| - i
  {
    if i < |s| && IsDigit(s[i]) then DigitsEnd(s, i + 1) else i
  }

  /** The digits of `s` before `n`, from `i` on, as a number. */
  function Decimal(s: seq<byte>, i: nat, n: nat): nat
    requires i <= n <= |s|
    decreases n
  {
    if n == i then 0
    else 10 * Decimal(s, i, n - 1) + if s[n - 1] >= 0x30 then s[n - 1] - 0x30 else 0
  }

  const ULONG_RANGE: nat := 0x1_0000_0000_0000_0000

  /** `strtoul` to base 10 with a 64-bit result: the value, and where it stops. */
  function Strtoul(s: seq<byte>): (r: (nat, nat))
    ensures r.1 <= |s|
  {
    var i := SpacesEnd(s, 0);
    var signed := i < |s| && (s[i] == 0x2B || s[i] == 0x2D);
    var start := if signed then i + 1 else i;
    var end := DigitsEnd(s, start);
    var value := Decimal(s, start, end);
    if end == start then (0, 0)
    else if value >= ULONG_RANGE then (ULONG_RANGE - 1, end)
    else if signed && s[i] == 0x2D then ((ULONG_RANGE - value) % ULONG_RANGE, end)
    else (value, end)
  }

  function Clamped(rounds: nat): (r: nat)
    ensures ROUNDS_MIN <= r <= ROUNDS_MAX
    ensures ROUNDS_MIN <= rounds <= ROUNDS_MAX ==> r == rounds
  {
    if rounds > ROUNDS_MAX then ROUNDS_MAX else if rounds < ROUNDS_MIN then ROUNDS_MIN else rounds
  }

  /** The salt argument: rounds if they are given, and the salt proper. */
  datatype Setting = Setting(rounds: nat, custom: bool, salt: seq<byte>)

  predicate HasRounds(salt: seq<byte>) {
    |salt| >= 7 && salt[..7] == ROUNDS_PREFIX
  }

  /** Reads the salt argument; rounds that are not ended by `$` are refused. */
  function ReadSetting(salt: seq<byte>): Option<Setting> {
    if !HasRounds(salt) then Some(Setting(ROUNDS_DEFAULT, false, Truncated(salt, 16)))
    else
      var num := salt[7..];
      var (value, end) := Strtoul(num);
      if end < |num| && num[end] == DOLLAR then Some(Setting(Clamped(value), true, Truncated(num[end + 1..], 16)))
      else None
  }

  /** `%u` */
  function Printed(n: nat): seq<byte> {
    (if n < 10 then [] else Printed(n / 10)) + [0x30 + n % 10]
  }

  /** The setting as the result shows it, without the closing `$`. */
  function SettingText(s: Setting): seq<byte> {
    (if s.custom then ROUNDS_PREFIX + Printed(s.rounds) + [DOLLAR] else []) + s.salt
  }

  predicate AllDigits(s: seq<byte>) {
    forall i :: 0 <= i < |s| ==> IsDigit(s[i])
  }

  lemma {:induction false} PrintedDigits(n: nat)
    ensures AllDigits(Printed(n)) && Printed(n) != [] && Decimal(Printed(n), 0, |Printed(n)|) == n
  {
    if n >= 10 {
      PrintedDigits(n / 10);
      DecimalPrefix(Printed(n / 10), [0x30 + n % 10], |Printed(n / 10)|);
    }
  }

  lemma {:induction false} DecimalPrefix(s: seq<byte>, more: seq<byte>, n: nat)
    requires n <= |s|
    ensures Decimal(s + more, 0, n) == Decimal(s, 0, n)
  {
    if n > 0 {
      DecimalPrefix(s, more, n - 1);
    }
  }

  lemma {:induction false} DigitsRun(s: seq<byte>, more: seq<byte>, i: nat)
    requires AllDigits(s) && i <= |s| && (more == [] || !IsDigit(more[0]))
    ensures DigitsEnd(s + more, i) == |s|
    decreases |s| - i
  {
    if i < |s| {
      DigitsRun(s, more, i + 1);
    }
  }

  /** A printed number is read back up to the `$`. */
  lemma {:induction false} StrtoulPrinted(n: nat, rest: seq<byte>)
    requires n <= ROUNDS_MAX
    ensures Strtoul(Printed(n) + [DOLLAR] + rest) == (n, |Printed(n)|)
  {
    PrintedDigits(n);
    var s, more := Printed(n), [DOLLAR] + rest;
    Assoc(s, [DOLLAR], rest);
    DigitsRun(s, more, 0);
    DecimalPrefix(s, more, |s|);
    assert IsDigit((s + more)[0]);
  }

  /** The setting in a result reads back as the same setting: it can serve as the salt argument. */
  lemma SettingReadsBack(salt: seq<byte>)
    requires ReadSetting(salt).Some?
    ensures ReadSetting(SettingText(ReadSetting(salt).value)) == ReadSetting(salt)
  {
    var s := ReadSetting(salt).value;
    if s.custom {
      var number := Printed(s.rounds) + [DOLLAR] + s.salt;
      Assoc(ROUNDS_PREFIX, Printed(s.rounds), [DOLLAR]);
      Assoc(ROUNDS_PREFIX, Printed(s.rounds) + [DOLLAR], s.salt);
      var text := SettingText(s);
      assert text == ROUNDS_PREFIX + number;
      assert text[..7] == ROUNDS_PREFIX && text[7..] == number;
      StrtoulPrinted(s.rounds, s.salt);
      assert number[|Printed(s.rounds)|] == DOLLAR;
      assert number[|Printed(s.rounds)| + 1..] == s.salt;
    } else {
      NoChange(s.salt);
      assert |salt| >= 16 ==> s.salt[..7] == salt[..7];
    }
  }

  /** At most nine digits, as the buffer allows for. */
  lemma {:induction false} PrintedFits(n: nat)
    requires n <= ROUNDS_MAX
    ensures |Printed(n)| <= 9
  {
    PrintedBelow(n, 1000000000, 9);
  }

  lemma {:induction false} PrintedBelow(n: nat, power: nat, k: nat)
    requires k >= 1 && n < power && power == Power10(k)
    ensures |Printed(n)| <= k
  {
    if n >= 10 {
      assert k > 1;
      PrintedBelow(n / 10, Power10(k - 1), k - 1);
    }
  }

  function Power10(k: nat): nat {
    if k == 0 then 1 else 10 * Power10(k - 1)
  }

  // shacrypt.

  ghost predicate HasSize(H: Digest, size: nat) {
    size > 0 && forall x :: |H(x)| == size
  }

  /** Steps 1 to 12 of SHA-crypt. */
  function ShaFirst(H: Digest, ghost size: nat, passwd: seq<byte>, salt: seq<byte>): seq<byte>
    requires HasSize(H, size)
  {
    var alternate := H(passwd + salt + passwd);
    assert |alternate| == size;
    H(passwd + salt + Cyclic(alternate, |passwd|) + Chosen(Bits(|passwd|), alternate, passwd))
  }

  /** Steps 13 to 16. */
  function ShaP(H: Digest, ghost size: nat, passwd: seq<byte>): seq<byte>
    requires HasSize(H, size)
  {
    var temp := H(Repeated(passwd, |passwd|));
    assert |temp| == size;
    Cyclic(temp, |passwd|)
  }

  function SaltCopies(first: seq<byte>): nat
    requires first != []
  {
    16 + first[0] as int
  }

  /** Steps 17 to 20. */
  function ShaS(H: Digest, ghost size: nat, first: seq<byte>, salt: seq<byte>): seq<byte>
    requires HasSize(H, size) && |first| == size
  {
    var temp := H(Repeated(salt, SaltCopies(first)));
    assert |temp| == size;
    Cyclic(temp, |salt|)
  }

  function ShaDigest(H: Digest, ghost size: nat, passwd: seq<byte>, salt: seq<byte>, rounds: nat): seq<byte>
    requires HasSize(H, size)
  {
    var first := ShaFirst(H, size, passwd, salt);
    Stretched(H, first, ShaP(H, size, passwd), ShaS(H, size, first, salt), rounds)
  }

  method ShaFeed(H: Digest, ghost size: nat, passwd: seq<byte>, salt: seq<byte>) returns (buf: seq<byte>)
    requires HasSize(H, size)
    ensures buf == ShaFirst(H, size, passwd, salt)
  {
    var md := new Context();
    md.Update(passwd);
    NoChange(passwd);
    md.Update(salt);
    var alternate := FeedAlternate(H, passwd, salt);
    FeedCyclic(md, alternate, |passwd|);
    FeedBits(md, |passwd|, alternate, passwd);
    buf := H(md.fed);
  }

  /** A digest of `count` copies of a text, spread over its length; null when it is empty. */
  method Spread(H: Digest, ghost size: nat, text: seq<byte>, count: nat) returns (bytes: array?<byte>)
    requires HasSize(H, size)
    ensures (bytes == null) == (text == [])
    ensures |H(Repeated(text, count))| == size
    ensures bytes != null ==> fresh(bytes) && bytes[..] == Cyclic(H(Repeated(text, count)), |text|)
  {
    var md2 := new Context();
    FeedRepeated(md2, text, count);
    NoChange(Repeated(text, count));
    var temp := H(md2.fed);
    bytes := FillCyclic(temp, |text|);
  }

  /** The digest, unless the password or the salt is empty. */
  method ShaCompute(H: Digest, ghost size: nat, passwd: seq<byte>, salt: seq<byte>, rounds: nat)
    returns (digest: Option<seq<byte>>)
    requires HasSize(H, size)
    ensures digest == if passwd == [] || salt == [] then None else Some(ShaDigest(H, size, passwd, salt, rounds))
    ensures digest.Some? ==> |digest.value| == size
  {
    var buf := ShaFeed(H, size, passwd, salt);
    var p := Spread(H, size, passwd, |passwd|);
    if p == null {
      return None;
    }
    var s := Spread(H, size, salt, SaltCopies(buf));
    if s == null {
      return None;
    }
    StretchedSize(H, buf, p[..], s[..], rounds, size);
    buf := Stretch(H, buf, p[..], s[..], rounds);
    digest := Some(buf);
  }

  /** The text before the hash. */
  function ShaPrefix(magic: seq<byte>, setting: Setting): seq<byte> {
    [DOLLAR] + magic + [DOLLAR] + SettingText(setting) + [DOLLAR]
  }

  method WriteShaPrefix(out: array<byte>, magic: seq<byte>, s: Setting) returns (cp: nat)
    requires |magic| == 1 && |s.salt| <= 16 && s.rounds <= ROUNDS_MAX && out.Length == 124
    modifies out
    ensures cp == |ShaPrefix(magic, s)| <= 37 && out[..cp] == ShaPrefix(magic, s)
  {
    PrintedFits(s.rounds);
    cp := Append(out, 0, [DOLLAR]);
    NoChange([DOLLAR]);
    cp := Append(out, cp, magic);
    cp := Append(out, cp, [DOLLAR]);
    ghost var start := [DOLLAR] + magic + [DOLLAR];
    assert out[..cp] == start;
    if s.custom {
      cp := Append(out, cp, ROUNDS_PREFIX + Printed(s.rounds));
      cp := Append(out, cp, [DOLLAR]);
      Assoc(start, ROUNDS_PREFIX + Printed(s.rounds), [DOLLAR]);
    }
    ghost var rounds := if s.custom then ROUNDS_PREFIX + Printed(s.rounds) + [DOLLAR] else [];
    NoChange(start);
    assert out[..cp] == start + rounds;
    cp := Append(out, cp, s.salt);
    Assoc(start, rounds, s.salt);
    cp := Append(out, cp, [DOLLAR]);
  }

  /** Whether `shacrypt` can succeed. */
  predicate Accepted(passwd: seq<byte>, magic: seq<byte>, salt: seq<byte>) {
    && (magic == [0x35] || magic == [0x36])
    && ReadSetting(salt).Some? && passwd != [] && ReadSetting(salt).value.salt != []
  }

  /** The whole text of the hash. */
  function ShaText(H256: Digest, H512: Digest, passwd: seq<byte>, magic: seq<byte>, s: Setting): seq<byte>
    requires HasSize(H256, 32) && HasSize(H512, 64)
  {
    ShaPrefix(magic, s)
    + if magic == [0x35] then Encoding(SHA256_ROWS, ShaDigest(H256, 32, passwd, s.salt, s.rounds))
      else Encoding(SHA512_ROWS, ShaDigest(H512, 64, passwd, s.salt, s.rounds))
  }

  /**
   `shacrypt`: null exactly when the magic is not `5` or `6`, the rounds are malformed, or the
   password or the salt is empty; otherwise the text of the hash and a NUL, in the buffer of 124 bytes.
   */
  method ShaCrypt(H256: Digest, H512: Digest, passwd: seq<byte>, magic: seq<byte>, salt: seq<byte>, out: array<byte>)
    returns (length: Option<nat>)
    requires HasSize(H256, 32) && HasSize(H512, 64) && out.Length == 3 + 17 + 17 + 86 + 1
    modifies out
    ensures length.Some? <==> Accepted(passwd, magic, salt)
    ensures length.Some? ==>
      && length.value < out.Length && out[length.value] == 0
      && out[..length.value] == ShaText(H256, H512, passwd, magic, ReadSetting(salt).value)
  {
    if |magic| != 1 || (magic[0] != 0x35 && magic[0] != 0x36) {
      return None;
    }
    var short := magic[0] == 0x35;
    assert magic == [magic[0]];
    var reading := ReadSetting(salt);
    if reading.None? {
      return None;
    }
    var setting := reading.value;
    var digest;
    if short {
      digest := ShaCompute(H256, 32, passwd, setting.salt, setting.rounds);
    } else {
      digest := ShaCompute(H512, 64, passwd, setting.salt, setting.rounds);
    }
    if digest.None? {
      return None;
    }
    EncodingLengths(digest.value);
    var cp := WriteShaPrefix(out, magic, setting);
    cp := WriteRows(out, cp, if short then SHA256_ROWS else SHA512_ROWS, digest.value);
    out[cp] := 0;
    length := Some(cp);
  }

  /** Given back as the salt, the setting in a result computes the same hash for the same password. */
  lemma HashRepeats(H256: Digest, H512: Digest, passwd: seq<byte>, magic: seq<byte>, salt: seq<byte>)
    requires HasSize(H256, 32) && HasSize(H512, 64) && Accepted(passwd, magic, salt)
    ensures var again := SettingText(ReadSetting(salt).value);
      && Accepted(passwd, magic, again)
      && ShaText(H256, H512, passwd, magic, ReadSetting(again).value)
         == ShaText(H256, H512, passwd, magic, ReadSetting(salt).value)
  {
    SettingReadsBack(salt);
  }

  /** Two passwords with equal hashes under one setting have equal final digests. */
  lemma EqualHashesEqualDigests(H256: Digest, H512: Digest, passwd: seq<byte>, other: seq<byte>, magic: seq<byte>,
                                s: Setting)
    requires HasSize(H256, 32) && HasSize(H512, 64)
    requires ShaText(H256, H512, passwd, magic, s) == ShaText(H256, H512, other, magic, s)
    ensures magic == [0x35] ==>
      ShaDigest(H256, 32, passwd, s.salt, s.rounds) == ShaDigest(H256, 32, other, s.salt, s.rounds)
    ensures magic != [0x35] ==>
      ShaDigest(H512, 64, passwd, s.salt, s.rounds) == ShaDigest(H512, 64, other, s.salt, s.rounds)
  {
    if magic == [0x35] {
      var a, b := ShaDigest(H256, 32, passwd, s.salt, s.rounds), ShaDigest(H256, 32, other, s.salt, s.rounds);
      DigestSize(H256, 32, passwd, s.salt, s.rounds);
      DigestSize(H256, 32, other, s.salt, s.rounds);
      SameRest(ShaPrefix(magic, s), Encoding(SHA256_ROWS, a), Encoding(SHA256_ROWS, b));
      Sha256Arranges();
      EncodingInjective(SHA256_ROWS, a, b);
    } else {
      var a, b := ShaDigest(H512, 64, passwd, s.salt, s.rounds), ShaDigest(H512, 64, other, s.salt, s.rounds);
      DigestSize(H512, 64, passwd, s.salt, s.rounds);
      DigestSize(H512, 64, other, s.salt, s.rounds);
      SameRest(ShaPrefix(magic, s), Encoding(SHA512_ROWS, a), Encoding(SHA512_ROWS, b));
      Sha512Arranges();
      EncodingInjective(SHA512_ROWS, a, b);
    }
  }

  lemma DigestSize(H: Digest, size: nat, passwd: seq<byte>, salt: seq<byte>, rounds: nat)
    requires HasSize(H, size)
    ensures |ShaDigest(H, size, passwd, salt, rounds)| == size
  {
    var first := ShaFirst(H, size, passwd, salt);
    StretchedSize(H, first, ShaP(H, size, passwd), ShaS(H, size, first, salt), rounds, size);
  }

  lemma SameRest(a: seq<byte>, b: seq<byte>, c: seq<byte>)
    requires a + b == a + c
    ensures b == c
  {
    assert (a + b)[|a|..] == b && (a + c)[|a|..] == c;
  }
}
