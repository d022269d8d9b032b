/**
 The text of a password hash (`passwd.c`) at each position, and the settings that a salt argument is
 read as, with the characters written out.
 */
module PasswdText {
  import opened Common
  import opened PasswdFeed
  import opened PasswdEncode
  import opened PasswdCrypt

  // Characters.

  const MARKS: string := "./"
  const FIGURES: string := "0123456789"
  const CAPITALS: string := "ABCDEFGHIJKLMNOPQRSTUVWXYZ"
  const LETTERS: string := "abcdefghijklmnopqrstuvwxyz"

  /** The character for six bits. */
  predicate Shows(c: byte, v: nat) {
    c as char ==
      if v < 2 then MARKS[v]
      else if v < 12 then FIGURES[v - 2]
      else if v < 38 then CAPITALS[v - 12]
      else if v < 64 then LETTERS[v - 38]
      else '?'
  }

  lemma Alphabet(k: nat)
    requires k < 26
    ensures CAPITALS[k] as nat == 65 + k && LETTERS[k] as nat == 97 + k
  {
    if k < 13 {
      assert k in {0, 1, 2, 3, 4, 5, 6, 7, 8, 9, 10, 11, 12};
    } else {
      assert k in {13, 14, 15, 16, 17, 18, 19, 20, 21, 22, 23, 24, 25};
    }
  }

  lemma CharShows(v: nat)
    requires v < 64
    ensures Shows(Cov2Char(v), v)
  {
    if v < 2 {
      assert v in {0, 1};
    } else if v < 12 {
      assert v - 2 in {0, 1, 2, 3, 4, 5, 6, 7, 8, 9};
    } else if v < 38 {
      Alphabet(v - 12);
    } else {
      Alphabet(v - 38);
    }
  }

  // Groups.

  /** Three bytes in four characters, the low bits of the last byte first. */
  predicate GroupAt(text: seq<byte>, at: nat, b2: byte, b1: byte, b0: byte) {
    && at + 4 <= |text|
    && Shows(text[at], b0 % 64) && Shows(text[at + 1], b1 % 16 * 4 + b0 / 64)
    && Shows(text[at + 2], b2 % 4 * 16 + b1 / 16) && Shows(text[at + 3], b2 / 4)
  }

  lemma PackedShows(text: seq<byte>, at: nat, b2: byte, b1: byte, b0: byte)
    requires at + 4 <= |text| && text[at..at + 4] == Digits(Word(b2, b1, b0), 4)
    ensures GroupAt(text, at, b2, b1, b0)
  {
    Packed(b2, b1, b0);
    CharShows(b0 % 64);
    CharShows(b1 % 16 * 4 + b0 / 64);
    CharShows(b2 % 4 * 16 + b1 / 16);
    CharShows(b2 / 4);
    var part := text[at..at + 4];
    assert text[at] == part[0] && text[at + 1] == part[1] && text[at + 2] == part[2] && text[at + 3] == part[3];
  }

  lemma {:induction false} GroupStands(rows: seq<Row>, digest: seq<byte>, k: nat, n: nat)
    requires k < n <= |rows| && forall i :: 0 <= i < k ==> rows[i].n == 4
    ensures 4 * k + rows[k].n <= |Text(rows, digest, n)|
    ensures Text(rows, digest, n)[4 * k..4 * k + rows[k].n] == RowText(rows[k], digest)
    decreases n
  {
    var before, more := Text(rows, digest, n - 1), RowText(rows[n - 1], digest);
    if k == n - 1 {
      FourPerGroup(rows, digest, k);
      PartBehind(before, more);
    } else {
      GroupStands(rows, digest, k, n - 1);
      PartWithin(before, more, 4 * k, 4 * k + rows[k].n);
    }
  }

  lemma PartBehind(before: seq<byte>, more: seq<byte>)
    ensures (before + more)[|before|..|before| + |more|] == more
  {
  }

  lemma PartWithin(before: seq<byte>, more: seq<byte>, i: nat, j: nat)
    requires i <= j <= |before|
    ensures (before + more)[i..j] == before[i..j]
  {
  }

  lemma RowShown(rows: seq<Row>, digest: seq<byte>, k: nat, x: nat, y: nat, z: nat)
    requires k < |rows| && (forall i :: 0 <= i < k ==> rows[i].n == 4) && rows[k] == Row(At(x), At(y), At(z), 4)
    requires x < |digest| && y < |digest| && z < |digest|
    ensures GroupAt(Encoding(rows, digest), 4 * k, digest[x], digest[y], digest[z])
  {
    GroupStands(rows, digest, k, |rows|);
    PackedShows(Encoding(rows, digest), 4 * k, digest[x], digest[y], digest[z]);
  }

  /** SHA-256: the groups take the columns that start at 0, 10 and 20, turned by two at each row. */
  lemma Sha256Text(digest: seq<byte>, k: nat)
    requires |digest| == 32 && k < 10
    ensures GroupAt(Encoding(SHA256_ROWS, digest), 4 * k, digest[k + 10 * (2 * k % 3)],
                    digest[k + 10 * ((2 * k + 1) % 3)], digest[k + 10 * ((2 * k + 2) % 3)])
  {
    forall i: nat | i < 10 ensures SHA256_ROWS[i].n == 4 { Sha256Row(i); }
    Sha256Row(k);
    RowShown(SHA256_ROWS, digest, k, k + 10 * (2 * k % 3), k + 10 * ((2 * k + 1) % 3), k + 10 * ((2 * k + 2) % 3));
  }

  /** SHA-512: the columns start at 0, 21 and 42 and turn by one. */
  lemma Sha512Text(digest: seq<byte>, k: nat)
    requires |digest| == 64 && k < 21
    ensures GroupAt(Encoding(SHA512_ROWS, digest), 4 * k, digest[k + 21 * (k % 3)],
                    digest[k + 21 * ((k + 1) % 3)], digest[k + 21 * ((k + 2) % 3)])
  {
    forall i: nat | i < 21 ensures SHA512_ROWS[i].n == 4 { Sha512Row(i); }
    Sha512Row(k);
    RowShown(SHA512_ROWS, digest, k, k + 21 * (k % 3), k + 21 * ((k + 1) % 3), k + 21 * ((k + 2) % 3));
  }

  /** MD5: bytes six apart, with the fifth byte as the last of the fifth group. */
  lemma Md5Text(digest: seq<byte>, k: nat)
    requires |digest| == 16 && k < 5
    ensures GroupAt(Encoding(MD5_ROWS, digest), 4 * k, digest[k], digest[k + 6], digest[if k < 4 then k + 12 else 5])
  {
    forall i: nat | i < 5 ensures MD5_ROWS[i].n == 4 { Md5Row(i); }
    assert k in {0, 1, 2, 3, 4};
    RowShown(MD5_ROWS, digest, k, k, k + 6, if k < 4 then k + 12 else 5);
  }

  /** The bytes left over come last: two in three characters, or one in two. */
  lemma {:induction false} LastBytes(digest: seq<byte>)
    ensures |digest| == 32 ==> var text := Encoding(SHA256_ROWS, digest);
      && |text| == 43 && Shows(text[40], digest[30] % 64)
      && Shows(text[41], digest[31] % 16 * 4 + digest[30] / 64) && Shows(text[42], digest[31] / 16)
    ensures |digest| == 64 ==> var text := Encoding(SHA512_ROWS, digest);
      |text| == 86 && Shows(text[84], digest[63] % 64) && Shows(text[85], digest[63] / 64)
    ensures |digest| == 16 ==> var text := Encoding(MD5_ROWS, digest);
      |text| == 22 && Shows(text[20], digest[11] % 64) && Shows(text[21], digest[11] / 64)
  {
    EncodingLengths(digest);
    if |digest| == 32 {
      LastThree(digest);
    } else if |digest| == 64 {
      forall i: nat | i < 21 ensures SHA512_ROWS[i].n == 4 { Sha512Row(i); }
      assert SHA512_ROWS[21] == Row(Zero, Zero, At(63), 2);
      LastTwo(SHA512_ROWS, digest, 21, 63);
    } else if |digest| == 16 {
      forall i: nat | i < 5 ensures MD5_ROWS[i].n == 4 { Md5Row(i); }
      assert MD5_ROWS[5] == Row(Zero, Zero, At(11), 2);
      LastTwo(MD5_ROWS, digest, 5, 11);
    }
  }

  lemma {:induction false} LastTwo(rows: seq<Row>, digest: seq<byte>, k: nat, j: nat)
    requires |rows| == k + 1 && (forall i :: 0 <= i < k ==> rows[i].n == 4)
    requires rows[k] == Row(Zero, Zero, At(j), 2) && j < |digest| && |Encoding(rows, digest)| == 4 * k + 2
    ensures var text := Encoding(rows, digest);
      Shows(text[4 * k], digest[j] % 64) && Shows(text[4 * k + 1], digest[j] / 64)
  {
    GroupStands(rows, digest, k, |rows|);
    TwoDigits(digest[j]);
    CharShows(digest[j] % 64);
    CharShows(digest[j] / 64);
    var text := Encoding(rows, digest);
    var part := text[4 * k..4 * k + 2];
    assert text[4 * k] == part[0] && text[4 * k + 1] == part[1];
  }

  lemma {:induction false} ThreeDigits(b1: byte, b0: byte)
    ensures Digits(Word(0, b1, b0), 3) ==
      [Cov2Char(b0 % 64), Cov2Char(b1 % 16 * 4 + b0 / 64), Cov2Char(b1 / 16)]
  {
    var w := Word(0, b1, b0);
    Shifted(0, b1, b0);
    assert Digits(w, 3) == [Cov2Char(w % 64)] + Digits(w / 64, 2);
    assert Digits(w / 64, 2) == [Cov2Char(w / 64 % 64)] + Digits(w / 64 / 64, 1);
    assert Digits(w / 64 / 64, 1) == [Cov2Char(w / 64 / 64 % 64)] + Digits(w / 64 / 64 / 64, 0);
  }

  lemma LastThree(digest: seq<byte>)
    requires |digest| == 32 && |Encoding(SHA256_ROWS, digest)| == 43
    ensures var text := Encoding(SHA256_ROWS, digest);
      && Shows(text[40], digest[30] % 64)
      && Shows(text[41], digest[31] % 16 * 4 + digest[30] / 64) && Shows(text[42], digest[31] / 16)
  {
    forall i: nat | i < 10 ensures SHA256_ROWS[i].n == 4 { Sha256Row(i); }
    assert SHA256_ROWS[10] == Row(Zero, At(31), At(30), 3);
    GroupStands(SHA256_ROWS, digest, 10, |SHA256_ROWS|);
    ThreeDigits(digest[31], digest[30]);
    CharShows(digest[30] % 64);
    CharShows(digest[31] % 16 * 4 + digest[30] / 64);
    CharShows(digest[31] / 16);
    var text := Encoding(SHA256_ROWS, digest);
    var part := text[40..43];
    assert text[40] == part[0] && text[41] == part[1] && text[42] == part[2];
  }

  // Numbers.

  predicate Ascii(s: string) {
    forall i :: 0 <= i < |s| ==> s[i] as nat < 128
  }

  /** The bytes of a text. */
  function Bytes(s: string): (r: seq<byte>)
    requires Ascii(s)
    ensures |r| == |s| && forall i :: 0 <= i < |s| ==> r[i] as char == s[i]
  {
    seq(|s|, i requires 0 <= i < |s| => s[i] as nat)
  }

  /** A digit with `k` zeros behind it. */
  function Tens(v: nat, k: nat): nat {
    if k == 0 then v else 10 * Tens(v, k - 1)
  }

  /** A number by the places of its digits. */
  function Amount(d: seq<byte>): nat
    requires AllDigits(d)
  {
    if d == [] then 0 else Tens(d[0] - 0x30, |d| - 1) + Amount(d[1..])
  }

  lemma {:induction false} AmountAppend(d: seq<byte>, c: byte)
    requires AllDigits(d) && IsDigit(c)
    ensures AllDigits(d + [c]) && Amount(d + [c]) == 10 * Amount(d) + (c - 0x30)
  {
    if d == [] {
      assert [] + [c] == [c] && [c][1..] == [];
    } else {
      AmountAppend(d[1..], c);
      var all := d + [c];
      assert all[1..] == d[1..] + [c];
    }
  }

  /** The digits between two positions. */
  lemma {:induction false} DecimalAmount(s: seq<byte>, d: seq<byte>, i: nat, n: nat)
    requires i <= n <= |s| && AllDigits(d) && d == s[i..n]
    ensures Decimal(s, i, n) == Amount(d)
    decreases n
  {
    if i < n {
      var e := d[..|d| - 1];
      assert s[n - 1] == d[|d| - 1] && e == s[i..n - 1];
      DecimalAmount(s, e, i, n - 1);
      AmountAppend(e, s[n - 1]);
      assert d == e + [s[n - 1]];
    }
  }

  /** A printed number has the digits of the number and no leading zero. */
  lemma {:induction false} PrintedAmount(n: nat)
    ensures AllDigits(Printed(n)) && Printed(n) != [] && Amount(Printed(n)) == n
    ensures n > 0 ==> Printed(n)[0] as char != '0'
  {
    PrintedDigits(n);
    assert Printed(n)[0..|Printed(n)|] == Printed(n);
    DecimalAmount(Printed(n), Printed(n), 0, |Printed(n)|);
    if n >= 10 {
      PrintedAmount(n / 10);
    }
  }

  // The salt argument.

  predicate AllSpaces(s: seq<byte>) {
    forall i :: 0 <= i < |s| ==> IsSpace(s[i])
  }

  predicate IsSign(s: seq<byte>) {
    s == [] || (|s| == 1 && (s[0] == 0x2B || s[0] == 0x2D))
  }

  lemma {:induction false} SpacesRun(s: seq<byte>, n: nat, i: nat)
    requires i <= n <= |s| && (forall k :: i <= k < n ==> IsSpace(s[k])) && (n < |s| ==> !IsSpace(s[n]))
    ensures SpacesEnd(s, i) == n
    decreases n - i
  {
    if i < n {
      SpacesRun(s, n, i + 1);
    }
  }

  lemma {:induction false} DigitsRunTo(s: seq<byte>, n: nat, i: nat)
    requires i <= n <= |s| && (forall k :: i <= k < n ==> IsDigit(s[k])) && (n < |s| ==> !IsDigit(s[n]))
    ensures DigitsEnd(s, i) == n
    decreases n - i
  {
    if i < n {
      DigitsRunTo(s, n, i + 1);
    }
  }

  /** The number of a signed text in 64 bits: too large numbers count as the largest, and minus is taken modulo 2^64. */
  function Signed(sign: seq<byte>, amount: nat): nat {
    if amount >= 0x1_0000_0000_0000_0000 then 0xFFFF_FFFF_FFFF_FFFF
    else if sign != [] && sign[0] as char == '-' && amount > 0 then 0x1_0000_0000_0000_0000 - amount
    else amount
  }

  /** `d` stands in `s` from `start` on, and no other digit follows it. */
  predicate NumberAt(s: seq<byte>, start: nat, d: seq<byte>) {
    && start + |d| <= |s| && s[start..start + |d|] == d
    && (start + |d| < |s| ==> !IsDigit(s[start + |d|]))
  }

  lemma {:induction false} NumberEnds(s: seq<byte>, start: nat, d: seq<byte>)
    requires NumberAt(s, start, d) && AllDigits(d)
    ensures DigitsEnd(s, start) == start + |d| && Decimal(s, start, start + |d|) == Amount(d)
  {
    assert forall k :: start <= k < start + |d| ==> s[k] == d[k - start];
    DigitsRunTo(s, start + |d|, start);
    DecimalAmount(s, d, start, start + |d|);
  }

  /** Spaces, a sign or none, digits, and no further digit. */
  predicate NumberText(s: seq<byte>, spaces: seq<byte>, sign: seq<byte>, d: seq<byte>, rest: seq<byte>) {
    && s == spaces + (sign + d + rest) && AllSpaces(spaces) && IsSign(sign)
    && AllDigits(d) && d != [] && (rest == [] || !IsDigit(rest[0]))
  }

  lemma PartsFound(s: seq<byte>, spaces: seq<byte>, sign: seq<byte>, d: seq<byte>, rest: seq<byte>, i: nat, end: nat)
    requires NumberText(s, spaces, sign, d, rest) && i == |spaces| && end == i + |sign| + |d|
    ensures spaces <= s && i < |s| && (if sign == [] then IsDigit(s[i]) else s[i] == sign[0])
    ensures NumberAt(s, i + |sign|, d) && end <= |s| && s[end..] == rest
  {
    assert IsDigit(d[0]);
  }

  lemma Negated(value: nat, range: nat)
    requires value < range
    ensures (range - value) % range == if value > 0 then range - value else 0
  {
  }

  /** Spaces, the sign and the digits of the number end at these places. */
  predicate NumberEndsAt(s: seq<byte>, i: nat, sign: seq<byte>, end: nat, value: nat) {
    && i < |s| && SpacesEnd(s, 0) == i && IsSign(sign) && i + |sign| < end <= |s|
    && (if sign == [] then IsDigit(s[i]) else s[i] == sign[0])
    && DigitsEnd(s, i + |sign|) == end && Decimal(s, i + |sign|, end) == value
  }

  lemma StrtoulAt(s: seq<byte>, i: nat, sign: seq<byte>, end: nat, value: nat)
    requires NumberEndsAt(s, i, sign, end, value)
    ensures Strtoul(s) == (Signed(sign, value), end)
  {
    if value < ULONG_RANGE {
      Negated(value, ULONG_RANGE);
    }
  }

  lemma {:induction false} SpacesBefore(s: seq<byte>, spaces: seq<byte>)
    requires AllSpaces(spaces) && spaces <= s && (|spaces| < |s| ==> !IsSpace(s[|spaces|]))
    ensures SpacesEnd(s, 0) == |spaces|
  {
    assert forall k :: 0 <= k < |spaces| ==> s[k] == spaces[k];
    SpacesRun(s, |spaces|, 0);
  }

  lemma {:induction false} SpacesRead(s: seq<byte>, spaces: seq<byte>, sign: seq<byte>, d: seq<byte>, rest: seq<byte>,
                                      i: nat)
    requires NumberText(s, spaces, sign, d, rest) && i == |spaces|
    ensures SpacesEnd(s, 0) == i
  {
    PartsFound(s, spaces, sign, d, rest, i, i + |sign| + |d|);
    assert AllSpaces(spaces) && !IsSpace(s[i]);
    SpacesBefore(s, spaces);
  }

  lemma {:induction false} PartsRead(s: seq<byte>, spaces: seq<byte>, sign: seq<byte>, d: seq<byte>, rest: seq<byte>,
                                     i: nat, end: nat)
    requires NumberText(s, spaces, sign, d, rest) && i == |spaces| && end == i + |sign| + |d|
    ensures NumberEndsAt(s, i, sign, end, Amount(d))
  {
    PartsFound(s, spaces, sign, d, rest, i, end);
    SpacesRead(s, spaces, sign, d, rest, i);
    NumberEnds(s, i + |sign|, d);
  }

  /** `strtoul` reads spaces, a sign and digits, and stops behind them. */
  lemma {:induction false} StrtoulReads(s: seq<byte>, spaces: seq<byte>, sign: seq<byte>, d: seq<byte>, rest: seq<byte>,
                                        end: nat)
    requires NumberText(s, spaces, sign, d, rest) && end == |spaces| + |sign| + |d|
    ensures Strtoul(s) == (Signed(sign, Amount(d)), end)
  {
    PartsRead(s, spaces, sign, d, rest, |spaces|, end);
    StrtoulAt(s, |spaces|, sign, end, Amount(d));
  }

  /** At least 1000 and at most 999999999 rounds. */
  function RoundsFor(v: nat): nat {
    if v < 1000 then 1000 else if v > 999999999 then 999999999 else v
  }

  /** The first sixteen bytes of a salt. */
  function First16(s: seq<byte>): seq<byte> {
    if |s| > 16 then s[..16] else s
  }

  lemma RoundsNamed(salt: seq<byte>)
    ensures HasRounds(salt) <==> Bytes("rounds=") <= salt
  {
    assert Bytes("rounds=") == ROUNDS_PREFIX;
  }

  lemma RoundsRead(salt: seq<byte>, num: seq<byte>, value: nat, end: nat)
    requires salt == Bytes("rounds=") + num && Strtoul(num) == (value, end)
    ensures end <= |num|
    ensures var rest := num[end..];
      ReadSetting(salt) ==
      if rest != [] && rest[0] as char == '$' then Some(Setting(RoundsFor(value), true, First16(rest[1..])))
      else None
  {
    RoundsNamed(salt);
    assert salt[7..] == num;
    if end < |num| {
      assert num[end..][1..] == num[end + 1..];
    }
  }

  /** Rounds ended by a dollar sign are taken, and the salt starts behind it; rounds ended otherwise are refused. */
  lemma {:induction false} RoundsGiven(num: seq<byte>, spaces: seq<byte>, sign: seq<byte>, d: seq<byte>,
                                       rest: seq<byte>)
    requires NumberText(num, spaces, sign, d, rest)
    ensures ReadSetting(Bytes("rounds=") + num) ==
      if rest != [] && rest[0] as char == '$'
      then Some(Setting(RoundsFor(Signed(sign, Amount(d))), true, First16(rest[1..])))
      else None
  {
    var end := |spaces| + |sign| + |d|;
    StrtoulReads(num, spaces, sign, d, rest, end);
    PartsFound(num, spaces, sign, d, rest, |spaces|, end);
    RoundsRead(Bytes("rounds=") + num, num, Signed(sign, Amount(d)), end);
  }

  /** Without the word there are 5000 rounds, and the whole argument is the salt. */
  lemma RoundsAbsent(salt: seq<byte>)
    requires !(Bytes("rounds=") <= salt)
    ensures ReadSetting(salt) == Some(Setting(5000, false, First16(salt)))
  {
    RoundsNamed(salt);
  }

  /** No digits at all: the number is 0, and a dollar sign must follow the word at once. */
  lemma RoundsEmpty(rest: seq<byte>)
    requires rest == [] || (!IsSpace(rest[0]) && !IsDigit(rest[0]) && !IsSign(rest[..1]))
    ensures ReadSetting(Bytes("rounds=") + rest) ==
      if rest != [] && rest[0] as char == '$' then Some(Setting(1000, true, First16(rest[1..]))) else None
  {
    var salt := Bytes("rounds=") + rest;
    RoundsNamed(salt);
    assert salt[7..] == rest;
  }

  // The whole text.

  /** `$`, the magic, `$`, for given rounds `rounds=` and their number and `$`, the salt, `$`. */
  ghost predicate StartsHash(start: seq<byte>, magic: seq<byte>, s: Setting) {
    if !s.custom then start == Bytes("$") + magic + Bytes("$") + s.salt + Bytes("$")
    else exists d ::
      && start == Bytes("$") + magic + Bytes("$rounds=") + d + Bytes("$") + s.salt + Bytes("$")
      && AllDigits(d) && Amount(d) == s.rounds && (s.rounds > 0 ==> d != [] && d[0] as char != '0')
  }

  lemma ShaPrefixStarts(magic: seq<byte>, s: Setting)
    ensures StartsHash(ShaPrefix(magic, s), magic, s)
  {
    var dollar, d := Bytes("$"), Printed(s.rounds);
    assert dollar == [DOLLAR];
    PrintedAmount(s.rounds);
    if s.custom {
      assert Bytes("$rounds=") == [DOLLAR] + ROUNDS_PREFIX;
      assert ShaPrefix(magic, s) == dollar + magic + Bytes("$rounds=") + d + dollar + s.salt + dollar;
    } else {
      NoChange(s.salt);
    }
  }

  /** The text of the hash: the setting, and behind it the digest of the magic's function. */
  lemma ShaTextWritten(H256: Digest, H512: Digest, passwd: seq<byte>, magic: seq<byte>, s: Setting)
    returns (start: seq<byte>)
    requires HasSize(H256, 32) && HasSize(H512, 64) && (magic == Bytes("5") || magic == Bytes("6"))
    ensures StartsHash(start, magic, s)
    ensures ShaText(H256, H512, passwd, magic, s) == start +
      if magic == Bytes("5") then Encoding(SHA256_ROWS, ShaDigest(H256, 32, passwd, s.salt, s.rounds))
      else Encoding(SHA512_ROWS, ShaDigest(H512, 64, passwd, s.salt, s.rounds))
  {
    assert Bytes("5") == [0x35];
    start := ShaPrefix(magic, s);
    ShaPrefixStarts(magic, s);
  }

  /** The same for `md5crypt`: without a magic the text starts with the salt. */
  lemma Md5TextWritten(magic: seq<byte>, salt: seq<byte>)
    ensures Md5Prefix(magic, salt) ==
      (if magic == [] then salt else Bytes("$") + magic + Bytes("$") + salt) + Bytes("$")
  {
    assert Bytes("$") == [DOLLAR];
    NoChange(salt);
  }

  /** What `shacrypt` accepts, in characters. */
  lemma AcceptedExactly(passwd: seq<byte>, magic: seq<byte>, salt: seq<byte>)
    ensures Accepted(passwd, magic, salt) <==>
      && (magic == Bytes("5") || magic == Bytes("6")) && passwd != []
      && ReadSetting(salt).Some? && ReadSetting(salt).value.salt != []
  {
    assert Bytes("5") == [0x35] && Bytes("6") == [0x36];
  }
}
