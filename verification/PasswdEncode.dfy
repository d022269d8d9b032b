/**
 The text form of a password digest (`passwd.c`): bytes are taken three at a time in a fixed order
 and written six bits to a character. One table per digest gives the order.
 */
module PasswdEncode {
  import opened Common

  /** `cov_2char`: `./`, the digits, the capitals, the small letters. */
  function Cov2Char(v: nat): (c: byte)
    requires v < 64
  {
    if v < 12 then 0x2E + v else if v < 38 then 0x41 + (v - 12) else 0x61 + (v - 38)
  }

  /** What a character stands for. */
  function Value(c: byte): nat {
    if c < 0x3A then (if c < 0x2E then 0 else c - 0x2E)
    else if c < 0x5B then (if c < 0x41 then 0 else c - 0x41 + 12)
    else if c < 0x61 then 0 else c - 0x61 + 38
  }

  lemma ValueOfChar(v: nat)
    requires v < 64
    ensures Value(Cov2Char(v)) == v
  {
  }

  // One group.

  function Power64(n: nat): (r: nat)
    ensures r >= 1
  {
    if n == 0 then 1 else 64 * Power64(n - 1)
  }

  /** The `n` low six-bit digits of `w`, lowest first. */
  function Digits(w: nat, n: nat): (r: seq<byte>)
    ensures |r| == n
  {
    if n == 0 then [] else [Cov2Char(w % 64)] + Digits(w / 64, n - 1)
  }

  /** Reads such digits. */
  function Number(chars: seq<byte>): nat {
    if chars == [] then 0 else Value(chars[0]) + 64 * Number(chars[1..])
  }

  lemma {:induction false} NumberOfDigits(w: nat, n: nat)
    requires w < Power64(n)
    ensures Number(Digits(w, n)) == w
  {
    if n > 0 {
      NumberOfDigits(w / 64, n - 1);
      ValueOfChar(w % 64);
      var chars := Digits(w, n);
      assert chars[1..] == Digits(w / 64, n - 1);
    }
  }

  // A table of groups.

  /** Where one byte of a group comes from. */
  datatype Source = Zero | At(j: nat)

  /** One use of `b64_from_24bit`. */
  datatype Row = Row(b2: Source, b1: Source, b0: Source, n: nat)

  function Byte(digest: seq<byte>, s: Source): byte {
    match s
    case Zero => 0
    case At(j) => if j < |digest| then digest[j] else 0
  }

  function Word(b2: byte, b1: byte, b0: byte): nat {
    (b2 * 0x100 + b1) * 0x100 + b0
  }

  function RowText(r: Row, digest: seq<byte>): (t: seq<byte>)
    ensures |t| == r.n
  {
    Digits(Word(Byte(digest, r.b2), Byte(digest, r.b1), Byte(digest, r.b0)), r.n)
  }

  /** The text of the first `k` groups. */
  function Text(rows: seq<Row>, digest: seq<byte>, k: nat): seq<byte>
    requires k <= |rows|
  {
    if k == 0 then [] else Text(rows, digest, k - 1) + RowText(rows[k - 1], digest)
  }

  /** A group has enough characters for its bytes. */
  predicate Wide(r: Row) {
    r.n == 4 || (r.n == 3 && r.b2 == Zero) || (r.n == 2 && r.b2 == r.b1 == Zero)
  }

  ghost predicate AllWide(rows: seq<Row>) {
    forall k :: 0 <= k < |rows| ==> Wide(rows[k])
  }

  /** What a reader learns from a number: the bytes of the digest at the sources of its group. */
  function Learn(known: map<nat, byte>, s: Source, b: byte): map<nat, byte> {
    match s
    case Zero => known
    case At(j) => known[j := b]
  }

  function Low(w: nat): byte {
    w % 0x100
  }

  function ReadRow(known: map<nat, byte>, r: Row, w: nat): map<nat, byte> {
    Learn(Learn(Learn(known, r.b2, Low(w / 0x100 / 0x100)), r.b1, Low(w / 0x100)), r.b0, Low(w))
  }

  /** Reads the text of the first `k` groups. */
  function Read(rows: seq<Row>, text: seq<byte>, k: nat): map<nat, byte>
    requires k <= |rows|
    decreases k
  {
    if k == 0 then map[]
    else
      var n := rows[k - 1].n;
      if |text| < n then map[]
      else ReadRow(Read(rows, text[..|text| - n], k - 1), rows[k - 1], Number(text[|text| - n..]))
  }

  predicate UsesByte(r: Row, j: nat) {
    r.b2 == At(j) || r.b1 == At(j) || r.b0 == At(j)
  }

  /** Every source of the table is a byte of a digest of the given size. */
  ghost predicate Within(rows: seq<Row>, size: nat) {
    forall k, j: nat :: 0 <= k < |rows| && UsesByte(rows[k], j) ==> j < size
  }

  ghost predicate Used(rows: seq<Row>, k: nat, j: nat)
    requires k <= |rows|
  {
    exists i :: 0 <= i < k && UsesByte(rows[i], j)
  }

  lemma UsedNext(rows: seq<Row>, k: nat)
    requires k < |rows|
    ensures forall j: nat :: Used(rows, k + 1, j) <==> Used(rows, k, j) || UsesByte(rows[k], j)
  {
    forall j: nat
      ensures Used(rows, k + 1, j) <==> Used(rows, k, j) || UsesByte(rows[k], j)
    {
      if Used(rows, k, j) {
        var i :| 0 <= i < k && UsesByte(rows[i], j);
        assert UsesByte(rows[i], j);
      }
    }
  }

  lemma ReadLast(rows: seq<Row>, text: seq<byte>, group: seq<byte>, k: nat)
    requires k < |rows| && |group| == rows[k].n
    ensures Read(rows, text + group, k + 1) == ReadRow(Read(rows, text, k), rows[k], Number(group))
  {
    var all := text + group;
    assert all[..|all| - |group|] == text && all[|all| - |group|..] == group;
  }

  /** The bytes of the digest that the first `k` groups use, and no others. */
  ghost predicate Learned(known: map<nat, byte>, rows: seq<Row>, k: nat, digest: seq<byte>)
    requires k <= |rows|
  {
    && (forall j :: j in known <==> Used(rows, k, j))
    && (forall j :: j in known ==> j < |digest| && known[j] == digest[j])
  }

  /** Reading the text gives back every byte that the groups use. */
  lemma {:induction false} ReadText(rows: seq<Row>, digest: seq<byte>, k: nat)
    requires k <= |rows| && Within(rows, |digest|) && AllWide(rows)
    ensures Learned(Read(rows, Text(rows, digest, k), k), rows, k, digest)
  {
    if k == 0 {
      assert Read(rows, Text(rows, digest, 0), 0) == map[];
    } else {
      ReadText(rows, digest, k - 1);
      ReadNext(rows, digest, Text(rows, digest, k - 1), k - 1);
    }
  }

  lemma ReadNext(rows: seq<Row>, digest: seq<byte>, text: seq<byte>, k: nat)
    requires k < |rows| && Within(rows, |digest|) && AllWide(rows)
    requires Learned(Read(rows, text, k), rows, k, digest)
    ensures Learned(Read(rows, text + RowText(rows[k], digest), k + 1), rows, k + 1, digest)
  {
    ReadLast(rows, text, RowText(rows[k], digest), k);
    LearnRow(Read(rows, text, k), rows, k, digest);
  }

  lemma LearnRow(known: map<nat, byte>, rows: seq<Row>, k: nat, digest: seq<byte>)
    requires k < |rows| && Within(rows, |digest|) && AllWide(rows) && Learned(known, rows, k, digest)
    ensures Learned(ReadRow(known, rows[k], Number(RowText(rows[k], digest))), rows, k + 1, digest)
  {
    UsedNext(rows, k);
    ReadRowText(known, rows[k], digest);
  }

  lemma ReadRowText(known: map<nat, byte>, r: Row, digest: seq<byte>)
    requires Wide(r) && (forall j: nat :: UsesByte(r, j) ==> j < |digest|)
    requires forall j :: j in known ==> j < |digest| && known[j] == digest[j]
    ensures var now := ReadRow(known, r, Number(RowText(r, digest)));
      && (forall j :: j in now <==> j in known || UsesByte(r, j))
      && (forall j :: j in now ==> j < |digest| && now[j] == digest[j])
  {
    var b2, b1, b0 := Byte(digest, r.b2), Byte(digest, r.b1), Byte(digest, r.b0);
    var w := Word(b2, b1, b0);
    WordFits(b2, b1, b0);
    NumberOfDigits(w, r.n);
    WordBytes(b2, b1, b0);
    assert (r.b2.At? ==> UsesByte(r, r.b2.j)) && (r.b1.At? ==> UsesByte(r, r.b1.j));
    assert r.b0.At? ==> UsesByte(r, r.b0.j);
    LearnByte(known, r.b2, b2, digest);
    var one := Learn(known, r.b2, b2);
    LearnByte(one, r.b1, b1, digest);
    LearnByte(Learn(one, r.b1, b1), r.b0, b0, digest);
  }

  lemma WordBytes(b2: byte, b1: byte, b0: byte)
    ensures var w := Word(b2, b1, b0);
      Low(w / 0x100 / 0x100) == b2 && Low(w / 0x100) == b1 && Low(w) == b0
  {
    Quotient(Word(b2, b1, b0), 0x100, b2 * 0x100 + b1, b0);
    Quotient(b2 * 0x100 + b1, 0x100, b2, b1);
  }

  lemma WordFits(b2: byte, b1: byte, b0: byte)
    ensures Word(b2, b1, b0) < Power64(4)
    ensures Word(0, b1, b0) < Power64(3)
    ensures Word(0, 0, b0) < Power64(2)
  {
    assert Power64(2) == 64 * Power64(1) == 4096;
    assert Power64(3) == 64 * Power64(2) && Power64(4) == 64 * Power64(3);
  }

  lemma LearnByte(known: map<nat, byte>, s: Source, b: byte, digest: seq<byte>)
    requires b == Byte(digest, s) && (s.At? ==> s.j < |digest|)
    requires forall j :: j in known ==> j < |digest| && known[j] == digest[j]
    ensures forall j :: j in Learn(known, s, b) <==> j in known || s == At(j)
    ensures forall j :: j in Learn(known, s, b) ==> j < |digest| && Learn(known, s, b)[j] == digest[j]
  {
  }

  // What the tables have to be.

  /** The slot of a byte in a group: 2, 1 or 0. */
  function Slot(r: Row, slot: nat): Source {
    if slot == 2 then r.b2 else if slot == 1 then r.b1 else r.b0
  }

  predicate Holds(rows: seq<Row>, k: nat, slot: nat, j: nat) {
    k < |rows| && slot < 3 && Slot(rows[k], slot) == At(j)
  }

  ghost predicate Placed(rows: seq<Row>, j: nat) {
    exists k, slot :: Holds(rows, k, slot, j)
  }

  /** Every byte of the digest has exactly one slot in the table. */
  ghost predicate Arranges(rows: seq<Row>, size: nat) {
    && AllWide(rows)
    && Within(rows, size)
    && (forall j: nat :: j < size ==> Placed(rows, j))
    && forall k, slot, k', slot', j ::
         Holds(rows, k, slot, j) && Holds(rows, k', slot', j) ==> k == k' && slot == slot'
  }

  /** The whole text. */
  function Encoding(rows: seq<Row>, digest: seq<byte>): seq<byte> {
    Text(rows, digest, |rows|)
  }

  /** All bytes of the digest, and no more. */
  ghost predicate Known(known: map<nat, byte>, digest: seq<byte>) {
    forall j: nat :: (j in known <==> j < |digest|) && (j in known ==> known[j] == digest[j])
  }

  /** Reading the encoding gives back the digest, all of it. */
  lemma {:induction false} EncodingReads(rows: seq<Row>, digest: seq<byte>)
    requires Arranges(rows, |digest|)
    ensures Known(Read(rows, Encoding(rows, digest), |rows|), digest)
  {
    ReadText(rows, digest, |rows|);
    var known := Read(rows, Encoding(rows, digest), |rows|);
    forall j: nat | j < |digest|
      ensures j in known
    {
      assert Placed(rows, j);
      var k: nat, slot: nat :| Holds(rows, k, slot, j);
      assert UsesByte(rows[k], j) && Used(rows, |rows|, j);
    }
  }

  /** Different digests of one size have different texts. */
  lemma EncodingInjective(rows: seq<Row>, digest: seq<byte>, other: seq<byte>)
    requires Arranges(rows, |digest|) && |other| == |digest|
    requires Encoding(rows, digest) == Encoding(rows, other)
    ensures digest == other
  {
    EncodingReads(rows, digest);
    EncodingReads(rows, other);
    var known := Read(rows, Encoding(rows, digest), |rows|);
    forall j: nat | j < |digest|
      ensures digest[j] == other[j]
    {
      assert j in known;
    }
  }

  // The tables.

  /** The groups of SHA-256. */
  const SHA256_ROWS: seq<Row> := [
    Row(At(0), At(10), At(20), 4), Row(At(21), At(1), At(11), 4), Row(At(12), At(22), At(2), 4),
    Row(At(3), At(13), At(23), 4), Row(At(24), At(4), At(14), 4), Row(At(15), At(25), At(5), 4),
    Row(At(6), At(16), At(26), 4), Row(At(27), At(7), At(17), 4), Row(At(18), At(28), At(8), 4),
    Row(At(9), At(19), At(29), 4), Row(Zero, At(31), At(30), 3)
  ]

  /** The groups of SHA-512. */
  const SHA512_ROWS: seq<Row> := [
    Row(At(0), At(21), At(42), 4), Row(At(22), At(43), At(1), 4), Row(At(44), At(2), At(23), 4),
    Row(At(3), At(24), At(45), 4), Row(At(25), At(46), At(4), 4), Row(At(47), At(5), At(26), 4),
    Row(At(6), At(27), At(48), 4), Row(At(28), At(49), At(7), 4), Row(At(50), At(8), At(29), 4),
    Row(At(9), At(30), At(51), 4), Row(At(31), At(52), At(10), 4), Row(At(53), At(11), At(32), 4),
    Row(At(12), At(33), At(54), 4), Row(At(34), At(55), At(13), 4), Row(At(56), At(14), At(35), 4),
    Row(At(15), At(36), At(57), 4), Row(At(37), At(58), At(16), 4), Row(At(59), At(17), At(38), 4),
    Row(At(18), At(39), At(60), 4), Row(At(40), At(61), At(19), 4), Row(At(62), At(20), At(41), 4),
    Row(Zero, Zero, At(63), 2)
  ]

  lemma Sha256Row(k: nat)
    requires k < 10
    ensures SHA256_ROWS[k] ==
      Row(At(k + 10 * (2 * k % 3)), At(k + 10 * ((2 * k + 1) % 3)), At(k + 10 * ((2 * k + 2) % 3)), 4)
  {
    assert k in {0, 1, 2, 3, 4, 5, 6, 7, 8, 9};
  }

  lemma Sha512Row(k: nat)
    requires k < 21
    ensures SHA512_ROWS[k] == Row(At(k + 21 * (k % 3)), At(k + 21 * ((k + 1) % 3)), At(k + 21 * ((k + 2) % 3)), 4)
  {
    if k < 7 {
      assert k in {0, 1, 2, 3, 4, 5, 6};
    } else if k < 14 {
      assert k in {7, 8, 9, 10, 11, 12, 13};
    } else {
      assert k in {14, 15, 16, 17, 18, 19, 20};
    }
  }

  lemma HeldWithin(rows: seq<Row>, size: nat)
    requires forall k: nat, slot: nat, j: nat :: Holds(rows, k, slot, j) ==> j < size
    ensures Within(rows, size)
  {
    forall k, j: nat | 0 <= k < |rows| && UsesByte(rows[k], j)
      ensures j < size
    {
      assert Holds(rows, k, 2, j) || Holds(rows, k, 1, j) || Holds(rows, k, 0, j);
    }
  }

  lemma Turned(a: nat, slot: nat, x: nat)
    requires slot < 3 && x < 3
    ensures x == (a + 2 - slot) % 3 <==> slot == (a + 2 - x) % 3
  {
  }

  /** Where each byte stands. */
  function Sha256Place(j: nat): (nat, nat)
    requires j < 32
  {
    if j < 30 then (j % 10, (2 * (j % 10) + 2 - j / 10) % 3) else (10, j - 30)
  }

  lemma Sha256Digits(k: nat, x: nat, j: nat)
    requires k < 10 && x < 3
    ensures j == k + 10 * x <==> j < 30 && j % 10 == k && j / 10 == x
  {
  }

  lemma Sha256RowHolds(k: nat, slot: nat, j: nat)
    requires k < 10 && slot < 3
    ensures Holds(SHA256_ROWS, k, slot, j) <==> j == k + 10 * ((2 * k + 2 - slot) % 3)
  {
    Sha256Row(k);
  }

  lemma Sha256Holds(k: nat, slot: nat, j: nat)
    ensures Holds(SHA256_ROWS, k, slot, j) <==> j < 32 && Sha256Place(j) == (k, slot)
  {
    if k < 10 && slot < 3 {
      Sha256RowHolds(k, slot, j);
      Sha256Digits(k, (2 * k + 2 - slot) % 3, j);
      if j < 30 {
        Turned(2 * k, slot, j / 10);
      }
    } else if k == 10 {
      assert SHA256_ROWS[10] == Row(Zero, At(31), At(30), 3);
    }
  }

  /** Step 22 of SHA-crypt uses every byte of the digest exactly once. */
  lemma Sha256Arranges()
    ensures Arranges(SHA256_ROWS, 32)
  {
    assert SHA256_ROWS[10] == Row(Zero, At(31), At(30), 3);
    forall k | 0 <= k < |SHA256_ROWS|
      ensures Wide(SHA256_ROWS[k])
    {
      if k < 10 {
        Sha256Row(k);
      }
    }
    forall k: nat, slot: nat, j: nat
      ensures Holds(SHA256_ROWS, k, slot, j) <==> j < 32 && Sha256Place(j) == (k, slot)
    {
      Sha256Holds(k, slot, j);
    }
    forall j: nat | j < 32
      ensures Placed(SHA256_ROWS, j)
    {
      assert Holds(SHA256_ROWS, Sha256Place(j).0, Sha256Place(j).1, j);
    }
    HeldWithin(SHA256_ROWS, 32);
  }

  /** Where each byte stands. */
  function Sha512Place(j: nat): (nat, nat)
    requires j < 64
  {
    if j < 63 then (j % 21, (j % 21 + 2 - j / 21) % 3) else (21, 0)
  }

  lemma Sha512Digits(k: nat, x: nat, j: nat)
    requires k < 21 && x < 3
    ensures j == k + 21 * x <==> j < 63 && j % 21 == k && j / 21 == x
  {
  }

  lemma Sha512RowHolds(k: nat, slot: nat, j: nat)
    requires k < 21 && slot < 3
    ensures Holds(SHA512_ROWS, k, slot, j) <==> j == k + 21 * ((k + 2 - slot) % 3)
  {
    Sha512Row(k);
  }

  lemma Sha512Holds(k: nat, slot: nat, j: nat)
    ensures Holds(SHA512_ROWS, k, slot, j) <==> j < 64 && Sha512Place(j) == (k, slot)
  {
    if k < 21 && slot < 3 {
      Sha512RowHolds(k, slot, j);
      Sha512Digits(k, (k + 2 - slot) % 3, j);
      if j < 63 {
        Turned(k, slot, j / 21);
      }
    } else if k == 21 {
      assert SHA512_ROWS[21] == Row(Zero, Zero, At(63), 2);
    }
  }

  /** Step 22 of SHA-crypt uses every byte of the digest exactly once. */
  lemma Sha512Arranges()
    ensures Arranges(SHA512_ROWS, 64)
  {
    assert SHA512_ROWS[21] == Row(Zero, Zero, At(63), 2);
    forall k | 0 <= k < |SHA512_ROWS|
      ensures Wide(SHA512_ROWS[k])
    {
      if k < 21 {
        Sha512Row(k);
      }
    }
    forall k: nat, slot: nat, j: nat
      ensures Holds(SHA512_ROWS, k, slot, j) <==> j < 64 && Sha512Place(j) == (k, slot)
    {
      Sha512Holds(k, slot, j);
    }
    forall j: nat | j < 64
      ensures Placed(SHA512_ROWS, j)
    {
      assert Holds(SHA512_ROWS, Sha512Place(j).0, Sha512Place(j).1, j);
    }
    HeldWithin(SHA512_ROWS, 64);
  }

  // The order of `md5crypt`.

  /** The byte that its permutation puts at position `d`. */
  function Md5Source(d: nat): nat {
    if d < 14 then 6 * d % 17 else if d == 14 then 5 else 11
  }

  const MD5_ROWS: seq<Row> := [
    Row(At(0), At(6), At(12), 4), Row(At(1), At(7), At(13), 4), Row(At(2), At(8), At(14), 4),
    Row(At(3), At(9), At(15), 4), Row(At(4), At(10), At(5), 4),
    Row(Zero, Zero, At(11), 2)
  ]

  lemma Md5Row(k: nat)
    requires k < 5
    ensures MD5_ROWS[k] == Row(At(Md5Source(3 * k)), At(Md5Source(3 * k + 1)), At(Md5Source(3 * k + 2)), 4)
  {
    assert k in {0, 1, 2, 3, 4};
  }

  /** The position of a byte: 3 is the inverse of 6 modulo 17. */
  function Md5Position(j: nat): nat {
    if j == 5 then 14 else if j == 11 then 15 else 3 * j % 17
  }

  function Md5Place(j: nat): (nat, nat)
    requires j < 16
  {
    var d := Md5Position(j);
    if d == 15 then (5, 0) else (d / 3, 2 - d % 3)
  }

  /** The permutation is one: every byte has one position. */
  lemma Md5Permutes(d: nat, j: nat)
    requires d < 16
    ensures Md5Source(d) == j <==> j < 16 && Md5Position(j) == d
  {
    Md5SourceBack(d);
    if j < 16 {
      Md5PositionBack(j);
    }
  }

  lemma Md5SourceBack(d: nat)
    requires d < 16
    ensures Md5Source(d) < 16 && Md5Position(Md5Source(d)) == d
  {
    if d < 14 {
      InverseModulo17(6, 3, d);
    }
  }

  lemma Md5PositionBack(j: nat)
    requires j < 16
    ensures Md5Position(j) < 16 && Md5Source(Md5Position(j)) == j
  {
    if j != 5 && j != 11 {
      InverseModulo17(3, 6, j);
    }
  }

  /** Multiplying by 6 and by 3 modulo 17 undo each other. */
  lemma InverseModulo17(a: nat, b: nat, x: nat)
    requires (a, b) == (6, 3) || (a, b) == (3, 6)
    requires x < 17
    ensures b * (a * x % 17) % 17 == x
  {
    var q, y := a * x / 17, a * x % 17;
    assert b * y == 17 * (x - b * q) + x;
    Quotient(b * y, 17, x - b * q, x);
  }

  lemma Thirds(d: nat, k: nat, slot: nat)
    requires slot < 3
    ensures d / 3 == k && 2 - d % 3 == slot <==> d == 3 * k + 2 - slot
  {
    if d == 3 * k + 2 - slot {
      Quotient(d, 3, k, 2 - slot);
    }
  }

  lemma Md5Holds(k: nat, slot: nat, j: nat)
    ensures Holds(MD5_ROWS, k, slot, j) <==> j < 16 && Md5Place(j) == (k, slot)
  {
    if k < 5 && slot < 3 {
      Md5Row(k);
      Md5Permutes(3 * k + 2 - slot, j);
      Thirds(Md5Position(j), k, slot);
    } else if k == 5 {
      assert MD5_ROWS[5] == Row(Zero, Zero, At(11), 2);
      Md5Permutes(15, j);
    }
  }

  /** `md5crypt` writes every byte of the digest exactly once. */
  lemma Md5Arranges()
    ensures Arranges(MD5_ROWS, 16)
  {
    assert MD5_ROWS[5] == Row(Zero, Zero, At(11), 2);
    forall k | 0 <= k < |MD5_ROWS|
      ensures Wide(MD5_ROWS[k])
    {
      if k < 5 {
        Md5Row(k);
      }
    }
    forall k: nat, slot: nat, j: nat
      ensures Holds(MD5_ROWS, k, slot, j) <==> j < 16 && Md5Place(j) == (k, slot)
    {
      Md5Holds(k, slot, j);
    }
    forall j: nat | j < 16
      ensures Placed(MD5_ROWS, j)
    {
      assert Holds(MD5_ROWS, Md5Place(j).0, Md5Place(j).1, j);
    }
    HeldWithin(MD5_ROWS, 16);
  }

  // Lengths.

  lemma {:induction false} FourPerGroup(rows: seq<Row>, digest: seq<byte>, k: nat)
    requires k <= |rows| && forall i :: 0 <= i < k ==> rows[i].n == 4
    ensures |Text(rows, digest, k)| == 4 * k
  {
    if k > 0 {
      FourPerGroup(rows, digest, k - 1);
    }
  }

  /** 22, 43 and 86 characters. */
  lemma EncodingLengths(digest: seq<byte>)
    ensures |Encoding(MD5_ROWS, digest)| == 22
    ensures |Encoding(SHA256_ROWS, digest)| == 43
    ensures |Encoding(SHA512_ROWS, digest)| == 86
  {
    forall k: nat | k < 5 ensures MD5_ROWS[k].n == 4 { Md5Row(k); }
    FourPerGroup(MD5_ROWS, digest, 5);
    assert MD5_ROWS[5] == Row(Zero, Zero, At(11), 2);
    forall k: nat | k < 10 ensures SHA256_ROWS[k].n == 4 { Sha256Row(k); }
    FourPerGroup(SHA256_ROWS, digest, 10);
    assert SHA256_ROWS[10] == Row(Zero, At(31), At(30), 3);
    forall k: nat | k < 21 ensures SHA512_ROWS[k].n == 4 { Sha512Row(k); }
    FourPerGroup(SHA512_ROWS, digest, 21);
    assert SHA512_ROWS[21] == Row(Zero, Zero, At(63), 2);
  }

  /** The encodings decode to the digest, and so no two digests share one. */
  lemma EncodingsDecode(digest: seq<byte>)
    ensures |digest| == 16 ==> Known(Read(MD5_ROWS, Encoding(MD5_ROWS, digest), 6), digest)
    ensures |digest| == 32 ==> Known(Read(SHA256_ROWS, Encoding(SHA256_ROWS, digest), 11), digest)
    ensures |digest| == 64 ==> Known(Read(SHA512_ROWS, Encoding(SHA512_ROWS, digest), 22), digest)
  {
    if |digest| == 16 {
      Md5Arranges();
      EncodingReads(MD5_ROWS, digest);
    } else if |digest| == 32 {
      Sha256Arranges();
      EncodingReads(SHA256_ROWS, digest);
    } else if |digest| == 64 {
      Sha512Arranges();
      EncodingReads(SHA512_ROWS, digest);
    }
  }

  // Writing the text.

  /** `b64_from_24bit`, from position `at` of the output. */
  method B64From24Bit(out: array<byte>, at: nat, word: nat, n: nat) returns (cp: nat)
    requires at + n <= out.Length
    modifies out
    ensures cp == at + n && out[..cp] == old(out[..at]) + Digits(word, n)
  {
    cp := at;
    var w, i := word, n;
    ghost var start := out[..at];
    while i > 0
      invariant 0 <= i <= n && cp == at + n - i
      invariant out[..cp] + Digits(w, i) == start + Digits(word, n)
    {
      ghost var before := out[..cp];
      out[cp] := Cov2Char(w % 64);
      assert out[..cp + 1] == before + [Cov2Char(w % 64)];
      Assoc(before, [Cov2Char(w % 64)], Digits(w / 64, i - 1));
      cp := cp + 1;
      w := w / 64;
      i := i - 1;
    }
    assert out[..cp] + [] == out[..cp];
  }

  /** The `b64_from_24bit` lines of `shacrypt`, one table entry each. */
  method WriteRows(out: array<byte>, at: nat, rows: seq<Row>, digest: seq<byte>) returns (cp: nat)
    requires at + |Encoding(rows, digest)| <= out.Length
    modifies out
    ensures cp == at + |Encoding(rows, digest)| && out[..cp] == old(out[..at]) + Encoding(rows, digest)
  {
    cp := at;
    ghost var start := out[..at];
    assert start + [] == start;
    for k := 0 to |rows|
      invariant at <= cp == at + |Text(rows, digest, k)| <= out.Length
      invariant out[..cp] == start + Text(rows, digest, k)
    {
      TextGrows(rows, digest, k + 1, |rows|);
      var r := rows[k];
      var w := Word(Byte(digest, r.b2), Byte(digest, r.b1), Byte(digest, r.b0));
      cp := B64From24Bit(out, cp, w, r.n);
      TextGrows(rows, digest, k + 1, |rows|);
      Assoc(start, Text(rows, digest, k), RowText(r, digest));
    }
  }

  lemma {:induction false} TextGrows(rows: seq<Row>, digest: seq<byte>, k: nat, n: nat)
    requires k <= n <= |rows|
    ensures |Text(rows, digest, k)| <= |Text(rows, digest, n)|
    decreases n - k
  {
    if k < n {
      TextGrows(rows, digest, k + 1, n);
    }
  }

  /** The permutation loop of `md5crypt`. */
  method Md5Permute(buf: seq<byte>) returns (perm: array<byte>)
    requires |buf| == 16
    ensures fresh(perm) && perm.Length == 16 && forall d :: 0 <= d < 16 ==> perm[d] == Byte(buf, At(Md5Source(d)))
  {
    perm := new byte[16];
    var source := 0;
    for dest := 0 to 14
      invariant source == 6 * dest % 17 && (dest < 14 ==> source < 16)
      invariant forall d :: 0 <= d < dest ==> perm[d] == Byte(buf, At(Md5Source(d)))
    {
      SourceStep(dest);
      perm[dest] := buf[source];
      source := (source + 6) % 17;
    }
    perm[14] := buf[5];
    perm[15] := buf[11];
  }

  lemma SourceStep(dest: nat)
    requires dest < 14
    ensures 6 * dest % 17 < 16 && 6 * (dest + 1) % 17 == (6 * dest % 17 + 6) % 17
    ensures dest < 13 ==> 6 * (dest + 1) % 17 < 16
  {
    if dest < 7 {
      assert dest in {0, 1, 2, 3, 4, 5, 6};
    } else {
      assert dest in {7, 8, 9, 10, 11, 12, 13};
    }
  }

  lemma ShiftLow(high: nat, low: byte)
    ensures (high * 0x100 + low) % 64 == low % 64 && (high * 0x100 + low) / 64 == high * 4 + low / 64
  {
    Quotient(high * 0x100 + low, 64, high * 4 + low / 64, low % 64);
  }

  lemma ShiftMiddle(b2: byte, b1: byte, q: nat)
    requires q < 4
    ensures ((b2 * 0x100 + b1) * 4 + q) % 64 == b1 % 16 * 4 + q
    ensures ((b2 * 0x100 + b1) * 4 + q) / 64 == b2 * 16 + b1 / 16
  {
    Quotient((b2 * 0x100 + b1) * 4 + q, 64, b2 * 16 + b1 / 16, b1 % 16 * 4 + q);
  }

  lemma ShiftHigh(b2: byte, q: nat)
    requires q < 16
    ensures (b2 * 16 + q) % 64 == b2 % 4 * 16 + q && (b2 * 16 + q) / 64 == b2 / 4
  {
    Quotient(b2 * 16 + q, 64, b2 / 4, b2 % 4 * 16 + q);
  }

  /** The 24 bits, shifted down by six, twelve and eighteen. */
  lemma Shifted(b2: byte, b1: byte, b0: byte)
    ensures var w := Word(b2, b1, b0);
      && w % 64 == b0 % 64 && w / 64 == (b2 * 0x100 + b1) * 4 + b0 / 64
      && w / 64 % 64 == b1 % 16 * 4 + b0 / 64 && w / 64 / 64 == b2 * 16 + b1 / 16
      && w / 64 / 64 % 64 == b2 % 4 * 16 + b1 / 16 && w / 64 / 64 / 64 == b2 / 4 == b2 / 4 % 64
  {
    ShiftLow(b2 * 0x100 + b1, b0);
    ShiftMiddle(b2, b1, b0 / 64);
    ShiftHigh(b2, b1 / 16);
  }

  lemma {:induction false} FourDigits(w: nat)
    ensures Digits(w, 4) ==
      [Cov2Char(w % 64), Cov2Char(w / 64 % 64), Cov2Char(w / 64 / 64 % 64), Cov2Char(w / 64 / 64 / 64 % 64)]
  {
    assert Digits(w, 4) == [Cov2Char(w % 64)] + Digits(w / 64, 3);
    assert Digits(w / 64, 3) == [Cov2Char(w / 64 % 64)] + Digits(w / 64 / 64, 2);
    assert Digits(w / 64 / 64, 2) == [Cov2Char(w / 64 / 64 % 64)] + Digits(w / 64 / 64 / 64, 1);
  }

  /** The four shifted and masked characters of a group are the digits of its 24 bits. */
  lemma Packed(b2: byte, b1: byte, b0: byte)
    ensures Digits(Word(b2, b1, b0), 4) ==
      [Cov2Char(b0 % 0x40), Cov2Char(b1 % 0x10 * 4 + b0 / 0x40), Cov2Char(b2 % 4 * 0x10 + b1 / 0x10), Cov2Char(b2 / 4)]
  {
    FourDigits(Word(b2, b1, b0));
    Shifted(b2, b1, b0);
  }

  /** The four characters of one turn of the output loop of `md5crypt`. */
  method WriteFour(out: array<byte>, at: nat, b2: byte, b1: byte, b0: byte)
    requires at + 4 <= out.Length
    modifies out
    ensures out[..at + 4] == old(out[..at]) + Digits(Word(b2, b1, b0), 4)
  {
    out[at] := Cov2Char(b0 % 0x40);
    out[at + 1] := Cov2Char(b1 % 0x10 * 4 + b0 / 0x40);
    out[at + 2] := Cov2Char(b2 % 4 * 0x10 + b1 / 0x10);
    out[at + 3] := Cov2Char(b2 / 4);
    Packed(b2, b1, b0);
    assert out[..at + 4] == old(out[..at]) + [out[at], out[at + 1], out[at + 2], out[at + 3]];
  }

  lemma TwoDigits(b: byte)
    ensures Digits(Word(0, 0, b), 2) == [Cov2Char(b % 0x40), Cov2Char(b / 0x40)]
  {
    assert Digits(b, 2) == [Cov2Char(b % 64)] + Digits(b / 64, 1);
  }

  /** The last two characters. */
  method WriteTwo(out: array<byte>, at: nat, b: byte)
    requires at + 2 <= out.Length
    modifies out
    ensures out[..at + 2] == old(out[..at]) + Digits(Word(0, 0, b), 2)
  {
    out[at] := Cov2Char(b % 0x40);
    out[at + 1] := Cov2Char(b / 0x40);
    TwoDigits(b);
    assert out[..at + 2] == old(out[..at]) + [out[at], out[at + 1]];
  }

  /** One more group of the text. */
  lemma Md5Next(start: seq<byte>, buf: seq<byte>, r: nat)
    requires r < 5
    ensures var b2, b1, b0 := At(Md5Source(3 * r)), At(Md5Source(3 * r + 1)), At(Md5Source(3 * r + 2));
      start + Text(MD5_ROWS, buf, r) + Digits(Word(Byte(buf, b2), Byte(buf, b1), Byte(buf, b0)), 4) ==
        start + Text(MD5_ROWS, buf, r + 1)
  {
    Md5Row(r);
    Assoc(start, Text(MD5_ROWS, buf, r), RowText(MD5_ROWS[r], buf));
  }

  lemma {:induction false} Md5Last(start: seq<byte>, buf: seq<byte>)
    ensures start + Text(MD5_ROWS, buf, 5) + Digits(Word(0, 0, Byte(buf, At(Md5Source(15)))), 2) ==
      start + Encoding(MD5_ROWS, buf)
  {
    assert MD5_ROWS[5] == Row(Zero, Zero, At(11), 2);
    Assoc(start, Text(MD5_ROWS, buf, 5), RowText(MD5_ROWS[5], buf));
  }

  /** The output loop of `md5crypt`. */
  method WriteMd5(out: array<byte>, at: nat, buf: seq<byte>) returns (cp: nat)
    requires |buf| == 16 && at + 22 <= out.Length
    modifies out
    ensures cp == at + 22 && out[..cp] == old(out[..at]) + Encoding(MD5_ROWS, buf)
  {
    var perm := Md5Permute(buf);
    cp := at;
    var i := 0;
    ghost var start := out[..at];
    ghost var r := 0;
    assert start + Text(MD5_ROWS, buf, 0) == start;
    while i < 15
      invariant r <= 5 && i == 3 * r && cp == at + 4 * r
      invariant out[..cp] == start + Text(MD5_ROWS, buf, r)
      invariant forall d :: 0 <= d < 16 ==> perm[d] == Byte(buf, At(Md5Source(d)))
    {
      WriteFour(out, cp, perm[i], perm[i + 1], perm[i + 2]);
      Md5Next(start, buf, r);
      cp, i, r := cp + 4, i + 3, r + 1;
    }
    WriteTwo(out, cp, perm[i]);
    Md5Last(start, buf);
    cp := cp + 2;
  }
}
