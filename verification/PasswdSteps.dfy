/**
 What `md5crypt` and `shacrypt` (`passwd.c`) digest at each step, byte by byte, and what their text
 holds at each position.
 */
module PasswdSteps {
  import opened Common
  import opened PasswdFeed
  import opened PasswdEncode
  import opened PasswdCrypt

  // One item per bit of a length.

  function Power2(k: nat): (r: nat)
    ensures r > 0
  {
    if k == 0 then 1 else 2 * Power2(k - 1)
  }

  predicate OddAt(n: nat, i: nat) {
    n / Power2(i) % 2 == 1
  }

  lemma Halved(n: nat, i: nat)
    ensures n / 2 / Power2(i) == n / Power2(i + 1)
  {
    var p := Power2(i);
    var q, r := n / 2 / p, n / 2 % p;
    assert n == q * (2 * p) + (2 * r + n % 2) by {
      assert n / 2 == q * p + r;
    }
    Quotient(n, 2 * p, q, 2 * r + n % 2);
  }

  /** Bit `i` says whether `n` over two to the `i` is odd, and the highest bit is set. */
  lemma {:induction false} BitsAt(n: nat)
    ensures forall i :: 0 <= i < |Bits(n)| ==> Bits(n)[i] == OddAt(n, i)
    ensures n < Power2(|Bits(n)|) && (n > 0 ==> Bits(n) != [] && Power2(|Bits(n)| - 1) <= n)
  {
    if n > 0 {
      BitsAt(n / 2);
      forall i | 0 <= i < |Bits(n)|
        ensures Bits(n)[i] == OddAt(n, i)
      {
        if i > 0 {
          Halved(n, i - 1);
        } else {
          assert n / Power2(0) == n;
        }
      }
    }
  }

  function Joined(items: seq<seq<byte>>): seq<byte> {
    if items == [] then [] else items[0] + Joined(items[1..])
  }

  /** The first item for an odd quotient, the second for an even one, lowest bit first. */
  ghost predicate ItemsOf(items: seq<seq<byte>>, n: nat, odd: seq<byte>, even: seq<byte>) {
    && n < Power2(|items|) && (n > 0 ==> items != [] && Power2(|items| - 1) <= n)
    && forall i :: 0 <= i < |items| ==> items[i] == if OddAt(n, i) then odd else even
  }

  lemma {:induction false} ChosenItems(bits: seq<bool>, odd: seq<byte>, even: seq<byte>) returns (items: seq<seq<byte>>)
    ensures |items| == |bits| && forall i :: 0 <= i < |bits| ==> items[i] == if bits[i] then odd else even
    ensures Chosen(bits, odd, even) == Joined(items)
  {
    if bits == [] {
      return [];
    }
    var later := ChosenItems(bits[1..], odd, even);
    items := [if bits[0] then odd else even] + later;
    assert items[1..] == later;
  }

  lemma BitItems(n: nat, odd: seq<byte>, even: seq<byte>) returns (items: seq<seq<byte>>)
    ensures ItemsOf(items, n, odd, even) && Chosen(Bits(n), odd, even) == Joined(items)
  {
    items := ChosenItems(Bits(n), odd, even);
    BitsAt(n);
  }

  // Whole copies and cyclic use.

  /** The text over and over, `n` bytes in all. */
  ghost predicate Cycles(bytes: seq<byte>, text: seq<byte>, n: nat) {
    |bytes| == n && forall i :: 0 <= i < n ==> text != [] && bytes[i] == text[i % |text|]
  }

  lemma {:induction false} CyclicCycles(text: seq<byte>, n: nat)
    requires text != []
    ensures Cycles(Cyclic(text, n), text, n)
  {
    forall i | 0 <= i < n
      ensures Cyclic(text, n)[i] == text[i % |text|]
    {
      CyclicAt(text, n, i);
    }
  }

  lemma {:induction false} RepeatedCycles(text: seq<byte>, copies: nat)
    ensures Cycles(Repeated(text, copies), text, copies * |text|)
  {
    if copies > 0 {
      RepeatedCycles(text, copies - 1);
      var before, n := Repeated(text, copies - 1), |text|;
      assert (copies - 1) * n + n == copies * n;
      forall i | 0 <= i < copies * n
        ensures n > 0 && Repeated(text, copies)[i] == text[i % n]
      {
        if i >= (copies - 1) * n {
          Quotient(i, n, copies - 1, i - (copies - 1) * n);
        }
      }
    }
  }

  // The rounds.

  /** `part` stands in `x` from position `at` on. */
  predicate StandsAt(x: seq<byte>, at: int, part: seq<byte>) {
    0 <= at && at + |part| <= |x| && x[at..at + |part|] == part
  }

  /**
   What round `i` is fed: the last digest first and P last in even rounds, the other way round in odd
   ones; S between them unless 3 divides `i`, and P behind it unless 7 does.
   */
  ghost predicate RoundFed(x: seq<byte>, i: nat, last: seq<byte>, p: seq<byte>, s: seq<byte>) {
    && |x| == |last| + |p| + (if i % 3 == 0 then 0 else |s|) + (if i % 7 == 0 then 0 else |p|)
    && (i % 2 == 0 ==> StandsAt(x, 0, last) && StandsAt(x, |x| - |p|, p))
    && (i % 2 == 1 ==> StandsAt(x, 0, p) && StandsAt(x, |x| - |last|, last))
    && (i % 3 > 0 ==> StandsAt(x, if i % 2 == 0 then |last| else |p|, s))
    && (i % 7 > 0 ==> StandsAt(x, |x| - |p| - (if i % 2 == 0 then |p| else |last|), p))
  }

  lemma StandsBetween(a: seq<byte>, part: seq<byte>, b: seq<byte>)
    ensures StandsAt(a + part + b, |a|, part)
  {
  }

  lemma FourParts(a: seq<byte>, b: seq<byte>, c: seq<byte>, d: seq<byte>, x: seq<byte>)
    requires x == a + b + c + d
    ensures StandsAt(x, 0, a) && StandsAt(x, |a|, b)
    ensures StandsAt(x, |a| + |b|, c) && StandsAt(x, |a| + |b| + |c|, d)
  {
    StandsBetween([], a, b + c + d);
    assert [] + a + (b + c + d) == x;
    StandsBetween(a, b, c + d);
    assert a + b + (c + d) == x;
    StandsBetween(a + b, c, d);
    StandsBetween(a + b + c, d, []);
    NoChange(x);
  }

  lemma RoundIsFed(i: nat, last: seq<byte>, p: seq<byte>, s: seq<byte>, x: seq<byte>)
    requires x == RoundInput(i, last, p, s)
    ensures RoundFed(x, i, last, p, s)
  {
    var b := if i % 3 != 0 then s else [];
    var c := if i % 7 != 0 then p else [];
    if i % 2 == 1 {
      FourParts(p, b, c, last, x);
    } else {
      FourParts(last, b, c, p, x);
    }
  }

  /** The digests round by round. */
  ghost predicate Rounds(H: Digest, run: seq<seq<byte>>, p: seq<byte>, s: seq<byte>) {
    && run != []
    && forall i :: 0 <= i < |run| - 1 ==> DigestsRound(H, run[i], run[i + 1], i, p, s)
  }

  ghost predicate DigestsRound(H: Digest, last: seq<byte>, next: seq<byte>, i: nat, p: seq<byte>, s: seq<byte>) {
    exists x :: RoundFed(x, i, last, p, s) && next == H(x)
  }

  lemma RunNext(H: Digest, before: seq<seq<byte>>, next: seq<byte>, p: seq<byte>, s: seq<byte>)
    returns (run: seq<seq<byte>>)
    requires Rounds(H, before, p, s) && DigestsRound(H, before[|before| - 1], next, |before| - 1, p, s)
    ensures Rounds(H, run, p, s) && |run| == |before| + 1 && run[0] == before[0] && run[|before|] == next
  {
    run := before + [next];
    forall i | 0 <= i < |run| - 1
      ensures DigestsRound(H, run[i], run[i + 1], i, p, s)
    {
      if i < |before| - 1 {
        assert DigestsRound(H, before[i], before[i + 1], i, p, s);
      }
    }
  }

  lemma {:induction false} StretchedNext(H: Digest, first: seq<byte>, p: seq<byte>, s: seq<byte>, k: nat)
    ensures DigestsRound(H, Stretched(H, first, p, s, k), Stretched(H, first, p, s, k + 1), k, p, s)
  {
    var last := Stretched(H, first, p, s, k);
    RoundIsFed(k, last, p, s, RoundInput(k, last, p, s));
  }

  lemma {:induction false} StretchedRun(H: Digest, first: seq<byte>, p: seq<byte>, s: seq<byte>, rounds: nat)
    returns (run: seq<seq<byte>>)
    ensures Rounds(H, run, p, s) && |run| == rounds + 1
    ensures run[0] == first && run[rounds] == Stretched(H, first, p, s, rounds)
  {
    if rounds == 0 {
      return [first];
    }
    var before := StretchedRun(H, first, p, s, rounds - 1);
    StretchedNext(H, first, p, s, rounds - 1);
    run := RunNext(H, before, Stretched(H, first, p, s, rounds), p, s);
  }

  // md5crypt.

  /** Password, magic between dollar signs, salt, alternate digest, and a byte for each bit of the length. */
  ghost predicate Md5Fed(H: Digest, fed: seq<byte>, passwd: seq<byte>, magic: seq<byte>, salt: seq<byte>) {
    exists shown, alternate, items ::
      && fed == passwd + shown + salt + alternate + Joined(items)
      && Between(shown, magic)
      && Cycles(alternate, H(passwd + salt + passwd), |passwd|)
      && ItemsOf(items, |passwd|, [0], passwd[..if passwd == [] then 0 else 1])
  }

  /** `$`, the magic, `$`; nothing for an empty magic. */
  predicate Between(shown: seq<byte>, magic: seq<byte>) {
    if magic == [] then shown == []
    else |shown| == |magic| + 2 && StandsAt(shown, 1, magic) && IsDollar(shown[0]) && IsDollar(shown[|shown| - 1])
  }

  predicate IsDollar(b: byte) {
    b as char == '$'
  }

  lemma MagicShown(magic: seq<byte>) returns (shown: seq<byte>)
    ensures Between(shown, magic)
    ensures forall salt :: Md5Prefix(magic, salt) == shown + salt + [DOLLAR]
    ensures shown == if magic == [] then [] else [DOLLAR] + magic + [DOLLAR]
  {
    shown := if magic == [] then [] else [DOLLAR] + magic + [DOLLAR];
    StandsBetween([DOLLAR], magic, [DOLLAR]);
  }

  lemma Md5FirstFed(H: Digest, passwd: seq<byte>, magic: seq<byte>, salt: seq<byte>) returns (fed: seq<byte>)
    requires forall x :: |H(x)| == 16
    ensures Md5Fed(H, fed, passwd, magic, salt) && Md5First(H, passwd, magic, salt) == H(fed)
  {
    var shown := MagicShown(magic);
    var temp := H(passwd + salt + passwd);
    var items := BitItems(|passwd|, [0], Truncated(passwd, 1));
    CyclicCycles(temp, |passwd|);
    var alternate := Cyclic(temp, |passwd|);
    fed := passwd + shown + salt + alternate + Joined(items);
    assert Truncated(passwd, 1) == passwd[..if passwd == [] then 0 else 1];
    assert fed == passwd + shown + salt + alternate + Joined(items) && Between(shown, magic);
  }

  /** The digest of `md5crypt` is the last of a thousand rounds. */
  lemma Md5Run(H: Digest, passwd: seq<byte>, magic: seq<byte>, salt: seq<byte>)
    returns (fed: seq<byte>, run: seq<seq<byte>>)
    requires forall x :: |H(x)| == 16
    ensures Md5Fed(H, fed, passwd, magic, salt) && |run| == 1001 && run[0] == H(fed)
    ensures Rounds(H, run, passwd, salt) && Md5Digest(H, passwd, magic, salt) == run[1000]
  {
    fed := Md5FirstFed(H, passwd, magic, salt);
    var rounds := 1000;
    run := StretchedRun(H, H(fed), passwd, salt, rounds);
  }

  // shacrypt.

  /** Password, salt, alternate digest, and the whole alternate digest or the password for each bit of the length. */
  ghost predicate ShaFed(H: Digest, fed: seq<byte>, passwd: seq<byte>, salt: seq<byte>) {
    exists alternate, items ::
      && fed == passwd + salt + alternate + Joined(items)
      && Cycles(alternate, H(passwd + salt + passwd), |passwd|)
      && ItemsOf(items, |passwd|, H(passwd + salt + passwd), passwd)
  }

  /** The digest of some copies of a text, used cyclically for its length. */
  ghost predicate SpreadOf(H: Digest, bytes: seq<byte>, text: seq<byte>, copies: nat) {
    exists fed :: Cycles(fed, text, copies * |text|) && Cycles(bytes, H(fed), |text|)
  }

  lemma ShaFirstFed(H: Digest, size: nat, passwd: seq<byte>, salt: seq<byte>) returns (fed: seq<byte>)
    requires HasSize(H, size)
    ensures ShaFed(H, fed, passwd, salt) && ShaFirst(H, size, passwd, salt) == H(fed)
  {
    var temp := H(passwd + salt + passwd);
    assert |temp| == size;
    var items := BitItems(|passwd|, temp, passwd);
    CyclicCycles(temp, |passwd|);
    fed := passwd + salt + Cyclic(temp, |passwd|) + Joined(items);
  }

  lemma {:induction false} SpreadFed(H: Digest, size: nat, text: seq<byte>, copies: nat)
    requires HasSize(H, size)
    ensures H(Repeated(text, copies)) != [] && SpreadOf(H, Cyclic(H(Repeated(text, copies)), |text|), text, copies)
  {
    var fed := Repeated(text, copies);
    assert |H(fed)| == size;
    RepeatedCycles(text, copies);
    CyclicCycles(H(fed), |text|);
  }

  /**
   The digest of `shacrypt` is the last of the rounds, with P made of as many copies of the password
   as it has bytes, and S of sixteen copies of the salt and one for each unit of the first byte.
   */
  lemma ShaRun(H: Digest, size: nat, passwd: seq<byte>, salt: seq<byte>, rounds: nat)
    returns (fed: seq<byte>, p: seq<byte>, s: seq<byte>, run: seq<seq<byte>>)
    requires HasSize(H, size)
    ensures ShaFed(H, fed, passwd, salt) && |run| == rounds + 1 && run[0] == H(fed) && run[0] != []
    ensures SpreadOf(H, p, passwd, |passwd|) && SpreadOf(H, s, salt, 16 + run[0][0] as int)
    ensures Rounds(H, run, p, s) && ShaDigest(H, size, passwd, salt, rounds) == run[rounds]
  {
    fed := ShaFirstFed(H, size, passwd, salt);
    var first := H(fed);
    assert |first| == size;
    SpreadFed(H, size, passwd, |passwd|);
    SpreadFed(H, size, salt, SaltCopies(first));
    p, s := ShaP(H, size, passwd), ShaS(H, size, first, salt);
    run := StretchedRun(H, first, p, s, rounds);
  }
}
