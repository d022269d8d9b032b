/**
 The digest feeding of `md5crypt` and `shacrypt` (`passwd.c`): buffers used cyclically, one item
 per bit of a length, and the stretching rounds. A digest is any function on byte strings.
 */
module PasswdFeed {
  import opened Common

  type Digest = seq<byte> -> seq<byte>

  /** A digest context: what has been fed since it was initialised. */
  class Context {
    var fed: seq<byte>

    constructor ()
      ensures fed == []
    {
      fed := [];
    }

    method Update(bytes: seq<byte>)
      modifies this
      ensures fed == old(fed) + bytes
    {
      fed := fed + bytes;
    }
  }

  // Cyclic use of a buffer.

  /** `n` bytes of the buffer, repeated as often as needed. */
  function Cyclic(buf: seq<byte>, n: nat): (r: seq<byte>)
    requires buf != []
    ensures |r| == n
  {
    if n == 0 then [] else Cyclic(buf, n - 1) + [buf[(n - 1) % |buf|]]
  }

  /** Byte `i` is byte `i` modulo the buffer size. */
  lemma {:induction false} CyclicAt(buf: seq<byte>, n: nat, i: nat)
    requires buf != [] && i < n
    ensures Cyclic(buf, n)[i] == buf[i % |buf|]
  {
    if i < n - 1 {
      CyclicAt(buf, n - 1, i);
    }
  }

  lemma Within(k: nat, size: nat, n: nat)
    requires n < size && k % size == 0
    ensures (k + n) % size == n
  {
    var q := k / size;
    assert k == q * size;
    assert (k + n) / size == q by {
      Quotient(k + n, size, q, n);
    }
  }

  /** A prefix of the buffer continues a whole number of copies. */
  lemma {:induction false} CyclicExtends(buf: seq<byte>, k: nat, n: nat)
    requires buf != [] && k % |buf| == 0 && n <= |buf|
    ensures Cyclic(buf, k + n) == Cyclic(buf, k) + buf[..n]
  {
    if n > 0 {
      CyclicExtends(buf, k, n - 1);
      Within(k, |buf|, n - 1);
      assert buf[..n] == buf[..n - 1] + [buf[n - 1]];
      Assoc(Cyclic(buf, k), buf[..n - 1], [buf[n - 1]]);
    }
  }

  lemma NextCopy(k: nat, size: nat)
    requires size > 0 && k % size == 0
    ensures (k + size) % size == 0
  {
    var q := k / size;
    assert k + size == (q + 1) * size;
    Quotient(k + size, size, q + 1, 0);
  }

  /** Feeds a buffer cyclically, `count` bytes in all. */
  method FeedCyclic(md: Context, buf: seq<byte>, count: nat)
    requires buf != []
    modifies md
    ensures md.fed == old(md.fed) + Cyclic(buf, count)
  {
    var n := count;
    ghost var start := md.fed;
    ghost var done := 0;
    assert start + Cyclic(buf, 0) == start;
    while n > |buf|
      invariant done + n == count && done % |buf| == 0 && 0 <= n
      invariant md.fed == start + Cyclic(buf, done)
    {
      md.Update(buf);
      FullCopy(start, buf, done);
      done := done + |buf|;
      n := n - |buf|;
    }
    CyclicExtends(buf, done, n);
    Assoc(start, Cyclic(buf, done), buf[..n]);
    md.Update(buf[..n]);
  }

  lemma WholeCopy(buf: seq<byte>, done: nat)
    requires buf != [] && done % |buf| == 0
    ensures Cyclic(buf, done) + buf[..|buf|] == Cyclic(buf, done + |buf|)
    ensures (done + |buf|) % |buf| == 0
  {
    CyclicExtends(buf, done, |buf|);
    NextCopy(done, |buf|);
  }

  lemma FullCopy(start: seq<byte>, buf: seq<byte>, done: nat)
    requires buf != [] && done % |buf| == 0
    ensures start + Cyclic(buf, done) + buf == start + Cyclic(buf, done + |buf|)
    ensures (done + |buf|) % |buf| == 0
  {
    WholeCopy(buf, done);
    assert buf[..|buf|] == buf;
    Assoc(start, Cyclic(buf, done), buf);
  }

  /** `memcpy` of a prefix of `source` to `target[at..]`. */
  method CopyInto(target: array<byte>, at: nat, source: seq<byte>, n: nat)
    requires at + n <= target.Length && n <= |source|
    modifies target
    ensures target[..at + n] == old(target[..at]) + source[..n]
  {
    for i := 0 to n
      invariant target[..at + i] == old(target[..at]) + source[..i]
    {
      target[at + i] := source[i];
      assert target[..at + i + 1] == target[..at + i] + [source[i]];
      assert source[..i + 1] == source[..i] + [source[i]];
    }
  }

  /** Fills a block with the digest, cyclically. */
  method FillBlock(block: array<byte>, temp: seq<byte>)
    requires temp != []
    modifies block
    ensures block[..] == Cyclic(temp, block.Length)
  {
    var cp, n := 0, block.Length;
    while n > |temp|
      invariant cp + n == block.Length && cp % |temp| == 0 && 0 <= n && 0 <= cp
      invariant block[..cp] == Cyclic(temp, cp)
    {
      CopyInto(block, cp, temp, |temp|);
      WholeCopy(temp, cp);
      cp := cp + |temp|;
      n := n - |temp|;
    }
    CopyInto(block, cp, temp, n);
    CyclicExtends(temp, cp, n);
    assert block[..cp + n] == block[..];
  }

  /** The P and S sequences: a new block of `count` bytes, which `OPENSSL_zalloc` refuses when it is 0. */
  method FillCyclic(temp: seq<byte>, count: nat) returns (bytes: array?<byte>)
    requires temp != []
    ensures (bytes == null) == (count == 0)
    ensures bytes != null ==> fresh(bytes) && bytes[..] == Cyclic(temp, count)
  {
    if count == 0 {
      return null;
    }
    bytes := new byte[count](_ => 0);
    FillBlock(bytes, temp);
  }

  // One item per bit of a length.

  /** The bits of a length, low bit first. */
  function Bits(n: nat): seq<bool> {
    if n == 0 then [] else [n % 2 == 1] + Bits(n / 2)
  }

  function BinaryValue(bits: seq<bool>): nat {
    if bits == [] then 0 else (if bits[0] then 1 else 0) + 2 * BinaryValue(bits[1..])
  }

  /** No leading zero. */
  predicate IsNumeral(bits: seq<bool>) {
    bits != [] ==> bits[|bits| - 1]
  }

  lemma {:induction false} BitsMeaning(n: nat)
    ensures BinaryValue(Bits(n)) == n && IsNumeral(Bits(n))
  {
    if n > 0 {
      BitsMeaning(n / 2);
      assert Bits(n)[1..] == Bits(n / 2);
    }
  }

  /** The bits are the only numeral of the length. */
  lemma {:induction false} BitsUnique(bits: seq<bool>)
    requires IsNumeral(bits)
    ensures Bits(BinaryValue(bits)) == bits && (bits != [] ==> BinaryValue(bits) > 0)
  {
    if bits != [] {
      var rest := bits[1..];
      BitsUnique(rest);
      assert bits == [bits[0]] + rest;
      var n := BinaryValue(bits);
      assert n / 2 == BinaryValue(rest) && (n % 2 == 1) == bits[0];
    }
  }

  /** The items chosen by the bits, in order. */
  function Chosen(bits: seq<bool>, one: seq<byte>, zero: seq<byte>): seq<byte> {
    if bits == [] then [] else (if bits[0] then one else zero) + Chosen(bits[1..], one, zero)
  }

  /** The length-halving loop. */
  method FeedBits(md: Context, count: nat, one: seq<byte>, zero: seq<byte>)
    modifies md
    ensures md.fed == old(md.fed) + Chosen(Bits(count), one, zero)
  {
    var n := count;
    ghost var start := md.fed;
    while n != 0
      invariant md.fed + Chosen(Bits(n), one, zero) == start + Chosen(Bits(count), one, zero)
    {
      ghost var before := md.fed;
      BitStep(before, n, one, zero);
      md.Update(if n % 2 == 1 then one else zero);
      n := n / 2;
    }
    assert md.fed + [] == md.fed;
  }

  lemma {:induction false} BitStep(fed: seq<byte>, n: nat, one: seq<byte>, zero: seq<byte>)
    requires n > 0
    ensures fed + Chosen(Bits(n), one, zero) ==
      fed + (if n % 2 == 1 then one else zero) + Chosen(Bits(n / 2), one, zero)
  {
    assert Bits(n)[1..] == Bits(n / 2);
    Assoc(fed, if n % 2 == 1 then one else zero, Chosen(Bits(n / 2), one, zero));
  }

  // Repetition.

  function Repeated(s: seq<byte>, n: nat): seq<byte> {
    if n == 0 then [] else Repeated(s, n - 1) + s
  }

  method FeedRepeated(md: Context, s: seq<byte>, count: nat)
    modifies md
    ensures md.fed == old(md.fed) + Repeated(s, count)
  {
    ghost var start := md.fed;
    assert start + [] == start;
    var n := count;
    while n > 0
      invariant 0 <= n <= count && md.fed == start + Repeated(s, count - n)
    {
      Assoc(start, Repeated(s, count - n), s);
      md.Update(s);
      n := n - 1;
    }
  }

  // The stretching rounds.

  /** What round `i` digests. */
  function RoundInput(i: nat, buf: seq<byte>, p: seq<byte>, s: seq<byte>): seq<byte> {
    (if i % 2 == 1 then p else buf) + (if i % 3 != 0 then s else []) + (if i % 7 != 0 then p else [])
    + (if i % 2 == 1 then buf else p)
  }

  function Stretched(H: Digest, buf: seq<byte>, p: seq<byte>, s: seq<byte>, rounds: nat): seq<byte> {
    if rounds == 0 then buf
    else
      var last := Stretched(H, buf, p, s, rounds - 1);
      H(RoundInput(rounds - 1, last, p, s))
  }

  method Round(H: Digest, i: nat, buf: seq<byte>, p: seq<byte>, s: seq<byte>) returns (next: seq<byte>)
    ensures next == H(RoundInput(i, buf, p, s))
  {
    var md := new Context();
    md.Update(if i % 2 == 1 then p else buf);
    ghost var first := if i % 2 == 1 then p else buf;
    NoChange(first);
    if i % 3 != 0 {
      md.Update(s);
    }
    ghost var second := first + if i % 3 != 0 then s else [];
    assert md.fed == second;
    NoChange(second);
    if i % 7 != 0 {
      md.Update(p);
    }
    md.Update(if i % 2 == 1 then buf else p);
    next := H(md.fed);
  }

  method Stretch(H: Digest, first: seq<byte>, p: seq<byte>, s: seq<byte>, rounds: nat) returns (buf: seq<byte>)
    ensures buf == Stretched(H, first, p, s, rounds)
  {
    buf := first;
    for i := 0 to rounds
      invariant buf == Stretched(H, first, p, s, i)
    {
      buf := Round(H, i, buf, p, s);
    }
  }

  lemma {:induction false} StretchedSize(H: Digest, buf: seq<byte>, p: seq<byte>, s: seq<byte>, rounds: nat, size: nat)
    requires |buf| == size && forall x :: |H(x)| == size
    ensures |Stretched(H, buf, p, s, rounds)| == size
  {
  }
}
