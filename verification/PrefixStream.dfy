/**
 What the line prefixer of `bf_prefix.c` is for: a byte stream with a prefix, or a part of one,
 before every line, however the stream is cut into pieces.
 */
module PrefixStream {
  import opened Common

  const NEWLINE: byte := 10

  // ----- what the filter is for

  /** Whether the next byte starts a line, after the bytes `s` that began in state `start`. */
  predicate After(start: bool, s: seq<byte>) {
    if s == [] then start else s[|s| - 1] == NEWLINE
  }

  function PrefixAt(prefix: seq<byte>, start: bool): seq<byte> {
    if start then prefix else []
  }

  /** The stream `s` with the prefix before the first byte of every line. */
  function Emit(prefix: seq<byte>, start: bool, s: seq<byte>): seq<byte> {
    if s == [] then []
    else
      var n := |s| - 1;
      Emit(prefix, start, s[..n]) + (PrefixAt(prefix, After(start, s[..n])) + [s[n]])
  }

  lemma AfterSplit(start: bool, a: seq<byte>, b: seq<byte>)
    ensures After(start, a + b) == After(After(start, a), b)
  {
  }

  lemma {:induction false} EmitAppend(prefix: seq<byte>, start: bool, s: seq<byte>, b: byte)
    ensures Emit(prefix, start, s + [b]) == Emit(prefix, start, s) + (PrefixAt(prefix, After(start, s)) + [b])
  {
    assert (s + [b])[..|s|] == s;
  }

  /** The output depends only on the concatenated stream: cutting it changes nothing. */
  lemma {:induction false} EmitSplit(prefix: seq<byte>, start: bool, a: seq<byte>, b: seq<byte>)
    ensures Emit(prefix, start, a + b) == Emit(prefix, start, a) + Emit(prefix, After(start, a), b)
  {
    if b == [] {
      assert a + b == a;
    } else {
      var c, x := b[..|b| - 1], b[|b| - 1];
      assert b == c + [x];
      EmitSplit(prefix, start, a, c);
      AfterSplit(start, a, c);
      Assoc(a, c, [x]);
      EmitAppend(prefix, start, a + c, x);
      EmitAppend(prefix, After(start, a), c, x);
      Assoc(Emit(prefix, start, a), Emit(prefix, After(start, a), c), PrefixAt(prefix, After(start, a + c)) + [x]);
    }
  }

  /** Without a prefix the stream passes unchanged. */
  lemma {:induction false} EmitNothing(start: bool, s: seq<byte>)
    ensures Emit([], start, s) == s
  {
    if s != [] {
      EmitNothing(start, s[..|s| - 1]);
      assert s == s[..|s| - 1] + [s[|s| - 1]];
    }
  }

  /** The lines of a stream, each with its newline; the last one may lack it. */
  function JoinLines(prefix: seq<byte>, lines: seq<seq<byte>>): seq<byte> {
    if lines == [] then [] else prefix + lines[0] + JoinLines(prefix, lines[1..])
  }

  predicate IsLine(l: seq<byte>, last: bool) {
    && l != []
    && (forall k :: 0 <= k < |l| - 1 ==> l[k] != NEWLINE)
    && (l[|l| - 1] == NEWLINE || last)
  }

  predicate AreLines(lines: seq<seq<byte>>) {
    forall k :: 0 <= k < |lines| ==> IsLine(lines[k], k == |lines| - 1)
  }

  /** Each line comes out once, with the prefix before it. */
  lemma {:induction false} EmitLines(prefix: seq<byte>, lines: seq<seq<byte>>)
    requires AreLines(lines)
    ensures Emit(prefix, true, JoinLines([], lines)) == JoinLines(prefix, lines)
  {
    if lines != [] {
      var l, rest := lines[0], JoinLines([], lines[1..]);
      assert [] + l + rest == l + rest;
      EmitSplit(prefix, true, l, rest);
      EmitLine(prefix, true, l, |l|);
      assert l[..|l|] == l;
      assert IsLine(l, |lines| == 1);
      var more := lines[1..];
      forall k | 0 <= k < |more|
        ensures IsLine(more[k], k == |more| - 1)
      {
        assert IsLine(lines[k + 1], k + 1 == |lines| - 1);
      }
      EmitLines(prefix, lines[1..]);
    }
  }

  /** One line, or a part of one: a prefix only where the line starts. */
  lemma {:induction false} EmitLine(prefix: seq<byte>, start: bool, l: seq<byte>, n: nat)
    requires 1 <= n <= |l| && forall k :: 0 <= k < n - 1 ==> l[k] != NEWLINE
    ensures Emit(prefix, start, l[..n]) == PrefixAt(prefix, start) + l[..n]
  {
    var p := PrefixAt(prefix, start);
    assert l[..n][..n - 1] == l[..n - 1];
    if n == 1 {
      assert Emit(prefix, start, l[..0]) == [];
      assert [] + (p + [l[0]]) == p + [l[0]];
      assert l[..1] == [l[0]];
    } else {
      EmitLine(prefix, start, l, n - 1);
      assert l[..n] == l[..n - 1] + [l[n - 1]];
      assert [] + [l[n - 1]] == [l[n - 1]];
      Assoc(p, l[..n - 1], [l[n - 1]]);
    }
  }

  // ----- what comes out when the BIO below takes less of a prefix

  /** How many of the bytes `s` start a line. */
  function LineStarts(start: bool, s: seq<byte>): nat {
    if s == [] then 0
    else
      var init := s[..|s| - 1];
      LineStarts(start, init) + if After(start, init) then 1 else 0
  }

  /** The part that is written before the `k`-th line. */
  function PartAt(parts: seq<seq<byte>>, k: nat): seq<byte> {
    if k < |parts| then parts[k] else []
  }

  /** The stream `s` with its own part of the prefix before every line. */
  function EmitParts(parts: seq<seq<byte>>, start: bool, s: seq<byte>): seq<byte> {
    if s == [] then []
    else
      var init := s[..|s| - 1];
      EmitParts(parts, start, init)
      + ((if After(start, init) then PartAt(parts, LineStarts(start, init)) else []) + [s[|s| - 1]])
  }

  /** Each part is the beginning of the prefix. */
  predicate AreParts(parts: seq<seq<byte>>, prefix: seq<byte>) {
    forall k :: 0 <= k < |parts| ==> parts[k] <= prefix
  }

  predicate AllWhole(parts: seq<seq<byte>>, prefix: seq<byte>) {
    forall k :: 0 <= k < |parts| ==> parts[k] == prefix
  }

  lemma {:induction false} StartsAppend(start: bool, s: seq<byte>, b: byte)
    ensures LineStarts(start, s + [b]) == LineStarts(start, s) + if After(start, s) then 1 else 0
  {
    assert (s + [b])[..|s|] == s;
  }

  lemma {:induction false} PartsAppend(parts: seq<seq<byte>>, start: bool, s: seq<byte>, b: byte)
    ensures EmitParts(parts, start, s + [b]) ==
      EmitParts(parts, start, s) + ((if After(start, s) then PartAt(parts, LineStarts(start, s)) else []) + [b])
  {
    assert (s + [b])[..|s|] == s;
  }

  lemma {:induction false} StartsSplit(start: bool, a: seq<byte>, b: seq<byte>)
    ensures LineStarts(start, a + b) == LineStarts(start, a) + LineStarts(After(start, a), b)
  {
    if b == [] {
      assert a + b == a;
    } else {
      var c, x := b[..|b| - 1], b[|b| - 1];
      assert b == c + [x];
      StartsSplit(start, a, c);
      AfterSplit(start, a, c);
      Assoc(a, c, [x]);
      StartsAppend(start, a + c, x);
    }
  }

  /** Cutting the stream cuts the parts. */
  lemma {:induction false} PartsSplit(p1: seq<seq<byte>>, p2: seq<seq<byte>>, start: bool, a: seq<byte>, b: seq<byte>)
    requires |p1| == LineStarts(start, a)
    ensures EmitParts(p1 + p2, start, a + b) == EmitParts(p1, start, a) + EmitParts(p2, After(start, a), b)
  {
    if b == [] {
      MoreParts(p1, p2, start, a);
      assert a + b == a;
    } else {
      var c := b[..|b| - 1];
      assert b == c + [b[|b| - 1]];
      PartsSplit(p1, p2, start, a, c);
      SplitStep(p1, p2, start, a, c, b[|b| - 1]);
    }
  }

  lemma {:induction false} SplitStep(
    p1: seq<seq<byte>>, p2: seq<seq<byte>>, start: bool, a: seq<byte>, c: seq<byte>, x: byte)
    requires |p1| == LineStarts(start, a)
    requires EmitParts(p1 + p2, start, a + c) == EmitParts(p1, start, a) + EmitParts(p2, After(start, a), c)
    ensures EmitParts(p1 + p2, start, a + (c + [x])) ==
      EmitParts(p1, start, a) + EmitParts(p2, After(start, a), c + [x])
  {
    var k := LineStarts(After(start, a), c);
    var part := if After(start, a + c) then PartAt(p2, k) else [];
    AfterSplit(start, a, c);
    StartsSplit(start, a, c);
    Assoc(a, c, [x]);
    PartsAppend(p1 + p2, start, a + c, x);
    PartsAppend(p2, After(start, a), c, x);
    assert PartAt(p1 + p2, |p1| + k) == PartAt(p2, k);
    Assoc(EmitParts(p1, start, a), EmitParts(p2, After(start, a), c), part + [x]);
  }

  /** Parts beyond the lines of the stream do not matter. */
  lemma {:induction false} MoreParts(parts: seq<seq<byte>>, more: seq<seq<byte>>, start: bool, s: seq<byte>)
    requires |parts| >= LineStarts(start, s)
    ensures EmitParts(parts + more, start, s) == EmitParts(parts, start, s)
  {
    if s != [] {
      MoreParts(parts, more, start, s[..|s| - 1]);
    }
  }

  function SumLengths(parts: seq<seq<byte>>, n: nat): nat
    requires n <= |parts|
  {
    if n == 0 then 0 else SumLengths(parts, n - 1) + |parts[n - 1]|
  }

  lemma {:induction false} PartsLength(parts: seq<seq<byte>>, start: bool, s: seq<byte>)
    requires |parts| >= LineStarts(start, s)
    ensures |EmitParts(parts, start, s)| == |s| + SumLengths(parts, LineStarts(start, s))
  {
    if s != [] {
      PartsLength(parts, start, s[..|s| - 1]);
    }
  }

  lemma {:induction false} WholeParts(parts: seq<seq<byte>>, prefix: seq<byte>, start: bool, s: seq<byte>)
    requires |parts| >= LineStarts(start, s) && AllWhole(parts, prefix)
    ensures EmitParts(parts, start, s) == Emit(prefix, start, s)
  {
    if s != [] {
      WholeParts(parts, prefix, start, s[..|s| - 1]);
    }
  }

  lemma {:induction false} ShortParts(parts: seq<seq<byte>>, prefix: seq<byte>, n: nat)
    requires n <= |parts| && AreParts(parts, prefix)
    ensures SumLengths(parts, n) <= n * |prefix|
    ensures SumLengths(parts, n) == n * |prefix| <==> forall k :: 0 <= k < n ==> parts[k] == prefix
  {
    if n > 0 {
      ShortParts(parts, prefix, n - 1);
      assert n * |prefix| == (n - 1) * |prefix| + |prefix|;
      assert parts[n - 1] <= prefix;
      assert |parts[n - 1]| == |prefix| ==> parts[n - 1] == prefix;
    }
  }

  /** What comes out is never longer than wanted, and as long only when every prefix was taken whole. */
  lemma {:induction false} PartsShorten(parts: seq<seq<byte>>, prefix: seq<byte>, start: bool, s: seq<byte>)
    requires |parts| == LineStarts(start, s) && AreParts(parts, prefix)
    ensures |EmitParts(parts, start, s)| <= |Emit(prefix, start, s)|
    ensures |EmitParts(parts, start, s)| == |Emit(prefix, start, s)| <==> AllWhole(parts, prefix)
    ensures AllWhole(parts, prefix) ==> EmitParts(parts, start, s) == Emit(prefix, start, s)
  {
    var whole := seq(|parts|, _ => prefix);
    PartsLength(parts, start, s);
    PartsLength(whole, start, s);
    WholeParts(whole, prefix, start, s);
    ShortParts(parts, prefix, |parts|);
    ShortParts(whole, prefix, |whole|);
    if AllWhole(parts, prefix) {
      WholeParts(parts, prefix, start, s);
    }
  }

  /** One more byte, by position. */
  lemma {:induction false} PartsNext(parts: seq<seq<byte>>, start: bool, s: seq<byte>, e: nat)
    requires e < |s|
    ensures EmitParts(parts, start, s[..e + 1]) ==
      EmitParts(parts, start, s[..e])
      + ((if After(start, s[..e]) then PartAt(parts, LineStarts(start, s[..e])) else []) + [s[e]])
    ensures LineStarts(start, s[..e + 1]) == LineStarts(start, s[..e]) + if After(start, s[..e]) then 1 else 0
  {
    assert s[..e + 1] == s[..e] + [s[e]];
    PartsAppend(parts, start, s[..e], s[e]);
    StartsAppend(start, s[..e], s[e]);
  }

  lemma GrowSegment(done: seq<byte>, s: seq<byte>, w: nat, e: nat)
    requires w <= e < |s|
    ensures (done + s[w..e]) + ([] + [s[e]]) == done + s[w..e + 1]
  {
    assert s[w..e + 1] == s[w..e] + [s[e]];
  }

  /** One line, or a part of one, after `w` bytes. */
  lemma {:induction false} PartsSegment(parts: seq<seq<byte>>, start: bool, s: seq<byte>, w: nat, e: nat)
    requires w < e <= |s| && forall k :: w <= k < e - 1 ==> s[k] != NEWLINE
    ensures EmitParts(parts, start, s[..e]) ==
      (EmitParts(parts, start, s[..w])
       + (if After(start, s[..w]) then PartAt(parts, LineStarts(start, s[..w])) else [])) + s[w..e]
  {
    var part := if After(start, s[..w]) then PartAt(parts, LineStarts(start, s[..w])) else [];
    var done := EmitParts(parts, start, s[..w]);
    PartsNext(parts, start, s, e - 1);
    if w == e - 1 {
      Assoc(done, part, [s[w]]);
      assert s[w..e] == [s[w]];
    } else {
      PartsSegment(parts, start, s, w, e - 1);
      GrowSegment(done + part, s, w, e - 1);
    }
  }

  lemma {:induction false} StartsSegment(start: bool, s: seq<byte>, w: nat, e: nat)
    requires w < e <= |s| && forall k :: w <= k < e - 1 ==> s[k] != NEWLINE
    ensures LineStarts(start, s[..e]) == LineStarts(start, s[..w]) + if After(start, s[..w]) then 1 else 0
  {
    PartsNext([], start, s, e - 1);
    if w < e - 1 {
      StartsSegment(start, s, w, e - 1);
    }
  }

  // ----- requests that are taken in part

  /** The part before a line of which no byte is out yet: a write failed in between. */
  function Pending(parts: seq<seq<byte>>, start: bool, s: seq<byte>, linestart: bool): seq<byte> {
    if After(start, s) && !linestart then PartAt(parts, LineStarts(start, s)) else []
  }

  /** What is out when the bytes `s` have been taken, with these parts. */
  function Sent(parts: seq<seq<byte>>, start: bool, s: seq<byte>, linestart: bool): seq<byte> {
    EmitParts(parts, start, s) + Pending(parts, start, s, linestart)
  }

  /** How many parts that is. */
  function Begun(start: bool, s: seq<byte>, linestart: bool): nat {
    LineStarts(start, s) + if After(start, s) && !linestart then 1 else 0
  }

  /** One line, or the first bytes of it, as the loop writes it. */
  lemma {:induction false} SegmentTaken(parts: seq<seq<byte>>, start: bool, out: seq<byte>, w0: nat, w: nat, e: nat)
    requires w0 <= w <= e <= |out| && w0 < e && forall k :: w0 <= k < e - 1 ==> out[k] != NEWLINE
    ensures var begun := EmitParts(parts, start, out[..w0]) + Pending(parts, start, out[..w0], false) + out[w0..w];
      && (w > w0 ==> begun == EmitParts(parts, start, out[..w]))
      && (w < e ==> begun == Sent(parts, start, out[..w], false))
    ensures w == e ==> After(start, out[..w]) == (out[e - 1] == NEWLINE)
    ensures w0 < w ==> LineStarts(start, out[..w]) == Begun(start, out[..w0], false)
    ensures w < e ==> Begun(start, out[..w], false) == Begun(start, out[..w0], false)
  {
    var begun := EmitParts(parts, start, out[..w0]) + Pending(parts, start, out[..w0], false);
    if w > w0 {
      PartsSegment(parts, start, out, w0, w);
      StartsSegment(start, out, w0, w);
      assert out[..w][w - 1] == out[w - 1];
      NoChange(EmitParts(parts, start, out[..w]));
    } else {
      assert out[w0..w] == [];
      NoChange(begun);
    }
  }

  lemma {:induction false} PartsAtStart(x: seq<byte>, parts: seq<seq<byte>>, s: seq<byte>)
    requires s != []
    ensures EmitParts([x] + parts, true, s) == x + EmitParts(parts, false, s)
    ensures LineStarts(true, s) == 1 + LineStarts(false, s)
  {
    var init, b := s[..|s| - 1], s[|s| - 1];
    if init == [] {
      NoChange(x + [b]);
      NoChange([b]);
    } else {
      PartsAtStart(x, parts, init);
      var k := LineStarts(false, init);
      assert PartAt([x] + parts, 1 + k) == PartAt(parts, k);
      Assoc(x, EmitParts(parts, false, init), (if After(false, init) then PartAt(parts, k) else []) + [b]);
    }
  }

  /** After a failed write, submitting the bytes that were not taken completes the output, each prefix once. */
  lemma {:induction false} ResumeAfterFailure(p1: seq<seq<byte>>, p2: seq<seq<byte>>, start: bool, s: seq<byte>,
                                              w: nat, linestart: bool)
    requires w < |s| && (linestart ==> After(start, s[..w])) && |p1| == Begun(start, s[..w], linestart)
    ensures Sent(p1, start, s[..w], linestart) + EmitParts(p2, linestart, s[w..]) == EmitParts(p1 + p2, start, s)
    ensures LineStarts(start, s) == |p1| + LineStarts(linestart, s[w..])
  {
    var first, rest := s[..w], s[w..];
    assert s == first + rest;
    StartsSplit(start, first, rest);
    if After(start, first) && !linestart {
      var q, x := p1[..|p1| - 1], p1[|p1| - 1];
      assert p1 == q + [x] && p1 + p2 == q + ([x] + p2);
      PartsSplit(q, [x] + p2, start, first, rest);
      MoreParts(q, [x], start, first);
      PartsAtStart(x, p2, rest);
      Assoc(EmitParts(q, start, first), x, EmitParts(p2, false, rest));
    } else {
      PartsSplit(p1, p2, start, first, rest);
      NoChange(EmitParts(p1, start, first));
    }
  }
}
