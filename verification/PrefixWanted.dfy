/**
 What the wanted output of the line prefixer of `bf_prefix.c` is, told by the operations alone: which
 prefix is in force, which bytes have been written, and what each operation adds.
 */
module PrefixWanted {
  import opened Common
  import opened PrefixStream
  import opened PrefixCourse

  /** The bytes written by the operations from the `j`-th to the `n`-th. */
  function Written(ops: seq<Op>, j: nat, n: nat): seq<byte>
    requires j <= n <= |ops|
  {
    if n == j then []
    else Written(ops, j, n - 1) + if ops[n - 1].Write? then ops[n - 1].bytes else []
  }

  /** The stream after every operation is the concatenation of the bytes written. */
  lemma {:induction false} StreamWritten(ops: seq<Op>, n: nat)
    requires n <= |ops|
    ensures TextAfter(ops, n).stream == Written(ops, 0, n)
  {
    if n > 0 {
      StreamWritten(ops, n - 1);
      NoChange(Written(ops, 0, n - 1));
    }
  }

  /** No operation from the `j`-th to the `n`-th sets a prefix. */
  predicate OnlyWrites(ops: seq<Op>, j: nat, n: nat)
    requires j <= n <= |ops|
  {
    forall i :: j <= i < n ==> ops[i].Write?
  }

  /** The last prefix set by the first `n` operations is `p`; it is empty if none is set. */
  predicate InForce(ops: seq<Op>, n: nat, p: seq<byte>)
    requires n <= |ops|
  {
    || (OnlyWrites(ops, 0, n) && p == [])
    || exists j :: 0 <= j < n && ops[j] == Prefix(p) && OnlyWrites(ops, j + 1, n)
  }

  /** The prefix in force is the one that was set last. */
  lemma {:induction false} PrefixInForce(ops: seq<Op>, n: nat)
    requires n <= |ops|
    ensures InForce(ops, n, TextAfter(ops, n).prefix)
  {
    if n > 0 {
      PrefixInForce(ops, n - 1);
      var p := TextAfter(ops, n - 1).prefix;
      if ops[n - 1].Prefix? {
        assert OnlyWrites(ops, n - 1 + 1, n);
      } else if !(OnlyWrites(ops, 0, n - 1) && p == []) {
        var j :| 0 <= j < n - 1 && ops[j] == Prefix(p) && OnlyWrites(ops, j + 1, n - 1);
        assert OnlyWrites(ops, j + 1, n);
      }
    }
  }

  /** There is one such prefix only. */
  lemma InForceIsOne(ops: seq<Op>, n: nat, p: seq<byte>, q: seq<byte>)
    requires n <= |ops| && InForce(ops, n, p) && InForce(ops, n, q)
    ensures p == q
  {
    if !OnlyWrites(ops, 0, n) {
      var i :| 0 <= i < n && ops[i] == Prefix(p) && OnlyWrites(ops, i + 1, n);
      var j :| 0 <= j < n && ops[j] == Prefix(q) && OnlyWrites(ops, j + 1, n);
      assert i == j;
    }
  }

  /** Behind the output `out` of the stream `s`, the bytes `more` were written with the prefix `p`. */
  predicate Extended(t: Text, p: seq<byte>, s: seq<byte>, out: seq<byte>, more: seq<byte>) {
    t.prefix == p && t.stream == s + more && t.output == out + Emit(p, After(true, s), more)
  }

  lemma {:induction false} ExtendedNext(t: Text, p: seq<byte>, s: seq<byte>, out: seq<byte>, more: seq<byte>,
                                        bytes: seq<byte>)
    requires Extended(t, p, s, out, more)
    ensures Extended(Step(t, Write(bytes)), p, s, out, more + bytes)
  {
    EmitSplit(p, After(true, s), more, bytes);
    AfterSplit(true, s, more);
    Assoc(s, more, bytes);
    Assoc(out, Emit(p, After(true, s), more), Emit(p, After(After(true, s), more), bytes));
  }

  lemma {:induction false} WritesExtend(ops: seq<Op>, j: nat, n: nat)
    requires j <= n <= |ops| && OnlyWrites(ops, j, n)
    ensures Extended(TextAfter(ops, n), TextAfter(ops, j).prefix, TextAfter(ops, j).stream, TextAfter(ops, j).output,
                     Written(ops, j, n))
  {
    var t := TextAfter(ops, j);
    if j == n {
      NoChange(t.output);
      NoChange(t.stream);
    } else {
      WritesExtend(ops, j, n - 1);
      assert ops[n - 1] == Write(ops[n - 1].bytes);
      ExtendedNext(TextAfter(ops, n - 1), t.prefix, t.stream, t.output, Written(ops, j, n - 1), ops[n - 1].bytes);
    }
  }

  /**
   What a stretch of writes adds to the wanted output, whatever came before: its bytes, with the prefix
   in force before every line that starts in them.
   */
  lemma {:induction false} WritesAdd(ops: seq<Op>, j: nat, n: nat, p: seq<byte>)
    requires j <= n <= |ops| && OnlyWrites(ops, j, n) && InForce(ops, j, p)
    ensures TextAfter(ops, n).output ==
      TextAfter(ops, j).output + Emit(p, After(true, Written(ops, 0, j)), Written(ops, j, n))
  {
    PrefixInForce(ops, j);
    InForceIsOne(ops, j, p, TextAfter(ops, j).prefix);
    StreamWritten(ops, j);
    WritesExtend(ops, j, n);
  }

  /** Setting a prefix puts nothing out. */
  lemma PrefixAddsNothing(ops: seq<Op>, n: nat)
    requires n < |ops| && ops[n].Prefix?
    ensures TextAfter(ops, n + 1).output == TextAfter(ops, n).output
  {
  }

  /** One prefix, set first, and then writes: the wanted output is that of all bytes with the prefix. */
  lemma {:induction false} OnePrefix(ops: seq<Op>, p: seq<byte>, n: nat)
    requires 1 <= n <= |ops| && ops[0] == Prefix(p) && OnlyWrites(ops, 1, n)
    ensures TextAfter(ops, n).output == Emit(p, true, Written(ops, 1, n))
  {
    assert OnlyWrites(ops, 0 + 1, 1);
    WritesAdd(ops, 1, n, p);
    PrefixAddsNothing(ops, 0);
    assert Written(ops, 0, 0) == [] && Written(ops, 0, 1) == [];
    NoChange(Emit(p, true, Written(ops, 1, n)));
  }

  /** A line: bytes without a line feed, and one at its end unless it is the last line. */
  predicate LineOf(l: seq<byte>, last: bool) {
    l != [] && (forall k :: 0 <= k < |l| - 1 ==> l[k] != 10) && (l[|l| - 1] == 10 || last)
  }

  predicate LinesOf(lines: seq<seq<byte>>, s: seq<byte>) {
    JoinLines([], lines) == s && forall k :: 0 <= k < |lines| ==> LineOf(lines[k], k == |lines| - 1)
  }

  lemma {:induction false} LineBefore(l: seq<byte>, lines: seq<seq<byte>>, s: seq<byte>)
    requires LinesOf(lines, s) && LineOf(l, lines == [])
    ensures LinesOf([l] + lines, l + s)
  {
    var more := [l] + lines;
    assert more[1..] == lines && [] + l == l;
    forall k | 0 <= k < |more|
      ensures LineOf(more[k], k == |more| - 1)
    {
      if k > 0 {
        assert LineOf(lines[k - 1], k - 1 == |lines| - 1);
      }
    }
  }

  /** Every stream is a sequence of lines, so `EmitLines` tells the output of every stream. */
  lemma {:induction false} StreamHasLines(s: seq<byte>) returns (lines: seq<seq<byte>>)
    ensures LinesOf(lines, s) && AreLines(lines)
    decreases |s|
  {
    if s == [] {
      lines := [];
    } else {
      var e := LineStop(s, 0);
      var l, rest := s[..e], s[e..];
      var more := StreamHasLines(rest);
      assert l[e - 1] == s[e - 1] && s == l + rest;
      assert rest != [] ==> more != [];
      LineBefore(l, more, rest);
      lines := [l] + more;
    }
  }

  lemma {:induction false} OneLineEmitted(p: byte, c: byte)
    requires c != 10
    ensures Emit([p], true, [c, 10]) == [p, c, 10]
  {
    assert [c, 10][..1] == [c] && [c][..0] == [];
    assert Emit([p], true, []) == [];
    assert Emit([p], true, [c]) == [p, c];
  }

  predicate IsTwoPrefixes(ops: seq<Op>) {
    ops == [Prefix([62]), Write([97, 10]), Prefix([45]), Write([98, 10])]
  }

  lemma {:induction false} TwoPrefixesWritten(ops: seq<Op>)
    requires IsTwoPrefixes(ops)
    ensures Written(ops, 1, 2) == [97, 10] && Written(ops, 3, 4) == [98, 10] && Written(ops, 0, 3) == [97, 10]
  {
    assert Written(ops, 1, 1) == [] && Written(ops, 3, 3) == [] && Written(ops, 0, 0) == [];
    assert Written(ops, 0, 1) == [] && Written(ops, 0, 2) == [97, 10];
  }

  /** A prefix, a line, another prefix, a line. */
  lemma {:induction false} TwoPrefixes(ops: seq<Op>, n: nat)
    requires IsTwoPrefixes(ops) && n == 4
    ensures TextAfter(ops, n).output == [62, 97, 10, 45, 98, 10]
  {
    TwoPrefixesWritten(ops);
    OneLineEmitted(62, 97);
    OneLineEmitted(45, 98);
    OnePrefix(ops, [62], n - 2);
    PrefixAddsNothing(ops, n - 2);
    assert OnlyWrites(ops, 2 + 1, n - 1);
    WritesAdd(ops, n - 1, n, [45]);
  }
}
