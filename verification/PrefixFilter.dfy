/**
 The line prefixer of `bf_prefix.c`: a filter that writes a prefix before every line of a
 byte stream that reaches it in arbitrary pieces.
 */
module PrefixFilter {
  import opened Common
  import opened PrefixStream
  import opened PrefixCourse

  /** The BIO below. */
  class Sink {
    var data: seq<byte>
    var calls: nat
    const behaviour: Behaviour

    constructor (b: Behaviour)
      ensures data == [] && calls == 0 && behaviour == b
    {
      data, calls, behaviour := [], 0, b;
    }

    method Write(bytes: seq<byte>) returns (ok: bool, n: nat)
      modifies this
      ensures (ok, n) == Answer(behaviour, old(calls), |bytes|)
      ensures data == old(data) + bytes[..n] && calls == old(calls) + 1
    {
      var answer := Answer(behaviour, calls, |bytes|);
      ok, n := answer.0, answer.1;
      data, calls := data + bytes[..n], calls + 1;
    }
  }

  class PrefixBio {
    var prefix: Option<seq<byte>>
    var linestart: bool
    const next: Sink

    constructor (sink: Sink)
      ensures prefix == None && linestart && next == sink
    {
      prefix, linestart, next := None, true, sink;
    }

    /** `prefix_ctrl`. */
    method SetPrefix(p: seq<byte>)
      modifies this`prefix
      ensures prefix == Some(p)
    {
      prefix := Some(p);
    }

    function Active(): seq<byte>
      reads this`prefix
    {
      if prefix.None? then [] else prefix.value
    }

    method LineEnd(out: seq<byte>, w: nat) returns (e: nat)
      requires w < |out|
      ensures e == LineStop(out, w)
    {
      e := w;
      while e < |out| && out[e] != NEWLINE
        invariant w <= e <= |out|
        invariant if e < |out| then LineStop(out, w) == LineStop(out, e) else LineStop(out, w) == e
      {
        e := e + 1;
      }
      if e < |out| {
        e := e + 1;
      }
    }

    /** One write below, of `out[w..e]`. */
    method WriteOnce(out: seq<byte>, w: nat, e: nat) returns (ok: bool, num: nat)
      requires w <= e <= |out|
      modifies next
      ensures (ok, num) == Answer(next.behaviour, old(next.calls), e - w) && next.calls == old(next.calls) + 1
      ensures num <= e - w && next.data == old(next.data) + out[w..w + num]
    {
      ok, num := next.Write(out[w..e]);
      assert out[w..e][..num] == out[w..w + num];
    }

    /** Writes `out[w0..e]` below, until it is all taken or a write fails. */
    method WriteSegment(out: seq<byte>, w0: nat, e: nat) returns (ok: bool, w: nat)
      requires w0 <= e <= |out|
      modifies next
      ensures w0 <= w <= e && IsPush(next.behaviour, old(next.calls), e - w0, ok, w - w0, next.calls)
      ensures next.data == old(next.data) + out[w0..w]
    {
      w := w0;
      ghost var b, k0, n, was := next.behaviour, next.calls, e - w0, next.data;
      JoinSlices(was, out, w0, w0, 0);
      while w < e
        invariant w0 <= w <= e && next.data == was + out[w0..w]
        invariant PushedTo(b, k0, n, next.calls, w - w0)
      {
        var num;
        ghost var k := next.calls;
        ok, num := WriteOnce(out, w, e);
        JoinSlices(was, out, w0, w, num);
        if !ok {
          PushedStops(b, k0, n, k, w - w0);
          return false, w;
        }
        PushedNext(b, k0, n, k, w - w0);
        w := w + num;
      }
      PushedAll(b, k0, n, next.calls);
      ok := true;
    }

    /** Pushes the rest of the line below. */
    method PushLine(out: seq<byte>, w0: nat) returns (ok: bool, w: nat)
      requires w0 < |out| && !linestart
      modifies this`linestart, next
      ensures w0 <= w <= LineStop(out, w0) && (ok <==> w == LineStop(out, w0))
      ensures linestart == (ok && out[w - 1] == NEWLINE)
      ensures IsPush(next.behaviour, old(next.calls), LineStop(out, w0) - w0, ok, w - w0, next.calls)
      ensures next.data == old(next.data) + out[w0..w]
    {
      var e := LineEnd(out, w0);
      ok, w := WriteSegment(out, w0, e);
      if ok && out[e - 1] == NEWLINE {
        linestart := true;
      }
    }

    /**
     `prefix_write`: `w` bytes are taken, and the writes `at` below were those of the prefix. Without
     a prefix there is one write below, and the last byte of the request decides the line state,
     which is that of the bytes taken only under the stated condition.
     */
    method PrefixWrite(out: seq<byte>) returns (ok: bool, w: nat, ghost at: seq<nat>)
      modifies this`linestart, next
      ensures w <= |out|
      ensures Active() == [] ==>
        && at == [] && (ok, w) == Answer(next.behaviour, old(next.calls), |out|) && next.calls == old(next.calls) + 1
        && next.data == old(next.data) + out[..w] && linestart == After(old(linestart), out)
        && (linestart == After(old(linestart), out[..w]) <==> RequestFits(out, w, old(linestart)))
      ensures Active() != [] ==>
        && Course(ok, w, at, next.calls) ==
           Lines(next.behaviour, |Active()|, old(linestart), out, 0, old(next.calls))
        && |at| == Begun(old(linestart), out[..w], linestart)
        && next.data == old(next.data) + Sent(Parts(next.behaviour, Active(), at), old(linestart), out[..w], linestart)
        && (linestart ==> After(old(linestart), out[..w]))
        && (ok ==> linestart == After(old(linestart), out))
    {
      at := [];
      if prefix.None? || prefix.value == [] {
        if |out| > 0 {
          linestart := out[|out| - 1] == NEWLINE;
        }
        ok, w := next.Write(out);
        assert w < |out| ==>
          After(old(linestart), out[..w]) == if w == 0 then old(linestart) else out[w - 1] == NEWLINE;
        assert w == |out| ==> out[..w] == out;
        return;
      }
      ok, w, at := PrefixLines(out);
    }

    /** Writes the prefix; what the sink does not take of it is not written again. */
    method WritePrefix() returns (ok: bool)
      requires linestart && prefix.Some?
      modifies this`linestart, next
      ensures var answer := Answer(next.behaviour, old(next.calls), |Active()|);
        ok == answer.0 && next.data == old(next.data) + Active()[..answer.1]
      ensures next.calls == old(next.calls) + 1 && linestart == !ok
    {
      var dontcare;
      ok, dontcare := next.Write(prefix.value);
      if ok {
        linestart := false;
      }
    }

    /** The beginning of a line at `w0`; `parts0` are the earlier parts. */
    method BeginLine(out: seq<byte>, w0: nat, ghost was: seq<byte>, ghost start: bool, ghost parts0: seq<seq<byte>>)
      returns (ok: bool, ghost parts: seq<seq<byte>>)
      requires Active() != [] && w0 < |out| && linestart == After(start, out[..w0])
      requires |parts0| == LineStarts(start, out[..w0])
      requires next.data == was + EmitParts(parts0, start, out[..w0])
      modifies this`linestart, next
      ensures ok == (old(linestart) ==> Answer(next.behaviour, old(next.calls), |Active()|).0)
      ensures linestart == !ok && next.calls == old(next.calls) + if old(linestart) then 1 else 0
      ensures parts == parts0 +
        if ok && old(linestart) then [Active()[..Answer(next.behaviour, old(next.calls), |Active()|).1]] else []
      ensures next.data == was + Sent(parts, start, out[..w0], linestart)
    {
      parts, ok := parts0, true;
      ghost var done := EmitParts(parts0, start, out[..w0]);
      NoChange(done);
      assert parts0 + [] == parts0;
      if linestart {
        ghost var part := Active()[..Answer(next.behaviour, next.calls, |Active()|).1];
        ok := WritePrefix();
        if !ok {
          NoChange(next.data);
          return;
        }
        parts := parts0 + [part];
        MoreParts(parts0, [part], start, out[..w0]);
        Assoc(was, done, part);
      }
    }

    /** One turn of the loop: a line, from `w0` on. */
    method PrefixLine(out: seq<byte>, w0: nat, ghost was: seq<byte>, ghost start: bool, ghost parts0: seq<seq<byte>>)
      returns (ok: bool, w: nat, ghost parts: seq<seq<byte>>)
      requires Active() != [] && w0 < |out| && linestart == After(start, out[..w0])
      requires |parts0| == LineStarts(start, out[..w0])
      requires next.data == was + EmitParts(parts0, start, out[..w0])
      modifies this`linestart, next
      ensures w0 <= w <= |out| && |parts| == Begun(start, out[..w], linestart)
      ensures next.data == was + Sent(parts, start, out[..w], linestart)
      ensures linestart ==> After(start, out[..w])
      ensures ok ==> w0 < w && linestart == After(start, out[..w]) == (out[w - 1] == NEWLINE)
      ensures IsTurn(next.behaviour, |Active()|, old(linestart), LineStop(out, w0) - w0, old(next.calls),
                     ok, w - w0, next.calls)
      ensures parts == parts0 + if old(linestart) && Answer(next.behaviour, old(next.calls), |Active()|).0
                                then [Active()[..Answer(next.behaviour, old(next.calls), |Active()|).1]] else []
    {
      w := w0;
      ok, parts := BeginLine(out, w0, was, start, parts0);
      if !ok {
        return;
      }
      ok, w := PushLine(out, w0);
      if ok {
        WholeLineSent(parts, start, out, w0);
      } else {
        PartOfLineSent(parts, start, out, w0, w);
      }
      Assoc(was, Sent(parts, start, out[..w0], false), out[w0..w]);
    }

    /** The loop of `PrefixWrite`, one line per iteration. */
    method PrefixLines(out: seq<byte>) returns (ok: bool, w: nat, ghost at: seq<nat>)
      requires Active() != []
      modifies this`linestart, next
      ensures w <= |out| && |at| == Begun(old(linestart), out[..w], linestart)
      ensures Course(ok, w, at, next.calls) ==
        Lines(next.behaviour, |Active()|, old(linestart), out, 0, old(next.calls))
      ensures next.data ==
        old(next.data) + Sent(Parts(next.behaviour, Active(), at), old(linestart), out[..w], linestart)
      ensures linestart ==> After(old(linestart), out[..w])
      ensures ok ==> linestart == After(old(linestart), out)
    {
      w, at := 0, [];
      ghost var start, was, b, p := linestart, next.data, next.behaviour, Active();
      ghost var parts := Parts(b, p, []);
      ghost var whole := Lines(b, |p|, linestart, out, 0, next.calls);
      assert [] + whole.at == whole.at;
      while w < |out|
        invariant w <= |out| && linestart == After(start, out[..w]) && |parts| == LineStarts(start, out[..w])
        invariant next.data == was + EmitParts(parts, start, out[..w]) && parts == Parts(b, p, at)
        invariant LinesTo(b, |p|, whole, linestart, out, w, at, next.calls)
      {
        ghost var linestart0, w0, k0, at0 := linestart, w, next.calls, at;
        ok, w, parts := PrefixLine(out, w, was, start, parts);
        LineTaken(b, |p|, whole, linestart0, out, w0, at0, k0, ok, w, next.calls);
        LineParts(b, p, at0, linestart0, k0);
        at := at0 + LineWrite(b, |p|, linestart0, k0);
        if !ok {
          return;
        }
        NoChange(EmitParts(parts, start, out[..w]));
      }
      assert out[..w] == out;
      LinesDone(b, |p|, whole, linestart, out, at, next.calls);
      NoChange(EmitParts(parts, start, out[..w]));
      ok := true;
    }

    /** Submits `out`, and what was not taken of it, until all is taken or a write fails. */
    method WriteFully(out: seq<byte>) returns (ok: bool, w: nat, ghost at: seq<nat>)
      modifies this`linestart, next
      ensures Course(ok, w, at, next.calls) ==
        Requested(next.behaviour, Active(), old(linestart), out, old(next.calls))
      ensures ok ==> linestart == After(old(linestart), out)
      ensures ok ==>
        next.data == old(next.data) + OutputOf(Parts(next.behaviour, Active(), at), Active(), old(linestart), out)
    {
      if prefix.None? || prefix.value == [] {
        ok, w := PassFully(out);
        at := [];
      } else {
        ok, w, at := PrefixWrite(out);
        assert ok ==> out[..w] == out;
        NoChange(EmitParts(Parts(next.behaviour, Active(), at), old(linestart), out));
      }
    }

    /** One write without a prefix, of the rest of `out`; `w` bytes of it were taken since the `k0`-th write. */
    method PassOnce(out: seq<byte>, w: nat, ghost was: seq<byte>, ghost k0: nat) returns (ok: bool, num: nat)
      requires Active() == [] && w < |out| && next.data == was + out[0..w]
      requires PushedTo(next.behaviour, k0, |out|, next.calls, w)
      modifies this`linestart, next
      ensures linestart == After(old(linestart), out)
      ensures ok ==>
        && 0 < num <= |out| - w && next.data == was + out[0..w + num]
        && PushedTo(next.behaviour, k0, |out|, next.calls, w + num)
      ensures !ok ==> IsPush(next.behaviour, k0, |out|, false, w, next.calls)
    {
      ghost var b, k, at := next.behaviour, next.calls, [];
      ok, num, at := PrefixWrite(out[w..]);
      assert out[w..][..num] == out[w..w + num];
      JoinSlices(was, out, 0, w, num);
      if ok {
        PushedNext(b, k0, |out|, k, w);
      } else {
        PushedStops(b, k0, |out|, k, w);
      }
    }

    /** All of `out` without a prefix: every write below takes some of the rest. */
    method PassFully(out: seq<byte>) returns (ok: bool, w: nat)
      requires Active() == []
      modifies this`linestart, next
      ensures IsPush(next.behaviour, old(next.calls), |out|, ok, w, next.calls)
      ensures ok ==> linestart == After(old(linestart), out) && next.data == old(next.data) + out
    {
      w := 0;
      ghost var k0, was, start := next.calls, next.data, linestart;
      JoinSlices(was, out, 0, 0, 0);
      while w < |out|
        invariant w <= |out| && linestart == if w == 0 then start else After(start, out)
        invariant next.data == was + out[0..w] && PushedTo(next.behaviour, k0, |out|, next.calls, w)
      {
        var num;
        ok, num := PassOnce(out, w, was, k0);
        if !ok {
          return;
        }
        w := w + num;
      }
      PushedAll(next.behaviour, k0, |out|, next.calls);
      assert out[0..w] == out;
      ok := true;
    }

    /** One operation, after the text `t`. */
    method RunOp(op: Op, ghost t: Text) returns (ok: bool, ghost at: seq<nat>)
      requires Active() == t.prefix && linestart == After(true, t.stream)
      modifies this, next
      ensures OpCourse(t, op, next.behaviour, old(next.calls)) == (ok, at, next.calls)
      ensures ok ==> Active() == Step(t, op).prefix && linestart == After(true, Step(t, op).stream)
      ensures ok ==> next.data == old(next.data) + OpOutput(t, op, next.behaviour, at)
    {
      match op {
        case Prefix(p) =>
          SetPrefix(p);
          NoChange(next.data);
          ok, at := true, [];
        case Write(bytes) =>
          AfterSplit(true, t.stream, bytes);
          var w;
          ok, w, at := WriteFully(bytes);
      }
    }

    /**
     A whole run on a new filter; stops at the first write that fails. Its course and its output are
     determined by the operations and by what the BIO below does; the output is the wanted one if no
     prefix in force is cut.
     */
    method Run(ops: seq<Op>) returns (ok: bool)
      requires prefix == None && linestart
      modifies this, next
      ensures var c := RunCourse(ops, next.behaviour, old(next.calls), |ops|);
        && ok == c.ok
        && (ok ==> linestart == After(true, TextAfter(ops, |ops|).stream) && next.calls == c.calls
                   && next.data == old(next.data) + Output(ops, next.behaviour, c.taken, |ops|))
      ensures NeverFails(next.behaviour) ==> ok
      ensures ok && TakesPrefixes(ops, next.behaviour) ==>
        next.data == old(next.data) + TextAfter(ops, |ops|).output
    {
      ghost var was, b, k0 := next.data, next.behaviour, next.calls;
      RunWanted(ops, b, k0, |ops|);
      NoChange(was);
      for i := 0 to |ops|
        invariant Active() == TextAfter(ops, i).prefix && linestart == After(true, TextAfter(ops, i).stream)
        invariant RunCourse(ops, b, k0, i).ok && next.calls == RunCourse(ops, b, k0, i).calls
        invariant next.data == was + Output(ops, b, RunCourse(ops, b, k0, i).taken, i)
      {
        ghost var at;
        ok, at := RunOp(ops[i], TextAfter(ops, i));
        RunNext(ops, b, k0, i, was);
        if !ok {
          RunStops(ops, b, k0, i + 1);
          return;
        }
      }
      ok := true;
    }
  }

  lemma JoinSlices(was: seq<byte>, out: seq<byte>, w0: nat, w: nat, n: nat)
    requires w0 <= w && w + n <= |out|
    ensures was + out[w0..w] + out[w..w + n] == was + out[w0..w + n]
    ensures n == 0 ==> was + out[w0..w] + out[w..w + n] == was + out[w0..w]
    ensures w0 == w ==> was + out[w0..w] == was
  {
    assert out[w0..w] + out[w..w + n] == out[w0..w + n];
    Assoc(was, out[w0..w], out[w..w + n]);
  }

  /** The condition under which the state taken from the request is that of the `w` bytes taken of it. */
  predicate RequestFits(out: seq<byte>, w: nat, was: bool)
    requires w <= |out|
  {
    w == |out| || (out[|out| - 1] == NEWLINE) == if w == 0 then was else out[w - 1] == NEWLINE
  }

  // ----- runs in which a prefix is cut or misplaced

  /** A line of one byte, its prefix and then the byte written below. */
  lemma {:induction false} OneLine(c: byte, b: Behaviour, p: seq<byte>, k: nat)
    requires Answer(b, k, |p|).0 && Answer(b, k + 1, 1) == (true, 1) && c != NEWLINE
    ensures Lines(b, |p|, true, [c], 0, k) == Course(true, 1, [k], k + 2)
    ensures Sent(Parts(b, p, [k]), true, [c], false) == p[..Answer(b, k, |p|).1] + [c]
  {
    assert LineStop([c], 0) == 1;
    assert Pushed(b, k + 2, 0) == 0 && PushedCalls(b, k + 2, 0) == k + 2;
    assert Pushed(b, k + 1, 1) == 1 && PushedCalls(b, k + 1, 1) == k + 2;
    OneLineSent(c, Parts(b, p, [k]));
  }

  lemma OneLineSent(c: byte, parts: seq<seq<byte>>)
    requires |parts| == 1
    ensures c != NEWLINE ==> Sent(parts, true, [c], false) == parts[0] + [c]
  {
    assert [c][..0] == [] && LineStarts(true, []) == 0 && LineStarts(true, [c]) == 1;
    assert EmitParts(parts, true, []) == [];
    NoChange(parts[0] + [c]);
  }

  /** A BIO below that takes one byte of its first write cuts the prefix `AB` of the line `C`. */
  method ShortWrites() returns (data: seq<byte>)
    ensures data == [65, 67] && data != Emit([65, 66], true, [67])
  {
    var sink := new Sink([Some(1)]);
    var bio := new PrefixBio(sink);
    bio.SetPrefix([65, 66]);
    OneLine(67, sink.behaviour, [65, 66], 0);
    var ok, w;
    ghost var at;
    ok, w, at := bio.PrefixWrite([67]);
    data := sink.data;
    assert [67][..1] == [67] && [65, 66][..1] == [65];
    assert |Emit([65, 66], true, [67])| == 3;
  }

  /**
   Without a prefix, the BIO below takes one byte of `A` and newline. The line state follows the
   request, and a prefix that is set then comes out in the middle of a line.
   */
  method RequestDecides() returns (data: seq<byte>)
    ensures data == [65, 62, 66]
  {
    var sink := new Sink([Some(1)]);
    var bio := new PrefixBio(sink);
    var ok, w;
    ghost var at;
    ok, w, at := bio.PrefixWrite([65, NEWLINE]);
    assert w == 1 && bio.linestart && [65, NEWLINE][..1] == [65];
    bio.SetPrefix([62]);
    OneLine(66, sink.behaviour, [62], 1);
    ok, w, at := bio.PrefixWrite([66]);
    data := sink.data;
    assert [66][..1] == [66] && [62][..1] == [62];
  }
}
