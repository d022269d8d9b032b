/**
 The course of a request to the line prefixer, and of a whole run: which writes below are those of a
 prefix, and what comes out, as the operations and the answers of the BIO below determine it.
 */
module PrefixCourse {
  import opened Common
  import opened PrefixStream

  // ----- the BIO below

  /**
   What the BIO below does with its writes, one after the other: fail, or take so many of the bytes,
   at least one and at most all. Any later writes are taken whole.
   */
  type Behaviour = seq<Option<nat>>

  /** Its `k`-th write, of `n` bytes. */
  function Answer(b: Behaviour, k: nat, n: nat): (r: (bool, nat))
    ensures r.1 <= n && if r.0 then n > 0 ==> r.1 > 0 else r.1 == 0
  {
    if k >= |b| then (true, n)
    else if b[k].None? then (false, 0)
    else if b[k].value > n then (true, n)
    else if b[k].value == 0 && n > 0 then (true, 1)
    else (true, b[k].value)
  }

  predicate NeverFails(b: Behaviour) {
    forall k :: 0 <= k < |b| ==> b[k].Some?
  }

  /** Every write of `n` bytes that does not fail is taken whole. */
  predicate TakesWhole(b: Behaviour, n: nat) {
    forall k :: 0 <= k < |b| && b[k].Some? ==> n <= 1 || b[k].value >= n
  }

  /** What comes of a request: whether it was taken whole, how much, the writes of the prefix, the next write. */
  datatype Course = Course(ok: bool, w: nat, at: seq<nat>, calls: nat)

  /** How many of `n` bytes are taken, written again and again until all are, or a write fails. */
  function Pushed(b: Behaviour, k: nat, n: nat): (taken: nat)
    ensures taken <= n
    decreases n
  {
    if n == 0 || !Answer(b, k, n).0 then 0
    else Answer(b, k, n).1 + Pushed(b, k + 1, n - Answer(b, k, n).1)
  }

  /** The write that comes after that. */
  function PushedCalls(b: Behaviour, k: nat, n: nat): nat
    decreases n
  {
    if n == 0 then k
    else if !Answer(b, k, n).0 then k + 1
    else PushedCalls(b, k + 1, n - Answer(b, k, n).1)
  }

  /** The position behind the next newline at or after `w`, or the end. */
  function LineStop(out: seq<byte>, w: nat): (e: nat)
    requires w < |out|
    ensures w < e <= |out| && (e < |out| ==> out[e - 1] == NEWLINE)
    ensures forall k :: w <= k < e - 1 ==> out[k] != NEWLINE
    decreases |out| - w
  {
    if out[w] == NEWLINE || w + 1 == |out| then w + 1 else LineStop(out, w + 1)
  }

  /** The same line by line from `w` on, with a prefix of `n` bytes where a line starts. */
  function Lines(b: Behaviour, n: nat, linestart: bool, out: seq<byte>, w: nat, k: nat): (c: Course)
    requires w <= |out|
    ensures w <= c.w <= |out| && (c.ok <==> c.w == |out|)
    decreases |out| - w
  {
    if w == |out| then Course(true, w, [], k)
    else if linestart && !Answer(b, k, n).0 then Course(false, w, [], k + 1)
    else
      var at := if linestart then [k] else [];
      var e := LineStop(out, w);
      var calls := PushedCalls(b, k + |at|, e - w);
      if w + Pushed(b, k + |at|, e - w) < e then Course(false, w + Pushed(b, k + |at|, e - w), at, calls)
      else var rest := Lines(b, n, out[e - 1] == NEWLINE, out, e, calls); rest.(at := at + rest.at)
  }

  /** After `w` of `n` bytes, the `k`-th write is the next one of pushing them from the `k0`-th on. */
  predicate PushedTo(b: Behaviour, k0: nat, n: nat, k: nat, w: nat) {
    w <= n && Pushed(b, k0, n) == w + Pushed(b, k, n - w) && PushedCalls(b, k0, n) == PushedCalls(b, k, n - w)
  }

  lemma PushedNext(b: Behaviour, k0: nat, n: nat, k: nat, w: nat)
    requires PushedTo(b, k0, n, k, w) && w < n && Answer(b, k, n - w).0
    ensures PushedTo(b, k0, n, k + 1, w + Answer(b, k, n - w).1)
  {
  }

  /** `w` of `n` bytes were pushed, all of them if `ok`, and the `k`-th write is the next. */
  predicate IsPush(b: Behaviour, k0: nat, n: nat, ok: bool, w: nat, k: nat) {
    Pushed(b, k0, n) == w && PushedCalls(b, k0, n) == k && (ok <==> w == n)
  }

  lemma PushedStops(b: Behaviour, k0: nat, n: nat, k: nat, w: nat)
    requires PushedTo(b, k0, n, k, w) && w < n && !Answer(b, k, n - w).0
    ensures IsPush(b, k0, n, false, w, k + 1)
  {
  }

  lemma PushedAll(b: Behaviour, k0: nat, n: nat, k: nat)
    requires PushedTo(b, k0, n, k, n)
    ensures IsPush(b, k0, n, true, n, k)
  {
  }

  /** After `w` bytes and the prefix writes `at`, the rest of a request goes on from `linestart` and `k`. */
  predicate LinesTo(b: Behaviour, n: nat, whole: Course, linestart: bool, out: seq<byte>, w: nat, at: seq<nat>,
                    k: nat) {
    w <= |out| && var rest := Lines(b, n, linestart, out, w, k); whole == rest.(at := at + rest.at)
  }

  /**
   One line of `length` bytes, from the `k0`-th write on: the write of its prefix fails, or `taken` of
   its bytes are pushed below.
   */
  predicate IsTurn(b: Behaviour, n: nat, linestart: bool, length: nat, k0: nat, ok: bool, taken: nat, k: nat) {
    if linestart && !Answer(b, k0, n).0 then !ok && taken == 0 && k == k0 + 1
    else IsPush(b, if linestart then k0 + 1 else k0, length, ok, taken, k)
  }

  /** The write of the prefix for a line, if there is one that does not fail. */
  function LineWrite(b: Behaviour, n: nat, linestart: bool, k: nat): seq<nat> {
    if linestart && Answer(b, k, n).0 then [k] else []
  }

  /** The request from this line on. */
  lemma LineUnfolds(b: Behaviour, n: nat, linestart: bool, out: seq<byte>, w0: nat, k0: nat, ok: bool, w: nat, k: nat)
    requires w0 < |out| && w0 <= w && IsTurn(b, n, linestart, LineStop(out, w0) - w0, k0, ok, w - w0, k)
    ensures ok ==> 0 < w <= |out|
    ensures var first := LineWrite(b, n, linestart, k0);
      Lines(b, n, linestart, out, w0, k0) ==
        if ok then var rest := Lines(b, n, out[w - 1] == NEWLINE, out, w, k); rest.(at := first + rest.at)
        else Course(false, w, first, k)
  {
  }

  /** Such a line takes the request further, or ends it. */
  lemma {:induction false} LineTaken(b: Behaviour, n: nat, whole: Course, linestart: bool, out: seq<byte>, w0: nat,
                                     at0: seq<nat>, k0: nat, ok: bool, w: nat, k: nat)
    requires LinesTo(b, n, whole, linestart, out, w0, at0, k0) && w0 < |out| && w0 <= w
    requires IsTurn(b, n, linestart, LineStop(out, w0) - w0, k0, ok, w - w0, k)
    ensures var at := at0 + LineWrite(b, n, linestart, k0);
      if ok then 0 < w <= |out| && LinesTo(b, n, whole, out[w - 1] == NEWLINE, out, w, at, k)
      else whole == Course(false, w, at, k)
  {
    LineUnfolds(b, n, linestart, out, w0, k0, ok, w, k);
    if ok {
      Assoc(at0, LineWrite(b, n, linestart, k0), Lines(b, n, out[w - 1] == NEWLINE, out, w, k).at);
    }
  }

  lemma {:induction false} LineParts(b: Behaviour, p: seq<byte>, at: seq<nat>, linestart: bool, k: nat)
    ensures Parts(b, p, at + LineWrite(b, |p|, linestart, k)) ==
      Parts(b, p, at) + if linestart && Answer(b, k, |p|).0 then [p[..Answer(b, k, |p|).1]] else []
  {
    if linestart && Answer(b, k, |p|).0 {
      PartsMore(b, p, at, k);
    } else {
      assert at + [] == at && Parts(b, p, at) + [] == Parts(b, p, at);
    }
  }

  lemma LinesDone(b: Behaviour, n: nat, whole: Course, linestart: bool, out: seq<byte>, at: seq<nat>, k: nat)
    requires LinesTo(b, n, whole, linestart, out, |out|, at, k)
    ensures whole == Course(true, |out|, at, k)
  {
    assert at + [] == at;
  }

  /** What the BIO below took of the prefix in these writes. */
  function Parts(b: Behaviour, prefix: seq<byte>, at: seq<nat>): (parts: seq<seq<byte>>)
    ensures |parts| == |at|
    ensures forall j :: 0 <= j < |at| ==> parts[j] == prefix[..Answer(b, at[j], |prefix|).1]
  {
    if at == [] then []
    else
      var last := at[|at| - 1];
      Parts(b, prefix, at[..|at| - 1]) + [prefix[..Answer(b, last, |prefix|).1]]
  }

  /** It took all of the prefix in each of them. */
  predicate WholeAt(b: Behaviour, n: nat, at: seq<nat>) {
    forall j :: 0 <= j < |at| ==> Answer(b, at[j], n).1 == n
  }

  lemma {:induction false} WholePartsAt(b: Behaviour, prefix: seq<byte>, at: seq<nat>)
    ensures AreParts(Parts(b, prefix, at), prefix)
    ensures AllWhole(Parts(b, prefix, at), prefix) <==> WholeAt(b, |prefix|, at)
  {
    forall j | 0 <= j < |at|
      ensures Parts(b, prefix, at)[j] == prefix <==> Answer(b, at[j], |prefix|).1 == |prefix|
    {
      var part := Parts(b, prefix, at)[j];
      assert |part| == |prefix| ==> part == prefix;
    }
  }

  lemma {:induction false} PartsMore(b: Behaviour, prefix: seq<byte>, at: seq<nat>, k: nat)
    ensures Parts(b, prefix, at + [k]) == Parts(b, prefix, at) + [prefix[..Answer(b, k, |prefix|).1]]
  {
    assert (at + [k])[..|at|] == at;
  }

  // ----- requests and runs

  /** One request under a prefix; without one, submitted until all is taken or a write fails. */
  function Requested(b: Behaviour, prefix: seq<byte>, linestart: bool, out: seq<byte>, k: nat): (c: Course)
    ensures c.w <= |out| && (c.ok <==> c.w == |out|)
  {
    if prefix == [] then Course(Pushed(b, k, |out|) == |out|, Pushed(b, k, |out|), [], PushedCalls(b, k, |out|))
    else Lines(b, |prefix|, linestart, out, 0, k)
  }

  /** What comes out of it, when all is taken. */
  function OutputOf(parts: seq<seq<byte>>, prefix: seq<byte>, start: bool, bytes: seq<byte>): seq<byte> {
    if prefix == [] then bytes else EmitParts(parts, start, bytes)
  }

  /** One whole line: the state behind it, and what it adds to the line starts. */
  lemma {:induction false} LineCounts(start: bool, out: seq<byte>, w: nat)
    requires w < |out|
    ensures var e := LineStop(out, w);
      && After(start, out[..e]) == (out[e - 1] == NEWLINE)
      && LineStarts(start, out[..e]) == LineStarts(start, out[..w]) + if After(start, out[..w]) then 1 else 0
  {
    var e := LineStop(out, w);
    StartsSegment(start, out, w, e);
    assert out[..e][e - 1] == out[e - 1];
  }

  predicate AllAnswered(b: Behaviour, n: nat, at: seq<nat>) {
    forall j :: 0 <= j < |at| ==> Answer(b, at[j], n).0
  }

  lemma AnsweredMore(b: Behaviour, n: nat, first: seq<nat>, rest: seq<nat>)
    requires AllAnswered(b, n, first) && AllAnswered(b, n, rest)
    ensures AllAnswered(b, n, first + rest)
  {
  }

  /** The first line of a request that is taken whole, and where the rest of it goes on. */
  lemma LineWhole(b: Behaviour, n: nat, linestart: bool, out: seq<byte>, w: nat, k: nat)
    returns (start: bool, e: nat, next: nat, at: seq<nat>)
    requires w < |out| && Lines(b, n, linestart, out, w, k).ok
    ensures w < e <= |out| && e == LineStop(out, w) && start == (out[e - 1] == NEWLINE)
    ensures |at| == (if linestart then 1 else 0) && AllAnswered(b, n, at)
    ensures var rest := Lines(b, n, start, out, e, next);
      rest.ok && Lines(b, n, linestart, out, w, k).at == at + rest.at
  {
    e := LineStop(out, w);
    start, at := out[e - 1] == NEWLINE, if linestart then [k] else [];
    next := PushedCalls(b, k + |at|, e - w);
  }

  /** A request that is taken whole has a write of the prefix for every line that it starts. */
  lemma {:induction false} LinesFit(b: Behaviour, n: nat, start: bool, out: seq<byte>, w: nat, k: nat, linestart: bool)
    requires w <= |out| && linestart == After(start, out[..w]) && Lines(b, n, linestart, out, w, k).ok
    ensures LineStarts(start, out[..w]) + |Lines(b, n, linestart, out, w, k).at| == LineStarts(start, out)
    decreases |out| - w
  {
    if w == |out| {
      assert out[..w] == out;
    } else {
      var next, e, k1, at := LineWhole(b, n, linestart, out, w, k);
      LineCounts(start, out, w);
      LinesFit(b, n, start, out, e, k1, next);
    }
  }

  /** None of these writes failed. */
  lemma {:induction false} LinesAnswered(b: Behaviour, n: nat, linestart: bool, out: seq<byte>, w: nat, k: nat)
    requires w <= |out| && Lines(b, n, linestart, out, w, k).ok
    ensures AllAnswered(b, n, Lines(b, n, linestart, out, w, k).at)
    decreases |out| - w
  {
    if w < |out| {
      var start, e, next, at := LineWhole(b, n, linestart, out, w, k);
      LinesAnswered(b, n, start, out, e, next);
      AnsweredMore(b, n, at, Lines(b, n, start, out, e, next).at);
    }
  }

  lemma {:induction false} PushedWhole(b: Behaviour, k: nat, n: nat)
    requires NeverFails(b)
    ensures Pushed(b, k, n) == n
    decreases n
  {
    if n > 0 {
      PushedWhole(b, k + 1, n - Answer(b, k, n).1);
    }
  }

  lemma {:induction false} LinesWhole(b: Behaviour, n: nat, linestart: bool, out: seq<byte>, w: nat, k: nat)
    requires w <= |out| && NeverFails(b)
    ensures Lines(b, n, linestart, out, w, k).ok
    decreases |out| - w
  {
    if w < |out| {
      var e, k1 := LineStop(out, w), if linestart then k + 1 else k;
      PushedWhole(b, k1, e - w);
      LinesWhole(b, n, out[e - 1] == NEWLINE, out, e, PushedCalls(b, k1, e - w));
    }
  }

  datatype Op = Prefix(p: seq<byte>) | Write(bytes: seq<byte>)

  /** The wanted output, the prefix in force and the stream so far. */
  datatype Text = Text(output: seq<byte>, prefix: seq<byte>, stream: seq<byte>)

  function Step(t: Text, op: Op): Text {
    match op
    case Prefix(p) => t.(prefix := p)
    case Write(bytes) =>
      t.(output := t.output + Emit(t.prefix, After(true, t.stream), bytes), stream := t.stream + bytes)
  }

  /** What the first `n` operations of a run should produce. */
  function TextAfter(ops: seq<Op>, n: nat): Text
    requires n <= |ops|
  {
    if n == 0 then Text([], [], []) else Step(TextAfter(ops, n - 1), ops[n - 1])
  }

  /** One operation: whether it succeeds, its writes of the prefix, and the write after it. */
  function OpCourse(t: Text, op: Op, b: Behaviour, k: nat): (bool, seq<nat>, nat) {
    match op
    case Prefix(_) => (true, [], k)
    case Write(bytes) =>
      var c := Requested(b, t.prefix, After(true, t.stream), bytes, k); (c.ok, c.at, c.calls)
  }

  function OpOutput(t: Text, op: Op, b: Behaviour, at: seq<nat>): seq<byte> {
    match op
    case Prefix(_) => []
    case Write(bytes) => OutputOf(Parts(b, t.prefix, at), t.prefix, After(true, t.stream), bytes)
  }

  datatype Courses = Courses(ok: bool, taken: seq<seq<nat>>, calls: nat)

  /** The first `n` operations, up to the first write that fails. */
  function RunCourse(ops: seq<Op>, b: Behaviour, k: nat, n: nat): (c: Courses)
    requires n <= |ops|
    ensures c.ok ==> |c.taken| == n
  {
    if n == 0 then Courses(true, [], k)
    else
      var before := RunCourse(ops, b, k, n - 1);
      if !before.ok then before
      else
        var (ok, at, calls) := OpCourse(TextAfter(ops, n - 1), ops[n - 1], b, before.calls);
        Courses(ok, before.taken + [at], calls)
  }

  /** What the first `n` operations produce when these writes were those of the prefixes. */
  function Output(ops: seq<Op>, b: Behaviour, taken: seq<seq<nat>>, n: nat): seq<byte>
    requires n <= |ops| && n <= |taken|
  {
    if n == 0 then []
    else Output(ops, b, taken, n - 1) + OpOutput(TextAfter(ops, n - 1), ops[n - 1], b, taken[n - 1])
  }

  lemma {:induction false} MoreTaken(ops: seq<Op>, b: Behaviour, taken: seq<seq<nat>>, at: seq<nat>, n: nat)
    requires n <= |ops| && n <= |taken|
    ensures Output(ops, b, taken + [at], n) == Output(ops, b, taken, n)
    ensures NothingCut(ops, b, taken + [at], n) == NothingCut(ops, b, taken, n)
  {
    if n > 0 {
      MoreTaken(ops, b, taken, at, n - 1);
    }
  }

  lemma RunNext(ops: seq<Op>, b: Behaviour, k: nat, i: nat, was: seq<byte>)
    requires i < |ops| && RunCourse(ops, b, k, i).ok
    ensures var c := RunCourse(ops, b, k, i);
      var (ok, at, calls) := OpCourse(TextAfter(ops, i), ops[i], b, c.calls);
      && RunCourse(ops, b, k, i + 1) == Courses(ok, c.taken + [at], calls)
      && was + Output(ops, b, c.taken + [at], i + 1) ==
           (was + Output(ops, b, c.taken, i)) + OpOutput(TextAfter(ops, i), ops[i], b, at)
  {
    var c := RunCourse(ops, b, k, i);
    var at := OpCourse(TextAfter(ops, i), ops[i], b, c.calls).1;
    MoreTaken(ops, b, c.taken, at, i);
    Assoc(was, Output(ops, b, c.taken, i), OpOutput(TextAfter(ops, i), ops[i], b, at));
  }

  lemma {:induction false} RunStops(ops: seq<Op>, b: Behaviour, k: nat, n: nat)
    requires n <= |ops| && !RunCourse(ops, b, k, n).ok
    ensures !RunCourse(ops, b, k, |ops|).ok
    decreases |ops| - n
  {
    if n < |ops| {
      RunStops(ops, b, k, n + 1);
    }
  }

  // ----- when the output is the wanted one

  /** In the first `n` operations, every prefix was taken whole. */
  predicate NothingCut(ops: seq<Op>, b: Behaviour, taken: seq<seq<nat>>, n: nat)
    requires n <= |ops| && n <= |taken|
  {
    n > 0 ==> NothingCut(ops, b, taken, n - 1) && WholeAt(b, |TextAfter(ops, n - 1).prefix|, taken[n - 1])
  }

  /** The BIO below takes every prefix of the run whole, whenever it does not fail. */
  predicate TakesPrefixes(ops: seq<Op>, b: Behaviour) {
    forall i :: 0 <= i < |ops| && ops[i].Prefix? ==> TakesWhole(b, |ops[i].p|)
  }

  /** `out` is no longer than `wanted`, and as long only if it is `wanted` and `whole` holds. */
  predicate Shortens(out: seq<byte>, wanted: seq<byte>, whole: bool) {
    |out| <= |wanted| && (|out| == |wanted| <==> whole) && (whole ==> out == wanted)
  }

  lemma {:induction false} OutputShortens(b: Behaviour, prefix: seq<byte>, start: bool, bytes: seq<byte>, k: nat)
    requires Requested(b, prefix, start, bytes, k).ok
    ensures var at := Requested(b, prefix, start, bytes, k).at;
      Shortens(
        OutputOf(Parts(b, prefix, at), prefix, start, bytes), Emit(prefix, start, bytes), WholeAt(b, |prefix|, at))
  {
    var at := Requested(b, prefix, start, bytes, k).at;
    if prefix == [] {
      EmitNothing(start, bytes);
    } else {
      assert bytes[..0] == [];
      LinesFit(b, |prefix|, start, bytes, 0, k, start);
      WholePartsAt(b, prefix, at);
      PartsShorten(Parts(b, prefix, at), prefix, start, bytes);
    }
  }

  lemma OpShortens(t: Text, op: Op, b: Behaviour, k: nat)
    requires OpCourse(t, op, b, k).0
    ensures var at := OpCourse(t, op, b, k).1;
      Shortens(t.output + OpOutput(t, op, b, at), Step(t, op).output, WholeAt(b, |t.prefix|, at))
  {
    if op.Write? {
      OutputShortens(b, t.prefix, After(true, t.stream), op.bytes, k);
    } else {
      NoChange(t.output);
    }
  }

  lemma ShortensFurther(out: seq<byte>, wanted: seq<byte>, whole: bool, more: seq<byte>, wanted': seq<byte>,
                        whole': bool)
    requires Shortens(out, wanted, whole) && Shortens(wanted + more, wanted', whole')
    ensures Shortens(out + more, wanted', whole && whole')
  {
  }

  lemma ShortensNext(ops: seq<Op>, b: Behaviour, k: nat, n: nat)
    requires n < |ops| && RunCourse(ops, b, k, n + 1).ok
    requires var taken := RunCourse(ops, b, k, n).taken;
      Shortens(Output(ops, b, taken, n), TextAfter(ops, n).output, NothingCut(ops, b, taken, n))
    ensures var taken := RunCourse(ops, b, k, n + 1).taken;
      Shortens(Output(ops, b, taken, n + 1), TextAfter(ops, n + 1).output, NothingCut(ops, b, taken, n + 1))
  {
    var c, t, op := RunCourse(ops, b, k, n), TextAfter(ops, n), ops[n];
    var at := OpCourse(t, op, b, c.calls).1;
    var out, more, wanted := Output(ops, b, c.taken, n), OpOutput(t, op, b, at), Step(t, op).output;
    OpShortens(t, op, b, c.calls);
    MoreTaken(ops, b, c.taken, at, n);
    ShortensFurther(out, t.output, NothingCut(ops, b, c.taken, n), more, wanted, WholeAt(b, |t.prefix|, at));
    assert Output(ops, b, c.taken + [at], n + 1) == out + more && TextAfter(ops, n + 1).output == wanted;
  }

  lemma {:induction false} RunShortens(ops: seq<Op>, b: Behaviour, k: nat, n: nat)
    requires n <= |ops| && RunCourse(ops, b, k, n).ok
    ensures var taken := RunCourse(ops, b, k, n).taken;
      Shortens(Output(ops, b, taken, n), TextAfter(ops, n).output, NothingCut(ops, b, taken, n))
  {
    if n > 0 {
      RunShortens(ops, b, k, n - 1);
      ShortensNext(ops, b, k, n - 1);
    }
  }

  /**
   The output of a run that does not fail is the wanted one exactly when the BIO below takes the whole
   prefix in each of the writes that the operations and its own answers make the writes of a prefix.
   */
  lemma {:induction false} OutputExactly(ops: seq<Op>, b: Behaviour, k: nat)
    requires RunCourse(ops, b, k, |ops|).ok
    ensures var taken := RunCourse(ops, b, k, |ops|).taken;
      Output(ops, b, taken, |ops|) == TextAfter(ops, |ops|).output <==> NothingCut(ops, b, taken, |ops|)
  {
    RunShortens(ops, b, k, |ops|);
  }

  lemma {:induction false} PrefixTaken(ops: seq<Op>, b: Behaviour, n: nat)
    requires n <= |ops| && TakesPrefixes(ops, b)
    ensures TakesWhole(b, |TextAfter(ops, n).prefix|)
  {
    if n > 0 {
      PrefixTaken(ops, b, n - 1);
    }
  }

  lemma OpCutsNothing(t: Text, op: Op, b: Behaviour, k: nat)
    requires OpCourse(t, op, b, k).0 && TakesWhole(b, |t.prefix|)
    ensures WholeAt(b, |t.prefix|, OpCourse(t, op, b, k).1)
  {
    if op.Write? && t.prefix != [] {
      LinesAnswered(b, |t.prefix|, After(true, t.stream), op.bytes, 0, k);
    }
  }

  lemma CutsNothingNext(ops: seq<Op>, b: Behaviour, k: nat, n: nat)
    requires n < |ops| && RunCourse(ops, b, k, n + 1).ok && TakesPrefixes(ops, b)
    requires NothingCut(ops, b, RunCourse(ops, b, k, n).taken, n)
    ensures NothingCut(ops, b, RunCourse(ops, b, k, n + 1).taken, n + 1)
  {
    var c, t, op := RunCourse(ops, b, k, n), TextAfter(ops, n), ops[n];
    MoreTaken(ops, b, c.taken, OpCourse(t, op, b, c.calls).1, n);
    PrefixTaken(ops, b, n);
    OpCutsNothing(t, op, b, c.calls);
  }

  lemma {:induction false} RunCutsNothing(ops: seq<Op>, b: Behaviour, k: nat, n: nat)
    requires n <= |ops| && RunCourse(ops, b, k, n).ok && TakesPrefixes(ops, b)
    ensures NothingCut(ops, b, RunCourse(ops, b, k, n).taken, n)
  {
    if n > 0 {
      RunCutsNothing(ops, b, k, n - 1);
      CutsNothingNext(ops, b, k, n - 1);
    }
  }

  /** A BIO below that never fails lets every run succeed. */
  lemma {:induction false} RunSucceeds(ops: seq<Op>, b: Behaviour, k: nat, n: nat)
    requires n <= |ops| && NeverFails(b)
    ensures RunCourse(ops, b, k, n).ok
  {
    if n > 0 {
      RunSucceeds(ops, b, k, n - 1);
      var t, op, calls := TextAfter(ops, n - 1), ops[n - 1], RunCourse(ops, b, k, n - 1).calls;
      if op.Write? {
        PushedWhole(b, calls, |op.bytes|);
        LinesWhole(b, |t.prefix|, After(true, t.stream), op.bytes, 0, calls);
      }
    }
  }

  /** What a caller can know before a run: with such a BIO below, each line comes out once, its prefix before it. */
  lemma {:induction false} RunWanted(ops: seq<Op>, b: Behaviour, k: nat, n: nat)
    requires n == |ops|
    ensures NeverFails(b) ==> RunCourse(ops, b, k, n).ok
    ensures RunCourse(ops, b, k, n).ok && TakesPrefixes(ops, b) ==>
      Output(ops, b, RunCourse(ops, b, k, n).taken, n) == TextAfter(ops, n).output
  {
    if NeverFails(b) {
      RunSucceeds(ops, b, k, n);
    }
    if RunCourse(ops, b, k, n).ok && TakesPrefixes(ops, b) {
      RunCutsNothing(ops, b, k, n);
      OutputExactly(ops, b, k);
    }
  }

  /** Two writes in a row are as good as one: only the concatenated stream matters. */
  lemma TwoWritesAreOne(t: Text, a: seq<byte>, b: seq<byte>)
    ensures Step(Step(t, Write(a)), Write(b)) == Step(t, Write(a + b))
  {
    var start := After(true, t.stream);
    AfterSplit(true, t.stream, a);
    EmitSplit(t.prefix, start, a, b);
    Assoc(t.output, Emit(t.prefix, start, a), Emit(t.prefix, After(start, a), b));
    Assoc(t.stream, a, b);
  }

  /** What is out after the first bytes of a line. */
  lemma {:induction false} PartOfLineSent(parts: seq<seq<byte>>, start: bool, out: seq<byte>, w0: nat, w: nat)
    requires w0 < |out| && w0 <= w < LineStop(out, w0) && |parts| == Begun(start, out[..w0], false)
    ensures Sent(parts, start, out[..w0], false) + out[w0..w] == Sent(parts, start, out[..w], false)
    ensures |parts| == Begun(start, out[..w], false)
  {
    SegmentTaken(parts, start, out, w0, w, LineStop(out, w0));
  }

  /** What is out after the whole line. */
  lemma {:induction false} WholeLineSent(parts: seq<seq<byte>>, start: bool, out: seq<byte>, w0: nat)
    requires w0 < |out| && |parts| == Begun(start, out[..w0], false)
    ensures var w := LineStop(out, w0);
      var linestart := out[w - 1] == NEWLINE;
      && Sent(parts, start, out[..w0], false) + out[w0..w] == Sent(parts, start, out[..w], linestart)
      && |parts| == Begun(start, out[..w], linestart) && After(start, out[..w]) == linestart
  {
    var w := LineStop(out, w0);
    SegmentTaken(parts, start, out, w0, w, w);
    NoChange(EmitParts(parts, start, out[..w]));
  }
}
