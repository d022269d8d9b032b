/**
 `next_protos_parse` of `apps.c`: a comma separated list of protocol names becomes
 the list of length-prefixed names of section 3.1 of RFC 7301, without its outer length.
 */
module NextProtos {
  import opened Common

  const COMMA: byte := 44

  // ----- comma separated fields

  predicate NoComma(f: seq<byte>) {
    forall k :: 0 <= k < |f| ==> f[k] != COMMA
  }

  predicate CommaFreeFields(fs: seq<seq<byte>>) {
    forall j :: 0 <= j < |fs| ==> NoComma(fs[j])
  }

  function Split(s: seq<byte>): (fs: seq<seq<byte>>)
    ensures fs != []
  {
    if s == [] then [[]]
    else if s[0] == COMMA then [[]] + Split(s[1..])
    else
      var rest := Split(s[1..]);
      [[s[0]] + rest[0]] + rest[1..]
  }

  function Join(fs: seq<seq<byte>>): seq<byte>
    requires fs != []
  {
    if |fs| == 1 then fs[0] else fs[0] + [COMMA] + Join(fs[1..])
  }

  /** `Split` is the one way to write `s` as comma-free fields joined by commas. */
  lemma {:induction false} SplitMeaning(s: seq<byte>)
    ensures Join(Split(s)) == s
    ensures CommaFreeFields(Split(s))
  {
    if s == [] {
    } else {
      SplitMeaning(s[1..]);
      var rest := Split(s[1..]);
      if s[0] == COMMA {
        assert Split(s)[1..] == rest;
      } else {
        assert Split(s)[1..] == rest[1..];
        assert s == [s[0]] + s[1..];
      }
    }
  }

  lemma {:induction false} SplitJoin(fs: seq<seq<byte>>)
    requires fs != [] && CommaFreeFields(fs)
    ensures Split(Join(fs)) == fs
  {
    if |fs| == 1 {
      SplitNoComma(fs[0]);
    } else {
      SplitJoin(fs[1..]);
      var s := Join(fs);
      var k := |fs[0]|;
      assert s[..k] == fs[0] && s[k] == COMMA && s[k + 1..] == Join(fs[1..]);
      SplitAt(s, k);
    }
  }

  lemma {:induction false} SplitNoComma(s: seq<byte>)
    requires NoComma(s)
    ensures Split(s) == [s]
  {
    if s != [] {
      SplitNoComma(s[1..]);
      assert s == [s[0]] + s[1..];
    }
  }

  lemma {:induction false} SplitAt(s: seq<byte>, k: nat)
    requires k < |s| && NoComma(s[..k]) && s[k] == COMMA
    ensures Split(s) == [s[..k]] + Split(s[k + 1..])
  {
    if k > 0 {
      assert s[0] == s[..k][0];
      assert s[1..][..k - 1] == s[..k][1..];
      SplitAt(s[1..], k - 1);
      assert s[1..][k..] == s[k + 1..];
      assert s[..k] == [s[0]] + s[1..][..k - 1];
    }
  }

  // ----- the wire form

  function NonEmpty(fs: seq<seq<byte>>): seq<seq<byte>> {
    if fs == [] then [] else (if fs[0] == [] then [] else [fs[0]]) + NonEmpty(fs[1..])
  }

  /** No field is longer than one length byte can say. */
  predicate Short(fs: seq<seq<byte>>) {
    forall j :: 0 <= j < |fs| ==> |fs[j]| <= 255
  }

  predicate Encodable(fs: seq<seq<byte>>) {
    Short(fs) && forall j :: 0 <= j < |fs| ==> fs[j] != []
  }

  lemma {:induction false} NonEmptyIn(fs: seq<seq<byte>>, f: seq<byte>)
    ensures f in NonEmpty(fs) <==> f in fs && f != []
  {
    if fs != [] {
      NonEmptyIn(fs[1..], f);
    }
  }

  lemma {:induction false} NonEmptyEncodable(fs: seq<seq<byte>>)
    requires Short(fs)
    ensures Encodable(NonEmpty(fs))
  {
    var gs := NonEmpty(fs);
    forall j | 0 <= j < |gs|
      ensures 1 <= |gs[j]| <= 255
    {
      NonEmptyIn(fs, gs[j]);
    }
  }

  function Prefixed(f: seq<byte>): seq<byte> {
    [(|f| % 256) as byte] + f
  }

  function Encode(fs: seq<seq<byte>>): seq<byte> {
    if fs == [] then [] else Prefixed(fs[0]) + Encode(fs[1..])
  }

  /** Reads length-prefixed names; `None` on an empty or cut-off name. */
  function DecodeList(w: seq<byte>): Option<seq<seq<byte>>> {
    if w == [] then Some([])
    else
      var n: nat := w[0];
      if n == 0 || |w| < 1 + n then None
      else
        var rest := DecodeList(w[1 + n..]);
        if rest.Some? then Some([w[1..1 + n]] + rest.value) else None
  }

  /** Decoding gives the names back, so distinct lists of names have distinct wire forms. */
  lemma {:induction false} DecodeEncode(fs: seq<seq<byte>>)
    requires Encodable(fs)
    ensures DecodeList(Encode(fs)) == Some(fs)
  {
    if fs != [] {
      DecodeEncode(fs[1..]);
      DecodePrefixed(fs[0], Encode(fs[1..]));
      assert [fs[0]] + fs[1..] == fs;
    }
  }

  lemma {:induction false} DecodePrefixed(f: seq<byte>, w: seq<byte>)
    requires 0 < |f| <= 255 && DecodeList(w).Some?
    ensures DecodeList(Prefixed(f) + w) == Some([f] + DecodeList(w).value)
  {
    var all := Prefixed(f) + w;
    assert all[1..1 + |f|] == f;
    assert all[1 + |f|..] == w;
  }

  /** Decoding the wire form of an accepted input gives its non-empty fields. */
  lemma {:induction false} WireDecodes(s: seq<byte>)
    requires !Rejected(s)
    ensures DecodeList(Wire(s)) == Some(NonEmpty(Split(s)))
  {
    NonEmptyEncodable(Split(s));
    DecodeEncode(NonEmpty(Split(s)));
  }

  lemma {:induction false} EncodeAppend(fs: seq<seq<byte>>, f: seq<byte>)
    ensures Encode(fs + [f]) == Encode(fs) + Prefixed(f)
  {
    if fs == [] {
      assert fs + [f] == [f] && [f][1..] == [];
    } else {
      EncodeAppend(fs[1..], f);
      assert (fs + [f])[1..] == fs[1..] + [f];
      Assoc(Prefixed(fs[0]), Encode(fs[1..]), Prefixed(f));
    }
  }

  lemma {:induction false} NonEmptyAppend(fs: seq<seq<byte>>, f: seq<byte>)
    ensures NonEmpty(fs + [f]) == if f == [] then NonEmpty(fs) else NonEmpty(fs) + [f]
  {
    if fs == [] {
      assert fs + [f] == [f];
    } else {
      NonEmptyAppend(fs[1..], f);
      assert (fs + [f])[1..] == fs[1..] + [f];
    }
  }

  // ----- the routine

  /**
   Null for an empty input and one of 65535 bytes or more, for a field that one length byte cannot describe, and
   when all fields are empty.
   */
  predicate Rejected(s: seq<byte>) {
    |s| == 0 || |s| >= 65535 || !Short(Split(s)) || NonEmpty(Split(s)) == []
  }

  function Wire(s: seq<byte>): seq<byte> {
    Encode(NonEmpty(Split(s)))
  }

  /** The input read so far, a comma after every field of it. */
  function Terminated(fs: seq<seq<byte>>): seq<byte> {
    if fs == [] then [] else Terminated(fs[..|fs| - 1]) + fs[|fs| - 1] + [COMMA]
  }

  /** The output written for these fields. */
  function Written(fs: seq<seq<byte>>): seq<byte> {
    if fs == [] then [] else WriteField(Written(fs[..|fs| - 1]), fs[|fs| - 1])
  }

  function WriteField(w: seq<byte>, f: seq<byte>): seq<byte> {
    if f == [] then w else w + Prefixed(f)
  }

  lemma {:induction false} ReadField(fs: seq<seq<byte>>, f: seq<byte>)
    ensures Terminated(fs + [f]) == Terminated(fs) + f + [COMMA]
    ensures Written(fs + [f]) == WriteField(Written(fs), f)
  {
    assert (fs + [f])[..|fs|] == fs;
  }

  lemma {:induction false} WrittenIsEncoded(fs: seq<seq<byte>>)
    ensures Written(fs) == Encode(NonEmpty(fs))
  {
    if fs != [] {
      var init, f := fs[..|fs| - 1], fs[|fs| - 1];
      WrittenIsEncoded(init);
      assert fs == init + [f];
      EncodeField(init, f);
    }
  }

  lemma {:induction false} EncodeField(fs: seq<seq<byte>>, f: seq<byte>)
    ensures Encode(NonEmpty(fs + [f])) == WriteField(Encode(NonEmpty(fs)), f)
  {
    NonEmptyAppend(fs, f);
    EncodeAppend(NonEmpty(fs), f);
  }

  lemma {:induction false} TerminatedJoin(fs: seq<seq<byte>>)
    requires fs != []
    ensures Terminated(fs) == Join(fs) + [COMMA]
  {
    if |fs| == 1 {
      assert Terminated(fs[..0]) == [];
    } else {
      var last := fs[|fs| - 1];
      TerminatedJoin(fs[..|fs| - 1]);
      JoinAppend(fs[..|fs| - 1], last);
      assert fs == fs[..|fs| - 1] + [last];
    }
  }

  lemma {:induction false} JoinAppend(fs: seq<seq<byte>>, f: seq<byte>)
    requires fs != []
    ensures Join(fs + [f]) == Join(fs) + [COMMA] + f
  {
    if |fs| == 1 {
      assert (fs + [f])[1..] == [f];
    } else {
      JoinAppend(fs[1..], f);
      assert (fs + [f])[1..] == fs[1..] + [f];
    }
  }

  /** Fields read to the end of the input are its fields. */
  lemma {:induction false} ReadAll(s: seq<byte>, fs: seq<seq<byte>>)
    requires CommaFreeFields(fs) && s + [COMMA] == Terminated(fs)
    ensures fs == Split(s)
  {
    TerminatedJoin(fs);
    assert (s + [COMMA])[..|s|] == s && (Join(fs) + [COMMA])[..|s|] == Join(fs);
    SplitJoin(fs);
  }

  /** A field read on the way is one of the input's fields. */
  lemma {:induction false} ReadFieldIsField(s: seq<byte>, fs: seq<seq<byte>>, n: nat)
    requires n <= |s| + 1 && fs != [] && CommaFreeFields(fs) && (s + [COMMA])[..n] == Terminated(fs)
    ensures fs[|fs| - 1] in Split(s)
  {
    if n == |s| + 1 {
      assert (s + [COMMA])[..n] == s + [COMMA];
      ReadAll(s, fs);
    } else {
      var rest := Split(s[n..]);
      SplitMeaning(s[n..]);
      TerminatedJoin(fs);
      JoinConcat(fs, rest);
      assert s == s[..n] + s[n..] && s[..n] == (s + [COMMA])[..n];
      assert CommaFreeFields(fs + rest);
      SplitJoin(fs + rest);
      assert Split(s)[|fs| - 1] == fs[|fs| - 1];
    }
  }

  lemma {:induction false} JoinConcat(fs: seq<seq<byte>>, gs: seq<seq<byte>>)
    requires fs != [] && gs != []
    ensures Join(fs + gs) == Join(fs) + [COMMA] + Join(gs)
  {
    if |fs| == 1 {
      assert (fs + gs)[1..] == gs;
    } else {
      JoinConcat(fs[1..], gs);
      assert (fs + gs)[1..] == fs[1..] + gs;
    }
  }

  lemma {:induction false} EncodeNotShort(fs: seq<seq<byte>>)
    ensures if NonEmpty(fs) == [] then |Written(fs)| == 0 else |Written(fs)| >= 2
  {
    WrittenIsEncoded(fs);
    var gs := NonEmpty(fs);
    if gs != [] {
      NonEmptyIn(fs, gs[0]);
    }
  }

  ghost predicate NoCommaIn(t: seq<byte>, start: nat, i: nat)
    requires i <= |t|
  {
    forall k :: start <= k < i ==> t[k] != COMMA
  }

  /** `t` up to `start` is a list of short fields, each ended by a comma. */
  ghost predicate ReadSoFar(t: seq<byte>, start: nat, fs: seq<seq<byte>>) {
    start <= |t| && t[..start] == Terminated(fs) && CommaFreeFields(fs) && Short(fs)
  }

  lemma {:induction false} CloseField(t: seq<byte>, start: nat, i: nat, fs: seq<seq<byte>>)
    requires start <= i < |t| && t[i] == COMMA && NoCommaIn(t, start, i) && ReadSoFar(t, start, fs)
    ensures i - start <= 255 ==> ReadSoFar(t, i + 1, fs + [t[start..i]])
    ensures Written(fs + [t[start..i]]) == WriteField(Written(fs), t[start..i])
    ensures t[i + 1..i + 1] == []
  {
    var field := t[start..i];
    assert NoComma(field);
    ReadField(fs, field);
    assert t[..i + 1] == t[..start] + field + [COMMA];
  }

  lemma ReadByte(t: seq<byte>, start: nat, i: nat)
    requires start <= i < |t| && t[i] != COMMA && NoCommaIn(t, start, i)
    ensures t[start..i + 1] == t[start..i] + [t[i]]
    ensures NoCommaIn(t, start, i + 1)
  {
    assert t[start..i + 1] == t[start..i] + [t[i]];
  }

  lemma RejectLong(s: seq<byte>, start: nat, i: nat, fs: seq<seq<byte>>)
    requires var t := s + [COMMA];
      start <= i < |t| && t[i] == COMMA && NoCommaIn(t, start, i) && ReadSoFar(t, start, fs)
    requires i - start > 255
    ensures Rejected(s)
  {
    var t := s + [COMMA];
    ReadField(fs, t[start..i]);
    assert t[..i + 1] == t[..start] + t[start..i] + [COMMA];
    ReadFieldIsField(s, fs + [t[start..i]], i + 1);
  }

  lemma {:induction false} Finish(s: seq<byte>, start: nat, fs: seq<seq<byte>>)
    requires 0 < |s| < 65535
    requires ReadSoFar(s + [COMMA], start, fs) && NoCommaIn(s + [COMMA], start, |s| + 1)
    ensures start == |s| + 1
    ensures Rejected(s) <==> |Written(fs)| < 2
    ensures |Written(fs)| != 1 && Wire(s) == Written(fs)
  {
    var t := s + [COMMA];
    assert t[|s|] == COMMA;
    assert t[..start] == t;
    ReadAll(s, fs);
    WrittenIsEncoded(fs);
    EncodeNotShort(fs);
  }

  // ----- the wire form, byte by byte

  predicate IsComma(b: byte) {
    b as char == ','
  }

  /** Where the fields of `t` start: at 0 and behind each comma, with the end of `t` as the last place. */
  ghost predicate Cuts(t: seq<byte>, start: seq<nat>) {
    && start != [] && start[0] == 0 && start[|start| - 1] == |t|
    && (forall j :: 0 < j < |start| ==> start[j - 1] < start[j] <= |t| && IsComma(t[start[j] - 1]))
    && forall i :: 0 <= i < |t| && IsComma(t[i]) ==> i + 1 in start
  }

  /** The field from `a` to `b` takes the output from `x` to `y`: nothing, or its length and its bytes. */
  predicate FieldAt(t: seq<byte>, a: nat, b: nat, w: seq<byte>, x: nat, y: nat) {
    && a <= b < |t| && x <= y <= |w|
    && if a == b then y == x else y == x + 1 + (b - a) && w[x] == b - a && w[x + 1..y] == t[a..b]
  }

  /** The output is that of the fields, in order and without a gap. */
  ghost predicate FieldsOut(t: seq<byte>, start: seq<nat>, w: seq<byte>, at: seq<nat>) {
    && |at| == |start| > 0 && at[0] == 0 && at[|at| - 1] == |w|
    && forall j :: 0 < j < |at| ==> start[j] > 0 && FieldAt(t, start[j - 1], start[j] - 1, w, at[j - 1], at[j])
  }

  lemma CommaPlaces(t: seq<byte>, f: seq<byte>, t': seq<byte>)
    requires NoComma(f) && t' == t + f + [COMMA]
    ensures t <= t' && IsComma(t'[|t'| - 1])
    ensures forall i :: |t| <= i < |t'| && IsComma(t'[i]) ==> i == |t'| - 1
  {
    assert forall i :: 0 <= i < |f| ==> !IsComma(f[i]);
    assert t'[|t|..|t'| - 1] == f;
  }

  lemma CutsNext(t: seq<byte>, start: seq<nat>, f: seq<byte>, t': seq<byte>)
    requires Cuts(t, start) && NoComma(f) && t' == t + f + [COMMA]
    ensures Cuts(t', start + [|t'|])
  {
    var start' := start + [|t'|];
    CommaPlaces(t, f, t');
    forall i | 0 <= i < |t'| && IsComma(t'[i])
      ensures i + 1 in start'
    {
      assert i < |t| ==> i + 1 in start;
    }
  }

  lemma FieldStays(t: seq<byte>, w: seq<byte>, t': seq<byte>, w': seq<byte>, a: nat, b: nat, x: nat, y: nat)
    requires t <= t' && w <= w' && FieldAt(t, a, b, w, x, y)
    ensures FieldAt(t', a, b, w', x, y)
  {
    assert t'[a..b] == t[a..b];
    assert a < b ==> w'[x + 1..y] == w[x + 1..y] && w'[x] == w[x];
  }

  lemma FieldAdded(t: seq<byte>, w: seq<byte>, f: seq<byte>)
    requires |f| <= 255
    ensures FieldAt(t + f + [COMMA], |t|, |t| + |f|, WriteField(w, f), |w|, |WriteField(w, f)|)
  {
  }

  lemma FieldsOutNext(t: seq<byte>, start: seq<nat>, w: seq<byte>, at: seq<nat>, f: seq<byte>, t': seq<byte>,
                      w': seq<byte>)
    requires start != [] && start[|start| - 1] == |t| && FieldsOut(t, start, w, at) && |f| <= 255
    requires t' == t + f + [COMMA] && w' == WriteField(w, f)
    ensures FieldsOut(t', start + [|t'|], w', at + [|w'|])
  {
    var start', at' := start + [|t'|], at + [|w'|];
    assert t <= t' && w <= w';
    forall j | 0 < j < |at'|
      ensures start'[j] > 0 && FieldAt(t', start'[j - 1], start'[j] - 1, w', at'[j - 1], at'[j])
    {
      if j < |at| {
        FieldStays(t, w, t', w', start[j - 1], start[j] - 1, at[j - 1], at[j]);
      } else {
        FieldAdded(t, w, f);
      }
    }
  }

  /** The places are as far apart as the fields are long. */
  ghost predicate Spaced(start: seq<nat>, fs: seq<seq<byte>>) {
    |start| == |fs| + 1 && forall j :: 0 < j < |start| ==> start[j] == start[j - 1] + |fs[j - 1]| + 1
  }

  lemma SpacedNext(start: seq<nat>, fs: seq<seq<byte>>, f: seq<byte>, end: nat)
    requires Spaced(start, fs) && end == start[|fs|] + |f| + 1
    ensures Spaced(start + [end], fs + [f])
  {
    var start', fs' := start + [end], fs + [f];
    forall j | 0 < j < |start'|
      ensures start'[j] == start'[j - 1] + |fs'[j - 1]| + 1
    {
      if j < |start| {
        assert fs'[j - 1] == fs[j - 1];
      }
    }
  }

  lemma {:induction false} FieldsWritten(fs: seq<seq<byte>>) returns (start: seq<nat>, at: seq<nat>)
    requires CommaFreeFields(fs)
    ensures Cuts(Terminated(fs), start) && Spaced(start, fs)
    ensures Short(fs) ==> FieldsOut(Terminated(fs), start, Written(fs), at)
  {
    if fs == [] {
      return [0], [0];
    }
    var init, f := fs[..|fs| - 1], fs[|fs| - 1];
    assert fs == init + [f];
    start, at := FieldsWritten(init);
    start, at := FieldsStep(init, f, start, at);
  }

  lemma {:induction false} FieldsStep(init: seq<seq<byte>>, f: seq<byte>, start0: seq<nat>, at0: seq<nat>)
    returns (start: seq<nat>, at: seq<nat>)
    requires NoComma(f) && Cuts(Terminated(init), start0) && Spaced(start0, init)
    requires Short(init) ==> FieldsOut(Terminated(init), start0, Written(init), at0)
    ensures Cuts(Terminated(init + [f]), start) && Spaced(start, init + [f])
    ensures Short(init + [f]) ==> FieldsOut(Terminated(init + [f]), start, Written(init + [f]), at)
  {
    var t, w := Terminated(init + [f]), Written(init + [f]);
    ReadField(init, f);
    CutsNext(Terminated(init), start0, f, t);
    SpacedNext(start0, init, f, |t|);
    start, at := start0 + [|t|], at0 + [|w|];
    if Short(init + [f]) {
      ShortParts(init, f);
      FieldsOutNext(Terminated(init), start0, Written(init), at0, f, t, w);
    }
  }

  lemma ShortParts(fs: seq<seq<byte>>, f: seq<byte>)
    requires Short(fs + [f])
    ensures Short(fs) && |f| <= 255
  {
    assert (fs + [f])[|fs|] == f;
    forall j | 0 <= j < |fs|
      ensures |fs[j]| <= 255
    {
      assert (fs + [f])[j] == fs[j];
    }
  }

  /** The fields of the input with a comma behind it, and the output that they take. */
  lemma {:induction false} WireAt(s: seq<byte>) returns (start: seq<nat>, at: seq<nat>)
    requires !Rejected(s)
    ensures Cuts(s + [COMMA], start) && FieldsOut(s + [COMMA], start, Wire(s), at)
  {
    var fs := Split(s);
    SplitMeaning(s);
    TerminatedJoin(fs);
    WrittenIsEncoded(fs);
    start, at := FieldsWritten(fs);
  }

  /** 256 bytes in a row without a comma. */
  predicate LongStretch(s: seq<byte>, a: nat) {
    a + 256 <= |s| && forall i :: a <= i < a + 256 ==> !IsComma(s[i])
  }

  /** The fields of an input as its stretches between commas. */
  lemma {:induction false} FieldPlaces(s: seq<byte>) returns (start: seq<nat>)
    ensures Cuts(s + [COMMA], start) && Spaced(start, Split(s))
  {
    var at;
    SplitMeaning(s);
    TerminatedJoin(Split(s));
    start, at := FieldsWritten(Split(s));
  }

  /** The field that a place belongs to. */
  lemma {:induction false} FieldOf(start: seq<nat>, k: nat, a: nat) returns (j: nat)
    requires 0 < k < |start| && start[0] == 0 && a < start[k]
    ensures 0 < j <= k && start[j - 1] <= a < start[j]
  {
    if start[k - 1] <= a {
      j := k;
    } else {
      j := FieldOf(start, k - 1, a);
    }
  }

  /** Between two cuts there is no comma but the last byte. */
  lemma {:induction false} CutsOrdered(t: seq<byte>, start: seq<nat>, i: nat, j: nat)
    requires Cuts(t, start) && i < j < |start|
    ensures start[i] < start[j]
  {
    if i < j - 1 {
      CutsOrdered(t, start, i, j - 1);
    }
  }

  lemma NoneBetween(t: seq<byte>, start: seq<nat>, j: nat, i: nat)
    requires Cuts(t, start) && 0 < j < |start| && start[j - 1] <= i < start[j] - 1
    ensures !IsComma(t[i])
  {
    if IsComma(t[i]) {
      var k :| 0 <= k < |start| && start[k] == i + 1;
      if k < j - 1 {
        CutsOrdered(t, start, k, j - 1);
      } else if k > j {
        CutsOrdered(t, start, j, k);
      }
    }
  }

  lemma {:induction false} ShortExactly(s: seq<byte>)
    ensures Short(Split(s)) <==> forall a: nat :: !LongStretch(s, a)
  {
    var fs, t := Split(s), s + [COMMA];
    var start := FieldPlaces(s);
    forall j | 0 <= j < |fs| && |fs[j]| > 255
      ensures exists a: nat :: LongStretch(s, a)
    {
      var a := start[j];
      assert start[j + 1] == a + |fs[j]| + 1 <= |t|;
      forall i | a <= i < a + 256
        ensures !IsComma(s[i])
      {
        NoneBetween(t, start, j + 1, i);
      }
      assert LongStretch(s, a);
    }
    forall a: nat | LongStretch(s, a)
      ensures !Short(fs)
    {
      var j := FieldOf(start, |start| - 1, a);
      assert start[j] - 1 >= a + 256 by {
        if start[j] - 1 < |s| {
          assert t[start[j] - 1] == s[start[j] - 1];
        }
      }
      assert |fs[j - 1]| > 255;
    }
  }

  /** A byte that is no comma stands in a field, and a field has none that is. */
  lemma FieldAround(s: seq<byte>, i: nat) returns (f: seq<byte>)
    requires i < |s| && !IsComma(s[i])
    ensures f in Split(s) && f != []
  {
    var t, start := s + [COMMA], [];
    start := FieldPlaces(s);
    var j := FieldOf(start, |start| - 1, i);
    assert t[i] == s[i];
    f := Split(s)[j - 1];
  }

  lemma FieldHasByte(s: seq<byte>, j: nat) returns (i: nat)
    requires j < |Split(s)| && Split(s)[j] != []
    ensures i < |s| && !IsComma(s[i])
  {
    var t, start := s + [COMMA], [];
    start := FieldPlaces(s);
    i := start[j];
    assert start[j + 1] <= |t|;
    NoneBetween(t, start, j + 1, i);
  }

  lemma {:induction false} AllEmptyExactly(s: seq<byte>)
    ensures NonEmpty(Split(s)) == [] <==> forall i :: 0 <= i < |s| ==> IsComma(s[i])
  {
    if i :| 0 <= i < |s| && !IsComma(s[i]) {
      var f := FieldAround(s, i);
      NonEmptyIn(Split(s), f);
    }
    if NonEmpty(Split(s)) != [] {
      var f := NonEmpty(Split(s))[0];
      NonEmptyIn(Split(s), f);
      var j :| 0 <= j < |Split(s)| && Split(s)[j] == f;
      var i := FieldHasByte(s, j);
    }
  }

  /** Which inputs are rejected, by their length and their commas. */
  lemma {:induction false} RejectedExactly(s: seq<byte>)
    ensures Rejected(s) <==>
      || |s| == 0 || |s| >= 65535
      || (exists a: nat :: LongStretch(s, a))
      || (forall i :: 0 <= i < |s| ==> IsComma(s[i]))
  {
    ShortExactly(s);
    AllEmptyExactly(s);
  }

  // ----- the loop

  /** The buffer `o` starts with `wire`; the bytes of `field` follow after one place left for its length. */
  ghost predicate Laid(o: seq<byte>, wire: seq<byte>, field: seq<byte>) {
    wire <= o && (field != [] ==> |wire| + 1 + |field| <= |o| && field <= o[|wire| + 1..])
  }

  /** What the loop keeps: the buffer `o` after the first `i` bytes of the terminated input `t`. */
  ghost predicate Parsing(t: seq<byte>, o: seq<byte>, i: nat, start: nat, skipped: nat, fs: seq<seq<byte>>) {
    && skipped <= start <= i <= |t| == |o|
    && ReadSoFar(t, start, fs)
    && NoCommaIn(t, start, i)
    && |Written(fs)| == start - skipped
    && Laid(o, Written(fs), t[start..i])
  }

  lemma StepByte(t: seq<byte>, o: seq<byte>, i: nat, start: nat, skipped: nat, fs: seq<seq<byte>>)
    requires Parsing(t, o, i, start, skipped, fs) && i + 1 < |t| && t[i] != COMMA
    ensures Parsing(t, o[i + 1 - skipped := t[i]], i + 1, start, skipped, fs)
  {
    ReadByte(t, start, i);
    LayByte(o, Written(fs), t[start..i], t[i]);
  }

  lemma StepSkip(t: seq<byte>, o: seq<byte>, i: nat, skipped: nat, fs: seq<seq<byte>>)
    requires Parsing(t, o, i, i, skipped, fs) && i < |t| && t[i] == COMMA
    ensures Parsing(t, o, i + 1, i + 1, skipped + 1, fs + [[]])
  {
    CloseField(t, i, i, fs);
    assert t[i..i] == [];
  }

  lemma StepLength(t: seq<byte>, o: seq<byte>, i: nat, start: nat, skipped: nat, fs: seq<seq<byte>>)
    requires Parsing(t, o, i, start, skipped, fs) && start < i < |t| && t[i] == COMMA && i - start <= 255
    ensures Parsing(t, o[start - skipped := (i - start) as byte], i + 1, i + 1, skipped, fs + [t[start..i]])
  {
    CloseField(t, start, i, fs);
    LayLength(o, Written(fs), t[start..i], (i - start) as byte);
  }

  lemma LayByte(o: seq<byte>, wire: seq<byte>, field: seq<byte>, b: byte)
    requires Laid(o, wire, field) && |wire| + 1 + |field| < |o|
    ensures Laid(o[|wire| + 1 + |field| := b], wire, field + [b])
  {
    var o' := o[|wire| + 1 + |field| := b];
    assert o'[|wire| + 1..] == o[|wire| + 1..][|field| := b];
  }

  lemma LayLength(o: seq<byte>, wire: seq<byte>, field: seq<byte>, b: byte)
    requires Laid(o, wire, field) && field != [] && b == |field|
    ensures Laid(o[|wire| := b], WriteField(wire, field), [])
  {
    var o' := o[|wire| := b];
    assert Prefixed(field) == [b] + field;
    assert o' == o[..|wire|] + [b] + o[|wire| + 1..];
  }

  /** One turn of the loop of `NextProtosParse`; false when it meets a field that is too long. */
  method NextByte(s: seq<byte>, out: array<byte>, i: nat, start0: nat, skipped0: nat, ghost fields0: seq<seq<byte>>)
    returns (ok: bool, start: nat, skipped: nat, ghost fields: seq<seq<byte>>)
    requires i <= |s| && out.Length == |s| + 1 && Parsing(s + [COMMA], out[..], i, start0, skipped0, fields0)
    modifies out
    ensures ok ==> Parsing(s + [COMMA], out[..], i + 1, start, skipped, fields)
    ensures !ok ==> Rejected(s)
  {
    ok, start, skipped, fields := true, start0, skipped0, fields0;
    ghost var t := s + [COMMA];
    if i == |s| || s[i] == COMMA {
      if i == start {
        StepSkip(t, out[..], i, skipped, fields);
        start := start + 1;
        skipped := skipped + 1;
        fields := fields + [[]];
      } else {
        if i - start > 255 {
          RejectLong(s, start, i, fields);
          ok := false;
          return;
        }
        StepLength(t, out[..], i, start, skipped, fields);
        out[start - skipped] := (i - start) as byte;
        fields := fields + [t[start..i]];
        start := i + 1;
      }
    } else {
      StepByte(t, out[..], i, start, skipped, fields);
      out[i + 1 - skipped] := s[i];
    }
  }

  method NextProtosParse(s: seq<byte>) returns (r: Option<array<byte>>, outlen: nat)
    ensures r.None? <==> Rejected(s)
    ensures r.Some? ==> outlen == |Wire(s)| <= r.value.Length == |s| + 1 && r.value[..outlen] == Wire(s)
    ensures r.Some? ==> DecodeList(r.value[..outlen]) == Some(NonEmpty(Split(s)))
  {
    outlen := 0;
    var len := |s|;
    if len == 0 || len >= 65535 {
      return None, 0;
    }
    var out := new byte[len + 1];
    var i: nat, start: nat, skipped: nat := 0, 0, 0;
    ghost var t := s + [COMMA];
    ghost var fields: seq<seq<byte>> := [];
    while i <= len
      invariant Parsing(t, out[..], i, start, skipped, fields)
      decreases len + 1 - i
    {
      var ok;
      ok, start, skipped, fields := NextByte(s, out, i, start, skipped, fields);
      if !ok {
        return None, 0;
      }
      i := i + 1;
    }
    Finish(s, start, fields);
    if len <= skipped {
      return None, 0;
    }
    outlen := len + 1 - skipped;
    WireDecodes(s);
    r := Some(out);
  }
}
