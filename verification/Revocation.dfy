/**
 The revocation field of the CA database (`ca.c`): `make_revocation_str` writes
 `time[,reason[,extra]]`, `unpack_revinfo` reads it.

 The validity tests of the ASN.1 library are parameters.
 */
module Revocation {
  import opened Common

  datatype RevType = RevValid | RevNone | RevCrlReason | RevHold | RevKeyCompromise | RevCaCompromise

  /** The library's answers: UTC times, object identifiers and generalized times it accepts. */
  datatype Asn1 = Asn1(utcTime: string -> bool, oid: string -> bool, generalizedTime: string -> bool)

  const REASONS: seq<string> := [
    "unspecified", "keyCompromise", "CACompromise", "affiliationChanged", "superseded",
    "cessationOfOperation", "certificateHold", "removeFromCRL",
    "holdInstruction", "keyTime", "CAkeyTime"]

  const HOLD_INSTRUCTION := 8
  const KEY_TIME := 9
  const CA_KEY_TIME := 10

  /** `toupper`-free comparison of ASCII letters, as `strcasecmp` does. */
  function Lower(c: char): char {
    if 'A' <= c <= 'Z' then (c as int + 32) as char else c
  }

  predicate SameFolded(a: string, b: string) {
    |a| == |b| && forall k :: 0 <= k < |a| ==> Lower(a[k]) == Lower(b[k])
  }

  /** The first of the reasons below `n` that `s` spells, or `n`. */
  function ReasonIndex(s: string, from: nat, n: nat): (i: nat)
    requires from <= n <= |REASONS|
    ensures from <= i <= n && (i < n ==> SameFolded(s, REASONS[i]))
    ensures forall j :: from <= j < i ==> !SameFolded(s, REASONS[j])
    decreases n - from
  {
    if from == n || SameFolded(s, REASONS[from]) then from else ReasonIndex(s, from + 1, n)
  }

  // ----- writing

  /** The reason and the extra argument that are written; `None` when the argument is refused. */
  datatype Fields = Fields(reason: Option<string>, extra: Option<string>)

  function FieldsFor(t: RevType, arg: string, asn1: Asn1): Option<Fields> {
    match t
    case RevValid => Some(Fields(None, None))
    case RevNone => Some(Fields(None, None))
    case RevCrlReason =>
      var i := ReasonIndex(arg, 0, 8);
      if i == 8 then None else Some(Fields(Some(REASONS[i]), None))
    case RevHold =>
      if asn1.oid(arg) then Some(Fields(Some(REASONS[HOLD_INSTRUCTION]), Some(arg))) else None
    case RevKeyCompromise =>
      if asn1.generalizedTime(arg) then Some(Fields(Some(REASONS[KEY_TIME]), Some(arg))) else None
    case RevCaCompromise =>
      if asn1.generalizedTime(arg) then Some(Fields(Some(REASONS[CA_KEY_TIME]), Some(arg))) else None
  }

  function CommaField(f: Option<string>): string {
    if f.None? then "" else "," + f.value
  }

  function Written(now: string, f: Fields): string {
    now + CommaField(f.reason) + CommaField(f.extra)
  }

  /** The text for a revocation at the time `now` (`None`: the clock could not be read). */
  function Make(t: RevType, arg: string, now: Option<string>, asn1: Asn1): Option<string> {
    var f := FieldsFor(t, arg, asn1);
    if f.None? || now.None? then None else Some(Written(now.value, f.value))
  }

  /** Copies `src` and a NUL to `dst` from `at` on; the copy is not cut off. */
  method Append(dst: array<char>, at: nat, src: string) returns (next: nat)
    requires at + |src| < dst.Length
    modifies dst
    ensures next == at + |src|
    ensures dst[..next] == old(dst[..at]) + src && dst[next] == '\0'
  {
    ghost var before := dst[..at];
    for k := 0 to |src|
      invariant dst[..at + k] == before + src[..k]
    {
      dst[at + k] := src[k];
      assert before + src[..k + 1] == (before + src[..k]) + [src[k]];
    }
    next := at + |src|;
    assert src[..|src|] == src;
    dst[next] := '\0';
  }

  /** The result fills its buffer exactly: text, then NUL. */
  method MakeRevocationStr(t: RevType, arg: string, now: Option<string>, asn1: Asn1)
    returns (r: Option<array<char>>)
    ensures r.None? <==> Make(t, arg, now, asn1).None?
    ensures r.Some? ==> r.value[..] == Make(t, arg, now, asn1).value + ['\0']
  {
    var f: Fields := Fields(None, None);
    match t {
      case RevValid | RevNone =>
      case RevCrlReason =>
        var i := 0;
        while i < 8 && !SameFolded(arg, REASONS[i])
          invariant i <= 8 && ReasonIndex(arg, 0, 8) == ReasonIndex(arg, i, 8)
        {
          i := i + 1;
        }
        if i == 8 {
          return None;
        }
        f := Fields(Some(REASONS[i]), None);
      case RevHold =>
        if !asn1.oid(arg) {
          return None;
        }
        f := Fields(Some(REASONS[HOLD_INSTRUCTION]), Some(arg));
      case RevKeyCompromise =>
        if !asn1.generalizedTime(arg) {
          return None;
        }
        f := Fields(Some(REASONS[KEY_TIME]), Some(arg));
      case RevCaCompromise =>
        if !asn1.generalizedTime(arg) {
          return None;
        }
        f := Fields(Some(REASONS[CA_KEY_TIME]), Some(arg));
    }
    assert FieldsFor(t, arg, asn1) == Some(f);
    if now.None? {
      return None;
    }
    var str := WriteFields(now.value, f);
    r := Some(str);
  }

  /** Appends a comma and a field, if there is one. */
  method AppendField(dst: array<char>, at: nat, f: Option<string>) returns (next: nat)
    requires at + |CommaField(f)| < dst.Length && dst[at] == '\0'
    modifies dst
    ensures next == at + |CommaField(f)|
    ensures dst[..next] == old(dst[..at]) + CommaField(f) && dst[next] == '\0'
  {
    next := at;
    ghost var before := dst[..at];
    if f.Some? {
      next := Append(dst, next, ",");
      next := Append(dst, next, f.value);
      Assoc(before, ",", f.value);
    } else {
      NoChange(before);
    }
  }

  method WriteFields(now: string, f: Fields) returns (str: array<char>)
    ensures str[..] == Written(now, f) + ['\0']
  {
    var size := |now| + 1;
    if f.reason.Some? {
      size := size + |f.reason.value| + 1;
    }
    if f.extra.Some? {
      size := size + |f.extra.value| + 1;
    }
    str := new char[size];
    var at := Append(str, 0, now);
    assert str[..at] == now;
    at := AppendField(str, at, f.reason);
    at := AppendField(str, at, f.extra);
    assert str[..] == str[..at] + [str[at]];
  }

  // ----- reading

  const NO_STATUS := -1
  const KEY_COMPROMISE := 1
  const CA_COMPROMISE := 2
  const CERTIFICATE_HOLD := 6
  const REMOVE_FROM_CRL := 8

  /** What `unpack_revinfo` hands back: time, reason code or -1, hold instruction, compromise time. */
  datatype RevInfo = RevInfo(time: string, code: int, hold: Option<string>, invalidity: Option<string>)

  /** Position of the first comma at or after `from`, or the length. */
  function CommaFrom(s: string, from: nat): (i: nat)
    requires from <= |s|
    ensures from <= i <= |s| && (i < |s| ==> s[i] == ',')
    ensures forall k :: from <= k < i ==> s[k] != ','
    decreases |s| - from
  {
    if from == |s| || s[from] == ',' then from else CommaFrom(s, from + 1)
  }

  datatype Raw = Raw(time: string, reason: Option<string>, extra: Option<string>)

  /** Only the first two commas separate; the extra argument may hold more. */
  function SplitFields(s: string): Raw {
    var i := CommaFrom(s, 0);
    if i == |s| then Raw(s, None, None)
    else
      var j := CommaFrom(s, i + 1);
      if j == |s| then Raw(s[..i], Some(s[i + 1..]), None)
      else Raw(s[..i], Some(s[i + 1..j]), Some(s[j + 1..]))
  }

  function Interpret(raw: Raw, asn1: Asn1): Option<RevInfo> {
    if !asn1.utcTime(raw.time) then None
    else if raw.reason.None? then Some(RevInfo(raw.time, NO_STATUS, None, None))
    else
      var i := ReasonIndex(raw.reason.value, 0, |REASONS|);
      if i == |REASONS| then None
      else if i == 7 then Some(RevInfo(raw.time, REMOVE_FROM_CRL, None, None))
      else if i < HOLD_INSTRUCTION then Some(RevInfo(raw.time, i, None, None))
      else if raw.extra.None? then None
      else if i == HOLD_INSTRUCTION then
        if asn1.oid(raw.extra.value) then Some(RevInfo(raw.time, CERTIFICATE_HOLD, raw.extra, None)) else None
      else if !asn1.generalizedTime(raw.extra.value) then None
      else Some(RevInfo(raw.time, if i == KEY_TIME then KEY_COMPROMISE else CA_COMPROMISE, None, raw.extra))
  }

  function Unpack(s: string, asn1: Asn1): Option<RevInfo> {
    Interpret(SplitFields(s), asn1)
  }

  /** Length of the C string that starts at `from`. */
  function StringEnd(s: seq<char>, from: nat): (n: nat)
    requires from <= |s|
    ensures from <= n <= |s| && (n < |s| ==> s[n] == '\0')
    ensures forall k :: from <= k < n ==> s[k] != '\0'
    decreases |s| - from
  {
    if from == |s| || s[from] == '\0' then from else StringEnd(s, from + 1)
  }

  function StringAt(s: seq<char>, from: nat): string
    requires from <= |s|
  {
    s[from..StringEnd(s, from)]
  }

  lemma {:induction false} StringEndAt(s: seq<char>, from: nat, n: nat)
    requires from <= n < |s| && s[n] == '\0' && forall k :: from <= k < n ==> s[k] != '\0'
    ensures StringEnd(s, from) == n
  {
  }

  lemma {:induction false} CommaAt(s: string, from: nat, n: nat)
    requires from <= n <= |s| && (n < |s| ==> s[n] == ',') && forall k :: from <= k < n ==> s[k] != ','
    ensures CommaFrom(s, from) == n
  {
  }

  /** `strchr` for a comma, from `from` up to the NUL at `end`. */
  method FindComma(tmp: array<char>, from: nat, end: nat, ghost s: string) returns (i: nat)
    requires from <= end < tmp.Length && tmp[end] == '\0' && end == |s|
    requires forall k :: 0 <= k < |s| ==> s[k] != '\0'
    requires forall k :: from <= k < end ==> tmp[k] == s[k]
    ensures from <= i <= end && i == CommaFrom(s, from)
  {
    i := from;
    while tmp[i] != '\0' && tmp[i] != ','
      invariant from <= i <= end
      invariant forall k :: from <= k < i ==> s[k] != ','
      decreases end - i
    {
      i := i + 1;
    }
    CommaAt(s, from, i);
  }

  /** `t` is `s` and a NUL, with the commas at `i` and `j` overwritten. */
  ghost predicate Cut(s: string, t: seq<char>, i: nat, j: nat) {
    && i <= j <= |s| && |t| == |s| + 1 && t[|s|] == '\0'
    && (forall k :: 0 <= k < |s| ==> s[k] != '\0')
    && (forall k :: 0 <= k < |s| ==> t[k] == if k == i || k == j then '\0' else s[k])
  }

  lemma CutString(s: string, t: seq<char>, i: nat, j: nat, from: nat, to: nat)
    requires Cut(s, t, i, j) && from <= to <= |s| && (to == |s| || to == i || to == j)
    requires i < from || to <= i
    requires j < from || to <= j
    ensures StringAt(t, from) == s[from..to]
  {
    StringEndAt(t, from, to);
    assert t[from..to] == s[from..to];
  }

  /** The fields seen in the cut copy are the fields of the text. */
  lemma {:induction false} CutMeaning(s: string, t: seq<char>, i: nat, j: nat)
    requires Cut(s, t, i, j) && i == CommaFrom(s, 0) && j == if i == |s| then i else CommaFrom(s, i + 1)
    ensures SplitFields(s) == Raw(StringAt(t, 0), if i == |s| then None else Some(StringAt(t, i + 1)),
                                  if j == |s| then None else Some(StringAt(t, j + 1)))
  {
    CutString(s, t, i, j, 0, i);
    assert s[0..i] == s[..i] && (i == |s| ==> s[..i] == s);
    if i < |s| {
      CutString(s, t, i, j, i + 1, j);
      assert j == |s| ==> s[i + 1..j] == s[i + 1..];
      if j < |s| {
        CutString(s, t, i, j, j + 1, |s|);
        assert s[j + 1..|s|] == s[j + 1..];
      }
    }
  }

  /** Cuts a copy of the text by overwriting its first two commas with NUL. */
  method CutFields(s: string) returns (raw: Raw)
    requires forall k :: 0 <= k < |s| ==> s[k] != '\0'
    ensures raw == SplitFields(s)
  {
    var n := |s|;
    var tmp := new char[n + 1];
    for k := 0 to n
      invariant forall j :: 0 <= j < k ==> tmp[j] == s[j]
    {
      tmp[k] := s[k];
    }
    tmp[n] := '\0';
    var i := FindComma(tmp, 0, n, s);
    var j := i;
    if i < n {
      tmp[i] := '\0';
      j := FindComma(tmp, i + 1, n, s);
      if j < n {
        tmp[j] := '\0';
      }
    }
    CutMeaning(s, tmp[..], i, j);
    raw := Raw(StringAt(tmp[..], 0), if i == n then None else Some(StringAt(tmp[..], i + 1)),
               if j == n then None else Some(StringAt(tmp[..], j + 1)));
  }

  method UnpackRevinfo(s: string, asn1: Asn1) returns (r: Option<RevInfo>)
    requires forall k :: 0 <= k < |s| ==> s[k] != '\0'
    ensures r == Unpack(s, asn1)
  {
    var raw := CutFields(s);
    if !asn1.utcTime(raw.time) {
      return None;
    }
    var info := RevInfo(raw.time, NO_STATUS, None, None);
    if raw.reason.None? {
      return Some(info);
    }
    var i := 0;
    while i < |REASONS| && !SameFolded(raw.reason.value, REASONS[i])
      invariant i <= |REASONS|
      invariant ReasonIndex(raw.reason.value, 0, |REASONS|) == ReasonIndex(raw.reason.value, i, |REASONS|)
    {
      i := i + 1;
    }
    if i == |REASONS| {
      return None;
    }
    info := info.(code := i);
    if i == 7 {
      info := info.(code := REMOVE_FROM_CRL);
    } else if i == HOLD_INSTRUCTION {
      if raw.extra.None? || !asn1.oid(raw.extra.value) {
        return None;
      }
      info := info.(code := CERTIFICATE_HOLD, hold := raw.extra);
    } else if i == KEY_TIME || i == CA_KEY_TIME {
      if raw.extra.None? || !asn1.generalizedTime(raw.extra.value) {
        return None;
      }
      info := info.(code := if i == KEY_TIME then KEY_COMPROMISE else CA_COMPROMISE, invalidity := raw.extra);
    }
    r := Some(info);
  }

  // ----- the round trip

  /** The code that section 5.3.1 of RFC 5280 gives to a reason; `None` for a name it does not know. */
  function ReasonCode(name: string): Option<int> {
    if SameFolded(name, "unspecified") then Some(0)
    else if SameFolded(name, "keyCompromise") then Some(1)
    else if SameFolded(name, "cACompromise") then Some(2)
    else if SameFolded(name, "affiliationChanged") then Some(3)
    else if SameFolded(name, "superseded") then Some(4)
    else if SameFolded(name, "cessationOfOperation") then Some(5)
    else if SameFolded(name, "certificateHold") then Some(6)
    else if SameFolded(name, "removeFromCRL") then Some(8)
    else None
  }

  /** What the operator said, as revocation data. */
  function Intended(t: RevType, arg: string, now: string): RevInfo {
    match t
    case RevValid => RevInfo(now, NO_STATUS, None, None)
    case RevNone => RevInfo(now, NO_STATUS, None, None)
    case RevCrlReason => RevInfo(now, if ReasonCode(arg).Some? then ReasonCode(arg).value else NO_STATUS, None, None)
    case RevHold => RevInfo(now, CERTIFICATE_HOLD, Some(arg), None)
    case RevKeyCompromise => RevInfo(now, KEY_COMPROMISE, None, Some(arg))
    case RevCaCompromise => RevInfo(now, CA_COMPROMISE, None, Some(arg))
  }

  predicate CommaFree(s: string) {
    forall k :: 0 <= k < |s| ==> s[k] != ','
  }

  /** No two reasons are spelled alike, so the search finds the reason that was written. */
  lemma ReasonFound(i: nat)
    requires i < |REASONS|
    ensures ReasonIndex(REASONS[i], 0, |REASONS|) == i
  {
    var k := ReasonIndex(REASONS[i], 0, |REASONS|);
    assert REASONS[1][0] == 'k' && REASONS[7][0] == 'r' && REASONS[6][0] == 'c' && REASONS[8][0] == 'h';
    assert SameFolded(REASONS[i], REASONS[i]);
    assert |REASONS[k]| == |REASONS[i]|;
  }

  lemma ReasonCommaFree(i: nat)
    requires i < |REASONS|
    ensures CommaFree(REASONS[i])
  {
    match i {
      case 0 => assert CommaFree("unspecified");
      case 1 => assert CommaFree("keyCompromise");
      case 2 => assert CommaFree("CACompromise");
      case 3 => assert CommaFree("affiliationChanged");
      case 4 => assert CommaFree("superseded");
      case 5 => assert CommaFree("cessationOfOperation");
      case 6 => assert CommaFree("certificateHold");
      case 7 => assert CommaFree("removeFromCRL");
      case 8 => assert CommaFree("holdInstruction");
      case 9 => assert CommaFree("keyTime");
      case 10 => assert CommaFree("CAkeyTime");
    }
  }

  lemma {:induction false} ReasonCodeOfIndex(name: string, n: nat)
    requires n == 8
    ensures var i := ReasonIndex(name, 0, n);
      ReasonCode(name) == if i == 8 then None else if i == 7 then Some(REMOVE_FROM_CRL) else Some(i)
  {
  }

  /** Where the fields stand in what is written. */
  lemma WrittenParts(now: string, reason: string, extra: Option<string>)
    ensures var s := Written(now, Fields(Some(reason), extra));
      var i := |now|;
      var j := i + 1 + |reason|;
      && j <= |s| && s[..i] == now && s[i] == ',' && s[i + 1..j] == reason
      && (extra.None? ==> j == |s| && s[i + 1..] == reason)
      && (extra.Some? ==> j < |s| && s[j] == ',' && s[j + 1..] == extra.value)
  {
    var s := Written(now, Fields(Some(reason), extra));
    assert s == now + ("," + reason) + CommaField(extra);
  }

  lemma {:induction false} WrittenCommas(now: string, reason: string, extra: Option<string>)
    requires CommaFree(now) && CommaFree(reason)
    ensures var s := Written(now, Fields(Some(reason), extra));
      |now| < |s| && CommaFrom(s, 0) == |now| && CommaFrom(s, |now| + 1) == |now| + 1 + |reason|
  {
    var s, i, j := Written(now, Fields(Some(reason), extra)), |now|, |now| + 1 + |reason|;
    WrittenParts(now, reason, extra);
    assert forall k :: 0 <= k < i ==> s[k] == s[..i][k];
    CommaAt(s, 0, i);
    assert forall k :: i + 1 <= k < j ==> s[k] == s[i + 1..j][k - i - 1];
    CommaAt(s, i + 1, j);
  }

  /** Reading what was written, field by field. */
  lemma SplitWritten(now: string, f: Fields)
    requires CommaFree(now) && (f.extra.Some? ==> f.reason.Some?) && (f.reason.Some? ==> CommaFree(f.reason.value))
    ensures SplitFields(Written(now, f)) == Raw(now, f.reason, f.extra)
  {
    if f.reason.None? {
      assert Written(now, f) == now;
      CommaAt(now, 0, |now|);
    } else {
      WrittenCommas(now, f.reason.value, f.extra);
      WrittenParts(now, f.reason.value, f.extra);
    }
  }

  /** A reason of section 5.3.1 of RFC 5280, as it is read back. */
  lemma {:induction false} InterpretReason(arg: string, now: string, asn1: Asn1)
    requires ReasonIndex(arg, 0, 8) < 8
    ensures Interpret(Raw(now, Some(REASONS[ReasonIndex(arg, 0, 8)]), None), asn1) ==
      if asn1.utcTime(now) then Some(Intended(RevCrlReason, arg, now)) else None
  {
    ReasonFound(ReasonIndex(arg, 0, 8));
    ReasonCodeOfIndex(arg, 8);
  }

  /** The three pseudo reasons with their arguments, as they are read back. */
  lemma InterpretExtra(i: nat, arg: string, now: string, asn1: Asn1)
    requires HOLD_INSTRUCTION <= i <= CA_KEY_TIME
    requires if i == HOLD_INSTRUCTION then asn1.oid(arg) else asn1.generalizedTime(arg)
    ensures Interpret(Raw(now, Some(REASONS[i]), Some(arg)), asn1) ==
      if !asn1.utcTime(now) then None
      else if i == HOLD_INSTRUCTION then Some(RevInfo(now, CERTIFICATE_HOLD, Some(arg), None))
      else Some(RevInfo(now, if i == KEY_TIME then KEY_COMPROMISE else CA_COMPROMISE, None, Some(arg)))
  {
    ReasonFound(i);
  }

  /** What `unpack_revinfo` recovers from `make_revocation_str`, for every kind of revocation and argument. */
  lemma UnpackMake(t: RevType, arg: string, now: string, asn1: Asn1)
    requires CommaFree(now) && Make(t, arg, Some(now), asn1).Some?
    ensures Unpack(Make(t, arg, Some(now), asn1).value, asn1) ==
      if asn1.utcTime(now) then Some(Intended(t, arg, now)) else None
  {
    ReasonsCommaFree(t, arg, asn1);
    SplitWritten(now, FieldsFor(t, arg, asn1).value);
    match t {
      case RevValid =>
      case RevNone =>
      case RevCrlReason => InterpretReason(arg, now, asn1);
      case RevHold => InterpretExtra(HOLD_INSTRUCTION, arg, now, asn1);
      case RevKeyCompromise => InterpretExtra(KEY_TIME, arg, now, asn1);
      case RevCaCompromise => InterpretExtra(CA_KEY_TIME, arg, now, asn1);
    }
  }

  lemma ReasonsCommaFree(t: RevType, arg: string, asn1: Asn1)
    requires FieldsFor(t, arg, asn1).Some?
    ensures var f := FieldsFor(t, arg, asn1).value;
      (f.extra.Some? ==> f.reason.Some?) && (f.reason.Some? ==> CommaFree(f.reason.value))
  {
    match t {
      case RevValid =>
      case RevNone =>
      case RevCrlReason => ReasonCommaFree(ReasonIndex(arg, 0, 8));
      case RevHold => ReasonCommaFree(HOLD_INSTRUCTION);
      case RevKeyCompromise => ReasonCommaFree(KEY_TIME);
      case RevCaCompromise => ReasonCommaFree(CA_KEY_TIME);
    }
  }
}
