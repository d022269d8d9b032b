/**
 The revocation field of the CA's database, text by text: what `make_revocation_str` writes for each
 kind of revocation, and what `unpack_revinfo` makes of every text.
 */
module RevocationText {
  import opened Common
  import opened Revocation

  /** The kinds with an argument of their own, and those without. */
  lemma WrittenTexts(arg: string, now: string, asn1: Asn1)
    ensures Make(RevNone, arg, Some(now), asn1) == Make(RevValid, arg, Some(now), asn1) == Some(now)
    ensures Make(RevHold, arg, Some(now), asn1) ==
      if asn1.oid(arg) then Some(now + ",holdInstruction" + "," + arg) else None
    ensures Make(RevKeyCompromise, arg, Some(now), asn1) ==
      if asn1.generalizedTime(arg) then Some(now + ",keyTime" + "," + arg) else None
    ensures Make(RevCaCompromise, arg, Some(now), asn1) ==
      if asn1.generalizedTime(arg) then Some(now + ",CAkeyTime" + "," + arg) else None
    ensures forall t :: Make(t, arg, None, asn1) == None
  {
    NoChange(now);
    assert "," + "holdInstruction" == ",holdInstruction" && "," + "keyTime" == ",keyTime";
    assert "," + "CAkeyTime" == ",CAkeyTime";
    Assoc(now + ",holdInstruction", ",", arg);
    Assoc(now + ",keyTime", ",", arg);
    Assoc(now + ",CAkeyTime", ",", arg);
  }

  /** The reasons that may be given by name. */
  function ReasonName(i: nat): string
    requires i < 8
  {
    if i == 0 then "unspecified" else if i == 1 then "keyCompromise" else if i == 2 then "CACompromise"
    else if i == 3 then "affiliationChanged" else if i == 4 then "superseded"
    else if i == 5 then "cessationOfOperation" else if i == 6 then "certificateHold" else "removeFromCRL"
  }

  predicate NamesReason(arg: string, i: nat) {
    i < 8 && SameFolded(arg, ReasonName(i))
  }

  lemma ReasonNames(i: nat)
    requires i < 8
    ensures REASONS[i] == ReasonName(i)
  {
    assert i == 0 || i == 1 || i == 2 || i == 3 || i == 4 || i == 5 || i == 6 || i == 7;
  }

  /** A text has the letters of one reason at most. */
  lemma OneReason(arg: string, i: nat, j: nat)
    requires NamesReason(arg, i) && NamesReason(arg, j)
    ensures i == j
  {
    assert |ReasonName(i)| == |ReasonName(j)|;
    assert Lower(ReasonName(i)[0]) == Lower(arg[0]) == Lower(ReasonName(j)[0]);
  }

  /** A reason is written as it is spelled here, in whichever letters it was given; other names are refused. */
  lemma {:induction false} WrittenReason(arg: string, now: string, asn1: Asn1)
    ensures forall i :: NamesReason(arg, i) ==>
      Make(RevCrlReason, arg, Some(now), asn1) == Some(now + "," + ReasonName(i))
    ensures (forall i :: !NamesReason(arg, i)) ==> Make(RevCrlReason, arg, Some(now), asn1) == None
  {
    var m := ReasonIndex(arg, 0, 8);
    if m < 8 {
      ReasonNames(m);
      assert NamesReason(arg, m);
      forall i | NamesReason(arg, i)
        ensures i == m
      {
        OneReason(arg, i, m);
      }
      Assoc(now, ",", ReasonName(m));
      NoChange(now + "," + ReasonName(m));
    } else {
      forall i | i < 8
        ensures !NamesReason(arg, i)
      {
        ReasonNames(i);
      }
    }
  }

  // ----- reading

  /** The field in three parts: up to the first comma, up to the second one, and the rest. */
  function Field(time: string, reason: string, extra: Option<string>): string {
    time + "," + reason + if extra.None? then "" else "," + extra.value
  }

  lemma CutAt(s: string, i: nat)
    requires i < |s| && s[i] == ','
    ensures s == (s[..i] + ",") + s[i + 1..]
  {
  }

  /** Every text has these parts: a time without a comma, and perhaps a reason without one and an argument. */
  lemma {:induction false} AnyField(s: string) returns (time: string, reason: Option<string>, extra: Option<string>)
    ensures CommaFree(time) && (reason.Some? ==> CommaFree(reason.value)) && (extra.Some? ==> reason.Some?)
    ensures s == if reason.None? then time else Field(time, reason.value, extra)
  {
    var i := CommaFrom(s, 0);
    if i == |s| {
      return s, None, None;
    }
    var rest := s[i + 1..];
    var k := CommaFrom(rest, 0);
    time := s[..i];
    CutAt(s, i);
    if k == |rest| {
      reason, extra := Some(rest), None;
      NoChange(time + "," + rest);
    } else {
      reason, extra := Some(rest[..k]), Some(rest[k + 1..]);
      CutAt(rest, k);
      Assoc(rest[..k], ",", rest[k + 1..]);
      Assoc(time + ",", rest[..k], "," + rest[k + 1..]);
    }
  }

  lemma {:induction false} FieldRead(time: string, reason: string, extra: Option<string>, asn1: Asn1)
    requires CommaFree(time) && CommaFree(reason)
    ensures Unpack(Field(time, reason, extra), asn1) == Interpret(Raw(time, Some(reason), extra), asn1)
    ensures Unpack(time, asn1) == Interpret(Raw(time, None, None), asn1)
  {
    SplitWritten(time, Fields(Some(reason), extra));
    SplitWritten(time, Fields(None, None));
    Assoc(time, ",", reason);
    NoChange(time);
    NoChange(Field(time, reason, None));
  }

  /** A field with a time only, or with one of the eight reasons; anything behind such a reason is passed over. */
  lemma {:induction false} ReadReason(time: string, reason: string, extra: Option<string>, i: nat, asn1: Asn1)
    requires CommaFree(time) && CommaFree(reason) && asn1.utcTime(time)
    ensures Unpack(time, asn1) == Some(RevInfo(time, -1, None, None))
    ensures NamesReason(reason, i) ==>
      Unpack(Field(time, reason, extra), asn1) == Some(RevInfo(time, if i == 7 then 8 else i, None, None))
  {
    FieldRead(time, reason, extra, asn1);
    if NamesReason(reason, i) {
      ReasonNames(i);
      ReasonIndexOf(reason, ReasonName(i), i);
    }
  }

  /** What is spelled like a reason of the table is found there. */
  lemma {:induction false} ReasonIndexOf(reason: string, name: string, i: nat)
    requires i < |REASONS| && REASONS[i] == name && SameFolded(reason, name)
    ensures ReasonIndex(reason, 0, |REASONS|) == i
  {
    ReasonFound(i);
    SameIndex(reason, name, 0, |REASONS|);
  }

  lemma {:induction false} SameIndex(a: string, b: string, from: nat, n: nat)
    requires SameFolded(a, b) && from <= n <= |REASONS|
    ensures ReasonIndex(a, from, n) == ReasonIndex(b, from, n)
    decreases n - from
  {
    if from < n {
      SameIndex(a, b, from + 1, n);
    }
  }

  /** The three pseudo reasons need an argument that the library accepts. */
  lemma {:induction false} ReadExtra(time: string, reason: string, extra: Option<string>, asn1: Asn1)
    requires CommaFree(time) && CommaFree(reason) && asn1.utcTime(time)
    ensures SameFolded(reason, "holdInstruction") ==>
      Unpack(Field(time, reason, extra), asn1) ==
        if extra.Some? && asn1.oid(extra.value) then Some(RevInfo(time, 6, extra, None)) else None
    ensures SameFolded(reason, "keyTime") ==>
      Unpack(Field(time, reason, extra), asn1) ==
        if extra.Some? && asn1.generalizedTime(extra.value) then Some(RevInfo(time, 1, None, extra)) else None
    ensures SameFolded(reason, "CAkeyTime") ==>
      Unpack(Field(time, reason, extra), asn1) ==
        if extra.Some? && asn1.generalizedTime(extra.value) then Some(RevInfo(time, 2, None, extra)) else None
  {
    FieldRead(time, reason, extra, asn1);
    if SameFolded(reason, "holdInstruction") {
      ReasonIndexOf(reason, "holdInstruction", 8);
    }
    if SameFolded(reason, "keyTime") {
      ReasonIndexOf(reason, "keyTime", 9);
    }
    if SameFolded(reason, "CAkeyTime") {
      ReasonIndexOf(reason, "CAkeyTime", 10);
    }
  }

  predicate NamesExtra(reason: string) {
    SameFolded(reason, "holdInstruction") || SameFolded(reason, "keyTime") || SameFolded(reason, "CAkeyTime")
  }

  /** A time that cannot be read, or a name that is none of the eleven, is refused. */
  lemma {:induction false} ReadNothing(time: string, reason: string, extra: Option<string>, asn1: Asn1)
    requires CommaFree(time) && CommaFree(reason)
    ensures !asn1.utcTime(time) ==> Unpack(Field(time, reason, extra), asn1) == None && Unpack(time, asn1) == None
    ensures (forall i :: !NamesReason(reason, i)) && !NamesExtra(reason) ==>
      Unpack(Field(time, reason, extra), asn1) == None
  {
    FieldRead(time, reason, extra, asn1);
    var m := ReasonIndex(reason, 0, |REASONS|);
    if m < 8 {
      ReasonNames(m);
      assert NamesReason(reason, m);
    }
  }
}
