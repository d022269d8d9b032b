/**
 The certificate database of the CA (`ca.c`, with the serial index of `apps.c` and `txt_db.c`):
 the checks made when it is loaded, and the steps that change it.

 The subject index is not modelled: whether it reports a clash is an input of each step.
 */
module CaDatabase {
  import opened Common
  import opened Revocation
  import opened CaSerial

  /**
   One row. `loaded` rows were read from the file and keep their fields one after the other in
   one block; the other rows were added by this run, each field in a block of its own.
   */
  datatype Row = Row(typ: string, exp: string, rev: string, serial: string, file: string, name: string, loaded: bool)

  /** The library's answers: which dates it can read, and the tests of the revocation field. */
  datatype Env = Env(date: string -> bool, asn1: Asn1)

  /** First character of the type field, NUL when it is empty. */
  function TypeChar(r: Row): char {
    if r.typ == "" then '\0' else r.typ[0]
  }

  // ----- the checks made on loading

  predicate RowOk(r: Row, env: Env) {
    && (TypeChar(r) != 'R' ==> r.rev == "")
    && (TypeChar(r) == 'R' ==> Unpack(r.rev, env.asn1).Some?)
    && env.date(r.exp)
    && SerialOk(r.serial)
  }

  predicate DistinctSerials(rows: seq<Row>) {
    forall i, j :: 0 <= i < j < |rows| ==> Key(rows[i].serial) != Key(rows[j].serial)
  }

  predicate LoadOk(rows: seq<Row>, env: Env) {
    (forall i :: 0 <= i < |rows| ==> RowOk(rows[i], env)) && DistinctSerials(rows)
  }

  /** Position of the row with this key, or the number of rows. */
  function Find(rows: seq<Row>, key: string): (i: nat)
    ensures i <= |rows| && (i < |rows| ==> Key(rows[i].serial) == key)
    ensures forall j :: 0 <= j < i ==> Key(rows[j].serial) != key
  {
    if rows == [] || Key(rows[0].serial) == key then 0 else 1 + Find(rows[1..], key)
  }

  // ----- the steps

  datatype Certificate = Certificate(serial: int, subject: string, notAfter: string)

  /** An empty subject is replaced by the serial number. */
  function NameField(c: Certificate): string {
    if c.subject == "" then SerialField(c.serial) else c.subject
  }

  function NewRow(c: Certificate): Row {
    Row("V", c.notAfter, "", SerialField(c.serial), "unknown", NameField(c), false)
  }

  datatype Step =
    | Certify(cert: Certificate, nameTaken: bool)
    | Revoke(cert: Certificate, kind: RevType, arg: string, now: Option<string>, nameTaken: bool)
    | Expire(expired: string -> bool)

  /** `TXT_DB_insert`: refuses a serial that is present, and a subject the index reports as taken. */
  function Insert(rows: seq<Row>, r: Row, nameTaken: bool): Option<seq<Row>> {
    if nameTaken || Find(rows, Key(r.serial)) < |rows| then None else Some(rows + [r])
  }

  /**
   Writes `R` and NUL over the type field. In a loaded row with an empty type field the NUL
   falls on the first character of the expiry date.
   */
  function MarkRevoked(r: Row, rev: string): Row {
    r.(typ := "R", rev := rev, exp := if r.typ == "" && r.loaded then "" else r.exp)
  }

  function RevokeRow(r: Row, c: Certificate, kind: RevType, arg: string, now: Option<string>, asn1: Asn1): Option<Row> {
    if r.name != NameField(c) || kind == RevValid || TypeChar(r) == 'R' then None
    else
      var rev := Make(kind, arg, now, asn1);
      if rev.None? then None else Some(MarkRevoked(r, rev.value))
  }

  function RevokeAt(rows: seq<Row>, i: nat, c: Certificate, kind: RevType, arg: string, now: Option<string>, asn1: Asn1)
    : (r: (seq<Row>, bool))
    requires i < |rows|
  {
    var row := RevokeRow(rows[i], c, kind, arg, now, asn1);
    if row.None? then (rows, false) else (rows[i := row.value], true)
  }

  /** The rows after a revocation, and whether it succeeded; there is no second insertion. */
  function AfterRevoke(
    rows: seq<Row>, c: Certificate, kind: RevType, arg: string, now: Option<string>, nameTaken: bool, asn1: Asn1)
    : (seq<Row>, bool)
  {
    var i := Find(rows, Key(SerialField(c.serial)));
    if i < |rows| then RevokeAt(rows, i, c, kind, arg, now, asn1)
    else
      var more := Insert(rows, NewRow(c), nameTaken);
      if more.None? then (rows, false)
      else if kind == RevValid then (more.value, true)
      else RevokeAt(more.value, |rows|, c, kind, arg, now, asn1)
  }

  function MarkExpired(r: Row, expired: string -> bool): Row {
    if Due(r, expired) then r.(typ := "E") else r
  }

  /** The first `n` rows with the expired ones marked, the others as they were. */
  function ExpireUpTo(rows: seq<Row>, n: nat, expired: string -> bool): (r: seq<Row>)
    requires n <= |rows|
    ensures |r| == |rows|
    ensures forall i :: 0 <= i < |rows| ==> r[i] == if i < n then MarkExpired(rows[i], expired) else rows[i]
  {
    if n == 0 then rows else ExpireUpTo(rows, n - 1, expired)[n - 1 := MarkExpired(rows[n - 1], expired)]
  }

  function Apply(rows: seq<Row>, s: Step, env: Env): seq<Row> {
    match s
    case Certify(cert, nameTaken) =>
      var more := Insert(rows, NewRow(cert), nameTaken); if more.None? then rows else more.value
    case Revoke(cert, kind, arg, now, nameTaken) => AfterRevoke(rows, cert, kind, arg, now, nameTaken, env.asn1).0
    case Expire(expired) => ExpireUpTo(rows, Readable(rows, env), expired)
  }

  /** How many rows `do_updatedb` passes before a valid row whose expiry date cannot be read. */
  function Readable(rows: seq<Row>, env: Env): (n: nat)
    ensures n <= |rows| && (n < |rows| ==> TypeChar(rows[n]) == 'V' && !env.date(rows[n].exp))
    ensures forall i :: 0 <= i < n ==> TypeChar(rows[i]) == 'V' ==> env.date(rows[i].exp)
  {
    if rows == [] || (TypeChar(rows[0]) == 'V' && !env.date(rows[0].exp)) then 0 else 1 + Readable(rows[1..], env)
  }

  function Run(rows: seq<Row>, steps: seq<Step>, env: Env): seq<Row>
    decreases |steps|
  {
    if steps == [] then rows else Run(Apply(rows, steps[0], env), steps[1..], env)
  }

  // ----- the steps as the program makes them

  class CaDb {
    var rows: seq<Row>

    constructor (loaded: seq<Row>)
      ensures rows == loaded
    {
      rows := loaded;
    }

    /** The field checks of one row, in the order of the program. */
    method CheckRow(r: Row, env: Env) returns (ok: bool)
      requires forall k :: 0 <= k < |r.rev| ==> r.rev[k] != '\0'
      ensures ok <==> RowOk(r, env)
    {
      if TypeChar(r) != 'R' && r.rev != "" {
        return false;
      }
      if TypeChar(r) == 'R' {
        var info := UnpackRevinfo(r.rev, env.asn1);
        if info.None? {
          return false;
        }
      }
      if !env.date(r.exp) {
        return false;
      }
      var p, j := 0, |r.serial|;
      if r.serial != "" && r.serial[0] == '-' {
        p, j := p + 1, j - 1;
      }
      ghost var t := Unsigned(r.serial);
      if j % 2 == 1 || j < 2 {
        return false;
      }
      while p < |r.serial|
        invariant |r.serial| - |t| <= p <= |r.serial|
        invariant forall k :: |r.serial| - |t| <= k < p ==> IsHexDigit(r.serial[k])
      {
        if !IsHexDigit(r.serial[p]) {
          assert t[p - (|r.serial| - |t|)] == r.serial[p];
          return false;
        }
        p := p + 1;
      }
      assert forall k :: 0 <= k < |t| ==> t[k] == r.serial[k + |r.serial| - |t|];
      ok := true;
    }

    /** The checks made when the database is loaded: every row, then the serial index. */
    method CheckLoad(env: Env) returns (ok: bool)
      requires forall i, k :: 0 <= i < |rows| && 0 <= k < |rows[i].rev| ==> rows[i].rev[k] != '\0'
      ensures ok <==> LoadOk(rows, env)
    {
      for i := 0 to |rows|
        invariant forall j :: 0 <= j < i ==> RowOk(rows[j], env)
      {
        ok := CheckRow(rows[i], env);
        if !ok {
          return false;
        }
      }
      ok := BuildSerialIndex();
    }

    /** `TXT_DB_create_index` on the serial field: fails on a clash. */
    method BuildSerialIndex() returns (ok: bool)
      ensures ok <==> DistinctSerials(rows)
    {
      for i := 0 to |rows|
        invariant forall a, b :: 0 <= a < b < i ==> Key(rows[a].serial) != Key(rows[b].serial)
      {
        for k := 0 to i
          invariant forall a :: 0 <= a < k ==> Key(rows[a].serial) != Key(rows[i].serial)
        {
          if Key(rows[k].serial) == Key(rows[i].serial) {
            return false;
          }
        }
      }
      ok := true;
    }

    /** Lookup in the serial index. */
    method Lookup(serial: string) returns (i: nat)
      ensures i == Find(rows, Key(serial))
    {
      i := 0;
      while i < |rows| && Key(rows[i].serial) != Key(serial)
        invariant i <= |rows|
        invariant forall j :: 0 <= j < i ==> Key(rows[j].serial) != Key(serial)
      {
        i := i + 1;
      }
    }

    method InsertRow(r: Row, nameTaken: bool) returns (ok: bool)
      modifies this
      ensures ok <==> Insert(old(rows), r, nameTaken).Some?
      ensures rows == if ok then old(rows) + [r] else old(rows)
    {
      var i := Lookup(r.serial);
      if nameTaken || i < |rows| {
        return false;
      }
      rows := rows + [r];
      ok := true;
    }

    /** The end of `do_body`: look for clashes, ask, sign, insert. */
    method Certify(c: Certificate, nameTaken: bool, confirmed: bool, ghost env: Env) returns (ok: bool)
      modifies this
      ensures rows == if confirmed then Apply(old(rows), Step.Certify(c, nameTaken), env) else old(rows)
      ensures ok <==> confirmed && !nameTaken && Find(old(rows), Key(SerialField(c.serial))) == |old(rows)|
    {
      if nameTaken {
        return false;
      }
      var i := Lookup(SerialField(c.serial));
      if i < |rows| || !confirmed {
        return false;
      }
      ok := InsertRow(NewRow(c), nameTaken);
    }

    method DoRevoke(c: Certificate, kind: RevType, arg: string, now: Option<string>, nameTaken: bool, asn1: Asn1)
      returns (ok: bool)
      modifies this
      ensures (rows, ok) == AfterRevoke(old(rows), c, kind, arg, now, nameTaken, asn1)
      decreases Find(rows, Key(SerialField(c.serial))) == |rows|
    {
      var serial := SerialField(c.serial);
      var i := Lookup(serial);
      if i == |rows| {
        ok := InsertRow(NewRow(c), nameTaken);
        if !ok {
          return false;
        }
        FindLast(old(rows), NewRow(c));
        if kind != RevValid {
          ok := DoRevoke(c, kind, arg, now, nameTaken, asn1);
        }
        return;
      }
      var row := rows[i];
      if row.name != NameField(c) || kind == RevValid || TypeChar(row) == 'R' {
        return false;
      }
      var rev := MakeRevocationStr(kind, arg, now, asn1);
      if rev.None? {
        return false;
      }
      var size := rev.value.Length - 1;
      assert rev.value[..][..size] == Make(kind, arg, now, asn1).value;
      rows := rows[i := MarkRevoked(row, rev.value[..size])];
      ok := true;
    }

    /** Marks the expired rows; stops, half done, at an expiry date that cannot be read. */
    method DoUpdateDb(expired: string -> bool, env: Env) returns (cnt: int)
      modifies this
      ensures rows == ExpireUpTo(old(rows), Readable(old(rows), env), expired)
      ensures cnt == -1 <==> Readable(old(rows), env) < |old(rows)|
      ensures cnt != -1 ==> cnt == CountDue(old(rows), |old(rows)|, expired)
    {
      cnt := 0;
      ghost var was := rows;
      for i := 0 to |rows|
        invariant |rows| == |was| && i <= Readable(was, env)
        invariant rows == ExpireUpTo(was, i, expired)
        invariant cnt == CountDue(was, i, expired)
      {
        var r := rows[i];
        assert rows[i := r] == rows;
        if TypeChar(r) == 'V' {
          if !env.date(r.exp) {
            return -1;
          }
          if expired(r.exp) {
            rows := rows[i := r.(typ := "E")];
            cnt := cnt + 1;
          }
        }
      }
    }
  }

  predicate Due(r: Row, expired: string -> bool) {
    TypeChar(r) == 'V' && expired(r.exp)
  }

  /** Number of valid, expired rows among the first `n`. */
  function CountDue(rows: seq<Row>, n: nat, expired: string -> bool): nat
    requires n <= |rows|
  {
    if n == 0 then 0 else CountDue(rows, n - 1, expired) + if Due(rows[n - 1], expired) then 1 else 0
  }

  lemma {:induction false} FindLast(rows: seq<Row>, r: Row)
    requires Find(rows, Key(r.serial)) == |rows|
    ensures Find(rows + [r], Key(r.serial)) == |rows|
  {
    if rows != [] {
      assert (rows + [r])[1..] == rows[1..] + [r];
      FindLast(rows[1..], r);
    }
  }

  // ----- what every step keeps

  /** A row of the older database and the same row later. */
  predicate Evolves(was: Row, now: Row) {
    || now == was
    || (TypeChar(was) == 'V' && now == was.(typ := "E"))
    || (TypeChar(was) != 'R' && now == MarkRevoked(was, now.rev))
  }

  predicate RowsEvolve(was: seq<Row>, now: seq<Row>) {
    |was| <= |now| && forall i :: 0 <= i < |was| ==> Evolves(was[i], now[i])
  }

  lemma EvolvesTransitive(a: Row, b: Row, c: Row)
    requires Evolves(a, b) && Evolves(b, c)
    ensures Evolves(a, c)
  {
  }

  lemma StepEvolves(rows: seq<Row>, s: Step, env: Env)
    ensures RowsEvolve(rows, Apply(rows, s, env))
  {
  }

  /** Rows are never lost; valid rows only expire or are revoked, expired rows are only revoked, revoked rows stay. */
  lemma {:induction false} RunEvolves(rows: seq<Row>, steps: seq<Step>, env: Env)
    ensures RowsEvolve(rows, Run(rows, steps, env))
    decreases |steps|
  {
    if steps != [] {
      var next := Apply(rows, steps[0], env);
      StepEvolves(rows, steps[0], env);
      RunEvolves(next, steps[1..], env);
      var last := Run(rows, steps, env);
      forall i | 0 <= i < |rows|
        ensures Evolves(rows[i], last[i])
      {
        EvolvesTransitive(rows[i], next[i], last[i]);
      }
    }
  }

  lemma InsertKeepsSerials(rows: seq<Row>, r: Row, nameTaken: bool)
    requires DistinctSerials(rows) && Insert(rows, r, nameTaken).Some?
    ensures DistinctSerials(rows + [r])
  {
    var more := rows + [r];
    forall i, j | 0 <= i < j < |more|
      ensures Key(more[i].serial) != Key(more[j].serial)
    {
      assert more[i] == rows[i];
    }
  }

  /** Changing rows but not their serials. */
  lemma SameSerials(rows: seq<Row>, now: seq<Row>)
    requires DistinctSerials(rows) && |now| == |rows| && forall i :: 0 <= i < |rows| ==> now[i].serial == rows[i].serial
    ensures DistinctSerials(now)
  {
  }

  lemma RevokeKeepsSerials(
    rows: seq<Row>, i: nat, c: Certificate, kind: RevType, arg: string, now: Option<string>, asn1: Asn1)
    requires DistinctSerials(rows) && i < |rows|
    ensures DistinctSerials(RevokeAt(rows, i, c, kind, arg, now, asn1).0)
  {
    SameSerials(rows, RevokeAt(rows, i, c, kind, arg, now, asn1).0);
  }

  lemma StepKeepsSerials(rows: seq<Row>, s: Step, env: Env)
    requires DistinctSerials(rows)
    ensures DistinctSerials(Apply(rows, s, env))
  {
    match s {
      case Certify(cert, nameTaken) =>
        if Insert(rows, NewRow(cert), nameTaken).Some? {
          InsertKeepsSerials(rows, NewRow(cert), nameTaken);
        }
      case Revoke(cert, kind, arg, now, nameTaken) =>
        var i := Find(rows, Key(SerialField(cert.serial)));
        if i < |rows| {
          RevokeKeepsSerials(rows, i, cert, kind, arg, now, env.asn1);
        } else if Insert(rows, NewRow(cert), nameTaken).Some? {
          InsertKeepsSerials(rows, NewRow(cert), nameTaken);
          RevokeKeepsSerials(rows + [NewRow(cert)], |rows|, cert, kind, arg, now, env.asn1);
        }
      case Expire(expired) =>
        SameSerials(rows, Apply(rows, s, env));
    }
  }

  /** Serials stay unique up to leading zeros over every run. */
  lemma {:induction false} RunKeepsSerials(rows: seq<Row>, steps: seq<Step>, env: Env)
    requires DistinctSerials(rows)
    ensures DistinctSerials(Run(rows, steps, env))
    decreases |steps|
  {
    if steps != [] {
      StepKeepsSerials(rows, steps[0], env);
      RunKeepsSerials(Apply(rows, steps[0], env), steps[1..], env);
    }
  }

  // ----- serial numbers

  /** The rows keep their serials, and the serials of new rows are plain. */
  predicate SerialsKept(was: seq<Row>, now: seq<Row>) {
    && |was| <= |now| && (forall i :: 0 <= i < |was| ==> now[i].serial == was[i].serial)
    && forall i :: |was| <= i < |now| ==> Plain(now[i].serial)
  }

  lemma StepKeepsFields(rows: seq<Row>, s: Step, env: Env)
    ensures SerialsKept(rows, Apply(rows, s, env))
  {
    if !s.Expire? {
      SerialFieldNumber(s.cert.serial);
    }
  }

  lemma {:induction false} RunKeepsFields(rows: seq<Row>, steps: seq<Step>, env: Env)
    ensures SerialsKept(rows, Run(rows, steps, env))
    decreases |steps|
  {
    if steps != [] {
      StepKeepsFields(rows, steps[0], env);
      RunKeepsFields(Apply(rows, steps[0], env), steps[1..], env);
    }
  }

  predicate SerialsOk(rows: seq<Row>) {
    forall i :: 0 <= i < |rows| ==> SerialOk(rows[i].serial)
  }

  predicate AllPlain(rows: seq<Row>) {
    forall i :: 0 <= i < |rows| ==> Plain(rows[i].serial)
  }

  /** No two rows have the same serial number. */
  predicate DistinctNumbers(rows: seq<Row>) {
    SerialsOk(rows) &&
    forall i, j :: 0 <= i < j < |rows| ==> NumberOf(rows[i].serial) != NumberOf(rows[j].serial)
  }

  lemma {:induction false} PlainNumbers(rows: seq<Row>)
    requires AllPlain(rows) && DistinctSerials(rows)
    ensures DistinctNumbers(rows)
  {
    forall i, j | 0 <= i < j < |rows|
      ensures NumberOf(rows[i].serial) != NumberOf(rows[j].serial)
    {
      PlainFieldsKey(rows[i].serial, rows[j].serial);
    }
  }

  /** The certification of a certificate with the number of a row whose field is not plain. */
  function SameNumber(r: Row): Step
    requires SerialOk(r.serial)
  {
    Step.Certify(Certificate(NumberOf(r.serial), "", ""), false)
  }

  /** It puts that number into the database a second time, if the number does not stand there twice already. */
  lemma {:induction false} NotPlainRepeats(rows: seq<Row>, i: nat, env: Env)
    requires SerialsOk(rows) && i < |rows| && !Plain(rows[i].serial)
    ensures !DistinctNumbers(rows) || !DistinctNumbers(Apply(rows, SameNumber(rows[i]), env))
  {
    var s := rows[i].serial;
    var field := SerialField(NumberOf(s));
    SerialFieldNumber(NumberOf(s));
    PlainExactly(s);
    var j := Find(rows, Key(field));
    if j < |rows| {
      SameKeySameNumber(rows[j].serial, field);
    } else {
      var next := Apply(rows, SameNumber(rows[i]), env);
      assert next[i].serial == s && next[|rows|].serial == field;
    }
  }

  lemma {:induction false} PlainRun(rows: seq<Row>, steps: seq<Step>, env: Env)
    requires AllPlain(rows) && DistinctSerials(rows)
    ensures DistinctNumbers(Run(rows, steps, env))
  {
    RunKeepsFields(rows, steps, env);
    RunKeepsSerials(rows, steps, env);
    PlainNumbers(Run(rows, steps, env));
  }

  lemma {:induction false} NotPlainRun(rows: seq<Row>, env: Env) returns (steps: seq<Step>)
    requires SerialsOk(rows) && !AllPlain(rows)
    ensures !DistinctNumbers(Run(rows, steps, env))
  {
    var i :| 0 <= i < |rows| && !Plain(rows[i].serial);
    NotPlainRepeats(rows, i, env);
    RunOne(rows, SameNumber(rows[i]), env);
    steps := if DistinctNumbers(rows) then [SameNumber(rows[i])] else [];
  }

  /** Serial numbers are distinct over every run exactly when the fields of the first database are plain. */
  lemma {:induction false} RunKeepsNumbers(rows: seq<Row>, env: Env)
    requires SerialsOk(rows) && DistinctSerials(rows)
    ensures AllPlain(rows) <==> forall steps :: DistinctNumbers(Run(rows, steps, env))
  {
    if AllPlain(rows) {
      forall steps
        ensures DistinctNumbers(Run(rows, steps, env))
      {
        PlainRun(rows, steps, env);
      }
    } else {
      var steps := NotPlainRun(rows, env);
    }
  }

  lemma {:induction false} RunOne(rows: seq<Row>, s: Step, env: Env)
    ensures Run(rows, [s], env) == Apply(rows, s, env)
  {
    assert Run(Apply(rows, s, env), [], env) == Apply(rows, s, env);
  }

  // ----- dates

  /** The revocation field is filled in exactly on the revoked rows. */
  predicate DatedExactly(r: Row) {
    TypeChar(r) == 'R' <==> r.rev != ""
  }

  predicate AllDatedExactly(rows: seq<Row>) {
    forall i :: 0 <= i < |rows| ==> DatedExactly(rows[i])
  }

  predicate ClockShows(s: Step) {
    s.Revoke? && s.now.Some? ==> s.now.value != ""
  }

  lemma RevokeKeepsDates(
    rows: seq<Row>, i: nat, c: Certificate, kind: RevType, arg: string, now: Option<string>, asn1: Asn1)
    requires AllDatedExactly(rows) && i < |rows| && (now.Some? ==> now.value != "")
    ensures AllDatedExactly(RevokeAt(rows, i, c, kind, arg, now, asn1).0)
  {
  }

  /** A step whose clock shows something keeps this, whether its dates can be read or not. */
  lemma StepKeepsDates(rows: seq<Row>, s: Step, env: Env)
    requires AllDatedExactly(rows) && ClockShows(s)
    ensures AllDatedExactly(Apply(rows, s, env))
  {
    match s {
      case Certify(_, _) =>
      case Revoke(cert, kind, arg, now, nameTaken) =>
        var i := Find(rows, Key(SerialField(cert.serial)));
        if i < |rows| {
          RevokeKeepsDates(rows, i, cert, kind, arg, now, env.asn1);
        } else if Insert(rows, NewRow(cert), nameTaken).Some? {
          RevokeKeepsDates(rows + [NewRow(cert)], |rows|, cert, kind, arg, now, env.asn1);
        }
      case Expire(_) =>
    }
  }

  /** So over every run from a database that loads. */
  lemma {:induction false} RunKeepsDates(rows: seq<Row>, steps: seq<Step>, env: Env)
    requires AllDatedExactly(rows) && forall k :: 0 <= k < |steps| ==> ClockShows(steps[k])
    ensures AllDatedExactly(Run(rows, steps, env))
    decreases |steps|
  {
    if steps != [] {
      StepKeepsDates(rows, steps[0], env);
      RunKeepsDates(Apply(rows, steps[0], env), steps[1..], env);
    }
  }

  /** The date written into a revoked row can be read back. */
  predicate ClockOk(now: Option<string>, asn1: Asn1) {
    now.Some? ==> asn1.utcTime(now.value)
  }

  /** Overwriting the type field does not run into an expiry date that then cannot be read. */
  predicate TypeFieldOk(r: Row, env: Env) {
    r.typ != "" || !r.loaded || env.date("")
  }

  /** Whether the row `i` is revoked by this step. */
  predicate Revokes(r: Row, s: Step, env: Env)
    requires s.Revoke?
  {
    RevokeRow(r, s.cert, s.kind, s.arg, s.now, env.asn1).Some?
  }

  /** The dates that this step puts into the database can be read. */
  predicate WellDated(rows: seq<Row>, s: Step, env: Env) {
    match s
    case Certify(cert, nameTaken) => Insert(rows, NewRow(cert), nameTaken).Some? ==> env.date(cert.notAfter)
    case Revoke(cert, kind, arg, now, nameTaken) =>
      var i := Find(rows, Key(SerialField(cert.serial)));
      if i < |rows| then Revokes(rows[i], s, env) ==> ClockOk(now, env.asn1) && TypeFieldOk(rows[i], env)
      else
        Insert(rows, NewRow(cert), nameTaken).Some? ==>
          env.date(cert.notAfter) && (Revokes(NewRow(cert), s, env) ==> ClockOk(now, env.asn1))
    case Expire(expired) => true
  }

  predicate CommaFreeClock(s: Step) {
    s.Revoke? && s.now.Some? ==> CommaFree(s.now.value)
  }

  /** A revoked row passes the load checks exactly when the clock and the type field were in order. */
  lemma RevokedRowOk(r: Row, s: Step, env: Env)
    requires s.Revoke? && CommaFreeClock(s) && RowOk(r, env) && Revokes(r, s, env)
    ensures RowOk(RevokeRow(r, s.cert, s.kind, s.arg, s.now, env.asn1).value, env) <==>
      ClockOk(s.now, env.asn1) && TypeFieldOk(r, env)
  {
    UnpackMake(s.kind, s.arg, s.now.value, env.asn1);
  }

  lemma NewRowOk(c: Certificate, env: Env)
    ensures RowOk(NewRow(c), env) <==> env.date(c.notAfter)
  {
    SerialFieldOk(c.serial);
  }

  /** Changing one row keeps the checks exactly when the new row passes them. */
  lemma ReplaceRow(rows: seq<Row>, i: nat, r: Row, env: Env)
    requires i < |rows| && r.serial == rows[i].serial && DistinctSerials(rows)
    requires forall j :: 0 <= j < |rows| && j != i ==> RowOk(rows[j], env)
    ensures LoadOk(rows[i := r], env) <==> RowOk(r, env)
  {
    var next := rows[i := r];
    assert next[i] == r;
    assert DistinctSerials(next);
  }

  lemma AppendRow(rows: seq<Row>, r: Row, nameTaken: bool, env: Env)
    requires LoadOk(rows, env) && Insert(rows, r, nameTaken).Some?
    ensures LoadOk(rows + [r], env) <==> RowOk(r, env)
  {
    InsertKeepsSerials(rows, r, nameTaken);
    assert (rows + [r])[|rows|] == r;
  }

  lemma RevokeKeepsChecks(rows: seq<Row>, s: Step, env: Env)
    requires s.Revoke? && LoadOk(rows, env) && CommaFreeClock(s)
    ensures LoadOk(Apply(rows, s, env), env) <==> WellDated(rows, s, env)
  {
    var i, new' := Find(rows, Key(SerialField(s.cert.serial))), NewRow(s.cert);
    if i < |rows| {
      if Revokes(rows[i], s, env) {
        RevokedRowOk(rows[i], s, env);
        ReplaceRow(rows, i, RevokeRow(rows[i], s.cert, s.kind, s.arg, s.now, env.asn1).value, env);
      }
    } else if Insert(rows, new', s.nameTaken).Some? {
      NewRowOk(s.cert, env);
      AppendRow(rows, new', s.nameTaken, env);
      if Revokes(new', s, env) {
        RevokedNewRow(rows, new', s, env);
      }
    }
  }

  lemma RevokedNewRow(rows: seq<Row>, r: Row, s: Step, env: Env)
    requires s.Revoke? && LoadOk(rows, env) && CommaFreeClock(s) && r == NewRow(s.cert) && Revokes(r, s, env)
    requires Insert(rows, r, s.nameTaken).Some?
    ensures LoadOk((rows + [r])[|rows| := RevokeRow(r, s.cert, s.kind, s.arg, s.now, env.asn1).value], env) <==>
      env.date(s.cert.notAfter) && ClockOk(s.now, env.asn1)
  {
    var row := RevokeRow(r, s.cert, s.kind, s.arg, s.now, env.asn1).value;
    InsertKeepsSerials(rows, r, s.nameTaken);
    ReplaceRow(rows + [r], |rows|, row, env);
    NewRowOk(s.cert, env);
    if RowOk(r, env) {
      RevokedRowOk(r, s, env);
    }
  }

  lemma {:induction false} ExpireKeepsChecks(rows: seq<Row>, s: Step, env: Env)
    requires s.Expire? && LoadOk(rows, env)
    ensures LoadOk(Apply(rows, s, env), env) && Readable(rows, env) == |rows|
  {
    StepKeepsSerials(rows, s, env);
    var n := Readable(rows, env);
    assert n < |rows| ==> RowOk(rows[n], env);
    var next := Apply(rows, s, env);
    forall i | 0 <= i < |next|
      ensures RowOk(next[i], env)
    {
      assert RowOk(rows[i], env);
    }
  }

  /** Each step keeps the load checks exactly when the dates it brings in can be read. */
  lemma StepKeepsChecks(rows: seq<Row>, s: Step, env: Env)
    requires LoadOk(rows, env) && CommaFreeClock(s)
    ensures LoadOk(Apply(rows, s, env), env) <==> WellDated(rows, s, env)
  {
    match s {
      case Certify(cert, nameTaken) =>
        if Insert(rows, NewRow(cert), nameTaken).Some? {
          NewRowOk(cert, env);
          AppendRow(rows, NewRow(cert), nameTaken, env);
        }
      case Revoke(_, _, _, _, _) => RevokeKeepsChecks(rows, s, env);
      case Expire(_) => ExpireKeepsChecks(rows, s, env);
    }
  }

  /** A row that no later step can repair. */
  predicate Broken(r: Row, env: Env) {
    || (r.typ != "" && !env.date(r.exp))
    || (TypeChar(r) == 'R' && !RowOk(r, env))
  }

  predicate HasBroken(rows: seq<Row>, env: Env) {
    exists i :: 0 <= i < |rows| && Broken(rows[i], env)
  }

  lemma BrokenStays(was: Row, now: Row, env: Env)
    requires Evolves(was, now) && Broken(was, env)
    ensures Broken(now, env)
  {
  }

  lemma BrokenAt(rows: seq<Row>, i: nat, env: Env)
    requires i < |rows| && Broken(rows[i], env)
    ensures HasBroken(rows, env) && !LoadOk(rows, env)
  {
  }

  /** Over every run a broken row stays broken, and the database does not load. */
  lemma {:induction false} RunKeepsBroken(rows: seq<Row>, steps: seq<Step>, env: Env)
    requires HasBroken(rows, env)
    ensures !LoadOk(Run(rows, steps, env), env)
  {
    var i :| 0 <= i < |rows| && Broken(rows[i], env);
    RunEvolves(rows, steps, env);
    var last := Run(rows, steps, env);
    BrokenStays(rows[i], last[i], env);
    BrokenAt(last, i, env);
  }

  /** A step whose dates cannot be read leaves a broken row. */
  lemma StepBreaks(rows: seq<Row>, s: Step, env: Env)
    requires LoadOk(rows, env) && CommaFreeClock(s) && !WellDated(rows, s, env)
    ensures HasBroken(Apply(rows, s, env), env)
  {
    match s {
      case Certify(cert, _) =>
        BrokenAt(Apply(rows, s, env), |rows|, env);
      case Revoke(cert, _, _, _, _) =>
        var i := Find(rows, Key(SerialField(cert.serial)));
        if i < |rows| {
          RevokedRowOk(rows[i], s, env);
          BrokenAt(Apply(rows, s, env), i, env);
        } else {
          NewRowOk(cert, env);
          if env.date(cert.notAfter) {
            RevokedRowOk(NewRow(cert), s, env);
          }
          BrokenAt(Apply(rows, s, env), |rows|, env);
        }
      case Expire(_) => assert false;
    }
  }

  /** Every step brings in readable dates, at the rows it meets. */
  predicate RunWellDated(rows: seq<Row>, steps: seq<Step>, env: Env)
    decreases |steps|
  {
    steps != [] ==> WellDated(rows, steps[0], env) && RunWellDated(Apply(rows, steps[0], env), steps[1..], env)
  }

  /** A run from a database that loads ends in one that loads exactly when each of its steps is well dated. */
  lemma {:induction false} RunKeepsChecks(rows: seq<Row>, steps: seq<Step>, env: Env)
    requires LoadOk(rows, env) && forall k :: 0 <= k < |steps| ==> CommaFreeClock(steps[k])
    ensures LoadOk(Run(rows, steps, env), env) <==> RunWellDated(rows, steps, env)
    decreases |steps|
  {
    if steps != [] {
      StepKeepsChecks(rows, steps[0], env);
      if WellDated(rows, steps[0], env) {
        RunKeepsChecks(Apply(rows, steps[0], env), steps[1..], env);
      } else {
        StepBreaks(rows, steps[0], env);
        RunKeepsBroken(Apply(rows, steps[0], env), steps[1..], env);
      }
    }
  }

  /** After a load, a revocation date is present exactly on the revoked rows, and so it is over every run from there. */
  lemma {:induction false} RevocationDateExactly(rows: seq<Row>, steps: seq<Step>, env: Env)
    requires LoadOk(rows, env) && !env.asn1.utcTime("") && forall k :: 0 <= k < |steps| ==> ClockShows(steps[k])
    ensures AllDatedExactly(Run(rows, steps, env))
  {
    forall i | 0 <= i < |rows|
      ensures DatedExactly(rows[i])
    {
      assert RowOk(rows[i], env);
      assert CommaFrom("", 0) == 0;
    }
    RunKeepsDates(rows, steps, env);
  }

  // ----- inputs for which a database that loads becomes one that does not

  /** A library that reads the date `ok` only, as expiry date and as revocation time. */
  function OneDate(): Env {
    Env(s => s == "ok", Asn1(s => s == "ok", _ => true, _ => true))
  }

  /** A certificate whose expiry date cannot be read. */
  lemma UnreadableExpiry()
    ensures var s := Step.Certify(Certificate(1, "CN=a", "?"), false);
      LoadOk([], OneDate()) && CommaFreeClock(s) && !LoadOk(Apply([], s, OneDate()), OneDate())
  {
    StepKeepsChecks([], Step.Certify(Certificate(1, "CN=a", "?"), false), OneDate());
  }

  /** A revocation at a time that cannot be read. */
  lemma UnreadableClock()
    ensures var s := Step.Revoke(Certificate(1, "CN=a", "ok"), RevNone, "", Some("?"), false);
      LoadOk([], OneDate()) && CommaFreeClock(s) && !LoadOk(Apply([], s, OneDate()), OneDate())
  {
    var s := Step.Revoke(Certificate(1, "CN=a", "ok"), RevNone, "", Some("?"), false);
    StepKeepsChecks([], s, OneDate());
    assert Make(RevNone, "", Some("?"), OneDate().asn1) ==
      Some(Written("?", FieldsFor(RevNone, "", OneDate().asn1).value));
  }

  /** Revoking a loaded row with an empty type field destroys its expiry date, whatever the clock says. */
  lemma {:induction false} EmptyTypeField(rows: seq<Row>, i: nat, s: Step, env: Env)
    requires LoadOk(rows, env) && s.Revoke? && CommaFreeClock(s) && !env.date("")
    requires i == Find(rows, Key(SerialField(s.cert.serial))) < |rows| && Revokes(rows[i], s, env)
    requires rows[i].typ == "" && rows[i].loaded
    ensures !LoadOk(Apply(rows, s, env), env) && Apply(rows, s, env)[i].exp == ""
  {
    StepKeepsChecks(rows, s, env);
  }

  /** Such a row and step. */
  lemma EmptyTypeFieldInput()
    ensures var rows := [Row("", "ok", "", "01", "unknown", "CN=a", true)];
      var s := Step.Revoke(Certificate(1, "CN=a", "ok"), RevNone, "", Some("ok"), false);
      LoadOk(rows, OneDate()) && CommaFreeClock(s) && !LoadOk(Apply(rows, s, OneDate()), OneDate())
  {
    var rows := [Row("", "ok", "", "01", "unknown", "CN=a", true)];
    var s := Step.Revoke(Certificate(1, "CN=a", "ok"), RevNone, "", Some("ok"), false);
    SerialOne();
    assert Find(rows, Key(SerialField(1))) == 0;
    EmptyTypeField(rows, 0, s, OneDate());
  }

  lemma SerialOne()
    ensures SerialField(1) == "01"
  {
    assert HexBytes(0) == "";
    assert HexBytes(1) == HexBytes(0) + ['0', '1'];
  }

  /** A lower-case field: the serial number 10 stands in the database twice, and the database loads. */
  lemma {:induction false} LowerCaseRepeats()
    ensures var rows := [Row("V", "ok", "", "0a", "unknown", "CN=a", true)];
      var next := Apply(rows, Step.Certify(Certificate(10, "CN=b", "ok"), false), OneDate());
      LoadOk(rows, OneDate()) && LoadOk(next, OneDate()) && |next| == 2
      && NumberOf(next[0].serial) == NumberOf(next[1].serial) == 10
  {
    var rows := [Row("V", "ok", "", "0a", "unknown", "CN=a", true)];
    var s := Step.Certify(Certificate(10, "CN=b", "ok"), false);
    SerialFieldNumber(10);
    LowerCaseTen();
    assert Find(rows, Key(SerialField(10))) == 1;
    StepKeepsChecks(rows, s, OneDate());
  }

  lemma LowerCaseTen()
    ensures SerialOk("0a") && NumberOf("0a") == 10 && Key("0a") != Key(SerialField(10))
  {
    assert !NoLowerCase("0a") by {
      assert "0a"[1] == 'a';
    }
    PlainExactly("0a");
    assert "0a"[..1] == "0" && "0"[..0] == "";
    assert HexNumber("0") == 0;
  }
}
