/**
 What the steps of the CA do to its database (`ca.c`), told row by row: when a certificate is added,
 revoked or refused, and which rows expire.
 */
module CaOutcome {
  import opened Common
  import opened Revocation
  import opened RevocationText
  import opened CaSerial
  import opened CaDatabase

  // ----- new rows

  /** The subject of the certificate, or its serial number if it has none. */
  function NameOf(c: Certificate): string {
    if c.subject != "" then c.subject else SerialField(c.serial)
  }

  /** A valid row for the certificate. */
  predicate IsNew(r: Row, c: Certificate) {
    && r.typ == "V" && r.exp == c.notAfter && r.rev == "" && r.serial == SerialField(c.serial)
    && r.file == "unknown" && r.name == NameOf(c) && !r.loaded
  }

  /** A row stands under the serial number of the certificate. */
  predicate SerialAt(rows: seq<Row>, i: nat, c: Certificate) {
    i < |rows| && Key(rows[i].serial) == Key(SerialField(c.serial))
  }

  predicate SerialPresent(rows: seq<Row>, c: Certificate) {
    exists i :: 0 <= i < |rows| && SerialAt(rows, i, c)
  }

  lemma {:induction false} FoundIsPresent(rows: seq<Row>, c: Certificate)
    ensures Find(rows, Key(SerialField(c.serial))) < |rows| <==> SerialPresent(rows, c)
  {
    var i := Find(rows, Key(SerialField(c.serial)));
    if i < |rows| {
      assert SerialAt(rows, i, c);
    }
  }

  /** A row is added behind the others unless the serial number is there or the name is taken. */
  lemma CertifyExactly(rows: seq<Row>, c: Certificate, nameTaken: bool, env: Env)
    ensures var after := Apply(rows, Step.Certify(c, nameTaken), env);
      if nameTaken || SerialPresent(rows, c) then after == rows
      else |after| == |rows| + 1 && after[..|rows|] == rows && IsNew(after[|rows|], c)
  {
    FoundIsPresent(rows, c);
  }

  // ----- revocation

  predicate ArgumentOk(kind: RevType, arg: string, asn1: Asn1) {
    match kind
    case RevValid => true
    case RevNone => true
    case RevCrlReason => exists i :: 0 <= i < 8 && NamesReason(arg, i)
    case RevHold => asn1.oid(arg)
    case RevKeyCompromise => asn1.generalizedTime(arg)
    case RevCaCompromise => asn1.generalizedTime(arg)
  }

  /** A revocation text is made exactly if the argument is accepted and the clock is read. */
  lemma TextExactly(kind: RevType, arg: string, now: Option<string>, asn1: Asn1)
    ensures Make(kind, arg, now, asn1).Some? <==> ArgumentOk(kind, arg, asn1) && now.Some?
  {
    if now.Some? {
      WrittenTexts(arg, now.value, asn1);
      WrittenReason(arg, now.value, asn1);
    }
  }

  /** The row is revoked with this text. The NUL behind the `R` can fall on the expiry date of a loaded row. */
  predicate IsRevoked(was: Row, now: Row, rev: string) {
    && now.typ == "R" && now.rev == rev
    && now.serial == was.serial && now.file == was.file && now.name == was.name && now.loaded == was.loaded
    && now.exp == if was.typ == "" && was.loaded then "" else was.exp
  }

  predicate MayRevoke(r: Row, c: Certificate, kind: RevType, arg: string, now: Option<string>, asn1: Asn1) {
    && r.name == NameOf(c) && kind != RevValid && !(r.typ != "" && r.typ[0] == 'R')
    && ArgumentOk(kind, arg, asn1) && now.Some?
  }

  /**
   A certificate whose serial number stands in row `i`: it is revoked exactly if the names agree, a
   revocation is asked for, the row is not revoked, the argument is accepted and the clock is read. That
   row alone changes then, and none changes otherwise.
   */
  lemma {:induction false} RevokePresent(rows: seq<Row>, i: nat, c: Certificate, kind: RevType, arg: string,
                                         now: Option<string>, nameTaken: bool, asn1: Asn1)
    requires DistinctSerials(rows) && SerialAt(rows, i, c)
    ensures var (after, ok) := AfterRevoke(rows, c, kind, arg, now, nameTaken, asn1);
      && (ok <==> MayRevoke(rows[i], c, kind, arg, now, asn1))
      && (!ok ==> after == rows)
      && (ok ==> |after| == |rows| && (forall j :: 0 <= j < |rows| && j != i ==> after[j] == rows[j])
                 && IsRevoked(rows[i], after[i], Make(kind, arg, now, asn1).value))
  {
    TextExactly(kind, arg, now, asn1);
    assert Find(rows, Key(SerialField(c.serial))) == i;
  }

  /**
   A certificate that is not in the database: it is added first, unless its name is taken, and then
   revoked if that is asked for. It stays as a valid row when the revocation fails.
   */
  lemma {:induction false} RevokeAbsent(rows: seq<Row>, c: Certificate, kind: RevType, arg: string,
                                        now: Option<string>, nameTaken: bool, asn1: Asn1)
    requires !SerialPresent(rows, c)
    ensures var (after, ok) := AfterRevoke(rows, c, kind, arg, now, nameTaken, asn1);
      && (ok <==> !nameTaken && (kind == RevValid || (ArgumentOk(kind, arg, asn1) && now.Some?)))
      && (nameTaken ==> after == rows)
      && (!nameTaken ==>
            && |after| == |rows| + 1 && after[..|rows|] == rows
            && (!ok || kind == RevValid ==> IsNew(after[|rows|], c))
            && (ok && kind != RevValid ==>
                  exists r :: IsNew(r, c) && IsRevoked(r, after[|rows|], Make(kind, arg, now, asn1).value)))
  {
    FoundIsPresent(rows, c);
    TextExactly(kind, arg, now, asn1);
    assert IsNew(NewRow(c), c);
  }

  // ----- expiry

  predicate IsValid(r: Row) {
    r.typ != "" && r.typ[0] == 'V'
  }

  /** The expiry dates of the valid rows up to the `i`-th can be read. */
  predicate Reached(rows: seq<Row>, i: nat, env: Env)
    requires i < |rows|
  {
    forall j :: 0 <= j <= i && IsValid(rows[j]) ==> env.date(rows[j].exp)
  }

  /** A row is marked as expired exactly if it is valid, has expired, and no unreadable date stands before it. */
  lemma ExpireExactly(rows: seq<Row>, expired: string -> bool, env: Env, i: nat)
    requires i < |rows|
    ensures var after := Apply(rows, Expire(expired), env);
      && |after| == |rows|
      && after[i] ==
         if IsValid(rows[i]) && Reached(rows, i, env) && expired(rows[i].exp) then rows[i].(typ := "E") else rows[i]
  {
    var n := Readable(rows, env);
    if n < |rows| {
      assert IsValid(rows[n]) && !env.date(rows[n].exp);
    }
  }

  /** The positions of the expired valid rows among the first `n`. */
  function ExpiredRows(rows: seq<Row>, n: nat, expired: string -> bool): set<nat>
    requires n <= |rows|
  {
    set i: nat | i < n && IsValid(rows[i]) && expired(rows[i].exp)
  }

  lemma ExpiredNext(rows: seq<Row>, n: nat, expired: string -> bool)
    requires n < |rows|
    ensures var more: set<nat> := if IsValid(rows[n]) && expired(rows[n].exp) then {n} else {};
      ExpiredRows(rows, n + 1, expired) == ExpiredRows(rows, n, expired) + more && n !in ExpiredRows(rows, n, expired)
  {
  }

  /** The count is the number of these rows. */
  lemma {:induction false} CountExactly(rows: seq<Row>, n: nat, expired: string -> bool)
    requires n <= |rows|
    ensures CountDue(rows, n, expired) == |ExpiredRows(rows, n, expired)|
  {
    if n > 0 {
      CountExactly(rows, n - 1, expired);
      ExpiredNext(rows, n - 1, expired);
    }
  }

  /** No row is left out exactly if every valid row has a date that can be read. */
  lemma {:induction false} ReadableExactly(rows: seq<Row>, env: Env)
    ensures Readable(rows, env) == |rows| <==> forall i :: 0 <= i < |rows| && IsValid(rows[i]) ==> env.date(rows[i].exp)
  {
    var n := Readable(rows, env);
    if n < |rows| {
      assert IsValid(rows[n]) && !env.date(rows[n].exp);
    }
  }

  // ----- the load check

  /** The serial fields that are accepted: an even number of hexadecimal digits, at least two, behind a minus or not. */
  lemma SerialShape(s: string)
    ensures SerialOk(s) <==>
      var m := if s != "" && s[0] == '-' then 1 else 0;
      && |s| >= m + 2 && (|s| - m) % 2 == 0
      && forall k :: m <= k < |s| ==> '0' <= s[k] <= '9' || 'A' <= s[k] <= 'F' || 'a' <= s[k] <= 'f'
  {
    var m := if s != "" && s[0] == '-' then 1 else 0;
    var t := Unsigned(s);
    assert t == s[m..];
    assert forall k :: m <= k < |s| ==> s[k] == t[k - m];
  }

  /** What the index compares is the field without its leading zeros. */
  lemma {:induction false} KeyShape(s: string)
    ensures exists z :: 0 <= z <= |s| && (forall k :: 0 <= k < z ==> s[k] == '0') && Key(s) == s[z..]
                        && (z < |s| ==> s[z] != '0')
  {
    if s != "" && s[0] == '0' {
      KeyShape(s[1..]);
      var z :| 0 <= z <= |s| - 1 && (forall k :: 0 <= k < z ==> s[1..][k] == '0') && Key(s[1..]) == s[1..][z..]
               && (z < |s| - 1 ==> s[1..][z] != '0');
      assert s[1..][z..] == s[z + 1..];
      forall k | 0 <= k < z + 1
        ensures s[k] == '0'
      {
        assert k > 0 ==> s[1..][k - 1] == s[k];
      }
    } else {
      assert s[0..] == s;
    }
  }

  /** A row is in order by these four tests. */
  lemma RowShape(r: Row, env: Env)
    ensures RowOk(r, env) <==>
      && (r.typ != "" && r.typ[0] == 'R' ==> Unpack(r.rev, env.asn1).Some?)
      && (r.typ == "" || r.typ[0] != 'R' ==> r.rev == "")
      && env.date(r.exp) && SerialOk(r.serial)
  {
  }
}
