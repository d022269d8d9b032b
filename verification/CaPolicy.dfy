/**
 The subject policy of the CA (`ca.c`, `do_body`): which attributes of a request go into the
 subject of its certificate, and the removal of e-mail addresses from a subject.

 A name is the list of its entries. The value of an entry stands for the whole ASN.1 string,
 its type included, since that is what the comparison looks at.
 */
module CaPolicy {
  import opened Common

  datatype Entry = Entry(oid: nat, value: string)

  type Name = seq<Entry>

  /** One line of the policy section: an attribute and `optional`, `supplied` or `match`. */
  datatype PolicyItem = PolicyItem(attribute: string, rule: string)

  /** The object table: the number of an attribute name, if it is known. */
  type Objects = string -> Option<nat>

  // ----- what the policy asks for

  /** The entries of the attribute `oid` among the first `n` entries, in order. */
  function OfType(name: Name, oid: nat, n: nat): Name
    requires n <= |name|
  {
    if n == 0 then []
    else if name[n - 1].oid == oid then OfType(name, oid, n - 1) + [name[n - 1]]
    else OfType(name, oid, n - 1)
  }

  predicate Has(name: Name, e: Entry) {
    exists k :: 0 <= k < |name| && name[k] == e
  }

  predicate Satisfied(item: PolicyItem, name: Name, caName: Name, objects: Objects) {
    var oid := objects(item.attribute);
    && oid.Some?
    && var wanted := OfType(name, oid.value, |name|);
      || item.rule == "optional"
      || (item.rule == "supplied" && wanted != [])
      || (item.rule == "match" && wanted != [] && forall k :: 0 <= k < |wanted| ==> Has(caName, wanted[k]))
  }

  /** The subject made by the first `n` policy items. */
  function Subject(policy: seq<PolicyItem>, n: nat, name: Name, objects: Objects): Name
    requires n <= |policy| && forall i :: 0 <= i < n ==> objects(policy[i].attribute).Some?
  {
    if n == 0 then []
    else Subject(policy, n - 1, name, objects) + OfType(name, objects(policy[n - 1].attribute).value, |name|)
  }

  predicate PolicyHolds(policy: seq<PolicyItem>, name: Name, caName: Name, objects: Objects) {
    forall i :: 0 <= i < |policy| ==> Satisfied(policy[i], name, caName, objects)
  }

  // ----- what `OfType` means

  /** The selected entries are exactly those of the attribute: none is missed, none is foreign. */
  lemma {:induction false} OfTypeMembers(name: Name, oid: nat, n: nat)
    requires n <= |name|
    ensures forall j :: 0 <= j < |OfType(name, oid, n)| ==>
      OfType(name, oid, n)[j].oid == oid && Has(name[..n], OfType(name, oid, n)[j])
    ensures forall k :: 0 <= k < n && name[k].oid == oid ==> Has(OfType(name, oid, n), name[k])
  {
    if n > 0 {
      var before, es := OfType(name, oid, n - 1), OfType(name, oid, n);
      OfTypeMembers(name, oid, n - 1);
      forall j | 0 <= j < |es|
        ensures es[j].oid == oid && Has(name[..n], es[j])
      {
        if j < |before| {
          var k :| 0 <= k < n - 1 && name[..n - 1][k] == before[j];
          assert name[..n][k] == es[j];
        } else {
          assert name[..n][n - 1] == es[j];
        }
      }
      forall k | 0 <= k < n && name[k].oid == oid
        ensures Has(es, name[k])
      {
        if k < n - 1 {
          var j :| 0 <= j < |before| && before[j] == name[k];
          assert es[j] == name[k];
        } else {
          assert es[|es| - 1] == name[k];
        }
      }
    }
  }

  /** Where the selected entries stand: their positions increase, and no position of the attribute is left out. */
  lemma {:induction false} OfTypePositions(name: Name, oid: nat, n: nat) returns (at: seq<nat>)
    requires n <= |name|
    ensures |at| == |OfType(name, oid, n)|
    ensures forall j :: 0 <= j < |at| ==> at[j] < n && name[at[j]] == OfType(name, oid, n)[j]
    ensures forall i, j :: 0 <= i < j < |at| ==> at[i] < at[j]
    ensures forall k :: 0 <= k < n && name[k].oid == oid ==> k in at
  {
    if n == 0 {
      return [];
    }
    at := OfTypePositions(name, oid, n - 1);
    if name[n - 1].oid == oid {
      at := at + [n - 1];
    }
  }

  /** Entries of other attributes do not change the selection. */
  lemma {:induction false} OfTypeSplit(name: Name, oid: nat, m: nat, n: nat)
    requires m <= n <= |name| && forall k :: m <= k < n ==> name[k].oid != oid
    ensures OfType(name, oid, n) == OfType(name, oid, m)
  {
    if m < n {
      OfTypeSplit(name, oid, m, n - 1);
    }
  }

  // ----- the search used by every loop

  /** `X509_NAME_get_index_by_OBJ`: the next entry of the attribute after `last`, or -1. */
  function IndexByObj(name: Name, oid: nat, last: int): (j: int)
    requires -1 <= last
    ensures j == -1 || last < j < |name|
    ensures j >= 0 ==> name[j].oid == oid
    ensures forall k :: last < k < (if j < 0 then |name| else j) ==> name[k].oid != oid
    decreases |name| - last
  {
    if last + 1 >= |name| then -1
    else if name[last + 1].oid == oid then last + 1
    else IndexByObj(name, oid, last + 1)
  }

  // ----- the loops

  /** Looks for an entry of the CA name that equals `tne`; the source's jump back is the loop. */
  method MatchInCa(caName: Name, tne: Entry) returns (push: Option<Entry>)
    ensures push == if Has(caName, tne) then Some(tne) else None
  {
    var last2 := -1;
    while true
      invariant -1 <= last2 < |caName| || last2 == -1
      invariant forall k :: 0 <= k <= last2 ==> caName[k] != tne
      decreases |caName| - last2
    {
      var j := IndexByObj(caName, tne.oid, last2);
      if j < 0 {
        return None;
      }
      last2 := j;
      if tne.value == caName[j].value {
        return Some(caName[j]);
      }
    }
  }

  /** One policy item: appends the entries it lets through to `subject0`, or fails. */
  method ApplyItem(item: PolicyItem, name: Name, caName: Name, objects: Objects, subject0: Name)
    returns (r: Option<Name>)
    ensures r.Some? <==> Satisfied(item, name, caName, objects)
    ensures r.Some? ==> r.value == subject0 + OfType(name, objects(item.attribute).value, |name|)
  {
    var nid := objects(item.attribute);
    if nid.None? {
      return None;
    }
    var oid := nid.value;
    var subject, last := subject0, -1;
    ghost var taken: Name := [];
    while true
      invariant -1 <= last && (last < |name| || last == -1)
      invariant taken == OfType(name, oid, last + 1) && subject == subject0 + taken
      invariant last != -1 ==> taken != []
      invariant last != -1 ==> item.rule == "optional" || item.rule == "supplied" || item.rule == "match"
      invariant item.rule == "match" ==> forall k :: 0 <= k < |taken| ==> Has(caName, taken[k])
      decreases |name| - last
    {
      var j := IndexByObj(name, oid, last);
      OfTypeSplit(name, oid, last + 1, if j < 0 then |name| else j);
      if j < 0 && last != -1 {
        break;
      }
      var tne := if j < 0 then None else Some(name[j]);
      last := j;
      var push: Option<Entry> := None;
      if item.rule == "optional" {
        push := tne;
      } else if item.rule == "supplied" {
        if tne.None? {
          return None;
        }
        push := tne;
      } else if item.rule == "match" {
        if tne.None? {
          return None;
        }
        push := MatchInCa(caName, tne.value);
        if push.None? {
          Mismatch(item, name, caName, objects, j);
          return None;
        }
      } else {
        return None;
      }
      if push.Some? {
        subject := subject + [push.value];
        taken := taken + [push.value];
      }
      if j < 0 {
        break;
      }
    }
    r := Some(subject);
  }

  lemma Mismatch(item: PolicyItem, name: Name, caName: Name, objects: Objects, j: nat)
    requires j < |name| && item.rule == "match" && objects(item.attribute) == Some(name[j].oid)
    requires !Has(caName, name[j])
    ensures !Satisfied(item, name, caName, objects)
  {
    OfTypeMembers(name, name[j].oid, |name|);
    var wanted := OfType(name, name[j].oid, |name|);
    assert Has(wanted, name[j]);
  }

  /** The policy loop: succeeds exactly when every item is satisfied, with the subject they prescribe. */
  method ApplyPolicy(policy: seq<PolicyItem>, name: Name, caName: Name, objects: Objects)
    returns (subject: Option<Name>)
    ensures subject.Some? <==> PolicyHolds(policy, name, caName, objects)
    ensures subject.Some? ==> subject.value == Subject(policy, |policy|, name, objects)
  {
    var made: Name := [];
    for i := 0 to |policy|
      invariant forall k :: 0 <= k < i ==> Satisfied(policy[k], name, caName, objects)
      invariant made == Subject(policy, i, name, objects)
    {
      var r := ApplyItem(policy[i], name, caName, objects, made);
      if r.None? {
        return None;
      }
      made := r.value;
    }
    subject := Some(made);
  }

  // ----- consequences for the subject

  /** Every entry of the subject was in the request, under an attribute that the policy names. */
  lemma {:induction false} SubjectFromRequest(policy: seq<PolicyItem>, n: nat, name: Name, objects: Objects, k: nat)
    requires n <= |policy| && forall i :: 0 <= i < n ==> objects(policy[i].attribute).Some?
    requires k < |Subject(policy, n, name, objects)|
    ensures var e := Subject(policy, n, name, objects)[k]; Has(name, e) && Listed(policy, n, e.oid, objects)
  {
    var before := Subject(policy, n - 1, name, objects);
    var oid := objects(policy[n - 1].attribute).value;
    var e := Subject(policy, n, name, objects)[k];
    if k < |before| {
      SubjectFromRequest(policy, n - 1, name, objects, k);
      var i :| 0 <= i < n - 1 && objects(policy[i].attribute) == Some(e.oid);
    } else {
      OfTypeMembers(name, oid, |name|);
      assert name[..|name|] == name;
      assert e == OfType(name, oid, |name|)[k - |before|];
      assert objects(policy[n - 1].attribute) == Some(e.oid);
    }
  }

  predicate Listed(policy: seq<PolicyItem>, n: nat, oid: nat, objects: Objects)
    requires n <= |policy|
  {
    exists i :: 0 <= i < n && objects(policy[i].attribute) == Some(oid)
  }

  /**
   The subject item by item, in policy order: the part that the item `i` makes begins where the part of
   the items before it ends, and it is all attributes of its type in the request.
   */
  lemma {:induction false} SubjectSegment(policy: seq<PolicyItem>, n: nat, i: nat, name: Name, objects: Objects)
    requires i < n <= |policy| && forall k :: 0 <= k < n ==> objects(policy[k].attribute).Some?
    ensures var from, to := |Subject(policy, i, name, objects)|, |Subject(policy, i + 1, name, objects)|;
      && (i == 0 ==> from == 0) && from <= to <= |Subject(policy, n, name, objects)|
      && Subject(policy, n, name, objects)[from..to] == OfType(name, objects(policy[i].attribute).value, |name|)
  {
    var before := Subject(policy, n - 1, name, objects);
    var more := OfType(name, objects(policy[n - 1].attribute).value, |name|);
    if i < n - 1 {
      SubjectSegment(policy, n - 1, i, name, objects);
      WithinFirst(before, more, |Subject(policy, i, name, objects)|, |Subject(policy, i + 1, name, objects)|);
    } else {
      BehindFirst(before, more);
    }
  }

  lemma WithinFirst(a: Name, b: Name, from: nat, to: nat)
    requires from <= to <= |a|
    ensures (a + b)[from..to] == a[from..to]
  {
  }

  lemma BehindFirst(a: Name, b: Name)
    ensures (a + b)[|a|..|a| + |b|] == b
  {
  }

  /** The request has an attribute of this type. */
  predicate Supplies(name: Name, oid: nat) {
    exists k :: 0 <= k < |name| && name[k].oid == oid
  }

  /** What each of the three rules asks of the request; there is no other rule. */
  lemma SatisfiedExactly(item: PolicyItem, name: Name, caName: Name, objects: Objects)
    ensures Satisfied(item, name, caName, objects) <==>
      && objects(item.attribute).Some?
      && var oid := objects(item.attribute).value;
        || item.rule == "optional"
        || (item.rule == "supplied" && Supplies(name, oid))
        || (item.rule == "match" && Supplies(name, oid)
            && forall k :: 0 <= k < |name| && name[k].oid == oid ==> Has(caName, name[k]))
  {
    if objects(item.attribute).Some? {
      var oid := objects(item.attribute).value;
      var wanted := OfType(name, oid, |name|);
      OfTypeMembers(name, oid, |name|);
      assert name[..|name|] == name;
      assert wanted != [] ==> wanted[0].oid == oid && Has(name, wanted[0]);
    }
  }

  // ----- e-mail addresses

  function Without(name: Name, oid: nat): Name {
    if name == [] then []
    else if name[0].oid == oid then Without(name[1..], oid)
    else [name[0]] + Without(name[1..], oid)
  }

  lemma {:induction false} WithoutAppend(name: Name, e: Entry, oid: nat)
    ensures Without(name + [e], oid) == Without(name, oid) + if e.oid == oid then [] else [e]
  {
    if name == [] {
      assert Without([e][1..], oid) == [];
    } else {
      assert (name + [e])[1..] == name[1..] + [e];
      WithoutAppend(name[1..], e, oid);
    }
  }

  /** Where the entries that stay stood: their positions increase, and those of the attribute are left out, no other. */
  lemma {:induction false} WithoutPositions(name: Name, oid: nat) returns (at: seq<nat>)
    ensures |at| == |Without(name, oid)|
    ensures forall j :: 0 <= j < |at| ==> at[j] < |name| && name[at[j]] == Without(name, oid)[j]
    ensures forall i, j :: 0 <= i < j < |at| ==> at[i] < at[j]
    ensures forall k :: 0 <= k < |name| ==> (k in at <==> name[k].oid != oid)
    decreases |name|
  {
    if name == [] {
      return [];
    }
    var n := |name| - 1;
    at := WithoutPositions(name[..n], oid);
    WithoutAppend(name[..n], name[n], oid);
    assert name == name[..n] + [name[n]];
    if name[n].oid != oid {
      at := at + [n];
    }
  }

  lemma {:induction false} WithoutDeletes(name: Name, oid: nat, i: nat)
    requires i < |name| && name[i].oid == oid
    ensures Without(name[..i] + name[i + 1..], oid) == Without(name, oid)
  {
    var less := name[..i] + name[i + 1..];
    if i == 0 {
      assert less == name[1..];
    } else {
      WithoutDeletes(name[1..], oid, i - 1);
      assert less[1..] == name[1..][..i - 1] + name[1..][i..];
    }
  }

  lemma {:induction false} WithoutNone(name: Name, oid: nat)
    requires forall k :: 0 <= k < |name| ==> name[k].oid != oid
    ensures Without(name, oid) == name
  {
    if name != [] {
      WithoutNone(name[1..], oid);
    }
  }

  /** Deletes the entries of one attribute by position, stepping back after each deletion. */
  method DeleteAll(name: Name, oid: nat) returns (r: Name)
    ensures r == Without(name, oid)
    ensures forall k :: 0 <= k < |r| ==> r[k].oid != oid
  {
    r := name;
    var i := IndexByObj(r, oid, -1);
    while i >= 0
      invariant -1 <= i < |r| || i == -1
      invariant i >= 0 ==> r[i].oid == oid
      invariant forall k :: 0 <= k < (if i < 0 then |r| else i) ==> r[k].oid != oid
      invariant Without(r, oid) == Without(name, oid)
      decreases |r|
    {
      WithoutDeletes(r, oid, i);
      r := r[..i] + r[i + 1..];
      i := i - 1;
      i := IndexByObj(r, oid, i);
    }
    WithoutNone(r, oid);
  }
}
