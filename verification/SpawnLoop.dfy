/**
 `spawn_loop` of the OCSP responder (`ocsp.c`): keeps up to `multi` child processes, remembering
 their process ids in slots.

 The system is an object that answers calls in any way it can; `patience` bounds the number of
 calls before a termination signal arrives, so the runs considered are all finite runs.
 */
module SpawnLoop {
  import opened Common

  datatype WaitResult = Exited(pid: nat) | Interrupted | WaitFailed
  datatype ForkResult = ForkFailed | InChild | Forked(pid: nat)

  /** One call: the number of live children before it, its answer, and whether a signal had come by its end. */
  datatype Call =
    | Wait(live: nat, reaped: WaitResult, signal: bool)
    | Fork(live: nat, made: ForkResult, signal: bool)

  /** The children that have not been waited for, the signal flag, and the calls so far. */
  class System {
    var children: set<nat>
    var termsig: bool
    var patience: nat
    ghost var log: seq<Call>

    constructor (calls: nat)
      ensures children == {} && !termsig && patience == calls && log == []
    {
      children, termsig, patience, log := {}, false, calls, [];
    }

    /** A signal may arrive during any call, and has arrived when patience is exhausted. */
    method Tick()
      modifies this`termsig, this`patience
      ensures termsig || patience < old(patience)
    {
      var now: bool := *;
      if patience == 0 || now {
        termsig := true;
      } else {
        patience := patience - 1;
      }
    }

    /** Reports the exit of one child that was not waited for yet, or fails. */
    method Waitpid() returns (r: WaitResult)
      modifies this
      ensures r.Exited? ==> r.pid in old(children) && children == old(children) - {r.pid}
      ensures !r.Exited? ==> children == old(children)
      ensures termsig || patience < old(patience)
      ensures log == old(log) + [Wait(|old(children)|, r, termsig)]
    {
      Tick();
      ghost var live := |children|;
      var exit, interrupted: bool := *, *;
      if children != {} && exit {
        var pid :| pid in children;
        children := children - {pid};
        r := Exited(pid);
      } else {
        r := if interrupted then Interrupted else WaitFailed;
      }
      log := log + [Wait(live, r, termsig)];
    }

    /** A new child gets a positive process id that no child waiting to be reaped has. */
    method Fork() returns (r: ForkResult)
      modifies this
      ensures r.Forked? ==> r.pid != 0 && r.pid !in old(children) && children == old(children) + {r.pid}
      ensures !r.Forked? ==> children == old(children)
      ensures termsig || patience < old(patience)
      ensures log == old(log) + [Call.Fork(|old(children)|, r, termsig)]
    {
      Tick();
      ghost var live := |children|;
      var failed, child: bool := *, *;
      var pid: nat := *;
      if failed || pid == 0 || pid in children {
        r := ForkFailed;
      } else if child {
        r := InChild;
      } else {
        children := children + {pid};
        r := Forked(pid);
      }
      log := log + [Call.Fork(live, r, termsig)];
    }
  }

  // ----- slots

  /** Number of occupied slots among the first `n`. */
  function Occupied(kids: seq<nat>, n: nat): nat
    requires n <= |kids|
  {
    if n == 0 then 0 else Occupied(kids, n - 1) + if kids[n - 1] != 0 then 1 else 0
  }

  function Pids(kids: seq<nat>, n: nat): set<nat>
    requires n <= |kids|
  {
    if n == 0 then {} else Pids(kids, n - 1) + if kids[n - 1] != 0 then {kids[n - 1]} else {}
  }

  predicate Distinct(kids: seq<nat>) {
    forall i, j :: 0 <= i < j < |kids| && kids[i] != 0 && kids[j] != 0 ==> kids[i] != kids[j]
  }

  /** The occupied slots are exactly the live children, all different, and `procs` is their number. */
  ghost predicate SlotsOk(kids: seq<nat>, procs: nat, children: set<nat>) {
    Distinct(kids) && Pids(kids, |kids|) == children && procs == Occupied(kids, |kids|) == |children| <= |kids|
  }

  lemma {:induction false} PidsMeaning(kids: seq<nat>, n: nat, pid: nat)
    requires n <= |kids|
    ensures pid in Pids(kids, n) <==> pid != 0 && exists i :: 0 <= i < n && kids[i] == pid
  {
    if n > 0 {
      PidsMeaning(kids, n - 1, pid);
    }
  }

  /** Different process ids: as many as there are occupied slots. */
  lemma {:induction false} PidsCount(kids: seq<nat>, n: nat)
    requires n <= |kids| && Distinct(kids)
    ensures |Pids(kids, n)| == Occupied(kids, n) <= n
  {
    if n > 0 {
      PidsCount(kids, n - 1);
      PidsMeaning(kids, n - 1, kids[n - 1]);
    }
  }

  /** All slots are occupied exactly when their number says so. */
  lemma {:induction false} Full(kids: seq<nat>, n: nat)
    requires n <= |kids|
    ensures Occupied(kids, n) <= n
    ensures Occupied(kids, n) == n <==> forall i :: 0 <= i < n ==> kids[i] != 0
  {
    if n > 0 {
      Full(kids, n - 1);
    }
  }

  lemma {:induction false} Unchanged(kids: seq<nat>, i: nat, v: nat, n: nat)
    requires n <= i < |kids|
    ensures Pids(kids[i := v], n) == Pids(kids, n) && Occupied(kids[i := v], n) == Occupied(kids, n)
  {
    if n > 0 {
      Unchanged(kids, i, v, n - 1);
    }
  }

  lemma {:induction false} OccupiedUpdate(kids: seq<nat>, i: nat, v: nat, n: nat)
    requires i < n <= |kids|
    ensures Occupied(kids[i := v], n) + (if kids[i] != 0 then 1 else 0) == Occupied(kids, n) + (if v != 0 then 1 else 0)
  {
    if i == n - 1 {
      Unchanged(kids, i, v, n - 1);
    } else {
      OccupiedUpdate(kids, i, v, n - 1);
    }
  }

  /** Clearing the slot of a child that exited. */
  lemma ClearSlot(kids: seq<nat>, i: nat, procs: nat, children: set<nat>)
    requires SlotsOk(kids, procs, children) && i < |kids| && kids[i] != 0
    ensures procs > 0 && SlotsOk(kids[i := 0], procs - 1, children - {kids[i]})
  {
    var kids' := kids[i := 0];
    OccupiedUpdate(kids, i, 0, |kids|);
    PidsCount(kids', |kids|);
    forall pid: nat
      ensures pid in Pids(kids', |kids|) <==> pid in children - {kids[i]}
    {
      PidsMeaning(kids, |kids|, pid);
      PidsMeaning(kids', |kids|, pid);
      if pid in children - {kids[i]} {
        var j :| 0 <= j < |kids| && kids[j] == pid;
        assert kids'[j] == pid;
      }
    }
    assert Pids(kids', |kids|) == children - {kids[i]};
  }

  /** Filling an empty slot with a new child. */
  lemma FillSlot(kids: seq<nat>, i: nat, pid: nat, procs: nat, children: set<nat>)
    requires SlotsOk(kids, procs, children) && i < |kids| && kids[i] == 0 && pid != 0 && pid !in children
    ensures SlotsOk(kids[i := pid], procs + 1, children + {pid})
  {
    var kids' := kids[i := pid];
    OccupiedUpdate(kids, i, pid, |kids|);
    forall j | 0 <= j < |kids|
      ensures kids[j] != pid
    {
      PidsMeaning(kids, |kids|, pid);
    }
    PidsCount(kids', |kids|);
    forall p: nat
      ensures p in Pids(kids', |kids|) <==> p in children + {pid}
    {
      PidsMeaning(kids, |kids|, p);
      PidsMeaning(kids', |kids|, p);
      assert kids'[i] == pid;
      if p in children {
        var j :| 0 <= j < |kids| && kids[j] == p;
        assert kids'[j] == p;
      }
    }
    assert Pids(kids', |kids|) == children + {pid};
  }

  // ----- the loop

  datatype Outcome =
    | Terminated       // a termination signal arrived; the children are signalled
    | FatalWait        // waitpid failed; the children are signalled
    | ReturnsInChild   // a new child leaves the loop
    | ChildSignalled   // a new child that has noted a signal exits with 0
    | ChildUnseeded    // a new child without random numbers exits with 1
    | NoMatchingSlot   // "no matching child slot"
    | NoFreeSlot       // "no free child slots"

  /** Looks for the exited child among the first `procs` slots and clears its slot. */
  method Reap(kids: array<nat>, procs: nat, pid: nat, ghost children: set<nat>) returns (i: nat, left: nat)
    requires SlotsOk(kids[..], procs, children) && procs >= kids.Length && pid in children
    modifies kids
    ensures i < kids.Length && SlotsOk(kids[..], left, children - {pid})
    ensures left + 1 == procs
  {
    i, left := 0, procs;
    ghost var k := SlotOf(kids[..], procs, children, pid);
    while i < procs
      invariant i <= k && left == procs && kids[..] == old(kids[..])
    {
      if kids[i] == pid {
        ClearSlot(kids[..], i, procs, children);
        kids[i] := 0;
        left := procs - 1;
        break;
      }
      i := i + 1;
    }
  }

  lemma SlotOf(kids: seq<nat>, procs: nat, children: set<nat>, pid: nat) returns (k: nat)
    requires SlotsOk(kids, procs, children) && pid in children
    ensures k < |kids| && kids[k] == pid != 0
  {
    PidsMeaning(kids, |kids|, pid);
    k :| 0 <= k < |kids| && kids[k] == pid;
  }

  /** Puts a new child into the first empty slot. */
  method Enter(kids: array<nat>, procs: nat, pid: nat, ghost children: set<nat>) returns (i: nat)
    requires SlotsOk(kids[..], procs, children) && procs < kids.Length && pid != 0 && pid !in children
    modifies kids
    ensures i < kids.Length && SlotsOk(kids[..], procs + 1, children + {pid})
  {
    Full(kids[..], kids.Length);
    ghost var k :| 0 <= k < kids.Length && kids[k] == 0;
    i := 0;
    while i < kids.Length
      invariant i <= k && kids[..] == old(kids[..])
    {
      if kids[i] == 0 {
        FillSlot(kids[..], i, pid, procs, children);
        kids[i] := pid;
        break;
      }
      i := i + 1;
    }
  }

  lemma {:induction false} AllEmpty(kids: seq<nat>, n: nat)
    requires n <= |kids| && forall i :: 0 <= i < n ==> kids[i] == 0
    ensures Pids(kids, n) == {} && Occupied(kids, n) == 0
  {
    if n > 0 {
      AllEmpty(kids, n - 1);
    }
  }

  // ----- which calls are made

  /** A fork when fewer than `multi` children live, and a wait otherwise. */
  predicate RightCall(c: Call, multi: nat) {
    c.Fork? <==> c.live < multi
  }

  predicate WaitFails(c: Call) {
    c.Wait? && c.reaped == WaitFailed
  }

  predicate BecomesChild(c: Call) {
    c.Fork? && c.made == InChild
  }

  /** The loop goes on after the call; in particular after an interrupted wait and a refused fork. */
  predicate GoesOn(c: Call) {
    !c.signal && !WaitFails(c) && !BecomesChild(c)
  }

  ghost predicate GoingOn(log: seq<Call>, multi: nat) {
    forall k :: 0 <= k < |log| ==> RightCall(log[k], multi) && GoesOn(log[k])
  }

  /** The last call is the only one that ends the loop. */
  ghost predicate Over(log: seq<Call>, multi: nat) {
    log != [] && GoingOn(log[..|log| - 1], multi) && RightCall(log[|log| - 1], multi) && !GoesOn(log[|log| - 1])
  }

  /** A signal alone ended the loop. */
  ghost predicate Signalled(log: seq<Call>, multi: nat) {
    Over(log, multi) && !WaitFails(log[|log| - 1]) && !BecomesChild(log[|log| - 1])
  }

  lemma OneMoreCall(log: seq<Call>, c: Call, multi: nat)
    requires GoingOn(log, multi) && RightCall(c, multi)
    ensures GoesOn(c) ==> GoingOn(log + [c], multi)
    ensures !GoesOn(c) ==> Over(log + [c], multi)
  {
    assert (log + [c])[..|log|] == log;
  }

  /** Waits until there is room for another child. */
  method AwaitRoom(sys: System, kids: array<nat>, procs0: nat) returns (procs: nat, failure: Option<Outcome>)
    requires SlotsOk(kids[..], procs0, sys.children) && !sys.termsig && GoingOn(sys.log, kids.Length)
    modifies sys, kids
    ensures SlotsOk(kids[..], procs, sys.children)
    ensures failure.Some? ==>
      failure.value == FatalWait && Over(sys.log, kids.Length) && WaitFails(sys.log[|sys.log| - 1])
    ensures failure.None? ==> sys.termsig || procs < kids.Length
    ensures failure.None? ==> if sys.termsig then Signalled(sys.log, kids.Length) else GoingOn(sys.log, kids.Length)
    ensures sys.termsig || sys.patience <= old(sys.patience)
  {
    procs, failure := procs0, None;
    while !sys.termsig && procs >= kids.Length
      invariant SlotsOk(kids[..], procs, sys.children)
      invariant sys.termsig || sys.patience <= old(sys.patience)
      invariant if sys.termsig then Signalled(sys.log, kids.Length) else GoingOn(sys.log, kids.Length)
      decreases !sys.termsig, sys.patience
    {
      ghost var children := sys.children;
      ghost var log := sys.log;
      var r := sys.Waitpid();
      OneMoreCall(log, Wait(|children|, r, sys.termsig), kids.Length);
      match r {
        case Exited(pid) =>
          var i;
          i, procs := Reap(kids, procs, pid, children);
          if i >= kids.Length {
            return procs, Some(NoMatchingSlot);
          }
          break;
        case Interrupted =>
        case WaitFailed =>
          return procs, Some(FatalWait);
      }
    }
  }

  /** `killall`: signals the process of every occupied slot. */
  method KillAll(kids: array<nat>) returns (signalled: set<nat>)
    ensures signalled == Pids(kids[..], kids.Length)
  {
    signalled := {};
    for i := 0 to kids.Length
      invariant signalled == Pids(kids[..], i)
    {
      if kids[i] != 0 {
        signalled := signalled + {kids[i]};
      }
    }
  }

  /** What a child does: it returns from the loop, unless a signal came or `RAND_poll` fails in it. */
  function ChildOutcome(signal: bool, seeded: bool): (outcome: Outcome)
    ensures outcome == ReturnsInChild <==> !signal && seeded
    ensures outcome == ChildSignalled <==> signal
    ensures outcome == ChildUnseeded <==> !signal && !seeded
  {
    if signal then ChildSignalled else if seeded then ReturnsInChild else ChildUnseeded
  }

  /** The call of `fork` and what follows it. */
  method Spawn(sys: System, kids: array<nat>, procs0: nat, seeded: bool) returns (procs: nat, end: Option<Outcome>)
    requires SlotsOk(kids[..], procs0, sys.children) && procs0 < kids.Length
    requires !sys.termsig && GoingOn(sys.log, kids.Length)
    modifies sys, kids
    ensures SlotsOk(kids[..], procs, sys.children)
    ensures end.Some? ==>
      && Over(sys.log, kids.Length) && BecomesChild(sys.log[|sys.log| - 1])
      && end.value == ChildOutcome(sys.log[|sys.log| - 1].signal, seeded)
    ensures end.None? ==> if sys.termsig then Signalled(sys.log, kids.Length) else GoingOn(sys.log, kids.Length)
    ensures sys.termsig || sys.patience < old(sys.patience)
  {
    procs, end := procs0, None;
    ghost var children, log := sys.children, sys.log;
    var r := sys.Fork();
    OneMoreCall(log, Call.Fork(|children|, r, sys.termsig), kids.Length);
    match r {
      case ForkFailed =>
      case InChild =>
        end := Some(ChildOutcome(sys.termsig, seeded));
      case Forked(pid) =>
        var i := Enter(kids, procs, pid, children);
        procs := procs + 1;
        if i >= kids.Length {
          end := Some(NoFreeSlot);
        }
    }
  }

  predicate InParent(outcome: Outcome) {
    outcome.Terminated? || outcome.FatalWait?
  }

  /**
   Every run, for every number of slots: the slots are the live children throughout, neither
   internal error is reached, and a parent that ends signals exactly the live children. Every call
   is a fork when there is room and a wait when there is none, and the first call that brings a
   signal, fails to wait or answers in a child is the last one and decides the outcome.
   */
  method SpawnLoop(sys: System, multi: nat, seeded: bool) returns (outcome: Outcome, signalled: set<nat>)
    requires sys.children == {} && sys.log == []
    modifies sys
    ensures if old(sys.termsig) then sys.log == [] else Over(sys.log, multi)
    ensures outcome ==
      if sys.log == [] then Terminated
      else if WaitFails(sys.log[|sys.log| - 1]) then FatalWait
      else if BecomesChild(sys.log[|sys.log| - 1]) then ChildOutcome(sys.log[|sys.log| - 1].signal, seeded)
      else Terminated
    ensures InParent(outcome) ==> signalled == sys.children
    ensures |sys.children| <= multi
  {
    var kids, procs := new nat[multi], 0;
    signalled := {};
    for i := 0 to multi
      invariant sys.children == {} && sys.log == [] && sys.termsig == old(sys.termsig)
      invariant forall j :: 0 <= j < i ==> kids[j] == 0
    {
      kids[i] := 0;
    }
    AllEmpty(kids[..], multi);
    while !sys.termsig
      invariant SlotsOk(kids[..], procs, sys.children)
      invariant old(sys.termsig) ==> sys.termsig && sys.log == []
      invariant if !sys.termsig then GoingOn(sys.log, multi) else old(sys.termsig) || Signalled(sys.log, multi)
      decreases !sys.termsig, sys.patience
    {
      var end;
      procs, end := AwaitRoom(sys, kids, procs);
      if end.Some? {
        signalled := KillAll(kids);
        return end.value, signalled;
      }
      if sys.termsig {
        break;
      }
      procs, end := Spawn(sys, kids, procs, seeded);
      if end.Some? {
        return end.value, {};
      }
    }
    signalled := KillAll(kids);
    outcome := Terminated;
  }
}
