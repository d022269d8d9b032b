/**
 The pass of `rehash.c` (`do_dir`) over one bucket: it marks the kept link numbers in a bit mask,
 and replaces or removes the other links in the directory.
 */
module RehashLinks {
  import opened Common
  import opened RehashTable
  import opened RehashNumbers

  // ----- the bit mask

  function Bit(k: nat): bv8
    requires k < 8
  {
    1 << k
  }

  /** `bit_isset` on the contents of a mask. */
  predicate IsSet(mask: seq<bv8>, bit: nat)
    requires bit < 8 * |mask|
  {
    mask[bit / 8] & Bit(bit % 8) != 0
  }

  lemma BitOr(m: bv8, a: nat, b: nat)
    requires a < 8 && b < 8
    ensures ((m | Bit(a)) & Bit(b)) != 0 <==> a == b || (m & Bit(b)) != 0
  {
  }

  method BitSet(mask: array<bv8>, bit: nat)
    requires bit < 8 * mask.Length
    modifies mask
    ensures forall j :: 0 <= j < 8 * mask.Length ==> (IsSet(mask[..], j) <==> j == bit || IsSet(old(mask[..]), j))
  {
    ghost var was := mask[..];
    mask[bit / 8] := mask[bit / 8] | Bit(bit % 8);
    forall j | 0 <= j < 8 * mask.Length
      ensures IsSet(mask[..], j) <==> j == bit || IsSet(was, j)
    {
      if j / 8 == bit / 8 {
        BitOr(was[bit / 8], bit % 8, j % 8);
      }
    }
  }

  /** The 256 bits of the mask are the numbers in `used`. */
  ghost predicate MaskShows(mask: seq<bv8>, used: set<nat>) {
    8 * |mask| == MAX_COLLISIONS && forall j: nat :: j < MAX_COLLISIONS ==> (IsSet(mask, j) <==> j in used)
  }

  /** The numbers that a mask shows. */
  ghost function Shown(mask: seq<bv8>): set<nat>
    requires 8 * |mask| == MAX_COLLISIONS
  {
    set j: nat | j < MAX_COLLISIONS && IsSet(mask, j)
  }

  /** The bits that are still set when the bytes for `n` bits are cleared. */
  function LeftSet(n: nat, left: set<nat>): set<nat> {
    set j | j in left && Cleared(n) <= j < MAX_COLLISIONS
  }

  /** What the mask shows once the kept links are marked, if it showed `left`: no byte is cleared but those for `n`. */
  ghost function MaskUsed(entries: seq<HEntry>, n: nat, left: set<nat>): set<nat> {
    KeptIds(entries, n) + LeftSet(n, left)
  }

  /** What it shows after the whole pass. */
  ghost function MaskAfter(entries: seq<HEntry>, n: nat, used: set<nat>): set<nat>
    requires Enough(entries, n, used)
  {
    used + Taken(Supply(used), PlacedBefore(entries, |entries|, n))
  }

  lemma MaskUsedOk(entries: seq<HEntry>, n: nat, left: set<nat>)
    requires n <= MAX_COLLISIONS
    ensures UsedOk(entries, n, MaskUsed(entries, n, left))
  {
  }

  // ----- the links of one bucket in the directory

  datatype UnlinkResult = Removed | NoEntry | Refused

  /** The links `hash.id` by their number, with the files they point to. */
  class LinkDir {
    var links: map<nat, string>

    constructor (present: map<nat, string>)
      ensures links == present
    {
      links := present;
    }

    method Unlink(id: nat, refused: bool) returns (r: UnlinkResult)
      modifies this
      ensures r == if refused then Refused else if id in old(links) then Removed else NoEntry
      ensures links == if refused then old(links) else old(links) - {id}
    {
      if refused {
        return Refused;
      }
      r := if id in links then Removed else NoEntry;
      links := links - {id};
    }

    method Symlink(id: nat, target: string, refused: bool) returns (ok: bool)
      modifies this
      ensures ok <==> !refused && id !in old(links)
      ensures links == if ok then old(links)[id := target] else old(links)
    {
      ok := !refused && id !in links;
      if ok {
        links := links[id := target];
      }
    }
  }

  // ----- what the pass does to the links

  datatype Refusals = Refusals(unlink: nat -> bool, symlink: nat -> bool)

  /** The links and the number of errors after the entry `i`: its link is kept, replaced, removed or left. */
  function LinkStep(entries: seq<HEntry>, i: nat, n: nat, used: set<nat>, removeLinks: bool, refused: Refusals,
                    links: map<nat, string>): (map<nat, string>, nat)
    requires i < |entries|
  {
    var e, id := entries[i], LinkOf(entries, i, n, used);
    if Kept(e, n) then (links, 0)
    else if e.needed && id.Some? then
      var cleared := if refused.unlink(i) then links else links - {id.value};
      var failed := if refused.unlink(i) then 1 else 0;
      if refused.symlink(i) || id.value in cleared then (cleared, failed + 1)
      else (cleared[id.value := e.filename], failed)
    else if !e.needed && removeLinks then
      if refused.unlink(i) then (links, 1) else (links - {e.oldId as nat}, 0)
    else (links, 0)
  }

  /** The links and the number of errors after the first `m` entries. */
  function LinksAfter(entries: seq<HEntry>, m: nat, n: nat, used: set<nat>, removeLinks: bool, refused: Refusals,
                      links: map<nat, string>): (map<nat, string>, nat)
    requires m <= |entries|
  {
    if m == 0 then (links, 0)
    else
      var (before, errs) := LinksAfter(entries, m - 1, n, used, removeLinks, refused, links);
      var (now, more) := LinkStep(entries, m - 1, n, used, removeLinks, refused, before);
      (now, errs + more)
  }

  lemma AfterNext(entries: seq<HEntry>, m: nat, n: nat, used: set<nat>, removeLinks: bool, refused: Refusals,
                  was: map<nat, string>)
    requires m < |entries|
    ensures var (before, errs) := LinksAfter(entries, m, n, used, removeLinks, refused, was);
      var (now, more) := LinkStep(entries, m, n, used, removeLinks, refused, before);
      LinksAfter(entries, m + 1, n, used, removeLinks, refused, was) == (now, errs + more)
  {
  }

  predicate LinksAt(entries: seq<HEntry>, m: nat, n: nat, used: set<nat>, removeLinks: bool, refused: Refusals,
                    was: map<nat, string>, now: map<nat, string>, errs: nat)
    requires m <= |entries|
  {
    LinksAfter(entries, m, n, used, removeLinks, refused, was) == (now, errs)
  }

  lemma LinksNext(entries: seq<HEntry>, m: nat, n: nat, used: set<nat>, removeLinks: bool, refused: Refusals,
                  was: map<nat, string>, before: map<nat, string>, errs: nat, now: map<nat, string>, more: nat)
    requires m < |entries| && LinksAt(entries, m, n, used, removeLinks, refused, was, before, errs)
    requires (now, more) == LinkStep(entries, m, n, used, removeLinks, refused, before)
    ensures LinksAt(entries, m + 1, n, used, removeLinks, refused, was, now, errs + more)
  {
    AfterNext(entries, m, n, used, removeLinks, refused, was);
  }

  // ----- the pass as the program makes it

  /** Clears the bytes that hold the first `n` bits. */
  method ClearMask(n: nat, idmask: array<bv8>, ghost left: set<nat>)
    requires n <= MAX_COLLISIONS && MaskShows(idmask[..], left)
    modifies idmask
    ensures MaskShows(idmask[..], LeftSet(n, left))
  {
    ghost var was := idmask[..];
    MaskBytesFit(n);
    for k := 0 to MaskBytes(n)
      invariant forall j :: 0 <= j < idmask.Length ==> idmask[j] == if j < k then 0 else was[j]
    {
      idmask[k] := 0;
    }
    forall j: nat | j < MAX_COLLISIONS
      ensures IsSet(idmask[..], j) <==> j in LeftSet(n, left)
    {
      if j < Cleared(n) {
        assert idmask[j / 8] == 0;
        NothingSet(j % 8);
      } else {
        assert idmask[j / 8] == was[j / 8];
      }
    }
  }

  lemma NothingSet(k: nat)
    requires k < 8
    ensures 0 as bv8 & Bit(k) == 0
  {
  }

  /** Clears the bytes that are needed, then sets the bits of the kept links. */
  method MarkKept(entries: seq<HEntry>, n: nat, idmask: array<bv8>, ghost left: set<nat>)
    requires n <= MAX_COLLISIONS && MaskShows(idmask[..], left)
    modifies idmask
    ensures MaskShows(idmask[..], MaskUsed(entries, n, left))
  {
    ClearMask(n, idmask, left);
    assert KeptFirst(entries, 0, n) + LeftSet(n, left) == LeftSet(n, left);
    for i := 0 to |entries|
      invariant MaskShows(idmask[..], KeptFirst(entries, i, n) + LeftSet(n, left))
    {
      KeptNext(entries, i, n);
      if Kept(entries[i], n) {
        BitSet(idmask, entries[i].oldId);
      }
    }
    assert KeptFirst(entries, |entries|, n) == KeptIds(entries, n);
  }

  /** The numbers of the kept links among the first `i` entries. */
  function KeptFirst(entries: seq<HEntry>, i: nat, n: nat): set<nat>
    requires i <= |entries|
  {
    set j: nat | j < i && Kept(entries[j], n) :: entries[j].oldId as nat
  }

  lemma KeptNext(entries: seq<HEntry>, i: nat, n: nat)
    requires i < |entries|
    ensures KeptFirst(entries, i + 1, n) ==
      KeptFirst(entries, i, n) + if Kept(entries[i], n) then {entries[i].oldId as nat} else {}
  {
  }

  /** The first `k` of the free numbers. */
  function Taken(free: seq<nat>, k: nat): set<nat>
    requires k <= |free|
  {
    set m: nat | m < k :: free[m]
  }

  /**
   The search for the next number: the `k`-th free one. Without one it stops at the end of the mask,
   where the source goes on reading.
   */
  method NextFree(idmask: array<bv8>, from: nat, ghost used: set<nat>, ghost k: nat) returns (id: nat)
    requires var free := Supply(used);
      k <= |free| && from <= MAX_COLLISIONS && MaskShows(idmask[..], used + Taken(free, k))
    requires forall j: nat :: j < from ==> IsSet(idmask[..], j)
    ensures id == if k < |Supply(used)| then Supply(used)[k] else MAX_COLLISIONS
    ensures forall j: nat :: j < id ==> IsSet(idmask[..], j)
  {
    id := from;
    while id < MAX_COLLISIONS && idmask[id / 8] & Bit(id % 8) != 0
      invariant id <= MAX_COLLISIONS
      invariant forall j: nat :: j < id ==> IsSet(idmask[..], j)
    {
      assert IsSet(idmask[..], id);
      id := id + 1;
    }
    assert id < MAX_COLLISIONS ==> !IsSet(idmask[..], id);
    FirstUnused(used, k, id);
  }

  /** The first number that is neither used nor among the first `k` free ones is the `k`-th free one. */
  lemma FirstUnused(used: set<nat>, k: nat, id: nat)
    requires k <= |Supply(used)| && id <= MAX_COLLISIONS
    requires forall j: nat :: j < id ==> j in used + Taken(Supply(used), k)
    requires id < MAX_COLLISIONS ==> id !in used + Taken(Supply(used), k)
    ensures id == if k < |Supply(used)| then Supply(used)[k] else MAX_COLLISIONS
  {
    var free := Supply(used);
    if k < |free| {
      assert free[k] !in Taken(free, k) && free[k] !in used;
      assert id <= free[k];
    }
    assert forall j :: 0 <= j < k ==> free[j] in Taken(free, k);
    if id < MAX_COLLISIONS {
      var m := FreeBelowComplete(used, MAX_COLLISIONS, id);
      assert k <= m;
    }
  }

  /** What the loop keeps about the mask: it shows the used numbers and the first `k` free ones. */
  ghost predicate MaskAt(mask: seq<bv8>, used: set<nat>, k: nat, nextid: nat) {
    && nextid <= MAX_COLLISIONS && k <= |Supply(used)| && MaskShows(mask, used + Taken(Supply(used), k))
    && forall j: nat :: j < nextid ==> IsSet(mask, j)
  }

  lemma MaskStart(mask: seq<bv8>, used: set<nat>)
    requires MaskShows(mask, used)
    ensures MaskAt(mask, used, 0, 0)
  {
    assert used + Taken(Supply(used), 0) == used;
  }

  /** Finds the number for the next link and marks it as used; none when the mask has no clear bit left. */
  method TakeNumber(idmask: array<bv8>, from: nat, ghost used: set<nat>, ghost k: nat) returns (id: Option<nat>)
    requires MaskAt(idmask[..], used, k, from)
    modifies idmask
    ensures id == if k < |Supply(used)| then Some(Supply(used)[k]) else None
    ensures id.Some? ==> MaskAt(idmask[..], used, k + 1, id.value)
  {
    ghost var free := Supply(used);
    var next := NextFree(idmask, from, used, k);
    if next == MAX_COLLISIONS {
      return None;
    }
    BitSet(idmask, next);
    assert Taken(free, k + 1) == Taken(free, k) + {free[k]};
    id := Some(next);
  }

  /** Unlinks what is there, then links. */
  method ReplaceLink(dir: LinkDir, id: nat, target: string, unlinkRefused: bool, symlinkRefused: bool)
    returns (errs: nat)
    modifies dir
    ensures var cleared := if unlinkRefused then old(dir.links) else old(dir.links) - {id};
      if symlinkRefused || id in cleared
      then dir.links == cleared && errs == (if unlinkRefused then 2 else 1)
      else dir.links == cleared[id := target] && errs == (if unlinkRefused then 1 else 0)
  {
    errs := 0;
    var r := dir.Unlink(id, unlinkRefused);
    if r == Refused {
      errs := errs + 1;
    }
    var ok := dir.Symlink(id, target, symlinkRefused);
    if !ok {
      errs := errs + 1;
    }
  }

  /** The loop body; `inMask` is false when the mask has no clear bit left for the entry. */
  method PassOne(entries: seq<HEntry>, i: nat, n: nat, idmask: array<bv8>, nextid: nat, dir: LinkDir, removeLinks: bool,
                 refused: Refusals, ghost used: set<nat>)
    returns (id: nat, errs: nat, inMask: bool)
    requires i < |entries| && MaskAt(idmask[..], used, PlacedBefore(entries, i, n), nextid)
    modifies idmask, dir
    ensures inMask <==> PlacedBefore(entries, i + 1, n) <= |Supply(used)|
    ensures inMask ==>
      && MaskAt(idmask[..], used, PlacedBefore(entries, i + 1, n), id)
      && (dir.links, errs) == LinkStep(entries, i, n, used, removeLinks, refused, old(dir.links))
  {
    id, errs, inMask := nextid, 0, true;
    var e := entries[i];
    if Kept(e, n) {
      return;
    }
    if e.needed {
      var number := TakeNumber(idmask, nextid, used, PlacedBefore(entries, i, n));
      if number == None {
        inMask := false;
        return;
      }
      id := number.value;
      errs := ReplaceLink(dir, id, e.filename, refused.unlink(i), refused.symlink(i));
    } else if removeLinks {
      var r := dir.Unlink(e.oldId, refused.unlink(i));
      errs := if r == Refused then 1 else 0;
    }
  }

  /** Whether the pass over a bucket stays within a mask that shows `left`. */
  ghost predicate FitsMask(b: Bucket, left: set<nat>) {
    b.numNeeded <= MAX_COLLISIONS && Enough(b.entries, b.numNeeded, MaskUsed(b.entries, b.numNeeded, left))
  }

  /** One turn of the loop over the entries. */
  method PassNext(entries: seq<HEntry>, i: nat, n: nat, idmask: array<bv8>, nextid: nat, dir: LinkDir,
                  removeLinks: bool, refused: Refusals, ghost used: set<nat>, ghost was: map<nat, string>, errs0: nat)
    returns (id: nat, errs: nat, inMask: bool)
    requires i < |entries| && MaskAt(idmask[..], used, PlacedBefore(entries, i, n), nextid)
    requires LinksAt(entries, i, n, used, removeLinks, refused, was, dir.links, errs0)
    modifies idmask, dir
    ensures inMask <==> PlacedBefore(entries, i + 1, n) <= |Supply(used)|
    ensures inMask ==>
      && MaskAt(idmask[..], used, PlacedBefore(entries, i + 1, n), id)
      && LinksAt(entries, i + 1, n, used, removeLinks, refused, was, dir.links, errs)
  {
    ghost var before := dir.links;
    id, errs, inMask := PassOne(entries, i, n, idmask, nextid, dir, removeLinks, refused, used);
    if inMask {
      LinksNext(entries, i, n, used, removeLinks, refused, was, before, errs0, dir.links, errs);
      errs := errs0 + errs;
    }
  }

  /** The loop over the entries. */
  method PassAll(entries: seq<HEntry>, n: nat, idmask: array<bv8>, dir: LinkDir, removeLinks: bool, refused: Refusals,
                 ghost used: set<nat>)
    returns (errs: Option<nat>)
    requires MaskAt(idmask[..], used, 0, 0)
    modifies idmask, dir
    ensures errs.Some? <==> Enough(entries, n, used)
    ensures errs.Some? ==>
      && MaskShows(idmask[..], MaskAfter(entries, n, used))
      && (dir.links, errs.value) == LinksAfter(entries, |entries|, n, used, removeLinks, refused, old(dir.links))
  {
    var nextid, count, inMask := 0, 0, true;
    ghost var was := dir.links;
    for i := 0 to |entries|
      invariant MaskAt(idmask[..], used, PlacedBefore(entries, i, n), nextid)
      invariant LinksAt(entries, i, n, used, removeLinks, refused, was, dir.links, count)
    {
      nextid, count, inMask := PassNext(entries, i, n, idmask, nextid, dir, removeLinks, refused, used, was, count);
      if !inMask {
        PlacedMonotone(entries, i + 1, |entries|, n);
        return None;
      }
    }
    errs := Some(count);
  }

  /**
   The pass over one bucket. None: the source clears more bytes than the mask has, or searches beyond
   its end; what it does then is not defined.
   */
  method PlaceLinks(b: Bucket, idmask: array<bv8>, dir: LinkDir, removeLinks: bool, refused: Refusals,
                    ghost left: set<nat>)
    returns (errs: Option<nat>)
    requires MaskShows(idmask[..], left)
    modifies idmask, dir
    ensures errs.Some? <==> FitsMask(b, left)
    ensures errs.Some? ==>
      var used := MaskUsed(b.entries, b.numNeeded, left);
      && MaskShows(idmask[..], MaskAfter(b.entries, b.numNeeded, used))
      && (dir.links, errs.value) ==
         LinksAfter(b.entries, |b.entries|, b.numNeeded, used, removeLinks, refused, old(dir.links))
  {
    if b.numNeeded > MAX_COLLISIONS {
      return None;
    }
    ghost var used := MaskUsed(b.entries, b.numNeeded, left);
    MarkKept(b.entries, b.numNeeded, idmask, left);
    MaskStart(idmask[..], used);
    errs := PassAll(b.entries, b.numNeeded, idmask, dir, removeLinks, refused, used);
  }
}
