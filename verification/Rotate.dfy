/**
 `rotate_index` and `rotate_serial` of `apps.c`: new files become the live ones and the live
 ones move to a backup suffix, by renames that are undone when a later one fails.

 The file system is a map from names to contents. Any rename may be refused for reasons the
 routine cannot see; a rename of a missing file fails with "no entry".
 */
module Rotate {
  import opened Common

  type Files = map<string, string>

  datatype RenameResult = Done | NoEntry | Refused

  function RenameOutcome(f: Files, src: string, refused: bool): RenameResult {
    if refused then Refused else if src !in f then NoEntry else Done
  }

  function Renamed(f: Files, src: string, dst: string, refused: bool): Files {
    if refused || src !in f then f else (f - {src})[dst := f[src]]
  }

  /** A directory; `trace` records its contents after every call. */
  class Disk {
    var files: Files
    ghost var trace: seq<Files>

    constructor (f: Files)
      ensures files == f && trace == []
    {
      files, trace := f, [];
    }

    method Rename(src: string, dst: string, refused: bool) returns (r: RenameResult)
      modifies this
      ensures r == RenameOutcome(old(files), src, refused)
      ensures files == Renamed(old(files), src, dst, refused)
      ensures trace == old(trace) + [files]
    {
      r := RenameOutcome(files, src, refused);
      if r == Done {
        var content := files[src];
        files := files - {src};
        files := files[dst := content];
      }
      trace := trace + [files];
    }
  }

  const BSIZE := 256

  /** The live, new and backup names of one file. */
  datatype Names = Names(live: string, next: string, backup: string)

  function FileNames(file: string, newSuffix: string, oldSuffix: string): Names {
    Names(file, file + "." + newSuffix, file + "." + oldSuffix)
  }

  function NameSet(n: Names): set<string> {
    {n.live, n.next, n.backup}
  }

  predicate Distinct(n: Names) {
    n.live != n.next && n.live != n.backup && n.next != n.backup
  }

  // ----- what can be said of one file

  function At(f: Files, name: string): Option<string> {
    if name in f then Some(f[name]) else None
  }

  /** The contents under the three names of one file. */
  datatype Slots = Slots(live: Option<string>, next: Option<string>, backup: Option<string>)

  function View(n: Names, f: Files): Slots {
    Slots(At(f, n.live), At(f, n.next), At(f, n.backup))
  }

  /** The new file is live and the file that was live, if any, is the backup. */
  predicate Installed(was: Slots, now: Slots) {
    && was.next.Some? && now.live == was.next && now.next.None?
    && now.backup == if was.live.Some? then was.live else was.backup
  }

  /** The live and the new file are as they were. */
  predicate Restored(was: Slots, now: Slots) {
    now.live == was.live && now.next == was.next
  }

  /** Undoing cannot bring back an old backup as the live file. */
  predicate Undoable(was: Slots) {
    was.live.Some? || was.backup.None?
  }

  /** The rename back to the live name, refused or not, gives the live file of before. */
  predicate ComesBack(was: Slots, refused: bool) {
    if refused then was.live.None? else Undoable(was)
  }

  predicate KeepsLive(was: Slots, now: Slots) {
    was.live.Some? ==> now.live == was.live || now.backup == was.live
  }

  predicate KeepsNext(was: Slots, now: Slots) {
    was.next.Some? ==> now.next == was.next || now.live == was.next
  }

  ghost predicate SameElsewhere(names: set<string>, was: Files, now: Files) {
    forall x :: x !in names ==> At(now, x) == At(was, x)
  }

  lemma NamesDistinct(file: string, newSuffix: string, oldSuffix: string)
    requires newSuffix != oldSuffix
    ensures Distinct(FileNames(file, newSuffix, oldSuffix))
  {
    var n := FileNames(file, newSuffix, oldSuffix);
    assert n.next[|file| + 1..] == newSuffix && n.backup[|file| + 1..] == oldSuffix;
  }

  // ----- one file as three slots

  const LIVE: nat := 0
  const NEXT: nat := 1
  const BACKUP: nat := 2

  /** `s` with slot `src` moved to slot `dst`. */
  function Shift(s: Slots, src: nat, dst: nat): Slots {
    var moved := Get(s, src);
    if moved.None? then s else Put(Put(s, src, None), dst, moved)
  }

  function Get(s: Slots, k: nat): Option<string> {
    if k == 0 then s.live else if k == 1 then s.next else s.backup
  }

  function Put(s: Slots, k: nat, v: Option<string>): Slots {
    if k == 0 then s.(live := v) else if k == 1 then s.(next := v) else s.(backup := v)
  }

  function Name(n: Names, k: nat): string {
    if k == 0 then n.live else if k == 1 then n.next else n.backup
  }

  function ShiftUnless(s: Slots, src: nat, dst: nat, refused: bool): Slots {
    if refused then s else Shift(s, src, dst)
  }

  /** The file once the new one is in place. */
  function InPlace(d: Slots): Slots {
    Shift(Shift(d, LIVE, BACKUP), NEXT, LIVE)
  }

  /** A rename among the names of one file moves its slots and touches no other name. */
  lemma ViewAfter(n: Names, f: Files, src: nat, dst: nat, refused: bool)
    requires Distinct(n) && src < 3 && dst < 3 && src != dst
    ensures var f' := Renamed(f, Name(n, src), Name(n, dst), refused);
      && View(n, f') == (if refused then View(n, f) else Shift(View(n, f), src, dst))
      && SameElsewhere(NameSet(n), f, f')
  {
  }

  lemma ViewElsewhere(n: Names, names: set<string>, f: Files, f': Files)
    requires SameElsewhere(names, f, f') && NameSet(n) !! names
    ensures View(n, f') == View(n, f)
  {
    assert n.live in NameSet(n) && n.next in NameSet(n) && n.backup in NameSet(n);
  }

  // ----- the serial file

  predicate TooLong(file: string, newSuffix: string, oldSuffix: string, room: nat) {
    |file| + (if |oldSuffix| > |newSuffix| then |oldSuffix| else |newSuffix|) + room >= BSIZE
  }

  /** The longest name and its NUL fit the buffer exactly if no name has 256 characters or more. */
  lemma NamesFit(file: string, newSuffix: string, oldSuffix: string)
    ensures !TooLong(file, newSuffix, oldSuffix, 1) <==>
      |file + "." + newSuffix| < 256 && |file + "." + oldSuffix| < 256
    ensures !TooLong(file, newSuffix, oldSuffix, 6) <==>
      |file + ".attr." + newSuffix| < 256 && |file + ".attr." + oldSuffix| < 256
  {
  }

  /**
   The contents of `file.newSuffix` are now those of `file`, and what `file` held, if anything, is now
   in `file.oldSuffix`.
   */
  predicate MovedIn(was: Files, now: Files, file: string, newSuffix: string, oldSuffix: string) {
    var new', old' := file + "." + newSuffix, file + "." + oldSuffix;
    && new' in was && file in now && now[file] == was[new'] && new' !in now
    && (file in was ==> old' in now && now[old'] == was[file])
    && (file !in was ==> At(now, old') == At(was, old'))
  }

  /** The result and the file after the call. */
  function SerialAfter(was: Slots, long: bool, refused: nat -> bool, undoRefused: nat -> bool): (bool, Slots) {
    if long || refused(0) then (false, was)
    else if refused(1) || was.next.None? then
      (false, ShiftUnless(Shift(was, LIVE, BACKUP), BACKUP, LIVE, undoRefused(0)))
    else (true, InPlace(was))
  }

  /** What this means: installed or, under the stated condition, as before; nothing is lost. */
  lemma SerialAfterMeaning(was: Slots, long: bool, refused: nat -> bool, undoRefused: nat -> bool)
    ensures var (ok, now) := SerialAfter(was, long, refused, undoRefused);
      && (ok <==> !long && !refused(0) && !refused(1) && was.next.Some?)
      && (ok ==> Installed(was, now))
      && (!ok ==> (Restored(was, now) <==>
            long || refused(0) || ComesBack(was, undoRefused(0))))
      && KeepsLive(was, now) && KeepsNext(was, now)
  {
  }

  /** The result and the directory after each call, the last one included, for any three names. */
  function SerialSteps(f: Files, n: Names, long: bool, refused: nat -> bool, undoRefused: nat -> bool)
    : (bool, seq<Files>)
  {
    if long then (false, [])
    else if refused(0) then (false, [f])
    else
      var f1 := Renamed(f, n.live, n.backup, false);
      var f2 := Renamed(f1, n.next, n.live, refused(1));
      if refused(1) || n.next !in f1 then (false, [f1, f2, Renamed(f2, n.backup, n.live, undoRefused(0))])
      else (true, [f1, f2])
  }

  function Last(f: Files, steps: seq<Files>): Files {
    if steps == [] then f else steps[|steps| - 1]
  }

  /** For three different names: the slots at the end, and nothing lost on the way. */
  lemma SerialStepsView(f: Files, n: Names, long: bool, refused: nat -> bool, undoRefused: nat -> bool)
    requires Distinct(n)
    ensures var (ok, steps) := SerialSteps(f, n, long, refused, undoRefused);
      && (ok, View(n, Last(f, steps))) == SerialAfter(View(n, f), long, refused, undoRefused)
      && forall i :: 0 <= i < |steps| ==>
           KeepsLive(View(n, f), View(n, steps[i])) && KeepsNext(View(n, f), View(n, steps[i]))
  {
    var f1 := Renamed(f, n.live, n.backup, false);
    var f2 := Renamed(f1, n.next, n.live, refused(1));
    ViewAfter(n, f, LIVE, BACKUP, false);
    ViewAfter(n, f1, NEXT, LIVE, refused(1));
    ViewAfter(n, f2, BACKUP, LIVE, undoRefused(0));
  }

  /** What success is, by the names of the files. */
  lemma SerialInstalls(f: Files, file: string, newSuffix: string, oldSuffix: string,
                       refused: nat -> bool, undoRefused: nat -> bool)
    requires newSuffix != oldSuffix
    ensures var n, long := FileNames(file, newSuffix, oldSuffix), TooLong(file, newSuffix, oldSuffix, 1);
      var (ok, steps) := SerialSteps(f, n, long, refused, undoRefused);
      && (ok <==> |file + "." + newSuffix| < 256 && |file + "." + oldSuffix| < 256
                  && !refused(0) && !refused(1) && file + "." + newSuffix in f)
      && (ok ==> MovedIn(f, Last(f, steps), file, newSuffix, oldSuffix))
  {
    var n, long := FileNames(file, newSuffix, oldSuffix), TooLong(file, newSuffix, oldSuffix, 1);
    NamesDistinct(file, newSuffix, oldSuffix);
    NamesFit(file, newSuffix, oldSuffix);
    SerialStepsView(f, n, long, refused, undoRefused);
    SerialAfterMeaning(View(n, f), long, refused, undoRefused);
  }

  /** With one suffix for both, a live file covers the new one and comes back. */
  lemma OneSuffix(f: Files, n: Names, refused: nat -> bool, undoRefused: nat -> bool)
    requires n.next == n.backup && n.live != n.next
    ensures var (ok, steps) := SerialSteps(f, n, false, refused, undoRefused);
      var was, now := View(n, f), View(n, Last(f, steps));
      && (ok <==> !refused(0) && !refused(1) && (was.live.Some? || was.next.Some?))
      && (ok ==> now.live == (if was.live.Some? then was.live else was.next) && now.next == None)
  {
  }

  /**
   `refused(k)` and `undoRefused(k)` say whether the system refuses the k-th rename and the k-th
   undoing rename.
   */
  method RotateSerial(disk: Disk, serialfile: string, newSuffix: string, oldSuffix: string,
                      refused: nat -> bool, undoRefused: nat -> bool) returns (ok: bool)
    modifies disk
    ensures var n := FileNames(serialfile, newSuffix, oldSuffix);
      var long := TooLong(serialfile, newSuffix, oldSuffix, 1);
      var steps := SerialSteps(old(disk.files), n, long, refused, undoRefused);
      ok == steps.0 && disk.trace == old(disk.trace) + steps.1 && disk.files == Last(old(disk.files), steps.1)
    ensures ok && newSuffix != oldSuffix ==> MovedIn(old(disk.files), disk.files, serialfile, newSuffix, oldSuffix)
  {
    if newSuffix != oldSuffix {
      SerialInstalls(disk.files, serialfile, newSuffix, oldSuffix, refused, undoRefused);
    }
    if TooLong(serialfile, newSuffix, oldSuffix, 1) {
      NoChange(disk.trace);
      return false;
    }
    var n := FileNames(serialfile, newSuffix, oldSuffix);
    ghost var trace := disk.trace;
    var r := disk.Rename(n.live, n.backup, refused(0));
    if r == Refused {
      return false;
    }
    ghost var f1 := disk.files;
    assert f1 == Renamed(old(disk.files), n.live, n.backup, false);
    r := disk.Rename(n.next, n.live, refused(1));
    ghost var f2 := disk.files;
    assert trace + [f1] + [f2] == trace + [f1, f2];
    if r != Done {
      r := disk.Rename(n.backup, n.live, undoRefused(0));
      assert trace + [f1, f2] + [disk.files] == trace + [f1, f2, disk.files];
      return false;
    }
    ok := true;
  }

  // ----- the index file and its attribute file

  function IndexNames(dbfile: string, newSuffix: string, oldSuffix: string): (Names, Names) {
    (FileNames(dbfile, newSuffix, oldSuffix), FileNames(dbfile + ".attr", newSuffix, oldSuffix))
  }

  predicate Apart(d: Names, a: Names) {
    Distinct(d) && Distinct(a) && NameSet(d) !! NameSet(a)
  }

  /** A longer common start does not make different endings equal. */
  lemma EndingsDecide(file: string, x: string, y: string)
    ensures file + "." + x == file + "." + y <==> x == y
  {
    assert (file + "." + x)[|file| + 1..] == x && (file + "." + y)[|file| + 1..] == y;
  }

  lemma LongName(file: string, x: string)
    ensures file + ".attr" + "." + x == file + "." + ("attr." + x)
    ensures file + ".attr" == file + "." + "attr"
    ensures file != file + "." + x
  {
    assert |file + "." + x| > |file|;
  }

  predicate SuffixesApart(newSuffix: string, oldSuffix: string) {
    && newSuffix != oldSuffix && newSuffix != "attr" && oldSuffix != "attr"
    && newSuffix != "attr." + oldSuffix && oldSuffix != "attr." + newSuffix
  }

  /** The six names differ for the suffixes that the callers use, and for all but five odd choices. */
  lemma IndexNamesApart(dbfile: string, newSuffix: string, oldSuffix: string)
    ensures var (d, a) := IndexNames(dbfile, newSuffix, oldSuffix); Apart(d, a) <==> SuffixesApart(newSuffix, oldSuffix)
  {
    var x, y := "attr." + newSuffix, "attr." + oldSuffix;
    var (d, a) := IndexNames(dbfile, newSuffix, oldSuffix);
    LongName(dbfile, newSuffix);
    LongName(dbfile, oldSuffix);
    LongName(dbfile, "attr");
    LongName(dbfile, x);
    LongName(dbfile, y);
    EndingsDecide(dbfile, newSuffix, oldSuffix);
    EndingsDecide(dbfile, newSuffix, "attr");
    EndingsDecide(dbfile, oldSuffix, "attr");
    EndingsDecide(dbfile, newSuffix, x);
    EndingsDecide(dbfile, newSuffix, y);
    EndingsDecide(dbfile, oldSuffix, x);
    EndingsDecide(dbfile, oldSuffix, y);
    EndingsDecide(dbfile, x, y);
    EndingsDecide(dbfile, "attr", x);
    EndingsDecide(dbfile, "attr", y);
    assert x[5..] == newSuffix && y[5..] == oldSuffix;
    assert |newSuffix| < |x| && |oldSuffix| < |y|;
    assert NameSet(d) * NameSet(a) == set s | s in NameSet(d) && s in NameSet(a);
    assert {d.live, d.next, d.backup} == NameSet(d) && {a.live, a.next, a.backup} == NameSet(a);
  }

  /** What a rename from the backup to the live name would put over the new file, once that is live. */
  predicate Covers(was: Slots) {
    var b := if was.live.Some? then was.live else was.backup;
    b.Some? && b != was.next
  }

  /**
   The index file is in place when a later rename fails, the rename that takes it away again is
   refused, and the rename that brings its backup back is not.
   */
  predicate NewFileLost(d: Slots, a: Slots, long: bool, refused: nat -> bool, undoRefused: nat -> bool) {
    && !long && !refused(0) && !refused(1) && d.next.Some? && Covers(d)
    && if refused(2) then undoRefused(0) && !undoRefused(1)
       else (refused(3) || a.next.None?) && undoRefused(1) && !undoRefused(2)
  }

  /** What the caller of `RotateIndex` gets, for one file each: `d` the index, `a` its attributes. */
  predicate IndexOutcome(d: Slots, a: Slots, d': Slots, a': Slots, ok: bool, long: bool,
                         refused: nat -> bool, undoRefused: nat -> bool) {
    && (ok <==> !long && !refused(0) && !refused(1) && !refused(2) && !refused(3) && d.next.Some? && a.next.Some?)
    && (ok ==> Installed(d, d') && Installed(a, a'))
    && (!ok ==> (Restored(d, d') && Restored(a, a') <==>
          || long || refused(0)
          || (if refused(1) || d.next.None? then ComesBack(d, undoRefused(0))
              else if refused(2) then !undoRefused(0) && ComesBack(d, undoRefused(1))
              else ComesBack(a, undoRefused(0)) && !undoRefused(1) && ComesBack(d, undoRefused(2)))))
    && KeepsLive(d, d') && KeepsLive(a, a') && KeepsNext(a, a')
    && (KeepsNext(d, d') <==> !NewFileLost(d, a, long, refused, undoRefused))
  }

  /** The two renames that undo an installation. */
  function Undone(d: Slots, refusedFirst: bool, refusedSecond: bool): Slots {
    ShiftUnless(ShiftUnless(InPlace(d), LIVE, NEXT, refusedFirst), BACKUP, LIVE, refusedSecond)
  }

  /** The result and both files after the call. */
  function IndexAfter(d: Slots, a: Slots, long: bool, refused: nat -> bool, undoRefused: nat -> bool)
    : (bool, Slots, Slots)
  {
    if long || refused(0) then (false, d, a)
    else if refused(1) || d.next.None? then
      (false, ShiftUnless(Shift(d, LIVE, BACKUP), BACKUP, LIVE, undoRefused(0)), a)
    else if refused(2) then (false, Undone(d, undoRefused(0), undoRefused(1)), a)
    else if refused(3) || a.next.None? then
      (false, Undone(d, undoRefused(1), undoRefused(2)),
       ShiftUnless(Shift(a, LIVE, BACKUP), BACKUP, LIVE, undoRefused(0)))
    else (true, InPlace(d), InPlace(a))
  }

  /** What these files and the result mean. */
  lemma IndexAfterMeaning(d: Slots, a: Slots, long: bool, refused: nat -> bool, undoRefused: nat -> bool)
    ensures var (ok, d', a') := IndexAfter(d, a, long, refused, undoRefused);
      IndexOutcome(d, a, d', a', ok, long, refused, undoRefused)
  {
  }

  /** Nothing is lost at a moment when the files look like `d'` and `a'`. */
  predicate NothingLost(d: Slots, a: Slots, d': Slots, a': Slots, undoWorks: bool) {
    KeepsLive(d, d') && KeepsLive(a, a') && (undoWorks ==> KeepsNext(d, d') && KeepsNext(a, a'))
  }

  /** The directory after each of the two renames that take the index file back. */
  function TakeBack(f: Files, d: Names, refusedFirst: bool, refusedSecond: bool): seq<Files> {
    var f1 := Renamed(f, d.live, d.next, refusedFirst);
    [f1, Renamed(f1, d.backup, d.live, refusedSecond)]
  }

  /** The result and the directory after each call, for any six names. */
  function IndexSteps(f: Files, d: Names, a: Names, long: bool, refused: nat -> bool, undoRefused: nat -> bool)
    : (bool, seq<Files>)
  {
    if long then (false, [])
    else if refused(0) then (false, [f])
    else
      var f1 := Renamed(f, d.live, d.backup, false);
      var f2 := Renamed(f1, d.next, d.live, refused(1));
      if refused(1) || d.next !in f1 then (false, [f1, f2, Renamed(f2, d.backup, d.live, undoRefused(0))])
      else var (ok, steps) := AttributeSteps(f2, d, a, refused, undoRefused); (ok, [f1, f2] + steps)
  }

  function AttributeSteps(f2: Files, d: Names, a: Names, refused: nat -> bool, undoRefused: nat -> bool)
    : (bool, seq<Files>)
  {
    var f3 := Renamed(f2, a.live, a.backup, refused(2));
    if refused(2) then (false, [f3] + TakeBack(f3, d, undoRefused(0), undoRefused(1)))
    else
      var f4 := Renamed(f3, a.next, a.live, refused(3));
      if refused(3) || a.next !in f3 then
        var f5 := Renamed(f4, a.backup, a.live, undoRefused(0));
        (false, [f3, f4, f5] + TakeBack(f5, d, undoRefused(1), undoRefused(2)))
      else (true, [f3, f4])
  }

  /** A rename among the names of one file, seen from both files. */
  lemma ViewBoth(d: Names, a: Names, f: Files, ofIndex: bool, src: nat, dst: nat, refused: bool)
    requires Apart(d, a) && src < 3 && dst < 3 && src != dst
    ensures var n := if ofIndex then d else a;
      var now := Renamed(f, Name(n, src), Name(n, dst), refused);
      && View(d, now) == (if ofIndex then ShiftUnless(View(d, f), src, dst, refused) else View(d, f))
      && View(a, now) == (if ofIndex then View(a, f) else ShiftUnless(View(a, f), src, dst, refused))
      && SameElsewhere(NameSet(d) + NameSet(a), f, now)
  {
    var n := if ofIndex then d else a;
    ViewAfter(n, f, src, dst, refused);
    ViewElsewhere(if ofIndex then a else d, NameSet(n), f, Renamed(f, Name(n, src), Name(n, dst), refused));
  }

  /** Nothing is lost in any of these directories, compared with the files `was`. */
  ghost predicate NothingLostIn(d: Names, a: Names, was: Files, steps: seq<Files>, undoWorks: bool) {
    forall i :: 0 <= i < |steps| ==>
      && NothingLost(View(d, was), View(a, was), View(d, steps[i]), View(a, steps[i]), undoWorks)
      && SameElsewhere(NameSet(d) + NameSet(a), was, steps[i])
  }

  lemma NothingLostMore(d: Names, a: Names, was: Files, s1: seq<Files>, s2: seq<Files>, undoWorks: bool)
    requires NothingLostIn(d, a, was, s1, undoWorks) && NothingLostIn(d, a, was, s2, undoWorks)
    ensures NothingLostIn(d, a, was, s1 + s2, undoWorks)
  {
  }

  lemma TakeBackView(f: Files, d: Names, a: Names, r1: bool, r2: bool, was: Files, works: bool)
    requires Apart(d, a) && SameElsewhere(NameSet(d) + NameSet(a), was, f) && (works ==> !r1 && !r2)
    requires View(d, f) == InPlace(View(d, was))
    requires NothingLost(View(d, was), View(a, was), View(d, f), View(a, f), works)
    ensures var steps := TakeBack(f, d, r1, r2);
      && View(d, steps[1]) == Undone(View(d, was), r1, r2) && View(a, steps[1]) == View(a, f)
      && NothingLostIn(d, a, was, steps, works)
  {
    ViewBoth(d, a, f, true, LIVE, NEXT, r1);
    ViewBoth(d, a, Renamed(f, d.live, d.next, r1), true, BACKUP, LIVE, r2);
  }

  /** The first attribute rename is refused. */
  lemma FirstAttributeRefused(f2: Files, d: Names, a: Names, u0: bool, u1: bool, was: Files, works: bool)
    requires Apart(d, a) && SameElsewhere(NameSet(d) + NameSet(a), was, f2) && (works ==> !u0 && !u1)
    requires View(d, f2) == InPlace(View(d, was)) && View(a, f2) == View(a, was) && d.next in was
    ensures var steps := [f2] + TakeBack(f2, d, u0, u1);
      && View(d, Last(f2, steps)) == Undone(View(d, was), u0, u1) && View(a, Last(f2, steps)) == View(a, was)
      && NothingLostIn(d, a, was, steps, works)
  {
    TakeBackView(f2, d, a, u0, u1, was, works);
    NothingLostMore(d, a, was, [f2], TakeBack(f2, d, u0, u1), works);
  }

  /** The second attribute rename fails: `f4` is as the first one left the files. */
  lemma SecondAttributeFails(f4: Files, d: Names, a: Names, u0: bool, u1: bool, u2: bool, was: Files, works: bool)
    requires Apart(d, a) && SameElsewhere(NameSet(d) + NameSet(a), was, f4) && works == (!u0 && !u1 && !u2)
    requires View(d, f4) == InPlace(View(d, was)) && View(a, f4) == Shift(View(a, was), LIVE, BACKUP) && d.next in was
    ensures var f5 := Renamed(f4, a.backup, a.live, u0);
      var steps := [f4, f4, f5] + TakeBack(f5, d, u1, u2);
      && View(d, Last(f4, steps)) == Undone(View(d, was), u1, u2)
      && View(a, Last(f4, steps)) == ShiftUnless(Shift(View(a, was), LIVE, BACKUP), BACKUP, LIVE, u0)
      && NothingLostIn(d, a, was, steps, works)
  {
    var f5 := Renamed(f4, a.backup, a.live, u0);
    ViewBoth(d, a, f4, false, BACKUP, LIVE, u0);
    TakeBackView(f5, d, a, u1, u2, was, works);
    NothingLostMore(d, a, was, [f4, f4, f5], TakeBack(f5, d, u1, u2), works);
  }

  lemma AttributeStepsView(f2: Files, d: Names, a: Names, refused: nat -> bool, undoRefused: nat -> bool, was: Files,
                           works: bool)
    requires Apart(d, a) && SameElsewhere(NameSet(d) + NameSet(a), was, f2)
    requires !refused(0) && !refused(1) && d.next in was
    requires works == (!undoRefused(0) && !undoRefused(1) && !undoRefused(2))
    requires View(d, f2) == InPlace(View(d, was)) && View(a, f2) == View(a, was)
    ensures var (ok, steps) := AttributeSteps(f2, d, a, refused, undoRefused);
      && steps != [] && NothingLostIn(d, a, was, steps, works)
      && (ok, View(d, Last(f2, steps)), View(a, Last(f2, steps))) ==
           IndexAfter(View(d, was), View(a, was), false, refused, undoRefused)
  {
    var f3 := Renamed(f2, a.live, a.backup, refused(2));
    ViewBoth(d, a, f2, false, LIVE, BACKUP, refused(2));
    if refused(2) {
      FirstAttributeRefused(f2, d, a, undoRefused(0), undoRefused(1), was, works);
    } else {
      ViewBoth(d, a, f3, false, NEXT, LIVE, refused(3));
      if refused(3) || a.next !in f3 {
        SecondAttributeFails(f3, d, a, undoRefused(0), undoRefused(1), undoRefused(2), was, works);
      }
    }
  }

  /** The second index rename fails. */
  lemma SecondIndexFails(f: Files, d: Names, a: Names, u0: bool, works: bool)
    requires Apart(d, a) && (works ==> !u0)
    ensures var f1 := Renamed(f, d.live, d.backup, false);
      var steps := [f1, f1, Renamed(f1, d.backup, d.live, u0)];
      && View(d, steps[2]) == ShiftUnless(Shift(View(d, f), LIVE, BACKUP), BACKUP, LIVE, u0)
      && View(a, steps[2]) == View(a, f) && NothingLostIn(d, a, f, steps, works)
  {
    ViewBoth(d, a, f, true, LIVE, BACKUP, false);
    ViewBoth(d, a, Renamed(f, d.live, d.backup, false), true, BACKUP, LIVE, u0);
  }

  /** Both index renames succeed. */
  lemma IndexInPlace(f: Files, d: Names, a: Names, works: bool)
    requires Apart(d, a) && d.next in f
    ensures var f1 := Renamed(f, d.live, d.backup, false);
      var f2 := Renamed(f1, d.next, d.live, false);
      && d.next in f1 && View(d, f2) == InPlace(View(d, f)) && View(a, f2) == View(a, f)
      && SameElsewhere(NameSet(d) + NameSet(a), f, f2) && NothingLostIn(d, a, f, [f1, f2], works)
  {
    ViewBoth(d, a, f, true, LIVE, BACKUP, false);
    ViewBoth(d, a, Renamed(f, d.live, d.backup, false), true, NEXT, LIVE, false);
  }

  /** For six different names: both files at the end, and nothing lost on the way. */
  lemma IndexStepsView(f: Files, d: Names, a: Names, long: bool, refused: nat -> bool, undoRefused: nat -> bool)
    requires Apart(d, a)
    ensures var (ok, steps) := IndexSteps(f, d, a, long, refused, undoRefused);
      && (ok, View(d, Last(f, steps)), View(a, Last(f, steps))) ==
           IndexAfter(View(d, f), View(a, f), long, refused, undoRefused)
      && NothingLostIn(d, a, f, steps, !undoRefused(0) && !undoRefused(1) && !undoRefused(2))
  {
    var works := !undoRefused(0) && !undoRefused(1) && !undoRefused(2);
    if !long && !refused(0) {
      if refused(1) || d.next !in f {
        SecondIndexFails(f, d, a, undoRefused(0), works);
      } else {
        var f1 := Renamed(f, d.live, d.backup, false);
        var f2 := Renamed(f1, d.next, d.live, false);
        IndexInPlace(f, d, a, works);
        AttributeStepsView(f2, d, a, refused, undoRefused, f, works);
        NothingLostMore(d, a, f, [f1, f2], AttributeSteps(f2, d, a, refused, undoRefused).1, works);
      }
    }
  }

  lemma AttributesElsewhere(f2: Files, d: Names, a: Names, refused: nat -> bool, undoRefused: nat -> bool, x: string)
    requires x !in NameSet(d) && x !in NameSet(a)
    ensures At(Last(f2, AttributeSteps(f2, d, a, refused, undoRefused).1), x) == At(f2, x)
  {
  }

  /** Files under other names than the six are not touched, whatever is refused. */
  lemma OtherFilesStay(f: Files, dbfile: string, newSuffix: string, oldSuffix: string, long: bool,
                       refused: nat -> bool, undoRefused: nat -> bool, x: string)
    requires x != dbfile && x != dbfile + ".attr"
    requires x != dbfile + "." + newSuffix && x != dbfile + "." + oldSuffix
    requires x != dbfile + ".attr" + "." + newSuffix && x != dbfile + ".attr" + "." + oldSuffix
    ensures var (d, a) := IndexNames(dbfile, newSuffix, oldSuffix);
      At(Last(f, IndexSteps(f, d, a, long, refused, undoRefused).1), x) == At(f, x)
  {
    var (d, a) := IndexNames(dbfile, newSuffix, oldSuffix);
    var f1 := Renamed(f, d.live, d.backup, false);
    var f2 := Renamed(f1, d.next, d.live, false);
    assert x !in NameSet(d) && x !in NameSet(a);
    assert At(f1, x) == At(f, x) && At(f2, x) == At(f, x);
    AttributesElsewhere(f2, d, a, refused, undoRefused, x);
  }

  /** What success is, by the names of the files. */
  lemma IndexInstalls(f: Files, dbfile: string, newSuffix: string, oldSuffix: string,
                      refused: nat -> bool, undoRefused: nat -> bool)
    requires SuffixesApart(newSuffix, oldSuffix)
    ensures var (d, a) := IndexNames(dbfile, newSuffix, oldSuffix);
      var (ok, steps) := IndexSteps(f, d, a, TooLong(dbfile, newSuffix, oldSuffix, 6), refused, undoRefused);
      && (ok <==> |dbfile + ".attr." + newSuffix| < 256 && |dbfile + ".attr." + oldSuffix| < 256
                  && !refused(0) && !refused(1) && !refused(2) && !refused(3)
                  && dbfile + "." + newSuffix in f && dbfile + ".attr" + "." + newSuffix in f)
      && (ok ==> MovedIn(f, Last(f, steps), dbfile, newSuffix, oldSuffix)
                 && MovedIn(f, Last(f, steps), dbfile + ".attr", newSuffix, oldSuffix))
  {
    var (d, a) := IndexNames(dbfile, newSuffix, oldSuffix);
    var long := TooLong(dbfile, newSuffix, oldSuffix, 6);
    IndexNamesApart(dbfile, newSuffix, oldSuffix);
    NamesFit(dbfile, newSuffix, oldSuffix);
    IndexStepsView(f, d, a, long, refused, undoRefused);
    IndexAfterMeaning(View(d, f), View(a, f), long, refused, undoRefused);
  }

  method RotateIndex(disk: Disk, dbfile: string, newSuffix: string, oldSuffix: string,
                     refused: nat -> bool, undoRefused: nat -> bool) returns (ok: bool)
    modifies disk
    ensures var (d, a) := IndexNames(dbfile, newSuffix, oldSuffix);
      var long := TooLong(dbfile, newSuffix, oldSuffix, 6);
      var steps := IndexSteps(old(disk.files), d, a, long, refused, undoRefused);
      ok == steps.0 && disk.trace == old(disk.trace) + steps.1 && disk.files == Last(old(disk.files), steps.1)
    ensures ok && SuffixesApart(newSuffix, oldSuffix) ==>
      && MovedIn(old(disk.files), disk.files, dbfile, newSuffix, oldSuffix)
      && MovedIn(old(disk.files), disk.files, dbfile + ".attr", newSuffix, oldSuffix)
  {
    if SuffixesApart(newSuffix, oldSuffix) {
      IndexInstalls(disk.files, dbfile, newSuffix, oldSuffix, refused, undoRefused);
    }
    if TooLong(dbfile, newSuffix, oldSuffix, 6) {
      NoChange(disk.trace);
      return false;
    }
    var (d, a) := IndexNames(dbfile, newSuffix, oldSuffix);
    ghost var trace := disk.trace;
    var r := disk.Rename(d.live, d.backup, refused(0));
    if r == Refused {
      return false;
    }
    ghost var f1 := disk.files;
    r := disk.Rename(d.next, d.live, refused(1));
    ghost var f2 := disk.files;
    Assoc(trace, [f1], [f2]);
    assert [f1] + [f2] == [f1, f2];
    if r != Done {
      r := disk.Rename(d.backup, d.live, undoRefused(0));
      Assoc(trace, [f1, f2], [disk.files]);
      assert [f1, f2] + [disk.files] == [f1, f2, disk.files];
      return false;
    }
    ok := RotateAttributes(disk, d, a, refused, undoRefused);
    Assoc(trace, [f1, f2], AttributeSteps(f2, d, a, refused, undoRefused).1);
  }

  /** The second half of `RotateIndex`, entered when the index file is already in place. */
  method RotateAttributes(disk: Disk, d: Names, a: Names, refused: nat -> bool, undoRefused: nat -> bool)
    returns (ok: bool)
    modifies disk
    ensures var steps := AttributeSteps(old(disk.files), d, a, refused, undoRefused);
      ok == steps.0 && disk.trace == old(disk.trace) + steps.1 && disk.files == Last(old(disk.files), steps.1)
  {
    ghost var trace := disk.trace;
    var r := disk.Rename(a.live, a.backup, refused(2));
    ghost var f3 := disk.files;
    if r == Refused {
      UndoIndex(disk, d, undoRefused(0), undoRefused(1));
      Assoc(trace, [f3], TakeBack(f3, d, undoRefused(0), undoRefused(1)));
      return false;
    }
    r := disk.Rename(a.next, a.live, refused(3));
    ghost var f4 := disk.files;
    Assoc(trace, [f3], [f4]);
    assert [f3] + [f4] == [f3, f4];
    if r != Done {
      r := disk.Rename(a.backup, a.live, undoRefused(0));
      ghost var f5 := disk.files;
      Assoc(trace, [f3, f4], [f5]);
      assert [f3, f4] + [f5] == [f3, f4, f5];
      UndoIndex(disk, d, undoRefused(1), undoRefused(2));
      Assoc(trace, [f3, f4, f5], TakeBack(f5, d, undoRefused(1), undoRefused(2)));
      return false;
    }
    ok := true;
  }

  /** The two renames that take the index file back. */
  method UndoIndex(disk: Disk, d: Names, refusedFirst: bool, refusedSecond: bool)
    modifies disk
    ensures var steps := TakeBack(old(disk.files), d, refusedFirst, refusedSecond);
      disk.trace == old(disk.trace) + steps && disk.files == steps[1]
  {
    ghost var trace := disk.trace;
    var r := disk.Rename(d.live, d.next, refusedFirst);
    ghost var f1 := disk.files;
    r := disk.Rename(d.backup, d.live, refusedSecond);
    Assoc(trace, [f1], [disk.files]);
    assert [f1] + [disk.files] == [f1, disk.files];
  }

  // ----- runs in which something goes wrong

  /** The files `index` and `index.attr` with the suffixes that the callers use. */
  lemma UsualNames()
    ensures var (d, a) := IndexNames("index", "new", "old"); Apart(d, a)
    ensures !TooLong("index", "new", "old", 6)
  {
    IndexNamesApart("index", "new", "old");
    assert "attr." + "old" != "new" && "attr." + "new" != "old";
  }

  /**
   The new attribute file is missing, and the rename that is to take the new index away again is
   refused, but not the one after it: the new index is then under no name at all.
   */
  method RefusedUndoLosesNewFile(live: string, next: string) returns (now: Files)
    requires live != next
    ensures var (d, _) := IndexNames("index", "new", "old");
      View(d, now) == Slots(Some(live), None, None) && forall x :: x in now ==> now[x] != next
  {
    var (d, a) := IndexNames("index", "new", "old");
    UsualNames();
    var files := map[d.live := live, d.next := next];
    var disk := new Disk(files);
    assert View(d, files) == Slots(Some(live), Some(next), None) && View(a, files) == Slots(None, None, None);
    IndexStepsView(files, d, a, false, _ => false, k => k == 1);
    var ok := RotateIndex(disk, "index", "new", "old", _ => false, k => k == 1);
    assert IndexAfter(View(d, files), View(a, files), false, _ => false, k => k == 1) ==
           (false, Slots(Some(live), None, None), Slots(None, None, None));
    now := disk.files;
    forall x | x in now
      ensures now[x] != next
    {
      assert At(now, x) == Some(now[x]);
      assert x in NameSet(d) + NameSet(a) || At(now, x) == At(files, x);
    }
  }

  /** There is no live index and no new one, but an old backup: undoing makes it the live index. */
  method OldBackupComesBack(old': string) returns (now: Files)
    ensures var (d, _) := IndexNames("index", "new", "old");
      View(d, now) == Slots(Some(old'), None, None)
  {
    var (d, a) := IndexNames("index", "new", "old");
    UsualNames();
    var files := map[d.backup := old'];
    var disk := new Disk(files);
    assert View(d, files) == Slots(None, None, Some(old')) && View(a, files) == Slots(None, None, None);
    IndexStepsView(files, d, a, false, _ => false, _ => false);
    var ok := RotateIndex(disk, "index", "new", "old", _ => false, _ => false);
    now := disk.files;
  }

  /** The same for a serial file. */
  method OldSerialComesBack(old': string) returns (now: Files)
    ensures View(FileNames("serial", "new", "old"), now).live == Some(old')
  {
    var n := FileNames("serial", "new", "old");
    NamesDistinct("serial", "new", "old");
    var files := map[n.backup := old'];
    var disk := new Disk(files);
    assert View(n, files) == Slots(None, None, Some(old'));
    SerialStepsView(files, n, false, _ => false, _ => false);
    var ok := RotateSerial(disk, "serial", "new", "old", _ => false, _ => false);
    now := disk.files;
  }
}
