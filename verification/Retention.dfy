/** The capture directory and the retention rules over it. */
module Retention {
  import opened Wrappers
  import opened CaptureNames
  import Spec = CaptureSpec
  import CaptureWriter

  /** A directory entry: a regular file with its size and modification time, or anything else. */
  datatype Entry = Regular(size: nat, mtime: int) | Special

  type Entries = map<string, Entry>

  class Directory {
    var entries: Entries

    constructor (entries: Entries)
      ensures this.entries == entries
    {
      this.entries := entries;
    }
  }

  // ----- Owned captures -----

  datatype Policy = Policy(template: string, run: Option<string>, maxBytes: int, maxAge: int, retain: bool)

  predicate IsFinished(d: Entries, p: Policy, name: string) {
    name in d && IsOwned(p.template, name) && d[name].Regular? && Some(name) != p.run
  }

  /** The finished owned captures: every owned regular file but this run's. */
  ghost function FinishedNames(d: Entries, p: Policy): set<string> {
    set n | n in d && IsFinished(d, p, n)
  }

  function SizeAt(d: Entries, name: string): nat {
    if name in d && d[name].Regular? then d[name].size else 0
  }

  ghost function TotalSize(d: Entries, names: set<string>): nat {
    if names == {} then 0
    else var n :| n in names; SizeAt(d, n) + TotalSize(d, names - {n})
  }

  lemma {:induction false} TotalWithout(d: Entries, names: set<string>, n: string)
    requires n in names
    ensures TotalSize(d, names) == SizeAt(d, n) + TotalSize(d, names - {n})
    decreases |names|
  {
    var m :| m in names && TotalSize(d, names) == SizeAt(d, m) + TotalSize(d, names - {m});
    if m != n {
      TotalWithout(d, names - {m}, n);
      TotalWithout(d, names - {n}, m);
      assert names - {m} - {n} == names - {n} - {m};
    }
  }

  lemma {:induction false} TotalOfSubset(d: Entries, some: set<string>, all: set<string>)
    requires some <= all
    ensures TotalSize(d, some) <= TotalSize(d, all)
    decreases |all|
  {
    if some != {} {
      var n :| n in some;
      TotalWithout(d, some, n);
      TotalWithout(d, all, n);
      TotalOfSubset(d, some - {n}, all - {n});
    }
  }

  lemma {:induction false} TotalAgrees(d: Entries, e: Entries, names: set<string>)
    requires forall n :: n in names ==> SizeAt(d, n) == SizeAt(e, n)
    ensures TotalSize(d, names) == TotalSize(e, names)
    decreases |names|
  {
    if names != {} {
      var n :| n in names;
      TotalWithout(d, names, n);
      TotalWithout(e, names, n);
      TotalAgrees(d, e, names - {n});
    }
  }

  predicate Distinct(names: seq<string>) {
    forall i, j :: 0 <= i < j < |names| ==> names[i] != names[j]
  }

  /** `os.ReadDir`: every entry once, in some order. A missing directory has none. */
  method ReadDir(dir: Directory) returns (names: seq<string>)
    ensures Distinct(names) && forall n :: n in names <==> n in dir.entries
  {
    names := [];
    var rest := dir.entries.Keys;
    while rest != {}
      invariant Distinct(names) && rest <= dir.entries.Keys
      invariant forall n :: n in names <==> n in dir.entries && n !in rest
      decreases |rest|
    {
      var n :| n in rest;
      names := names + [n];
      rest := rest - {n};
    }
  }

  lemma NextName(names: seq<string>, i: nat)
    requires Distinct(names) && i < |names|
    ensures names[i] !in names[..i]
    ensures forall n :: n in names[..i + 1] <==> n in names[..i] || n == names[i]
  {
    assert names[..i + 1] == names[..i] + [names[i]];
  }

  /** The finished owned captures, in listing order; an error if the directory cannot be read. */
  method Finished(p: Policy, dir: Directory, readable: bool) returns (r: Result<seq<string>, ()>)
    ensures r.Ok? <==> readable
    ensures r.Ok? ==> Distinct(r.value)
    ensures r.Ok? ==> forall n :: n in r.value <==> IsFinished(dir.entries, p, n)
  {
    if !readable {
      return Err(());
    }
    var names := ReadDir(dir);
    var files := [];
    var i := 0;
    while i < |names|
      invariant 0 <= i <= |names|
      invariant Distinct(files)
      invariant forall n :: n in files <==> n in names[..i] && IsFinished(dir.entries, p, n)
    {
      NextName(names, i);
      if IsFinished(dir.entries, p, names[i]) {
        files := files + [names[i]];
      }
      i := i + 1;
    }
    assert names[..i] == names;
    return Ok(files);
  }

  ghost function SetOf(names: seq<string>): set<string> { set n | n in names }

  lemma TotalSnoc(d: Entries, names: seq<string>, i: nat)
    requires Distinct(names) && i < |names|
    ensures TotalSize(d, SetOf(names[..i + 1])) == TotalSize(d, SetOf(names[..i])) + SizeAt(d, names[i])
  {
    assert names[..i + 1] == names[..i] + [names[i]];
    assert SetOf(names[..i + 1]) - {names[i]} == SetOf(names[..i]);
    TotalWithout(d, SetOf(names[..i + 1]), names[i]);
  }

  /** Adds up the sizes of the named files. */
  method SumSizes(dir: Directory, files: seq<string>) returns (total: int)
    requires Distinct(files)
    ensures total == TotalSize(dir.entries, SetOf(files))
  {
    total := 0;
    var i := 0;
    assert SetOf(files[..0]) == {};
    while i < |files|
      invariant 0 <= i <= |files|
      invariant total == TotalSize(dir.entries, SetOf(files[..i]))
    {
      total := total + SizeAt(dir.entries, files[i]);
      TotalSnoc(dir.entries, files, i);
      i := i + 1;
    }
    assert files[..i] == files;
  }

  /** The sizes of the finished owned captures together. */
  method OwnedBytes(p: Policy, dir: Directory, readable: bool) returns (r: Result<int, ()>)
    ensures r.Ok? <==> readable
    ensures r.Ok? ==> r.value == TotalSize(dir.entries, FinishedNames(dir.entries, p))
  {
    var found := Finished(p, dir, readable);
    if found.Err? {
      return Err(());
    }
    assert SetOf(found.value) == FinishedNames(dir.entries, p);
    var total := SumSizes(dir, found.value);
    return Ok(total);
  }

  /** What the size limit leaves for this run's capture; 0, no limit, without one. */
  ghost function RoomLeft(d: Entries, p: Policy): int {
    if p.maxBytes <= 0 then 0 else p.maxBytes - TotalSize(d, FinishedNames(d, p))
  }

  method Room(p: Policy, dir: Directory, readable: bool) returns (r: Result<int, ()>)
    ensures r.Ok? ==> r.value == RoomLeft(dir.entries, p)
    ensures r.Err? <==> p.maxBytes > 0 && !readable
  {
    if p.maxBytes <= 0 {
      return Ok(0);
    }
    var owned := OwnedBytes(p, dir, readable);
    if owned.Err? {
      return Err(());
    }
    return Ok(p.maxBytes - owned.value);
  }

  // ----- The age pass -----

  /** Finished, owned and strictly older than the age cap. */
  predicate IsExpired(d: Entries, p: Policy, now: int, name: string) {
    IsFinished(d, p, name) && now - d[name].mtime > p.maxAge
  }

  ghost function ExpiredNames(d: Entries, p: Policy, now: int): set<string> {
    if p.maxAge <= 0 then {} else set n | n in d && IsExpired(d, p, now, n)
  }

  /** Removes the files among these that are past the age cap, as far as they can be. */
  method RemoveOld(dir: Directory, files: seq<string>, maxAge: int, now: int, removable: string -> bool)
    requires Distinct(files) && forall n :: n in files ==> n in dir.entries && dir.entries[n].Regular?
    modifies dir
    ensures dir.entries == old(dir.entries)
      - (set n | n in files && now - old(dir.entries)[n].mtime > maxAge && removable(n))
  {
    ghost var before := dir.entries;
    ghost var gone: set<string> := {};
    var i := 0;
    while i < |files|
      invariant 0 <= i <= |files|
      invariant dir.entries == before - gone
      invariant gone == set n | n in files[..i] && now - before[n].mtime > maxAge && removable(n)
    {
      assert files[i] in files && files[i] !in files[..i];
      assert files[..i + 1] == files[..i] + [files[i]];
      if now - dir.entries[files[i]].mtime > maxAge && removable(files[i]) {
        dir.entries := dir.entries - {files[i]};
        gone := gone + {files[i]};
      }
      i := i + 1;
    }
    assert files[..i] == files;
  }

  /** What an age pass deletes: the expired captures that can be removed, if it can read the
      directory. */
  ghost function Removed(d: Entries, p: Policy, now: int, readable: bool, removable: string -> bool): set<string> {
    if !readable then {} else set n | n in ExpiredNames(d, p, now) && removable(n)
  }

  /** One age pass. */
  method Enforce(p: Policy, dir: Directory, readable: bool, now: int, removable: string -> bool)
    modifies dir
    ensures dir.entries == old(dir.entries) - Removed(old(dir.entries), p, now, readable, removable)
  {
    if p.maxAge <= 0 {
      return;
    }
    var found := Finished(p, dir, readable);
    if found.Err? {
      return;
    }
    ghost var before := dir.entries;
    assert forall n :: n in found.value ==> IsFinished(before, p, n);
    RemoveOld(dir, found.value, p.maxAge, now, removable);
    assert (set n | n in found.value && now - before[n].mtime > p.maxAge && removable(n))
        == Removed(before, p, now, readable, removable);
  }

  /** Teardown: deletes this run's capture unless it is retained, and nothing else. */
  method Cleanup(p: Policy, dir: Directory, removable: bool)
    modifies dir
    ensures dir.entries == if p.retain || p.run.None? || !removable then old(dir.entries)
                           else old(dir.entries) - {p.run.value}
  {
    if p.retain || p.run.None? {
      return;
    }
    if removable {
      dir.entries := dir.entries - {p.run.value};
    }
  }

  // ----- What retention looks at -----

  /** An age pass removes an entry if and only if it is a regular file whose name is the
      pattern's, is not this run's, was last written more than MaxAge before, and can be
      removed. */
  lemma RemovedIff(d: Entries, p: Policy, now: int, readable: bool, removable: string -> bool, name: string)
    ensures name in Removed(d, p, now, readable, removable) <==>
              && readable && p.maxAge > 0 && name in d && d[name].Regular?
              && LooksLikeCapture(p.template, name) && p.run != Some(name)
              && d[name].mtime + p.maxAge < now && removable(name)
  {
    OwnedIff(p.template, name);
  }

  /** An entry of any other name survives every age pass, and counts for nothing. */
  lemma OtherNamesAreSpared(d: Entries, p: Policy, now: int, readable: bool, removable: string -> bool, name: string)
    requires name in d && !LooksLikeCapture(p.template, name)
    ensures name !in Removed(d, p, now, readable, removable)
    ensures TotalSize(d, FinishedNames(d, p)) == TotalSize(d - {name}, FinishedNames(d - {name}, p))
    ensures RoomLeft(d, p) == RoomLeft(d - {name}, p)
  {
    OwnedIff(p.template, name);
    assert FinishedNames(d, p) == FinishedNames(d - {name}, p);
    TotalAgrees(d, d - {name}, FinishedNames(d, p));
  }

  /** The room left is exactly what this run's capture may grow to: a file of that size beside
      the finished ones stays within MaxBytes, and one byte more would not. */
  lemma RoomLeftIsExact(d: Entries, p: Policy, name: string, size: nat, mtime: int)
    requires p.maxBytes > 0 && IsOwned(p.template, name)
    requires p.run == Some(name) || (p.run == None && name !in d)
    ensures var after := d[name := Regular(size, mtime)];
            TotalSize(after, FinishedNames(after, p.(run := None))) <= p.maxBytes <==> size <= RoomLeft(d, p)
  {
    var after, q := d[name := Regular(size, mtime)], p.(run := None);
    assert FinishedNames(after, q) - {name} == FinishedNames(d, p);
    TotalWithout(after, FinishedNames(after, q), name);
    TotalAgrees(d, after, FinishedNames(d, p));
  }

  // ----- Creating this run's capture -----

  /** How one attempt to create a name that is free goes: it works, it is refused before the
      file exists, or the file is left with part of its header. */
  datatype Open = Opens | Refused | Cut(size: nat)

  datatype Creation = Created(n: nat, w: CaptureWriter.Writer) | Failed(n: nat) | Exhausted

  /** Every suffix below n is taken. */
  ghost predicate TakenBelow(d: Entries, template: string, second: nat, n: nat) {
    forall i :: 0 <= i < n ==> EntryName(template, second, i) in d
  }

  /** Creates the capture under the lowest free suffix. An entry already there is never
      replaced, and running out of names means all 1000 are taken. */
  method CreateRunCapture(dir: Directory, template: string, second: nat, header: nat, room: int, now: int,
                          open: nat -> Open)
    returns (r: Creation)
    modifies dir
    ensures r.Exhausted? ==> TakenBelow(old(dir.entries), template, second, 1000)
                             && dir.entries == old(dir.entries)
    ensures !r.Exhausted? ==> r.n <= 999
                              && TakenBelow(old(dir.entries), template, second, r.n)
    ensures r.Created? ==> open(r.n).Opens?
    ensures r.Failed? ==> !open(r.n).Opens?
    ensures r.Created? ==>
      var name := EntryName(template, second, r.n);
      && name !in old(dir.entries)
      && dir.entries == old(dir.entries)[name := Regular(header, now)]
      && fresh(r.w) && r.w.Valid() && r.w.State() == Spec.Init(name, header, room, now)
    ensures r.Failed? ==>
      var name := EntryName(template, second, r.n);
      || dir.entries == old(dir.entries)
      || (name !in old(dir.entries) && open(r.n).Cut?
          && dir.entries == old(dir.entries)[name := Regular(open(r.n).size, now)])
  {
    var n := 0;
    while n <= MAX_SUFFIX
      invariant 0 <= n <= MAX_SUFFIX + 1
      invariant dir.entries == old(dir.entries)
      invariant TakenBelow(dir.entries, template, second, n)
    {
      var name := EntryName(template, second, n);
      if open(n).Refused? {
        return Failed(n);
      }
      if name !in dir.entries {
        if open(n).Cut? {
          dir.entries := dir.entries[name := Regular(open(n).size, now)];
          return Failed(n);
        }
        dir.entries := dir.entries[name := Regular(header, now)];
        var w := new CaptureWriter.Writer(name, header, room, now);
        return Created(n, w);
      }
      n := n + 1;
    }
    return Exhausted;
  }
}
