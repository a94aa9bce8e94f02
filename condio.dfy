/** The CondIO context manager: a registry of conditionally enabled files that
    are opened together on entry, addressed by alias while entered, and closed
    together on exit. Opening, writing and closing are recorded in `trace`. */
module Manager {
  import opened Effects
  import opened Registration
  import opened Lifecycle

  /** Where an object is in its life: files being registered, opened, closed again. */
  datatype Phase = Registering | Entered | Exited

  class CondIO {
    /** Whether a print without a target goes to standard output. */
    var enableStd: bool
    /** The keys of the registry, in first-insertion order. */
    var keys: seq<string>
    /** The entry under each key. */
    var entries: map<string, Entry>
    var phase: Phase
    /** Every open, write and close performed so far, oldest first. */
    ghost var trace: seq<Event>

    /** The registry is well formed; nothing is open while files are being
        registered, and from entry on every entry holds the handle it was opened with. */
    ghost predicate Valid()
      reads this
    {
      && WellFormed(Model())
      && (phase == Registering ==> forall k | k in entries :: entries[k].file == None)
      && (phase != Registering ==> forall k | k in entries :: entries[k].file == Some(HandleFor(entries[k])))
    }

    /** The registry as a value. */
    function Model(): Registry
      reads this
    {
      Registry(keys, entries)
    }

    /** A new object with no files, then each element of `ios` registered in order. */
    constructor (enableStd: bool := true, ios: seq<AddArgs> := [])
      ensures Valid() && phase == Registering && trace == []
      ensures this.enableStd == enableStd
      ensures Model() == AddAll(Empty, ios)
    {
      this.enableStd := enableStd;
      keys := [];
      entries := map[];
      phase := Registering;
      trace := [];
      new;
      for i := 0 to |ios|
        invariant Valid() && phase == Registering && trace == []
        invariant this.enableStd == enableStd
        invariant Model() == AddAll(Empty, ios[..i])
      {
        var a := ios[i];
        assert ios[..i + 1][..i] == ios[..i];
        assert AddAll(Empty, ios[..i + 1]) == Registration.Add(AddAll(Empty, ios[..i]), a);
        var _ := Add(a.enable, a.path, a.mode, a.alias);
      }
      assert ios[..|ios|] == ios;
    }

    /** Registers a file under its alias, or under its path when no alias is given,
        replacing whatever was registered under that key; returns the object itself. */
    method Add(enable: bool, path: string, mode: string := DefaultMode, alias: Option<string> := None)
      returns (self: CondIO)
      requires Valid() && phase == Registering
      modifies this`keys, this`entries
      ensures Valid() && self == this
      ensures Model() == Registration.Add(old(Model()), AddArgs(enable, path, mode, alias))
    {
      var k := if alias.Some? then alias.value else path;
      if k !in entries {
        keys := keys + [k];
      }
      entries := entries[k := Entry(enable, path, mode, None)];
      self := this;
    }

    /** Registers a file that is enabled exactly when a regular file exists at its path;
        `isFile` answers that question for the file system. */
    method AddIfExists(isFile: string -> bool, path: string, mode: string := DefaultMode, alias: Option<string> := None)
      returns (self: CondIO)
      requires Valid() && phase == Registering
      modifies this`keys, this`entries
      ensures Valid() && self == this
      ensures Model() == Registration.Add(old(Model()), AddArgs(isFile(path), path, mode, alias))
    {
      self := Add(isFile(path), path, mode, alias);
    }

    /** Registers a file that is enabled exactly when no regular file exists at its path. */
    method AddIfNotExists(isFile: string -> bool, path: string, mode: string := DefaultMode, alias: Option<string> := None)
      returns (self: CondIO)
      requires Valid() && phase == Registering
      modifies this`keys, this`entries
      ensures Valid() && self == this
      ensures Model() == Registration.Add(old(Model()), AddArgs(!isFile(path), path, mode, alias))
    {
      self := Add(!isFile(path), path, mode, alias);
    }

    /** Prints `s` and a line break: to standard output when no target is named
        and standard output is enabled; to the named entry's file when it is
        enabled; nowhere when it is disabled; KeyError when no entry has that key.
        Writing to an enabled entry fails as the file object fails: with
        UnsupportedOperation when its mode does not allow writing (the default
        "r" among them), with TypeError when its mode is binary. */
    method Print(s: string, where: Option<string> := None) returns (r: Result<()>)
      requires Valid()
      requires where.Some? && where.value in entries && entries[where.value].enabled ==> phase == Entered
      modifies this`trace
      ensures where.None? ==> r == Ok(())
      ensures where.None? && enableStd ==> trace == old(trace) + [WriteStdout(s + "\n")]
      ensures where.None? && !enableStd ==> trace == old(trace)
      ensures where.Some? && where.value !in entries ==> r == KeyError(where.value) && trace == old(trace)
      ensures where.Some? && where.value in entries && !entries[where.value].enabled ==>
        r == Ok(()) && trace == old(trace)
      ensures where.Some? && where.value in entries && entries[where.value].enabled ==>
        var e := entries[where.value];
        && (!Writable(e.mode) ==> r == UnsupportedOperation && trace == old(trace))
        && (Writable(e.mode) && Binary(e.mode) ==> r == TypeError && trace == old(trace))
        && (Writable(e.mode) && !Binary(e.mode) ==>
              r == Ok(()) && trace == old(trace) + [WriteFile(Real(e.path), s + "\n")])
    {
      r := Ok(());
      if where.None? {
        if enableStd {
          trace := trace + [WriteStdout(s + "\n")];
        }
      } else if where.value !in entries {
        r := KeyError(where.value);
      } else if entries[where.value].enabled {
        var f := entries[where.value].file.value;
        if !Writable(f.mode) {
          r := UnsupportedOperation;
        } else if Binary(f.mode) {
          r := TypeError;
        } else {
          trace := trace + [WriteFile(f.target, s + "\n")];
        }
      }
    }

    /** Opens every entry in insertion order: an enabled one on its path, a disabled
        one on the null device, each in its own mode; returns the object itself. */
    method Enter() returns (self: CondIO)
      requires Valid() && phase == Registering
      modifies this`entries, this`trace, this`phase
      ensures Valid() && self == this && phase == Entered
      ensures entries.Keys == old(entries).Keys
      ensures forall k | k in entries :: entries[k] == Opened(old(entries)[k])
      ensures trace == old(trace) + OpenEvents(keys, old(entries))
    {
      OpenAll();
      phase := Entered;
      self := this;
    }

    /** The loop of entering: opens the entries under `keys`, first to last. */
    method OpenAll()
      requires forall k | k in keys :: k in entries
      requires forall k | k in entries :: k in keys
      modifies this`entries, this`trace
      ensures entries.Keys == old(entries).Keys
      ensures forall k | k in entries :: entries[k] == Opened(old(entries)[k])
      ensures trace == old(trace) + OpenEvents(keys, old(entries))
    {
      ghost var m0, t0 := entries, trace;
      for i := 0 to |keys|
        invariant entries == OpenedUpTo(m0, keys[..i])
        invariant trace == t0 + OpenEvents(keys[..i], m0)
      {
        var k := keys[i];
        assert keys[..i + 1] == keys[..i] + [k];
        OpenedUpToKeeps(m0, keys[..i], k);
        OpenedUpToStep(m0, keys[..i], k);
        OpenEventsSnoc(keys[..i], k, m0);
        OpenEntry(k);
      }
      assert keys[..|keys|] == keys;
      OpenedUpToAll(m0, keys);
    }

    /** Opens the entry under `k`, as one step of entering. */
    method OpenEntry(k: string)
      requires k in entries
      modifies this`entries, this`trace
      ensures entries == old(entries)[k := Opened(old(entries)[k])]
      ensures trace == old(trace) + [Open(k, TargetOf(old(entries)[k]), old(entries)[k].mode)]
    {
      var e := entries[k];
      var target := if e.enabled then Real(e.path) else DevNull;
      entries := entries[k := e.(file := Some(Handle(target, e.mode)))];
      trace := trace + [Open(k, target, e.mode)];
    }

    /** Closes every entry, from the last inserted back to the first. */
    method Exit()
      requires Valid() && phase == Entered
      modifies this`trace, this`phase
      ensures Valid() && phase == Exited
      ensures trace == old(trace) + CloseEvents(keys)
    {
      var i := |keys|;
      while i > 0
        invariant 0 <= i <= |keys|
        invariant trace == old(trace) + CloseEvents(keys[i..])
      {
        i := i - 1;
        trace := trace + [Close(keys[i])];
        assert keys[i..][1..] == keys[i + 1..];
      }
      phase := Exited;
    }

    /** The file under `key`: KeyError when no entry has that key, nothing before
        entry, and from entry on the handle opened on the entry's path when it is
        enabled or on the null device when it is not. */
    method GetItem(key: string) returns (r: Result<Option<Handle>>)
      requires Valid()
      ensures r.KeyError? <==> key !in entries
      ensures r.KeyError? ==> r.key == key
      ensures key in entries && phase == Registering ==> r == Ok(None)
      ensures key in entries && phase != Registering ==>
        r == Ok(Some(Handle(if entries[key].enabled then Real(entries[key].path) else DevNull, entries[key].mode)))
    {
      if key !in entries {
        return KeyError(key);
      }
      r := Ok(entries[key].file);
    }
  }
}
