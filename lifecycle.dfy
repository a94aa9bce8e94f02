/** What entering and exiting a CondIO object does to its entries, as the
    sequence of opens and closes it performs. */
module Lifecycle {
  import opened Effects
  import opened Registration

  /** An enabled entry is opened on its own path, a disabled one on the null device. */
  function TargetOf(e: Entry): Target
  {
    if e.enabled then Real(e.path) else DevNull
  }

  /** The handle `open` gives an entry: its target, in the entry's own mode. */
  function HandleFor(e: Entry): Handle
  {
    Handle(TargetOf(e), e.mode)
  }

  /** The entry after entering: the same flag, path and mode, now holding its handle. */
  function Opened(e: Entry): Entry
  {
    e.(file := Some(HandleFor(e)))
  }

  /** The entries after those under `ks` have been opened and the others not yet. */
  function OpenedUpTo(m: map<string, Entry>, ks: seq<string>): map<string, Entry>
  {
    map k | k in m :: if k in ks then Opened(m[k]) else m[k]
  }

  /** Opening one more entry updates just that entry. */
  lemma OpenedUpToStep(m: map<string, Entry>, ks: seq<string>, k: string)
    requires k in m
    ensures OpenedUpTo(m, ks + [k]) == OpenedUpTo(m, ks)[k := Opened(OpenedUpTo(m, ks)[k])]
  {
  }

  /** Opening an entry, or not yet, leaves its flag, path and mode as registered. */
  lemma OpenedUpToKeeps(m: map<string, Entry>, ks: seq<string>, k: string)
    requires k in m
    ensures k in OpenedUpTo(m, ks)
    ensures TargetOf(OpenedUpTo(m, ks)[k]) == TargetOf(m[k])
    ensures OpenedUpTo(m, ks)[k].mode == m[k].mode
  {
  }

  /** Once every key has been opened, every entry holds its handle. */
  lemma OpenedUpToAll(m: map<string, Entry>, ks: seq<string>)
    requires forall k | k in m :: k in ks
    ensures OpenedUpTo(m, ks).Keys == m.Keys
    ensures forall k | k in m :: OpenedUpTo(m, ks)[k] == Opened(m[k])
  {
  }

  /** The opens performed when the entries under `ks` are opened, one by one, in that order. */
  function OpenEvents(ks: seq<string>, m: map<string, Entry>): (evs: seq<Event>)
    requires forall k | k in ks :: k in m
    ensures |evs| == |ks|
  {
    if ks == [] then []
    else
      var k := ks[|ks| - 1];
      OpenEvents(ks[..|ks| - 1], m) + [Open(k, TargetOf(m[k]), m[k].mode)]
  }

  /** Opening one more entry performs one more open, at the end. */
  lemma OpenEventsSnoc(ks: seq<string>, k: string, m: map<string, Entry>)
    requires forall k' | k' in ks :: k' in m
    requires k in m
    ensures OpenEvents(ks + [k], m) == OpenEvents(ks, m) + [Open(k, TargetOf(m[k]), m[k].mode)]
  {
    assert (ks + [k])[..|ks|] == ks;
  }

  /** The closes performed when the entries under `ks` are closed from the last one back. */
  function CloseEvents(ks: seq<string>): (evs: seq<Event>)
    ensures |evs| == |ks|
  {
    if ks == [] then [] else CloseEvents(ks[1..]) + [Close(ks[0])]
  }

  /** The j-th open is of the j-th key, on the entry's path when it is enabled and
      on the null device otherwise, in the entry's own mode. */
  lemma {:induction false} OpenEventsInOrder(ks: seq<string>, m: map<string, Entry>)
    requires forall k | k in ks :: k in m
    ensures forall j | 0 <= j < |ks| ::
      OpenEvents(ks, m)[j] == Open(ks[j], if m[ks[j]].enabled then Real(m[ks[j]].path) else DevNull, m[ks[j]].mode)
  {
    if ks != [] {
      var init := ks[..|ks| - 1];
      OpenEventsInOrder(init, m);
      forall j | 0 <= j < |ks|
        ensures OpenEvents(ks, m)[j] == Open(ks[j], TargetOf(m[ks[j]]), m[ks[j]].mode)
      {
        if j < |ks| - 1 {
          assert ks[j] == init[j];
        }
      }
    }
  }

  /** The j-th close is of the j-th key counted from the end. */
  lemma {:induction false} CloseEventsInReverse(ks: seq<string>)
    ensures forall j | 0 <= j < |ks| :: CloseEvents(ks)[j] == Close(ks[|ks| - 1 - j])
  {
    if ks != [] {
      var rest := ks[1..];
      CloseEventsInReverse(rest);
      forall j | 0 <= j < |ks|
        ensures CloseEvents(ks)[j] == Close(ks[|ks| - 1 - j])
      {
        if j < |ks| - 1 {
          assert rest[|rest| - 1 - j] == ks[|ks| - 1 - j];
        }
      }
    }
  }

  /** Closing touches exactly the entries opening touched, in the exact reverse
      order: the j-th close is of the key of the j-th open counted from the end. */
  lemma CloseMirrorsOpen(ks: seq<string>, m: map<string, Entry>)
    requires forall k | k in ks :: k in m
    ensures |CloseEvents(ks)| == |OpenEvents(ks, m)|
    ensures forall j | 0 <= j < |ks| ::
      OpenEvents(ks, m)[|ks| - 1 - j].Open? && CloseEvents(ks)[j] == Close(OpenEvents(ks, m)[|ks| - 1 - j].key)
  {
    OpenEventsInOrder(ks, m);
    CloseEventsInReverse(ks);
  }

  /** Each entry is opened once: when the keys are distinct, so are the keys of the opens. */
  lemma OpensEachEntryOnce(ks: seq<string>, m: map<string, Entry>)
    requires forall k | k in ks :: k in m
    requires forall i, j | 0 <= i < j < |ks| :: ks[i] != ks[j]
    ensures forall i, j | 0 <= i < j < |ks| ::
      OpenEvents(ks, m)[i].Open? && OpenEvents(ks, m)[j].Open? && OpenEvents(ks, m)[i].key != OpenEvents(ks, m)[j].key
  {
    OpenEventsInOrder(ks, m);
  }
}
