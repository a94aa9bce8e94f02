/** The registry of a CondIO object as a value: its entries keyed by alias,
    and the order in which the keys were first inserted (Python dictionaries
    iterate in that order, and an assignment to an existing key keeps its
    place). */
module Registration {
  import opened Effects

  /** One registered file: its enable flag, path, mode and (once opened) its handle. */
  datatype Entry = Entry(enabled: bool, path: string, mode: string, file: Option<Handle>)

  /** The arguments of one `add` call, defaults already applied. */
  datatype AddArgs = AddArgs(enable: bool, path: string, mode: string, alias: Option<string>)

  /** The mode `add` uses when none is given. */
  const DefaultMode: string := "r"

  /** Keys in first-insertion order, and the entry under each key. */
  datatype Registry = Registry(keys: seq<string>, entries: map<string, Entry>)

  const Empty: Registry := Registry([], map[])

  /** The key an entry is registered under: the alias, or the path when there is none. */
  function KeyOf(a: AddArgs): string
  {
    if a.alias.Some? then a.alias.value else a.path
  }

  /** A freshly registered entry: nothing has been opened for it yet. */
  function NewEntry(a: AddArgs): Entry
  {
    Entry(a.enable, a.path, a.mode, None)
  }

  /** Keys are listed once each, and exactly the keys of the map are listed. */
  ghost predicate WellFormed(r: Registry)
  {
    && (forall i, j | 0 <= i < j < |r.keys| :: r.keys[i] != r.keys[j])
    && (forall k :: k in r.keys <==> k in r.entries)
  }

  /** Registering one file: the entry under its key is replaced entirely, every
      other entry stays as it was, and a key already present keeps its position. */
  function Add(r: Registry, a: AddArgs): (r': Registry)
    requires WellFormed(r)
    ensures WellFormed(r')
    ensures r'.entries.Keys == r.entries.Keys + {KeyOf(a)}
    ensures r'.entries[KeyOf(a)] == Entry(a.enable, a.path, a.mode, None)
    ensures forall k | k != KeyOf(a) ::
      (k in r'.entries <==> k in r.entries) && (k in r.entries ==> r'.entries[k] == r.entries[k])
    ensures KeyOf(a) in r.entries ==> r'.keys == r.keys && |r'.entries| == |r.entries|
    ensures KeyOf(a) !in r.entries ==> r'.keys == r.keys + [KeyOf(a)]
  {
    var k := KeyOf(a);
    Registry(if k in r.entries then r.keys else r.keys + [k], r.entries[k := NewEntry(a)])
  }

  /** Registering several files one after another, in list order. Keys already
      present never move: the old key order is a prefix of the new one. */
  function AddAll(r: Registry, ios: seq<AddArgs>): (r': Registry)
    requires WellFormed(r)
    ensures WellFormed(r')
    ensures r.keys <= r'.keys
    decreases |ios|
  {
    if ios == [] then r else Add(AddAll(r, ios[..|ios| - 1]), ios[|ios| - 1])
  }

  /** Registering `xs` and then `ys` is registering `xs + ys`: chained `add`
      calls compose, whether they come from the constructor or not. */
  lemma {:induction false} AddAllAppend(r: Registry, xs: seq<AddArgs>, ys: seq<AddArgs>)
    requires WellFormed(r)
    ensures AddAll(r, xs + ys) == AddAll(AddAll(r, xs), ys)
    decreases |ys|
  {
    if ys == [] {
      assert xs + ys == xs;
    } else {
      var init := ys[..|ys| - 1];
      assert (xs + ys)[..|xs + ys| - 1] == xs + init;
      assert (xs + ys)[|xs + ys| - 1] == ys[|ys| - 1];
      AddAllAppend(r, xs, init);
    }
  }

  /** The last registration under a key wins: its entry is the one left. */
  lemma {:induction false} AddAllLastWins(r: Registry, ios: seq<AddArgs>, j: nat)
    requires WellFormed(r)
    requires j < |ios|
    requires forall l | j < l < |ios| :: KeyOf(ios[l]) != KeyOf(ios[j])
    ensures KeyOf(ios[j]) in AddAll(r, ios).entries
    ensures AddAll(r, ios).entries[KeyOf(ios[j])] == NewEntry(ios[j])
    decreases |ios|
  {
    if j < |ios| - 1 {
      AddAllLastWins(r, ios[..|ios| - 1], j);
    }
  }

  /** The keys a sequence of calls registers under. */
  ghost function UsedKeys(ios: seq<AddArgs>): set<string>
  {
    set a | a in ios :: KeyOf(a)
  }

  /** One more call adds its own key to the keys used. */
  lemma UsedKeysLast(ios: seq<AddArgs>)
    requires ios != []
    ensures UsedKeys(ios) == UsedKeys(ios[..|ios| - 1]) + {KeyOf(ios[|ios| - 1])}
  {
    assert ios == ios[..|ios| - 1] + [ios[|ios| - 1]];
  }

  /** The keys registered afterwards are those registered before and those the calls used. */
  lemma {:induction false} AddAllDomain(r: Registry, ios: seq<AddArgs>)
    requires WellFormed(r)
    ensures AddAll(r, ios).entries.Keys == r.entries.Keys + UsedKeys(ios)
    decreases |ios|
  {
    if ios != [] {
      var init, last := ios[..|ios| - 1], ios[|ios| - 1];
      AddAllDomain(r, init);
      assert AddAll(r, ios) == Add(AddAll(r, init), last);
      UsedKeysLast(ios);
    }
  }

  /** A registered key that no call uses keeps its entry. */
  lemma {:induction false} AddAllUntouched(r: Registry, ios: seq<AddArgs>, k: string)
    requires WellFormed(r)
    requires k in r.entries
    requires forall j | 0 <= j < |ios| :: KeyOf(ios[j]) != k
    ensures k in AddAll(r, ios).entries && AddAll(r, ios).entries[k] == r.entries[k]
    decreases |ios|
  {
    if ios != [] {
      AddAllUntouched(r, ios[..|ios| - 1], k);
    }
  }
}
