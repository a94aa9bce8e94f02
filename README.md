# condIO: a verified model of the CondIO context manager

`CondIO` (in `condIO/condIO.py`) is a Python context manager holding a set of
conditionally enabled files. Each file is registered with an enable flag, a
path and an open mode, under an alias (the path when no alias is given). On
entry every registered file is opened in registration order: an enabled one on
its own path, a disabled one on `os.devnull`, so callers can write to or read
from a disabled file without checking whether it is enabled. On exit every file
is closed in reverse order. `print(s, where)` writes a line to standard output
(when no target is named and standard output is enabled) or to the named file
(when it is enabled), and `self[key]` gives the file object under a key.

The model is in four modules:

- `Effects` (`effects.dfy`): file handles, the targets they are opened on
  (`Real(path)` or `DevNull`), the `KeyError` result, and the I/O events
  (`Open`, `Close`, `WriteFile`, `WriteStdout`) that stand for the file system
  and standard output.
- `Registration` (`registration.dfy`): the registry as a value, an ordered map
  with Python dictionary semantics (keys in first-insertion order, an
  assignment to an existing key replaces the value in place), `Add` and its
  iteration `AddAll`, with their properties.
- `Lifecycle` (`lifecycle.dfy`): the sequence of opens that entering performs
  and the sequence of closes that exiting performs, and how the two relate.
- `Manager` (`condio.dfy`): the class `CondIO` with the fields of the Python
  object (`enableStd`, the dictionary as `keys` plus `entries`), a `phase`
  (registering, entered, exited) and a ghost `trace` of all I/O performed.
  Its methods change these fields in place, as the Python methods do, and are
  specified against the functions of the other two modules.

File existence (`os.path.isfile`) is a parameter `isFile: string -> bool` of
`AddIfExists` and `AddIfNotExists`. Python's keyword defaults (`mode='r'`,
`alias=None`, `enable_std=True`, `ios=[]`, `where=None`) are Dafny default
parameter values. `print` appends a line break, so a write event carries
`s + "\n"`.

The class docstring (condIO/condIO.py:12) says that disabled files are not
opened. The code at condIO/condIO.py:80 opens `os.devnull` for them, and the
model follows the code: entering records an `Open(key, DevNull, mode)` event
for a disabled entry.

## Model

| member | source | states |
|---|---|---|
| Registration.Add | condIO/condIO.py:51 | Registering puts exactly `Entry(enable, path, mode, no file)` under the alias, or under the path when there is no alias; every other key keeps its entry; the key set grows by that key only; a key already present keeps its position and the entry count is unchanged, a new key goes last; the registry stays well formed (keys distinct, keys listed = keys mapped) |
| Registration.AddAll | condIO/condIO.py:34-35 | Registering a list of files one after another keeps the registry well formed, and keys already present keep their positions (old key order is a prefix of the new one) |
| Registration.AddAllAppend | condIO/condIO.py:34-35 | Registering `xs` then `ys` gives the same registry as registering `xs + ys`, so constructor registrations followed by chained `add` calls compose |
| Registration.AddAllLastWins | condIO/condIO.py:51 | After a list of registrations, the entry under a key is the one built by the last registration that used that key |
| Registration.AddAllDomain | condIO/condIO.py:51 | After a list of registrations, the registered keys are exactly the keys registered before plus the key of each registration |
| Registration.AddAllUntouched | condIO/condIO.py:51 | A registered key that no later registration uses keeps its entry unchanged |
| Lifecycle.OpenEvents | condIO/condIO.py:79-80 | Opening the entries under a list of keys performs one open per key |
| Lifecycle.CloseEvents | condIO/condIO.py:85-86 | Closing the entries under a list of keys performs one close per key |
| Lifecycle.OpenEventsInOrder | condIO/condIO.py:79-80 | The j-th open is of the j-th key, on the entry's path when it is enabled and on the null device when it is not, in the entry's own mode |
| Lifecycle.CloseEventsInReverse | condIO/condIO.py:85-86 | The j-th close is of the j-th key counted from the end |
| Lifecycle.CloseMirrorsOpen | condIO/condIO.py:79-86 | Exit closes as many entries as entry opens, and the j-th close is of the key of the j-th open counted from the end: the exact reverse order |
| Lifecycle.OpensEachEntryOnce | condIO/condIO.py:79-80 | With distinct keys, no entry is opened twice |
| Manager.CondIO.constructor | condIO/condIO.py:24-35 | A new object has nothing open, records no I/O, keeps `enableStd`, and its registry equals registering each element of `ios` in order into an empty registry |
| Manager.CondIO.Add | condIO/condIO.py:37-52 | The registry becomes `Registration.Add` of the old registry and the arguments; nothing is opened or written; the object itself is returned, which allows chaining |
| Manager.CondIO.AddIfExists | condIO/condIO.py:54-56 | Same as `Add` with the enable flag set to whether a regular file exists at the path |
| Manager.CondIO.AddIfNotExists | condIO/condIO.py:57-59 | Same as `Add` with the enable flag set to whether no regular file exists at the path |
| Manager.CondIO.Print | condIO/condIO.py:62-76 | No target: writes `s` and a line break to standard output exactly when standard output is enabled, and succeeds. Unknown key: KeyError for that key, no I/O. Disabled key: no I/O. Enabled key: UnsupportedOperation and no I/O when its mode does not allow writing (the default `'r'` among them), TypeError and no I/O when its mode is writable but binary, and otherwise writes `s` and a line break to the entry's real path and nothing else |
| Manager.CondIO.Enter | condIO/condIO.py:78-81 | Opens every entry once, in insertion order, on its path if enabled and on the null device otherwise, in its own mode; each entry then holds that handle, keys and flags are unchanged, and the object itself is returned |
| Manager.CondIO.OpenAll | condIO/condIO.py:79-80 | The loop of entering: the trace grows by exactly the opens of the keys in insertion order, and every entry then holds its handle |
| Manager.CondIO.OpenEntry | condIO/condIO.py:80 | Opening one entry gives it the handle on its target in its mode and records that one open |
| Manager.CondIO.Exit | condIO/condIO.py:83-86 | Closes every entry in reverse insertion order and performs no other I/O; the registry is unchanged |
| Manager.CondIO.GetItem | condIO/condIO.py:88-91 | KeyError exactly when the key is not registered; before entry the entry has no file; from entry on, the handle opened on the entry's path when enabled or on the null device when disabled, in the entry's mode; nothing changes |

## Left out

- Real file opening, writing, reading and closing: modelled as events in the ghost `trace` (`Open`, `Close`, `WriteFile`, `WriteStdout`), with no file-system semantics. Reading lines from a handle (a null-device handle reads as empty) is not modelled.
- `os.path.isfile` is an oracle parameter, not a file-system query.
- A closed Python file object is not modelled as a separate state: after `Exit` each entry still holds its handle, and the closing shows only as `Close` events.
- Exception handling: the arguments of `__exit__` are ignored by the source and are not parameters of `Exit`. A failing `open` partway through `__enter__` leaves earlier files open in the source; the model has no failing `open`, and claims neither all-or-nothing opening nor cleanup on failure.
- Manager.CondIO.Add: requires the registering phase. Registering after entry is not guarded in the source and would make `__exit__` call `close` on an entry that was never opened; registering after exit is harmless in the source (the new entry is simply never opened unless the object is entered again). Neither path is modelled.
- Manager.CondIO.AddIfExists: requires the registering phase, as `Add` does.
- Manager.CondIO.AddIfNotExists: requires the registering phase, as `Add` does.
- Manager.CondIO.Enter: requires the registering phase, so entering twice is not modelled.
- Manager.CondIO.Exit: requires the entered phase, so exiting without entering (which fails on an entry whose file is still `None`) is not modelled, nor is a second exit, which in the source closes the already closed files again without error.
- Manager.CondIO.Print: requires the entered phase when the target is an enabled key. Before entry the source would pass `file=None` to Python's `print`, which writes to standard output; after exit it would write to a closed file and raise ValueError. Neither lifecycle edge case is modelled.
- Manager.CondIO.Print: whether a mode allows writing (it contains `w`, `a`, `x` or `+`) and whether it is binary (it contains `b`) is decided from the mode string alone; a mode `open` rejects would already fail on entry, and that failure is not modelled.
- Python's `print` converts its argument with `str`; the model takes the text as a string.
- The driver `main()` (condIO/condIO.py:93-121) and `example.py` parse arguments and demonstrate usage; they are not part of this model.
