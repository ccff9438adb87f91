# PyZip in Dafny

PyZip is an in-memory "zipper dictionary". It is a Python class whose
entire state is one zip archive held as a byte string, plus a length
counter. Setting a key appends a member named `str(key)` to the archive.
Reading a key reads that member back. Deleting a key copies every other
pair into a Python dict, resets the bytes to `b""` and sets each
surviving pair again.

The model has four modules:

- `ZipArchive` models the part of Python's `zipfile` that PyZip relies on,
  over an abstract archive. `NoArchive` stands for bytes that are not a zip
  archive, `b""` above all. `Archive(entries)` is the sequence of members in
  the order they were written. Names may repeat, and a read returns the
  last member of a name.
- `PyKeys` covers the keys a caller passes (str or int) and Python's
  `str()` on them, including the decimal form of an integer.
- `PyZipSpec` gives each operation as a function on the state
  `State(data, storedLength)` and proves the dictionary laws about those
  functions. It also proves where PyZip falls short of a dictionary:
  - int keys are never deleted;
  - keys and membership tests raise on a fresh instance;
  - `len()` drifts away from the number of keys.
- `Pyzip` holds the class `PyZip`, with the fields `data`, `compressed` and
  `storedLength`.
  - Its methods follow the Python methods step by step.
  - `SetItem` and `DelItem` call each other as `__setitem__` and
    `__delitem__` do.
  - Each method is proved to move the state exactly as the matching
    `PyZipSpec` function does.

Some behaviour of the class as written is modelled as it is, because the
code does it:

- `keys()`, `in`, `del` and `items()` raise `BadZipFile` while the data is
  still `b""`.
- `PyZip({})` and `PyZip(PyZip())` raise `BadZipFile`, because the
  constructor ends with `len(self.keys())`.
- `__delitem__` compares the key as given, not its `str()`. So an int key
  is never deleted, and setting it again appends a second member of the
  same name.
- Every inner set during a delete adds one to the counter. So `len()`
  counts more than there are keys.
- `from_bytes` ignores its `compress` argument: the new instance always
  compresses.

The tests in `pyzip/tests/test_pyzip.py` also exercise dict values nested
inside a PyZip and an integrity check on stored hashes, raising an
`InvalidKeysHashes` exception that the test module imports from `pyzip`.
The class in `pyzip/__init__.py` implements neither and defines no such
exception. This model follows the class.

## Model

| member | source | states |
|---|---|---|
| ZipArchive.NameList | pyzip/__init__.py:92-95 | namelist() raises BadZipFile exactly on a non-archive; otherwise it lists the member names in member order, one per member, repeats included |
| ZipArchive.Find | pyzip/__init__.py:61-62 | a name is found iff some member has it, and what is found is the content of a member of that name |
| ZipArchive.Read | pyzip/__init__.py:61-62 | ZipFile.read succeeds iff the data is an archive holding the name; a non-archive raises BadZipFile and a missing name raises KeyError naming it |
| ZipArchive.Append | pyzip/__init__.py:41-46 | writestr in append mode: b"" (or any non-archive) becomes a one-member archive, otherwise the new member is added after the others, its name kept even if already present |
| ZipArchive.FindIsLast | pyzip/__init__.py:61-62 | for a repeated name, read returns the content of the last member of that name |
| ZipArchive.FindConcat | pyzip/__init__.py:41-46 | looking a name up after more members are written: the later members win, and otherwise the earlier ones answer |
| ZipArchive.ReadAfterAppend | pyzip/__init__.py:41-46 | after writestr(name, content) in append mode, name reads content and every other name reads as before; appending to b"" starts a fresh archive |
| ZipArchive.NameListAfterAppend | pyzip/__init__.py:41-46 | after writestr, namelist() is the old list with the new name last, even if that name was already there |
| PyKeys.Digits | pyzip/__init__.py:43 | the decimal form of a natural number is non-empty, consists of digits and has no leading zero |
| PyKeys.Str | pyzip/__init__.py:43 | str() of a key: a str key is itself, an int key is its decimal digits, with a leading '-' when negative |
| PyKeys.Matches | pyzip/__init__.py:77 | the equality that `k != key` negates, between a member name and the key as given: true only for a str key with exactly that name, never for an int key |
| PyKeys.DigitsRoundTrip | pyzip/__init__.py:43 | reading the decimal digits back gives the number |
| PyKeys.StrIntInjective | pyzip/__init__.py:43 | two ints with the same str() are equal, so distinct int keys name distinct members |
| PyKeys.SignDiffers | pyzip/__init__.py:43 | the str() of a negative int never equals that of a non-negative one |
| PyKeys.StrIsAscii | pyzip/__init__.py:34 | str() of an int consists of '-' and digits only |
| PyZipSpec.Coerce | pyzip/__init__.py:33-34 | a bytes value is stored as is; an int value is stored as the characters of its str(), one byte each |
| PyZipSpec.CoerceIntInjective | pyzip/__init__.py:33-34 | different int values are stored as different bytes |
| PyZipSpec.Keys | pyzip/__init__.py:92-95 | keys() raises BadZipFile iff the data is not an archive; otherwise it is the member names in member order, one per member, repeats included |
| PyZipSpec.Get | pyzip/__init__.py:53-71 | self[item] succeeds iff some member is named str(item); every failure inside the `try`, b"" included, becomes KeyError(str(item)); the value is the last such member's content |
| PyZipSpec.Contains | pyzip/__init__.py:50-51 | `item in self` raises BadZipFile iff the data is b"", and otherwise is true iff self[item] succeeds |
| PyZipSpec.ItemsOf | pyzip/__init__.py:100-102 | items() yields one pair per member, in archive order, repeats included; each name is paired with what reading it returns, and the names are those of the members |
| PyZipSpec.Items | pyzip/__init__.py:84-87 | iterating a non-archive raises BadZipFile; otherwise each yielded name is the member's name and its value is what self[name] returns |
| PyZipSpec.Put | pyzip/__init__.py:77 | a dict assignment adds the name to the keys, grows the dict only for a new name, and keeps keys unique |
| PyZipSpec.FindPut | pyzip/__init__.py:77 | after a dict assignment, the assigned name maps to the new value and every other name keeps its value |
| PyZipSpec.DictFrom | pyzip/__init__.py:77 | the dict built from a sequence of pairs has unique keys, exactly the names of the pairs, and no more entries than pairs |
| PyZipSpec.FindDictFrom | pyzip/__init__.py:77 | in the dict built from pairs, each name maps to the value of its last pair |
| PyZipSpec.WithoutKey | pyzip/__init__.py:77 | the filter `k != key` keeps exactly the names that are not equal to the raw key, and drops at least one pair when a str key is present |
| PyZipSpec.FindWithoutKey | pyzip/__init__.py:77 | after the filter, the deleted key reads nothing and every other name reads as before |
| PyZipSpec.CopyStep | pyzip/__init__.py:77 | one step of the comprehension: pair i is assigned into the dict unless its name equals the key |
| PyZipSpec.Survivors | pyzip/__init__.py:77 | the copy __delitem__ keeps has unique names: the old names minus the raw key; it is strictly shorter than the archive when a str key is present |
| PyZipSpec.SurvivorsFind | pyzip/__init__.py:77 | each surviving name reads in the copy what it read in the archive, and the deleted name reads nothing |
| PyZipSpec.ItemsStep | pyzip/__init__.py:100-102 | the next pair items() yields is the next member's name with what reading that name returns |
| PyZipSpec.FindItemsOf | pyzip/__init__.py:100-102 | looking a name up among items() gives what reading the archive gives |
| PyZipSpec.DistinctNamesCard | pyzip/__init__.py:77 | a dict has as many keys as entries |
| PyZipSpec.Rebuild | pyzip/__init__.py:79-82 | the archive rebuilt from the copy holds exactly the copy's pairs, and is b"" exactly when the copy is empty |
| PyZipSpec.ReinsertAppends | pyzip/__init__.py:81-82 | re-setting the next pair of the copy deletes nothing, appends it and adds one to the counter |
| PyZipSpec.DelError | pyzip/__init__.py:73-75 | del raises nothing iff the data is an archive and the key, as given, is a str among the names; it raises BadZipFile on b"" and KeyError(str(key)) otherwise |
| PyZipSpec.Del | pyzip/__init__.py:73-82 | when DelError raises, nothing changes; otherwise the data is rebuilt from the surviving copy (b"" when nothing survives) and the counter grows by one per surviving pair |
| PyZipSpec.Set | pyzip/__init__.py:32-48 | the delete with every error swallowed, then an append of a member named str(key) holding the value, then the counter + 1 |
| PyZipSpec.SetAllStep | pyzip/__init__.py:25-26 | setting one more pair of the dict argument is one more Set with the coerced value |
| PyZipSpec.SetAll | pyzip/__init__.py:25-26 | the pairs of a dict argument set one after another in the dict's order, each value coerced as __setitem__ does |
| PyZipSpec.Recount | pyzip/__init__.py:30 | resetting the counter to len(keys()) raises BadZipFile iff the data is not an archive, and otherwise sets it to the number of members |
| PyZipSpec.Init | pyzip/__init__.py:15-30 | PyZip(x) raises exactly for another type (the "Unknown dict type" exception), an empty PyZip or an empty dict (BadZipFile from len(keys())); on success the counter is the member count |
| PyZipSpec.FromBytes | pyzip/__init__.py:107-112 | from_bytes raises iff the bytes are not an archive, and then raises BadZipFile; otherwise it holds them with the counter at the number of members |
| PyZipSpec.GetAfterSet | pyzip/__init__.py:32-48 | after self[key] = v, self[key] returns v, whatever the key's type |
| PyZipSpec.DelGet | pyzip/__init__.py:73-82 | after a delete, the deleted name raises KeyError and every other key reads as before; a failed delete changes nothing |
| PyZipSpec.SetKeepsOthers | pyzip/__init__.py:32-48 | setting a key leaves every key with a different str() reading as before |
| PyZipSpec.SetStrKey | pyzip/__init__.py:32-48 | overwriting a str key: it reads the new value, other keys read as before, the names gain the key, and unique names stay unique |
| PyZipSpec.DeletePresent | pyzip/__init__.py:73-82 | deleting a present str key: it no longer reads; `in` denies it, or raises once nothing is left; the names lose it; they stay unique; the counter grows by the number of survivors |
| PyZipSpec.DeleteAbsent | pyzip/__init__.py:73-75 | deleting an absent key, or any int key, raises BadZipFile or KeyError and changes nothing |
| PyZipSpec.SetIntKeyAppends | pyzip/__init__.py:36-43 | setting an int key never deletes: one more member named str(n) goes last, the counter grows by one, and an existing name is now listed twice |
| PyZipSpec.IntKeyCoercion | pyzip/__init__.py:73-75 | an int key reads and tests membership exactly as its decimal string does, but on an archive holding that name del of the string succeeds while del of the int raises KeyError(str(n)) |
| PyZipSpec.IntAndStrSetAgree | pyzip/__init__.py:43 | setting with an int key and with its decimal string leaves every key reading alike |
| PyZipSpec.LastValue | pyzip/__init__.py:25-26 | a name has a last value among the dict's pairs iff some key of a pair stringifies to it |
| PyZipSpec.SetAllGet | pyzip/__init__.py:25-26 | after setting a dict's pairs in order, each name reads the stored value of the last pair whose key stringifies to it, and otherwise reads as before |
| PyZipSpec.LastValueDistinct | pyzip/__init__.py:25-26 | when the keys stringify distinctly, a pair's own value is the last value of its name |
| PyZipSpec.InitFromDict | pyzip/__init__.py:24-30 | building from a dict whose keys stringify distinctly succeeds, every key reads its stored value, and the counter equals the number of members |
| PyZipSpec.InitFromNothingFails | pyzip/__init__.py:20-30 | PyZip({}) and PyZip(PyZip()) raise BadZipFile |
| PyZipSpec.FromBytesRoundTrip | pyzip/__init__.py:104-112 | from_bytes(to_bytes()) succeeds iff the data is an archive, equals a copy by PyZip(other), reads every key alike and recounts the members |
| PyZipSpec.SetCounter | pyzip/__init__.py:48 | setting adds one to the counter, plus one per distinct surviving name when the inner delete succeeds |
| PyZipSpec.CounterCoversPreserved | pyzip/__init__.py:48 | the counter never falls below the number of members: set, delete, construction and recount keep it so |
| PyZipSpec.CounterDrift | pyzip/__init__.py:89-90 | setting x, y and then x again leaves the keys [y, x] while len() reports 4 |
| PyZipSpec.DriftState | pyzip/__init__.py:32-48 | the state after setting x, y, x is the members y, x with a counter of four |
| Pyzip.PyZip.constructor | pyzip/__init__.py:15-18 | a new PyZip holds b"" and a zero counter and records the compression mode |
| Pyzip.PyZip.New | pyzip/__init__.py:15-30 | the constructor succeeds or raises exactly as Init does, and on success holds Init's state with the requested compression |
| Pyzip.PyZip.SetPairs | pyzip/__init__.py:25-26 | the loop over a dict argument moves the state exactly as SetAll does: each pair set in turn, in the dict's order |
| Pyzip.PyZip.Keys | pyzip/__init__.py:92-95 | keys() of the instance is the spec Keys of its data: BadZipFile on a non-archive, otherwise the member names in order |
| Pyzip.PyZip.GetItem | pyzip/__init__.py:53-71 | self[item] of the instance is the spec Get of its data |
| Pyzip.PyZip.ContainsItem | pyzip/__init__.py:50-51 | `item in self` of the instance is the spec Contains of its data |
| Pyzip.PyZip.Len | pyzip/__init__.py:89-90 | len() returns the stored counter, not a count of the members; CounterDrift shows the two part |
| Pyzip.PyZip.ToBytes | pyzip/__init__.py:104-105 | to_bytes() returns the data as held, which FromBytesRoundTrip reads back |
| Pyzip.PyZip.SetItem | pyzip/__init__.py:32-48 | __setitem__ moves the state exactly as Set does on the coerced value |
| Pyzip.PyZip.DelItem | pyzip/__init__.py:73-82 | __delitem__ raises exactly DelError and moves the state exactly as Del does |
| Pyzip.PyZip.Refill | pyzip/__init__.py:79-82 | the rebuild loop leaves the archive rebuilt from the copy and the counter grown by the copy's size |
| Pyzip.PyZip.CopyWithout | pyzip/__init__.py:77 | the comprehension loop computes exactly the surviving copy |
| Pyzip.PyZip.Items | pyzip/__init__.py:100-102 | items() yields exactly what Items specifies |
| Pyzip.PyZip.FromBytes | pyzip/__init__.py:107-112 | from_bytes succeeds or raises exactly as FromBytes does, and the new instance always compresses |

## Left out

- The zip byte format, the central directory and DEFLATE are not modelled. An archive is its sequence of members, and any byte string that is not an archive is `NoArchive`.
- `compressed` is recorded but does not change what a member reads back. Compression does not change the stored content.
- `size()` is not modelled, because it is the length of the encoded bytes.
- `save` and `from_file` are not modelled: they are file I/O.
- `__str__` is not modelled: it only formats `keys()`.
- `zipfile` normalises member names: it cuts a name at a NUL character and replaces `os.sep` by `/`. It also warns on a duplicate name. None of this is modelled, so a name is stored exactly as `str(key)` gives it.
- `ZipArchive.Append`, and through it `PyZipSpec.Set` and `PyZipSpec.GetAfterSet`, always append. `writestr` raises IndexError on an empty name (`str(key) == ""`, or a key starting with NUL, which `zipfile` cuts to `""`) on Python 3.11 and earlier, and struct.error on a name longer than 65535 UTF-8 bytes on every version. In both cases `self.data` is not reassigned and the counter is not increased, so the state stays as the swallowed inner delete left it, and the key does not read back.
- Keys other than `str` and `int`, such as `bool`, `float` or tuples, are not modelled.
- `PyKeys.Str`, `PyZipSpec.Get` and `PyZipSpec.Coerce` assume that `str()` of an int always succeeds, with no limit on its number of digits. CPython since 3.11, and the 3.7.14, 3.8.14, 3.9.14 and 3.10.7 security releases, raise ValueError for an int of more than 4300 digits: `self[n]` then raises ValueError rather than KeyError, `self[n] = v` and an int value above the limit raise before anything is appended, and `n in self` raises ValueError.
- `PyZipSpec.Survivors`, `PyZipSpec.Del` and `Pyzip.PyZip.DelItem` re-insert the surviving copy in the order its names were first inserted into the dict. Python guarantees that dict order from 3.7 on (CPython 3.6 keeps it as an implementation detail); on 3.4 and 3.5, which the package also accepts, `copy.items()` runs in hash order, so after a delete `keys()` may list the survivors in another order. No law about reads, name sets or the counter depends on this order.
- `PyZipSpec.Coerce`: values other than `bytes` and `int` are not modelled. This includes `str` values, which `writestr` encodes as UTF-8.
- The `self.data is None` checks in `__getitem__` and `save` are not modelled: `data` is never `None`.
- Generator laziness in `__iter__` and `items()` is not modelled. They are whole sequences, computed from the state at the time of the call.
- Exception classes are reduced to `KeyError`, `BadZipFile` and the generic "Unknown dict type" exception.
- `Pyzip.PyZip.New`: when `initial_dict` is another PyZip, only its bytes are read, through `to_bytes()`.
- Nested mappings, digest manifests and integrity errors are not modelled: `pyzip/__init__.py` does not implement them.
