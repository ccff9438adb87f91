/**
 * The PyZip class: a dictionary whose whole state is one in-memory zip
 * archive and a length counter. Each method follows the Python method of the
 * same role step by step and is proved to move the state exactly as the
 * matching function of PyZipSpec does; the laws are proved there.
 */
module Pyzip {
  import opened Outcomes
  import opened ZipArchive
  import opened PyKeys
  import opened PyZipSpec

  /** The argument of PyZip(initial_dict). */
  datatype Initial = NoInitial | FromPyZip(other: PyZip) | FromDict(pairs: seq<(Key, Value)>) | OtherInitial

  /** What the argument amounts to: another PyZip is only ever read through its bytes. */
  function SourceOf(initial: Initial): Source
    reads if initial.FromPyZip? then {initial.other} else {}
  {
    match initial
    case NoInitial => NoSource
    case FromPyZip(other) => Copy(other.data)
    case FromDict(pairs) => Dict(pairs)
    case OtherInitial => OtherType
  }

  class PyZip {
    /** The archive bytes, self.data. */
    var data: Archive
    /** self.compression: ZIP_DEFLATED when true, ZIP_STORED when false. */
    var compressed: bool
    /** self.stored_length, what len() reports. */
    var storedLength: nat

    /** The state the specification functions act on. */
    function Model(): State
      reads this
    {
      State(data, storedLength)
    }

    /** The number of members, by which set and delete terminate. */
    function Size(): nat
      reads this
    {
      Count(data)
    }

    /** PyZip(compress=...) without initial_dict: empty bytes, zero counter. */
    constructor (compress: bool)
      ensures Model() == Empty && compressed == compress
    {
      data := NoArchive;
      compressed := compress;
      storedLength := 0;
    }

    /**
     * PyZip(initial_dict, compress): a copy of another PyZip's bytes, or the
     * pairs of a dict set one by one, with the counter then reset to
     * len(keys()); any other argument raises.
     */
    static method New(initial: Initial, compress: bool) returns (r: Result<PyZip, PyError>)
      ensures r.Ok? ==> fresh(r.value) && r.value.compressed == compress
      ensures Init(SourceOf(initial)) == if r.Ok? then Ok(r.value.Model()) else Err(r.error)
    {
      var z := new PyZip(compress);
      if initial.NoInitial? {
        return Ok(z);
      } else if initial.OtherInitial? {
        return Err(UnknownDictType);
      } else if initial.FromPyZip? {
        z.data := initial.other.ToBytes();
      } else {
        z.SetPairs(initial.pairs);
      }
      var ks := z.Keys();
      if ks.Err? {
        return Err(ks.error);
      }
      z.storedLength := |ks.value|;
      return Ok(z);
    }

    /** The loop of __init__ over a dict argument: each pair set in turn, in the dict's order. */
    method SetPairs(pairs: seq<(Key, Value)>)
      modifies this
      ensures Model() == SetAll(old(Model()), pairs)
      ensures compressed == old(compressed)
    {
      for i := 0 to |pairs|
        invariant Model() == SetAll(old(Model()), pairs[..i])
        invariant compressed == old(compressed)
      {
        SetAllStep(old(Model()), pairs, i);
        SetItem(pairs[i].0, pairs[i].1);
      }
      assert pairs[..|pairs|] == pairs;
    }

    /** keys(). */
    function Keys(): Result<seq<string>, PyError>
      reads this
    {
      PyZipSpec.Keys(data)
    }

    /** __getitem__. */
    function GetItem(item: Key): Result<Bytes, PyError>
      reads this
    {
      Get(data, item)
    }

    /** __contains__. */
    function ContainsItem(item: Key): Result<bool, PyError>
      reads this
    {
      Contains(data, item)
    }

    /** __len__: the counter, whatever the archive holds. */
    function Len(): nat
      reads this
    {
      storedLength
    }

    /** to_bytes(). */
    function ToBytes(): Archive
      reads this
    {
      data
    }

    /**
     * __setitem__: an int value turned into its str(), then `del self[key]`
     * with every exception swallowed, then the value appended under str(key)
     * and the counter increased by one.
     */
    method SetItem(key: Key, value: Value)
      modifies this
      decreases Size(), 1
      ensures Model() == Set(old(Model()), key, Coerce(value))
      ensures compressed == old(compressed)
    {
      var content := Coerce(value);
      ghost var before := Model();
      var ignored := DelItem(key);
      ghost var cleared := Model();
      data := Append(data, Str(key), content);
      storedLength := storedLength + 1;
      SetIsDelThenAppend(before, key, content, cleared);
    }

    /**
     * __delitem__: raises unless the key as given is among keys(); otherwise
     * copies the surviving pairs into a dict, resets the bytes to b"" and
     * sets every surviving pair again. Returns the exception raised, if any.
     */
    method DelItem(key: Key) returns (raised: Option<PyError>)
      modifies this
      decreases Size(), 0
      ensures raised == DelError(old(data), key)
      ensures Model() == Del(old(Model()), key)
      ensures compressed == old(compressed)
    {
      var ks := Keys();
      if ks.Err? {
        DeleteAbsent(Model(), key);
        return Some(ks.error);
      }
      if !(key.StrKey? && key.s in ks.value) {
        DeleteAbsent(Model(), key);
        return Some(KeyError(Str(key)));
      }
      ghost var before := Model();
      DelPresentIs(before, key.s);
      var copy := CopyWithout(key);
      assert |copy| < old(Size());
      Refill(copy);
      assert Model() == Del(before, key);
      return None;
    }

    /**
     * The end of __delitem__: the bytes reset to b"" and every pair of the
     * dict set again, one after another; as the names are distinct, each of
     * these sets only appends and counts one.
     */
    method Refill(copy: seq<Entry>)
      requires DistinctNames(copy)
      modifies this
      decreases |copy|, 2
      ensures Model() == State(Rebuild(copy), old(storedLength) + |copy|)
      ensures compressed == old(compressed)
    {
      data := NoArchive;
      for i := 0 to |copy|
        invariant data == Rebuild(copy[..i])
        invariant storedLength == old(storedLength) + i
        invariant compressed == old(compressed)
      {
        ReinsertAppends(copy, i, storedLength);
        SetItem(StrKey(copy[i].name), BytesValue(copy[i].content));
      }
      assert copy[..|copy|] == copy;
    }

    /**
     * items(): every member name in archive order with what __getitem__
     * returns for it; raises BadZipFile on a non-archive.
     */
    method Items() returns (r: Result<seq<Entry>, PyError>)
      ensures r == PyZipSpec.Items(data)
    {
      var ks := Keys();
      if ks.Err? {
        return Err(ks.error);
      }
      var names := ks.value;
      var out: seq<Entry> := [];
      ghost var all := ItemsOf(data.entries);
      for i := 0 to |names|
        invariant out == all[..i]
      {
        assert names[i] == data.entries[i].name;
        ItemsStep(data.entries, i);
        var v := GetItem(StrKey(names[i]));
        out := out + [Entry(names[i], v.value)];
      }
      assert out == all;
      return Ok(out);
    }

    /**
     * The dict comprehension of __delitem__, {k: v for k, v in self.items()
     * if k != key}: pairs in the order their names first appear, a later
     * pair of a repeated name updating the earlier one in place.
     */
    method CopyWithout(key: Key) returns (copy: seq<Entry>)
      requires data.Archive?
      ensures copy == Survivors(data.entries, key)
    {
      var items := Items();
      var ps := items.value;
      copy := [];
      assert ps == ItemsOf(data.entries);
      for i := 0 to |ps|
        invariant copy == DictFrom(WithoutKey(ps[..i], key))
      {
        CopyStep(ps, i, key);
        if !Matches(ps[i].name, key) {
          copy := Put(copy, ps[i]);
        }
      }
      assert ps[..|ps|] == ps;
    }

    /**
     * from_bytes(bytes, compress): a fresh PyZip over the given bytes with
     * the counter at len(keys()). The compress argument is not passed on, so
     * the new instance always compresses.
     */
    static method FromBytes(bytes: Archive, compress: bool) returns (r: Result<PyZip, PyError>)
      ensures r.Ok? ==> fresh(r.value) && r.value.compressed
      ensures PyZipSpec.FromBytes(bytes) == if r.Ok? then Ok(r.value.Model()) else Err(r.error)
    {
      var z := new PyZip(true);
      z.data := bytes;
      var ks := z.Keys();
      if ks.Err? {
        return Err(ks.error);
      }
      z.storedLength := |ks.value|;
      return Ok(z);
    }
  }
}
