/**
 * The part of Python's zipfile module that PyZip relies on, over an abstract
 * archive: the byte layout, the compression and the central directory are not
 * modelled, only the sequence of members and how they are named and read.
 */
module ZipArchive {
  import opened Outcomes

  newtype byte = x: int | 0 <= x < 256
  type Bytes = seq<byte>

  /** One member of an archive: its file name and its (uncompressed) content. */
  datatype Entry = Entry(name: string, content: Bytes)

  /**
   * What a byte string is to zipfile: NoArchive for anything that is not a
   * zip archive (the empty string b"" first of all), otherwise the members in
   * the order they were written. Names may repeat.
   */
  datatype Archive = NoArchive | Archive(entries: seq<Entry>)

  /** zipfile.BadZipFile, and the KeyError of ZipFile.read for a missing name. */
  datatype ZipError = NotAZipFile | MemberNotFound(name: string)

  /** The set of names that occur among the entries. */
  function NameSet(es: seq<Entry>): set<string> {
    set e | e in es :: e.name
  }

  /** The names of the entries, in order, repetitions included. */
  function Names(es: seq<Entry>): seq<string> {
    seq(|es|, i requires 0 <= i < |es| => es[i].name)
  }

  /** The members of an archive; a non-archive has none. */
  function EntriesOf(a: Archive): seq<Entry> {
    if a.Archive? then a.entries else []
  }

  /** The number of members; the measure by which PyZip's set and delete terminate. */
  function Count(a: Archive): nat {
    |EntriesOf(a)|
  }

  /**
   * ZipFile(b, mode="a").writestr(name, content): opening a byte string that
   * is not an archive in append mode starts a fresh archive; the new member
   * always goes last, even when a member of that name already exists.
   */
  function Append(a: Archive, name: string, content: Bytes): Archive {
    Archive(EntriesOf(a) + [Entry(name, content)])
  }

  /** ZipFile(b).namelist(): opening a non-archive raises BadZipFile. */
  function NameList(a: Archive): (r: Result<seq<string>, ZipError>)
    ensures r.Err? <==> a.NoArchive?
    ensures r.Err? ==> r.error == NotAZipFile
    ensures r.Ok? ==> |r.value| == |a.entries|
    ensures r.Ok? ==> forall n :: n in r.value <==> n in NameSet(a.entries)
    ensures r.Ok? ==> forall i :: 0 <= i < |r.value| ==> r.value[i] == a.entries[i].name
  {
    match a
    case NoArchive => Err(NotAZipFile)
    case Archive(es) =>
      assert forall n :: n in Names(es) ==> n in NameSet(es);
      assert forall e :: e in es ==> Names(es)[IndexIn(es, e)] == e.name;
      Ok(Names(es))
  }

  /** An index at which `e` occurs in `es`. */
  function IndexIn(es: seq<Entry>, e: Entry): (i: nat)
    requires e in es
    ensures i < |es| && es[i] == e
  {
    if es[0] == e then 0 else 1 + IndexIn(es[1..], e)
  }

  /**
   * The content of the last entry named `name`: zipfile's name table is
   * filled in archive order, so a later member shadows an earlier one.
   */
  function Find(es: seq<Entry>, name: string): (r: Option<Bytes>)
    ensures r.Some? <==> name in NameSet(es)
    ensures r.Some? ==> Entry(name, r.value) in es
  {
    if es == [] then None
    else if es[|es| - 1].name == name then Some(es[|es| - 1].content)
    else
      var r := Find(es[..|es| - 1], name);
      assert forall e :: e in es[..|es| - 1] ==> e in es;
      assert NameSet(es) == NameSet(es[..|es| - 1]) + {es[|es| - 1].name};
      r
  }

  /** ZipFile(b).read(name). */
  function Read(a: Archive, name: string): (r: Result<Bytes, ZipError>)
    ensures r.Ok? <==> a.Archive? && name in NameSet(a.entries)
    ensures a.NoArchive? ==> r == Err(NotAZipFile)
    ensures a.Archive? && r.Err? ==> r.error == MemberNotFound(name)
    ensures r.Ok? ==> Find(a.entries, name) == Some(r.value)
  {
    match a
    case NoArchive => Err(NotAZipFile)
    case Archive(es) =>
      match Find(es, name)
      case Some(v) => Ok(v)
      case None => Err(MemberNotFound(name))
  }

  /** What Find returns is the content of the last entry of that name. */
  lemma {:induction false} FindIsLast(es: seq<Entry>, name: string)
    requires name in NameSet(es)
    ensures exists i :: 0 <= i < |es| && es[i].name == name && Find(es, name) == Some(es[i].content)
                        && forall j :: i < j < |es| ==> es[j].name != name
  {
    var last := |es| - 1;
    if es[last].name == name {
      assert Find(es, name) == Some(es[last].content);
    } else {
      var init := es[..last];
      assert es == init + [es[last]];
      assert name in NameSet(init);
      FindIsLast(init, name);
      var i :| 0 <= i < |init| && init[i].name == name && Find(init, name) == Some(init[i].content)
               && forall j :: i < j < |init| ==> init[j].name != name;
      assert es[i] == init[i];
      assert Find(es, name) == Find(init, name);
      forall j | i < j < |es| ensures es[j].name != name {
        if j < last {
          assert es[j] == init[j];
        }
      }
    }
  }

  /** Looking a name up in a concatenation: the later part wins. */
  lemma {:induction false} FindConcat(x: seq<Entry>, y: seq<Entry>, name: string)
    ensures Find(x + y, name) == if Find(y, name).Some? then Find(y, name) else Find(x, name)
    decreases |y|
  {
    if y == [] {
      assert x + y == x;
    } else {
      var last := |y| - 1;
      assert (x + y)[..|x + y| - 1] == x + y[..last];
      if y[last].name != name {
        FindConcat(x, y[..last], name);
      }
    }
  }

  /**
   * Appending then reading: the new member is what its name now reads, and
   * every other name reads as before (a non-archive had no member at all).
   */
  lemma ReadAfterAppend(a: Archive, name: string, content: Bytes, other: string)
    ensures Read(Append(a, name, content), other)
         == if other == name then Ok(content)
            else if a.NoArchive? then Err(MemberNotFound(other))
            else Read(a, other)
  {
    var es := EntriesOf(a);
    FindConcat(es, [Entry(name, content)], other);
    if a.NoArchive? && other != name {
      assert Find([Entry(name, content)], other) == None;
    }
  }

  /**
   * Appending then listing: the new name comes last, a one-entry list after
   * appending to a non-archive, and an existing name is listed twice.
   */
  lemma NameListAfterAppend(a: Archive, name: string, content: Bytes)
    ensures NameList(Append(a, name, content)) == Ok(Names(EntriesOf(a)) + [name])
    ensures a.NoArchive? ==> NameList(Append(a, name, content)) == Ok([name])
  {
    var es := EntriesOf(a);
    assert Names(es + [Entry(name, content)]) == Names(es) + [name];
    if a.NoArchive? {
      assert Names(es) + [name] == [name];
    }
  }
}
