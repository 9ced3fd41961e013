/** README collection (`getReadMes`): every entry of the components
    directory that is a directory either yields its README text or is
    recorded as a component without a README; other entries are skipped.
    The file system is abstracted into what the loop observes of each
    entry: whether `lstat` calls it a directory, and whether reading its
    README.md succeeded. */
module ReadMes {
  import opened Results
  import opened Unique

  /** A directory entry as the loop sees it; `readMe` is None when
      `readFileSync` threw. */
  datatype DirEntry = DirEntry(name: string, isDirectory: bool, readMe: Option<string>)

  /** A README that was read, with the directory it came from. */
  datatype ReadMe = ReadMe(component: string, file: string)

  datatype Collected = Collected(readMes: seq<ReadMe>, componentsWithoutReadMes: seq<string>)

  function Names(entries: seq<DirEntry>): seq<string> {
    seq(|entries|, i requires 0 <= i < |entries| => entries[i].name)
  }

  function CountDirectories(entries: seq<DirEntry>): nat {
    if |entries| == 0 then 0
    else CountDirectories(entries[..|entries| - 1]) + (if entries[|entries| - 1].isDirectory then 1 else 0)
  }

  /** A directory entry whose README was read. */
  predicate Readable(e: DirEntry) {
    e.isDirectory && e.readMe.Some?
  }

  /** A directory entry whose README could not be read. */
  predicate Unreadable(e: DirEntry) {
    e.isDirectory && e.readMe.None?
  }

  /** The README record a readable entry contributes. */
  function ReadMeOf(e: DirEntry): ReadMe
    requires Readable(e)
  {
    ReadMe(e.name, e.readMe.value)
  }

  /** One iteration of the loop: a directory's README is collected, or its
      name is recorded when reading it threw; other entries are skipped. */
  function Collect(prev: Collected, e: DirEntry): Collected {
    if !e.isDirectory then prev
    else match e.readMe
      case Some(file) => Collected(prev.readMes + [ReadMe(e.name, file)], prev.componentsWithoutReadMes)
      case None => Collected(prev.readMes, prev.componentsWithoutReadMes + [e.name])
  }

  /** `getReadMes(componentDirectories, polarisPath)`: every directory is
      counted once, in one of the two lists. */
  function GetReadMes(entries: seq<DirEntry>): (r: Collected)
    ensures |r.readMes| + |r.componentsWithoutReadMes| == CountDirectories(entries)
  {
    if |entries| == 0 then Collected([], [])
    else Collect(GetReadMes(entries[..|entries| - 1]), entries[|entries| - 1])
  }

  /** The collection of a run of entries, in terms of that of all but its
      last entry. */
  lemma GetReadMesLast(entries: seq<DirEntry>)
    requires |entries| > 0
    ensures GetReadMes(entries) == Collect(GetReadMes(entries[..|entries| - 1]), entries[|entries| - 1])
  {
  }

  /** The READMEs read are those of the readable directories, and the
      components without one are the names of the unreadable directories. */
  lemma {:induction false} GetReadMesMembers(entries: seq<DirEntry>)
    ensures forall rm :: rm in GetReadMes(entries).readMes <==> exists e :: e in entries && Readable(e) && rm == ReadMeOf(e)
    ensures forall n :: n in GetReadMes(entries).componentsWithoutReadMes <==> exists e :: e in entries && Unreadable(e) && n == e.name
  {
    if |entries| > 0 {
      var init := entries[..|entries| - 1];
      var e := entries[|entries| - 1];
      GetReadMesMembers(init);
      GetReadMesLast(entries);
      assert entries == init + [e];
      CollectReadMes(GetReadMes(init), init, e);
      CollectMissing(GetReadMes(init), init, e);
    }
  }

  lemma CollectReadMes(prev: Collected, init: seq<DirEntry>, e: DirEntry)
    requires forall rm :: rm in prev.readMes <==> exists e' :: e' in init && Readable(e') && rm == ReadMeOf(e')
    ensures forall rm :: rm in Collect(prev, e).readMes <==> exists e' :: e' in init + [e] && Readable(e') && rm == ReadMeOf(e')
  {
    assert forall e' :: e' in init + [e] <==> e' in init || e' == e;
    if Readable(e) {
      assert Collect(prev, e).readMes == prev.readMes + [ReadMeOf(e)];
    } else {
      assert Collect(prev, e).readMes == prev.readMes;
    }
  }

  lemma CollectMissing(prev: Collected, init: seq<DirEntry>, e: DirEntry)
    requires forall n :: n in prev.componentsWithoutReadMes <==> exists e' :: e' in init && Unreadable(e') && n == e'.name
    ensures forall n :: n in Collect(prev, e).componentsWithoutReadMes <==> exists e' :: e' in init + [e] && Unreadable(e') && n == e'.name
  {
    assert forall e' :: e' in init + [e] <==> e' in init || e' == e;
    if Unreadable(e) {
      assert Collect(prev, e).componentsWithoutReadMes == prev.componentsWithoutReadMes + [e.name];
    } else {
      assert Collect(prev, e).componentsWithoutReadMes == prev.componentsWithoutReadMes;
    }
  }

  /** Collection keeps the listing order: collecting two runs of entries
      one after the other is collecting their concatenation. */
  lemma {:induction false} GetReadMesAppend(a: seq<DirEntry>, b: seq<DirEntry>)
    ensures GetReadMes(a + b) == Joined(GetReadMes(a), GetReadMes(b))
    decreases |b|
  {
    if |b| == 0 {
      assert a + b == a;
    } else {
      GetReadMesAppend(a, b[..|b| - 1]);
      AppendStep(a, b);
    }
  }

  /** Two collections one after the other. */
  function Joined(x: Collected, y: Collected): Collected {
    Collected(x.readMes + y.readMes, x.componentsWithoutReadMes + y.componentsWithoutReadMes)
  }

  lemma AppendStep(a: seq<DirEntry>, b: seq<DirEntry>)
    requires |b| > 0
    requires GetReadMes(a + b[..|b| - 1]) == Joined(GetReadMes(a), GetReadMes(b[..|b| - 1]))
    ensures GetReadMes(a + b) == Joined(GetReadMes(a), GetReadMes(b))
  {
    DropLastOfAppend(a, b);
    GetReadMesLast(a + b);
    GetReadMesLast(b);
    CollectJoined(GetReadMes(a), GetReadMes(b[..|b| - 1]), b[|b| - 1]);
  }

  lemma CollectJoined(x: Collected, y: Collected, e: DirEntry)
    ensures Collect(Joined(x, y), e) == Joined(x, Collect(y, e))
  {
    if Readable(e) {
      var rm := ReadMe(e.name, e.readMe.value);
      assert x.readMes + y.readMes + [rm] == x.readMes + (y.readMes + [rm]);
    } else if Unreadable(e) {
      assert x.componentsWithoutReadMes + y.componentsWithoutReadMes + [e.name] == x.componentsWithoutReadMes + (y.componentsWithoutReadMes + [e.name]);
    }
  }

  lemma DropLastOfAppend<T>(a: seq<T>, b: seq<T>)
    requires |b| > 0
    ensures (a + b)[..|a + b| - 1] == a + b[..|b| - 1]
    ensures (a + b)[|a + b| - 1] == b[|b| - 1]
  {
  }

  /** With distinct directory names, a directory lands in exactly one of
      the two lists and any other entry in neither. */
  lemma ExactlyOnePlace(entries: seq<DirEntry>, k: nat)
    requires NoDup(Names(entries))
    requires k < |entries|
    ensures var r := GetReadMes(entries); var e := entries[k];
      && (Readable(e) ==> ReadMeOf(e) in r.readMes && e.name !in r.componentsWithoutReadMes)
      && (Unreadable(e) ==> e.name in r.componentsWithoutReadMes && forall rm :: rm in r.readMes ==> rm.component != e.name)
      && (!e.isDirectory ==> e.name !in r.componentsWithoutReadMes && forall rm :: rm in r.readMes ==> rm.component != e.name)
  {
    var e := entries[k];
    GetReadMesMembers(entries);
    SameNameSameEntry(entries, k);
    assert e in entries;
  }

  /** Distinct names identify entries. */
  lemma SameNameSameEntry(entries: seq<DirEntry>, k: nat)
    requires NoDup(Names(entries))
    requires k < |entries|
    ensures forall e :: e in entries && e.name == entries[k].name ==> e == entries[k]
  {
    forall e | e in entries && e.name == entries[k].name ensures e == entries[k] {
      var j :| 0 <= j < |entries| && entries[j] == e;
      assert Names(entries)[j] == Names(entries)[k];
    }
  }
}
