/** The generator run (`main`) after the component library has been
    cloned: collect the READMEs of the component directories, warn about
    the directories without one, parse their examples and turn them into
    the snippets object that is written to the snippets file. The clone,
    the directory listing and the file writes are outside the model: the
    listing arrives as directory entries, the regular-expression scans as
    `scan`, and the result is the warning and the snippets object. */
module Pipeline {
  import opened Results
  import opened Text
  import opened Unique
  import opened Naming
  import opened JsObject
  import opened ReadMes
  import opened Examples
  import opened Snippets

  const MissingReadMesMessage: string := "The following components are missing README files: "
  const ListSeparator: string := ", "

  /** The console warning about components without a README: none when
      there are none, otherwise a message naming every one of them. */
  function MissingWarning(missing: seq<string>): (r: Option<string>)
    ensures r.None? <==> |missing| == 0
    ensures r.Some? ==> StartsWith(r.value, MissingReadMesMessage)
    ensures r.Some? ==> forall i :: 0 <= i < |missing| ==> Includes(r.value, missing[i])
  {
    if |missing| == 0 then None
    else
      var listed := Join(missing, ListSeparator);
      forall i | 0 <= i < |missing| ensures Includes(MissingReadMesMessage + listed, missing[i]) {
        JoinIncludes(missing, ListSeparator, i);
        IncludesAfterPrefix(MissingReadMesMessage, listed, missing[i]);
      }
      Some(MissingReadMesMessage + listed)
  }

  /** What a run leaves behind: the warning printed (if any) and either the
      snippets object or the error that aborted the run. The warning is
      printed before parsing starts, so an aborted run has printed it too. */
  datatype Run = Run(warning: Option<string>, snippets: Result<Obj<Snippet>>)

  /** `main()` from the README collection on. */
  function Main(entries: seq<DirEntry>, scan: Scan): (r: Run)
    ensures r.warning.None? <==> forall e :: e in entries ==> !Unreadable(e)
    ensures forall e :: e in entries && Unreadable(e) ==> r.warning.Some? && Includes(r.warning.value, e.name)
    ensures r.snippets.Success? ==> Valid(r.snippets.value)
  {
    var collected := GetReadMes(entries);
    var warning := MissingWarning(collected.componentsWithoutReadMes);
    WarningNamesUnreadable(entries);
    match ParseExamples(collected.readMes, scan)
    case Failure(err) => Run(warning, Failure(err))
    case Success(parsed) => Run(warning, Success(CreateSnippets(parsed)))
  }

  /** The warning is printed exactly when some directory has no readable
      README, and it names every such directory. */
  lemma WarningNamesUnreadable(entries: seq<DirEntry>)
    ensures var w := MissingWarning(GetReadMes(entries).componentsWithoutReadMes);
      && (w.None? <==> forall e :: e in entries ==> !Unreadable(e))
      && (forall e :: e in entries && Unreadable(e) ==> w.Some? && Includes(w.value, e.name))
  {
    var missing := GetReadMes(entries).componentsWithoutReadMes;
    GetReadMesMembers(entries);
    forall e | e in entries && Unreadable(e) ensures e.name in missing {
    }
    if |missing| > 0 {
      assert missing[0] in missing;
    }
  }

  /** The README an entry contributes, when it is a readable directory
      with an examples section. */
  predicate Contributes(e: DirEntry) {
    Readable(e) && HasSection(ReadMeOf(e))
  }

  /** A run aborts exactly when the examples of some readable README
      cannot be built. */
  lemma MainFails(entries: seq<DirEntry>, scan: Scan)
    ensures Main(entries, scan).snippets.Failure? <==> exists e :: e in entries && Readable(e) && Aborts(ReadMeOf(e), scan)
  {
    var readMes := GetReadMes(entries).readMes;
    GetReadMesMembers(entries);
    ParseExamplesFails(readMes, scan);
    if exists rm :: rm in readMes && Aborts(rm, scan) {
      var rm :| rm in readMes && Aborts(rm, scan);
      var e :| e in entries && Readable(e) && rm == ReadMeOf(e);
    }
    if exists e :: e in entries && Readable(e) && Aborts(ReadMeOf(e), scan) {
      var e :| e in entries && Readable(e) && Aborts(ReadMeOf(e), scan);
      assert ReadMeOf(e) in readMes;
    }
  }

  /** Every snippet name is the name derived from the heading of an example
      in the examples section of a readable README. */
  lemma MainSnippetSource(entries: seq<DirEntry>, scan: Scan, k: string)
    requires Main(entries, scan).snippets.Success?
    requires k in Keys(Main(entries, scan).snippets.value)
    ensures exists e, m ::
      && e in entries && Contributes(e)
      && m in scan(ExamplesSection(e.readMe.value).value) && DeriveName(m.title) == Success(k)
  {
    var readMes := GetReadMes(entries).readMes;
    GetReadMesMembers(entries);
    var parsed := ParseExamples(readMes, scan).value;
    SnippetSource(parsed, k);
    var component, x :| component in Keys(parsed) && x in Get(parsed, component).value && x.name == k;
    ParsedExampleSource(readMes, scan, component, x);
    var rm, m :|
      && rm in readMes && rm.component == component && HasSection(rm)
      && m in scan(ExamplesSection(rm.file).value) && BuildExample(m) == Success(x);
    var e :| e in entries && Readable(e) && rm == ReadMeOf(e);
    assert DeriveName(m.title) == Success(k);
  }

  /** With distinct directory names (as a directory listing has), every
      example of every readable README with an examples section gets a
      snippet under the name derived from its heading. */
  lemma MainSnippetComplete(entries: seq<DirEntry>, scan: Scan, e: DirEntry, m: RawMatch)
    requires NoDup(Names(entries))
    requires Main(entries, scan).snippets.Success?
    requires e in entries && Contributes(e)
    requires m in scan(ExamplesSection(e.readMe.value).value)
    ensures DeriveName(m.title).Success?
    ensures DeriveName(m.title).value in Keys(Main(entries, scan).snippets.value)
  {
    var readMes := GetReadMes(entries).readMes;
    GetReadMesMembers(entries);
    var parsed := ParseExamples(readMes, scan).value;
    var rm := ReadMeOf(e);
    assert rm in readMes;
    DistinctDirectories(entries);
    ParseExamplesStores(readMes, scan, rm);
    var ms := scan(ExamplesSection(rm.file).value);
    var xs := BuildAll(ms).value;
    var j :| 0 <= j < |ms| && ms[j] == m;
    assert BuildExample(m) == Success(xs[j]);
    SnippetCovers(parsed, rm.component, xs[j]);
  }

  /** With distinct directory names, no two READMEs share a component. */
  lemma DistinctDirectories(entries: seq<DirEntry>)
    requires NoDup(Names(entries))
    ensures DistinctComponents(GetReadMes(entries).readMes)
  {
    var readMes := GetReadMes(entries).readMes;
    GetReadMesMembers(entries);
    forall a, b | a in readMes && b in readMes && a.component == b.component ensures a == b {
      var ea :| ea in entries && Readable(ea) && a == ReadMeOf(ea);
      var eb :| eb in entries && Readable(eb) && b == ReadMeOf(eb);
      var k :| 0 <= k < |entries| && entries[k] == ea;
      SameNameSameEntry(entries, k);
    }
  }
}
