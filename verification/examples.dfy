/** Example parsing (`parseExamples`): each README's examples section is
    cut into examples, and every example becomes a record with its name,
    snippet alias, trimmed description and code, deduplicated component
    and React names, and the playground body built from them.

    The three regular-expression scans of the source (the example splitter,
    the component-tag scan and the React-name scan) are not modelled
    character by character: `scan` stands for them and delivers, for an
    examples section, the raw matches in order. Everything the source does
    with those matches is modelled exactly, except that upper-casing covers
    the ASCII letters only. */
module Examples {
  import opened Results
  import opened Text
  import opened Trimming
  import opened Unique
  import opened Naming
  import opened Playground
  import opened JsObject
  import opened ReadMes

  /** One match of the example splitter, with the raw captures of the two
      scans run over its code. */
  datatype RawMatch = RawMatch(
    title: string,
    description: string,
    code: string,
    tagCaptures: seq<string>,
    reactMatches: seq<string>)

  /** The record pushed for each example. */
  datatype Example = Example(
    name: string,
    snippetKeys: seq<string>,
    description: string,
    code: string,
    body: string,
    components: seq<string>,
    react: seq<string>)

  const ExamplesHeading: string := "## Examples"
  const SectionEnd: string := "---"
  const AliasPrefix: string := "PE"

  /** The regular-expression scans, as a function from an examples section
      to the matches found in it. */
  type Scan = string -> seq<RawMatch>

  /** `p` is the first "## Examples" of `file`, `q` its last "---", and the
      "---" does not start before the heading has ended. */
  ghost predicate SectionBounds(file: string, p: nat, q: nat) {
    && OccursAt(file, ExamplesHeading, p)
    && (forall j :: 0 <= j < p ==> !OccursAt(file, ExamplesHeading, j))
    && OccursAt(file, SectionEnd, q)
    && (forall j :: q < j ==> !OccursAt(file, SectionEnd, j))
    && p + |ExamplesHeading| <= q
  }

  /** `/## Examples(.*)---/gms.exec(file)[1]`: with `.` matching line
      breaks, the match starts at the first heading and the greedy group
      runs to the last "---" after it. No match when there is no heading or
      no "---" after the first one. */
  function ExamplesSection(file: string): Option<string> {
    match IndexOf(file, ExamplesHeading, 0)
    case None => None
    case Some(p) =>
      match LastIndexOf(file, SectionEnd)
      case None => None
      case Some(q) => if p + |ExamplesHeading| <= q then Some(file[p + |ExamplesHeading|..q]) else None
  }

  /** The section is found exactly when the heading is followed by a
      "---", and it is the text between the first heading and the last
      "---". */
  lemma ExamplesSectionBounds(file: string)
    ensures ExamplesSection(file).None? <==> forall p: nat, q: nat :: !SectionBounds(file, p, q)
    ensures ExamplesSection(file).Some? ==>
      exists p: nat, q: nat :: SectionBounds(file, p, q) && ExamplesSection(file).value == file[p + |ExamplesHeading|..q]
  {
    match IndexOf(file, ExamplesHeading, 0)
    case None =>
    case Some(p) =>
      match LastIndexOf(file, SectionEnd)
      case None =>
      case Some(q) =>
        if p + |ExamplesHeading| <= q {
          assert SectionBounds(file, p, q);
        }
  }

  /** A README with an examples section gets an entry in the result. */
  predicate HasSection(rm: ReadMe) {
    ExamplesSection(rm.file).Some?
  }

  /** `component.replace("\n", "")` on every tag capture. */
  function ComponentImports(tagCaptures: seq<string>): (r: seq<string>)
    ensures |r| == |tagCaptures|
  {
    seq(|tagCaptures|, i requires 0 <= i < |tagCaptures| => RemoveFirst(tagCaptures[i], '\n'))
  }

  /** What every record built from a match satisfies. */
  predicate WellFormed(ex: Example) {
    && ' ' !in ex.name
    && ex.snippetKeys == [AliasPrefix + ex.name]
    && Tight(ex.description)
    && Tight(ex.code)
    && NoDup(ex.components)
    && NoDup(ex.react)
    && ex.body == CreatePlayground(ex.code, ex.components, ex.react)
  }

  /** The callback run for each match of the example splitter. It fails
      where the name derivation throws. An accepted match yields a record
      whose name is the heading in camel case, whose description and code
      are the captures without surrounding white space, whose component and
      React lists hold each captured name once, and whose body is the
      playground built from these. */
  function BuildExample(m: RawMatch): (r: Result<Example>)
    ensures r.Failure? <==> !WellSpaced(m.title)
    ensures r.Failure? ==> r.error == EmptyTitleWord(m.title)
    ensures r.Success? ==> WellFormed(r.value)
    ensures r.Success? ==> r.value.name == CamelCase(m.title)
    ensures r.Success? ==> exists i :: PaddedAt(m.description, r.value.description, i)
    ensures r.Success? ==> exists i :: PaddedAt(m.code, r.value.code, i)
    ensures r.Success? ==> forall c :: c in r.value.components <==> c in ComponentImports(m.tagCaptures)
    ensures r.Success? ==> forall c :: c in r.value.react <==> c in m.reactMatches
    ensures r.Success? ==> r.value.components == Dedup(ComponentImports(m.tagCaptures))
    ensures r.Success? ==> r.value.react == Dedup(m.reactMatches)
  {
    var components := Dedup(ComponentImports(m.tagCaptures));
    var react := Dedup(m.reactMatches);
    match DeriveName(m.title)
    case Failure(e) => Failure(e)
    case Success(name) =>
      var code := Trim(m.code);
      Success(Example(
        name,
        [AliasPrefix + name],
        Trim(m.description),
        code,
        CreatePlayground(code, components, react),
        components,
        react))
  }

  /** Index of the first item on which `f` fails. */
  function FirstFailing<A, B>(xs: seq<A>, f: A -> Result<B>): (r: Option<nat>)
    ensures r.None? <==> forall i :: 0 <= i < |xs| ==> f(xs[i]).Success?
    ensures r.Some? ==> r.value < |xs| && f(xs[r.value]).Failure?
    ensures r.Some? ==> forall i :: 0 <= i < r.value ==> f(xs[i]).Success?
  {
    if |xs| == 0 then None
    else if f(xs[0]).Failure? then Some(0)
    else match FirstFailing(xs[1..], f)
      case None => None
      case Some(k) => Some(k + 1)
  }

  /** A failing item preceded only by successful ones is the first. */
  lemma FirstFailingUnique<A, B>(xs: seq<A>, f: A -> Result<B>, k: nat)
    requires k < |xs| && f(xs[k]).Failure?
    requires forall i :: 0 <= i < k ==> f(xs[i]).Success?
    ensures FirstFailing(xs, f) == Some(k)
  {
    var r := FirstFailing(xs, f);
  }

  /** One more item fails first exactly when all earlier ones succeed. */
  lemma FirstFailingSnoc<A, B>(xs: seq<A>, x: A, f: A -> Result<B>)
    ensures FirstFailing(xs, f).Some? ==> FirstFailing(xs + [x], f) == FirstFailing(xs, f)
    ensures FirstFailing(xs, f).None? && f(x).Failure? ==> FirstFailing(xs + [x], f) == Some(|xs|)
    ensures FirstFailing(xs, f).None? && f(x).Success? ==> FirstFailing(xs + [x], f).None?
  {
    var ys := xs + [x];
    assert forall i :: 0 <= i < |xs| ==> ys[i] == xs[i];
    if FirstFailing(xs, f).Some? {
      FirstFailingUnique(ys, f, FirstFailing(xs, f).value);
    } else if f(x).Failure? {
      FirstFailingUnique(ys, f, |xs|);
    }
  }

  /** `matchAll` with a callback that may throw: the results of `f` on
      every item in order, or the error of the first item it fails on,
      after which nothing else runs. */
  function MatchAll<A, B>(xs: seq<A>, f: A -> Result<B>): (r: Result<seq<B>>)
    ensures r.Failure? <==> FirstFailing(xs, f).Some?
    ensures r.Failure? ==> f(xs[FirstFailing(xs, f).value]) == Failure(r.error)
    ensures r.Success? ==> |r.value| == |xs| && forall i :: 0 <= i < |xs| ==> f(xs[i]) == Success(r.value[i])
  {
    if |xs| == 0 then Success([])
    else
      var init := xs[..|xs| - 1];
      var x := xs[|xs| - 1];
      assert forall i :: 0 <= i < |init| ==> init[i] == xs[i];
      match MatchAll(init, f)
      case Failure(e) =>
        FirstFailingUnique(xs, f, FirstFailing(init, f).value);
        Failure(e)
      case Success(ys) =>
        match f(x)
        case Failure(e) =>
          FirstFailingUnique(xs, f, |xs| - 1);
          Failure(e)
        case Success(y) => Success(ys + [y])
  }

  /** The examples of one section: a record per match of the example
      splitter, in order. */
  function BuildAll(ms: seq<RawMatch>): (r: Result<seq<Example>>)
    ensures r.Failure? <==> exists i :: 0 <= i < |ms| && !WellSpaced(ms[i].title)
    ensures r.Success? ==> |r.value| == |ms| && forall i :: 0 <= i < |ms| ==> BuildExample(ms[i]) == Success(r.value[i])
  {
    MatchAll(ms, BuildExample)
  }

  /** What a README contributes to the parse: nothing without an examples
      section, otherwise the outcome of building its examples. */
  type Outcome = ReadMe -> Option<Result<seq<Example>>>

  function SectionOutcome(rm: ReadMe, scan: Scan): Option<Result<seq<Example>>> {
    match ExamplesSection(rm.file)
    case None => None
    case Some(section) => Some(BuildAll(scan(section)))
  }

  function Outcomes(scan: Scan): Outcome {
    rm => SectionOutcome(rm, scan)
  }

  /** A README's contribution, with the component it is stored under. */
  type Contribution = (string, Result<seq<Example>>)

  /** The contributions of a run of READMEs, in order. */
  function Contributions(readMes: seq<ReadMe>, outcome: Outcome): (r: seq<Contribution>)
    ensures |r| <= |readMes|
  {
    if |readMes| == 0 then []
    else
      var init := readMes[..|readMes| - 1];
      var rm := readMes[|readMes| - 1];
      Contributions(init, outcome) + match outcome(rm)
        case None => []
        case Some(o) => [(rm.component, o)]
  }

  lemma ContributionsSnoc(init: seq<ReadMe>, rm: ReadMe, outcome: Outcome)
    ensures outcome(rm).None? ==> Contributions(init + [rm], outcome) == Contributions(init, outcome)
    ensures outcome(rm).Some? ==>
      Contributions(init + [rm], outcome) == Contributions(init, outcome) + [(rm.component, outcome(rm).value)]
  {
    assert (init + [rm])[..|init|] == init;
  }

  /** Contributions keep the order of the READMEs: those of two runs of
      READMEs are the contributions of their concatenation. */
  lemma {:induction false} ContributionsAppend(a: seq<ReadMe>, b: seq<ReadMe>, outcome: Outcome)
    ensures Contributions(a + b, outcome) == Contributions(a, outcome) + Contributions(b, outcome)
    decreases |b|
  {
    if |b| == 0 {
      assert a + b == a;
    } else {
      ContributionsAppend(a, b[..|b| - 1], outcome);
      ContributionsAppendStep(a, b, outcome);
    }
  }

  lemma ContributionsAppendStep(a: seq<ReadMe>, b: seq<ReadMe>, outcome: Outcome)
    requires |b| > 0
    requires Contributions(a + b[..|b| - 1], outcome) == Contributions(a, outcome) + Contributions(b[..|b| - 1], outcome)
    ensures Contributions(a + b, outcome) == Contributions(a, outcome) + Contributions(b, outcome)
  {
    DropLastOfAppend(a, b);
    ContributionsLast(a + b, outcome);
    ContributionsLast(b, outcome);
    var rm := b[|b| - 1];
    if outcome(rm).Some? {
      var x := (rm.component, outcome(rm).value);
      var ca := Contributions(a, outcome);
      var cb := Contributions(b[..|b| - 1], outcome);
      assert ca + cb + [x] == ca + (cb + [x]);
    }
  }

  /** A README contributes exactly when it has an examples section. */
  lemma ContributionOfOne(rm: ReadMe, scan: Scan)
    ensures Contributions([rm], Outcomes(scan)) ==
      if HasSection(rm) then [(rm.component, BuildAll(scan(ExamplesSection(rm.file).value)))] else []
  {
    assert [rm][..0] == [];
  }

  /** Every contribution comes from a README of the run. */
  lemma {:induction false} ContributionSource(readMes: seq<ReadMe>, outcome: Outcome, i: nat)
    requires i < |Contributions(readMes, outcome)|
    ensures var x := Contributions(readMes, outcome)[i];
      exists rm :: rm in readMes && rm.component == x.0 && outcome(rm) == Some(x.1)
  {
    var init := readMes[..|readMes| - 1];
    var rm := readMes[|readMes| - 1];
    assert readMes == init + [rm];
    ContributionsSnoc(init, rm, outcome);
    var c0 := Contributions(init, outcome);
    var x := Contributions(readMes, outcome)[i];
    if i < |c0| {
      assert x == c0[i];
      ContributionSource(init, outcome, i);
      var rm' :| rm' in init && rm'.component == x.0 && outcome(rm') == Some(x.1);
      assert rm' in readMes;
    } else {
      assert x == (rm.component, outcome(rm).value);
      assert rm in readMes;
    }
  }

  /** The components of a run of contributions. */
  function Owners(c: seq<Contribution>): seq<string> {
    seq(|c|, i requires 0 <= i < |c| => c[i].0)
  }

  /** The outcome of a contribution. */
  function OutcomeOf(x: Contribution): Result<seq<Example>> {
    x.1
  }

  /** Index of the last contribution for component `k`: the one whose
      examples the parse keeps. */
  function LastFor(c: seq<Contribution>, k: string): (r: Option<nat>)
    ensures r.None? <==> k !in Owners(c)
    ensures r.Some? ==> r.value < |c| && c[r.value].0 == k
    ensures r.Some? ==> forall j :: r.value < j < |c| ==> c[j].0 != k
  {
    if |c| == 0 then None
    else if c[|c| - 1].0 == k then
      assert Owners(c)[|c| - 1] == k;
      Some(|c| - 1)
    else
      assert Owners(c) == Owners(c[..|c| - 1]) + [c[|c| - 1].0];
      LastFor(c[..|c| - 1], k)
  }

  lemma LastForSnoc(c: seq<Contribution>, x: Contribution, k: string)
    ensures LastFor(c + [x], k) == if x.0 == k then Some(|c|) else LastFor(c, k)
  {
    assert (c + [x])[..|c|] == c;
  }

  /** The loop of `parseExamples` over the READMEs, for any way of turning
      a README into its contribution: the first failing contribution
      aborts the loop; each successful one is stored under its component,
      replacing an earlier entry in place. */
  function ParseWith(readMes: seq<ReadMe>, outcome: Outcome): (r: Result<Obj<seq<Example>>>)
    ensures r.Failure? <==> FirstFailing(Contributions(readMes, outcome), OutcomeOf).Some?
    ensures r.Failure? ==> var c := Contributions(readMes, outcome);
      c[FirstFailing(c, OutcomeOf).value].1 == Failure(r.error)
  {
    if |readMes| == 0 then Success(Empty())
    else
      var init := readMes[..|readMes| - 1];
      var rm := readMes[|readMes| - 1];
      assert readMes == init + [rm];
      ContributionsSnoc(init, rm, outcome);
      var c0 := Contributions(init, outcome);
      match ParseWith(init, outcome)
      case Failure(e) =>
        (match outcome(rm)
         case None => Failure(e)
         case Some(o) =>
           FirstFailingSnoc(c0, (rm.component, o), OutcomeOf);
           Failure(e))
      case Success(parsed) =>
        match outcome(rm)
        case None => Success(parsed)
        case Some(o) =>
          FirstFailingSnoc(c0, (rm.component, o), OutcomeOf);
          match o
          case Failure(e) => Failure(e)
          case Success(matches) => Success(Put(parsed, rm.component, matches))
  }

  /** `parseExamples(readMes)`: an object from component to its examples.
      It fails exactly when some README with an examples section has an
      example whose heading the name derivation rejects, with the error of
      the first such README. */
  function ParseExamples(readMes: seq<ReadMe>, scan: Scan): (r: Result<Obj<seq<Example>>>)
    ensures var c := Contributions(readMes, Outcomes(scan));
      && (r.Failure? <==> exists i :: 0 <= i < |c| && c[i].1.Failure?)
      && (r.Failure? ==> exists i :: 0 <= i < |c| && c[i].1 == Failure(r.error) && forall j :: 0 <= j < i ==> c[j].1.Success?)
  {
    var r := ParseWith(readMes, Outcomes(scan));
    var c := Contributions(readMes, Outcomes(scan));
    assert forall i :: 0 <= i < |c| ==> OutcomeOf(c[i]) == c[i].1;
    r
  }

  /** `o` has one entry per component of `c`, in first-contribution order. */
  predicate KeyedBy(c: seq<Contribution>, o: Obj<seq<Example>>) {
    Valid(o) && Keys(o) == Dedup(Owners(c))
  }

  lemma KeyedPut(c: seq<Contribution>, parsed: Obj<seq<Example>>, component: string, outcome: Result<seq<Example>>, xs: seq<Example>)
    requires KeyedBy(c, parsed)
    ensures KeyedBy(c + [(component, outcome)], Put(parsed, component, xs))
  {
    var c' := c + [(component, outcome)];
    assert Owners(c') == Owners(c) + [component];
    PutDedup(parsed, Owners(c), component, xs);
  }

  /** A successful parse has one entry per contributing component, in the
      order the READMEs first mention them. */
  lemma {:induction false} ParseWithKeys(readMes: seq<ReadMe>, outcome: Outcome)
    requires ParseWith(readMes, outcome).Success?
    ensures KeyedBy(Contributions(readMes, outcome), ParseWith(readMes, outcome).value)
  {
    if |readMes| == 0 {
      assert Owners([]) == [];
    } else {
      ParseWithLast(readMes, outcome);
      ParseWithKeys(readMes[..|readMes| - 1], outcome);
      ParseWithKeysStep(readMes, outcome);
    }
  }

  lemma ParseWithKeysStep(readMes: seq<ReadMe>, outcome: Outcome)
    requires |readMes| > 0 && ParseWith(readMes, outcome).Success?
    requires var init := readMes[..|readMes| - 1];
      ParseWith(init, outcome).Success? && KeyedBy(Contributions(init, outcome), ParseWith(init, outcome).value)
    ensures KeyedBy(Contributions(readMes, outcome), ParseWith(readMes, outcome).value)
  {
    var init := readMes[..|readMes| - 1];
    var rm := readMes[|readMes| - 1];
    ContributionsLast(readMes, outcome);
    ParseWithLast(readMes, outcome);
    if outcome(rm).Some? {
      var o := outcome(rm).value;
      KeyedPut(Contributions(init, outcome), ParseWith(init, outcome).value, rm.component, o, o.value);
    }
  }

  /** `parsed` holds under `k` the examples of the last contribution for
      `k`, and nothing when there is none. */
  predicate StoresLast(c: seq<Contribution>, parsed: Obj<seq<Example>>, k: string) {
    && (LastFor(c, k).None? ==> Get(parsed, k).None?)
    && (LastFor(c, k).Some? ==> Get(parsed, k).Some? && c[LastFor(c, k).value].1 == Success(Get(parsed, k).value))
  }

  lemma StoresLastPut(c: seq<Contribution>, parsed: Obj<seq<Example>>, component: string, xs: seq<Example>, k: string)
    requires StoresLast(c, parsed, k)
    ensures StoresLast(c + [(component, Success(xs))], Put(parsed, component, xs), k)
  {
    LastForSnoc(c, (component, Success(xs)), k);
  }

  /** One more README: nothing changes without an examples section, its
      examples are stored under its component when they all build, and
      the loop aborts otherwise. */
  lemma ParseWithLast(readMes: seq<ReadMe>, outcome: Outcome)
    requires |readMes| > 0
    ensures var init := readMes[..|readMes| - 1]; var rm := readMes[|readMes| - 1];
      && (ParseWith(init, outcome).Failure? ==> ParseWith(readMes, outcome).Failure?)
      && (ParseWith(init, outcome).Success? && outcome(rm).None? ==>
          ParseWith(readMes, outcome) == ParseWith(init, outcome))
      && (ParseWith(init, outcome).Success? && outcome(rm).Some? && outcome(rm).value.Success? ==>
          ParseWith(readMes, outcome) == Success(Put(ParseWith(init, outcome).value, rm.component, outcome(rm).value.value)))
      && (outcome(rm).Some? && outcome(rm).value.Failure? ==> ParseWith(readMes, outcome).Failure?)
  {
  }

  /** The contributions of a run of READMEs, in terms of those of all but
      its last README. */
  lemma ContributionsLast(readMes: seq<ReadMe>, outcome: Outcome)
    requires |readMes| > 0
    ensures var init := readMes[..|readMes| - 1]; var rm := readMes[|readMes| - 1];
      && (outcome(rm).None? ==> Contributions(readMes, outcome) == Contributions(init, outcome))
      && (outcome(rm).Some? ==> Contributions(readMes, outcome) == Contributions(init, outcome) + [(rm.component, outcome(rm).value)])
  {
  }

  /** Last write wins: the examples kept for a component are those of its
      last contribution, and a component without one has no entry. */
  lemma {:induction false} ParseWithGet(readMes: seq<ReadMe>, outcome: Outcome, k: string)
    requires ParseWith(readMes, outcome).Success?
    ensures StoresLast(Contributions(readMes, outcome), ParseWith(readMes, outcome).value, k)
  {
    if |readMes| == 0 {
      assert Owners([]) == [];
    } else {
      ParseWithLast(readMes, outcome);
      ParseWithGet(readMes[..|readMes| - 1], outcome, k);
      ParseWithGetStep(readMes, outcome, k);
    }
  }

  lemma ParseWithGetStep(readMes: seq<ReadMe>, outcome: Outcome, k: string)
    requires |readMes| > 0 && ParseWith(readMes, outcome).Success?
    requires var init := readMes[..|readMes| - 1];
      ParseWith(init, outcome).Success? && StoresLast(Contributions(init, outcome), ParseWith(init, outcome).value, k)
    ensures StoresLast(Contributions(readMes, outcome), ParseWith(readMes, outcome).value, k)
  {
    var init := readMes[..|readMes| - 1];
    var rm := readMes[|readMes| - 1];
    ContributionsLast(readMes, outcome);
    ParseWithLast(readMes, outcome);
    if outcome(rm).Some? {
      StoresLastPut(Contributions(init, outcome), ParseWith(init, outcome).value, rm.component, outcome(rm).value.value, k);
    }
  }

  /** The parse's entries are the components whose README has an examples
      section, in the order the READMEs first mention them, and each holds
      the examples of the last such README of its component. */
  lemma ParseExamplesEntries(readMes: seq<ReadMe>, scan: Scan, k: string)
    requires ParseExamples(readMes, scan).Success?
    ensures var c := Contributions(readMes, Outcomes(scan)); var parsed := ParseExamples(readMes, scan).value;
      && Valid(parsed) && Keys(parsed) == Dedup(Owners(c))
      && (LastFor(c, k).None? ==> Get(parsed, k).None?)
      && (LastFor(c, k).Some? ==> Get(parsed, k).Some? && c[LastFor(c, k).value].1 == Success(Get(parsed, k).value))
  {
    ParseWithKeys(readMes, Outcomes(scan));
    ParseWithGet(readMes, Outcomes(scan), k);
  }

  /** Every stored example was built from a match found in the examples
      section of a README of its component. */
  lemma ParsedExampleSource(readMes: seq<ReadMe>, scan: Scan, component: string, x: Example)
    requires ParseExamples(readMes, scan).Success?
    requires component in Keys(ParseExamples(readMes, scan).value)
    requires x in Get(ParseExamples(readMes, scan).value, component).value
    ensures exists rm, m ::
      && rm in readMes && rm.component == component && HasSection(rm)
      && m in scan(ExamplesSection(rm.file).value) && BuildExample(m) == Success(x)
  {
    var outcome := Outcomes(scan);
    var c := Contributions(readMes, outcome);
    var parsed := ParseExamples(readMes, scan).value;
    ParseExamplesEntries(readMes, scan, component);
    DedupSameElements(Owners(c), component);
    var i := LastFor(c, component).value;
    ContributionSource(readMes, outcome, i);
    var rm :| rm in readMes && rm.component == c[i].0 && outcome(rm) == Some(c[i].1);
    assert SectionOutcome(rm, scan) == Some(c[i].1);
    var ms := scan(ExamplesSection(rm.file).value);
    var xs := Get(parsed, component).value;
    assert BuildAll(ms) == Success(xs);
    var j :| 0 <= j < |xs| && xs[j] == x;
    assert BuildExample(ms[j]) == Success(x);
    assert ms[j] in ms;
  }

  /** Every README with an examples section is among the contributions. */
  lemma {:induction false} ContributionCovers(readMes: seq<ReadMe>, outcome: Outcome, rm: ReadMe)
    requires rm in readMes && outcome(rm).Some?
    ensures exists i :: 0 <= i < |Contributions(readMes, outcome)| && Contributions(readMes, outcome)[i] == (rm.component, outcome(rm).value)
  {
    var init := readMes[..|readMes| - 1];
    var last := readMes[|readMes| - 1];
    assert readMes == init + [last];
    ContributionsSnoc(init, last, outcome);
    var c0 := Contributions(init, outcome);
    var c := Contributions(readMes, outcome);
    if rm == last {
      assert c[|c0|] == (rm.component, outcome(rm).value);
    } else {
      assert rm in init;
      ContributionCovers(init, outcome, rm);
      var i :| 0 <= i < |c0| && c0[i] == (rm.component, outcome(rm).value);
      assert c[i] == c0[i];
    }
  }

  /** Building the examples of this README throws. */
  predicate Aborts(rm: ReadMe, scan: Scan) {
    SectionOutcome(rm, scan).Some? && SectionOutcome(rm, scan).value.Failure?
  }

  /** The parse fails exactly when some README's examples cannot be built. */
  lemma ParseExamplesFails(readMes: seq<ReadMe>, scan: Scan)
    ensures ParseExamples(readMes, scan).Failure? <==> exists rm :: rm in readMes && Aborts(rm, scan)
  {
    var outcome := Outcomes(scan);
    var c := Contributions(readMes, outcome);
    if ParseExamples(readMes, scan).Failure? {
      var i :| 0 <= i < |c| && c[i].1.Failure?;
      ContributionSource(readMes, outcome, i);
      var rm :| rm in readMes && rm.component == c[i].0 && outcome(rm) == Some(c[i].1);
      assert Aborts(rm, scan);
    }
    if exists rm :: rm in readMes && Aborts(rm, scan) {
      var rm :| rm in readMes && Aborts(rm, scan);
      assert outcome(rm) == SectionOutcome(rm, scan);
      ContributionCovers(readMes, outcome, rm);
    }
  }

  /** No two READMEs of the run belong to the same component. */
  ghost predicate DistinctComponents(readMes: seq<ReadMe>) {
    forall a, b :: a in readMes && b in readMes && a.component == b.component ==> a == b
  }

  /** With one README per component, each README with an examples section
      has its examples stored under its component. */
  lemma ParseExamplesStores(readMes: seq<ReadMe>, scan: Scan, rm: ReadMe)
    requires DistinctComponents(readMes)
    requires ParseExamples(readMes, scan).Success?
    requires rm in readMes && HasSection(rm)
    ensures BuildAll(scan(ExamplesSection(rm.file).value)).Success?
    ensures rm.component in Keys(ParseExamples(readMes, scan).value)
    ensures Get(ParseExamples(readMes, scan).value, rm.component) == Some(BuildAll(scan(ExamplesSection(rm.file).value)).value)
  {
    var outcome := Outcomes(scan);
    var c := Contributions(readMes, outcome);
    assert outcome(rm) == Some(BuildAll(scan(ExamplesSection(rm.file).value)));
    ContributionCovers(readMes, outcome, rm);
    var i :| 0 <= i < |c| && c[i] == (rm.component, outcome(rm).value);
    assert Owners(c)[i] == rm.component;
    ParseExamplesEntries(readMes, scan, rm.component);
    var last := LastFor(c, rm.component).value;
    ContributionSource(readMes, outcome, last);
    var rm' :| rm' in readMes && rm'.component == c[last].0 && outcome(rm') == Some(c[last].1);
    DedupSameElements(Owners(c), rm.component);
  }
}
