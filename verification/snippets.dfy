/** Snippet assembly (`createSnippets`): the parsed examples of every
    component, in key order, are written into one object keyed by example
    name. Two examples with the same name, in one component or in two,
    collide and the later one wins. */
module Snippets {
  import opened Results
  import opened Unique
  import opened JsObject
  import opened Examples

  /** One entry of the snippets file. */
  datatype Snippet = Snippet(prefix: seq<string>, body: string, description: string)

  function SnippetOf(ex: Example): Snippet {
    Snippet(ex.snippetKeys, ex.body, ex.description)
  }

  /** The names of a run of examples. */
  function ExampleNames(xs: seq<Example>): seq<string> {
    seq(|xs|, i requires 0 <= i < |xs| => xs[i].name)
  }

  lemma ExampleNamesSnoc(xs: seq<Example>, x: Example)
    ensures ExampleNames(xs + [x]) == ExampleNames(xs) + [x.name]
  {
  }

  /** Index of the last example named `k`. */
  function LastNamed(xs: seq<Example>, k: string): (r: Option<nat>)
    ensures r.None? <==> k !in ExampleNames(xs)
    ensures r.Some? ==> r.value < |xs| && xs[r.value].name == k
    ensures r.Some? ==> forall j :: r.value < j < |xs| ==> xs[j].name != k
  {
    if |xs| == 0 then None
    else if xs[|xs| - 1].name == k then
      assert ExampleNames(xs)[|xs| - 1] == k;
      Some(|xs| - 1)
    else
      assert ExampleNames(xs) == ExampleNames(xs[..|xs| - 1]) + [xs[|xs| - 1].name];
      LastNamed(xs[..|xs| - 1], k)
  }

  lemma LastNamedSnoc(xs: seq<Example>, x: Example, k: string)
    ensures LastNamed(xs + [x], k) == if x.name == k then Some(|xs|) else LastNamed(xs, k)
  {
    assert (xs + [x])[..|xs|] == xs;
  }

  /** The inner loop of `createSnippets`: `snippets[name] = {...}` for each
      example in order. */
  function PutExamples(acc: Obj<Snippet>, xs: seq<Example>): (r: Obj<Snippet>)
    ensures Valid(acc) ==> Valid(r)
  {
    if |xs| == 0 then acc
    else
      var x := xs[|xs| - 1];
      Put(PutExamples(acc, xs[..|xs| - 1]), x.name, SnippetOf(x))
  }

  lemma PutExamplesSnoc(acc: Obj<Snippet>, xs: seq<Example>, x: Example)
    ensures PutExamples(acc, xs + [x]) == Put(PutExamples(acc, xs), x.name, SnippetOf(x))
  {
    assert (xs + [x])[..|xs|] == xs;
  }

  /** Writing two runs of examples one after the other is writing their
      concatenation. */
  lemma {:induction false} PutExamplesAppend(acc: Obj<Snippet>, a: seq<Example>, b: seq<Example>)
    ensures PutExamples(acc, a + b) == PutExamples(PutExamples(acc, a), b)
    decreases |b|
  {
    if |b| == 0 {
      assert a + b == a;
    } else {
      var b' := b[..|b| - 1];
      var x := b[|b| - 1];
      assert b == b' + [x];
      assert a + b == (a + b') + [x];
      PutExamplesAppend(acc, a, b');
      PutExamplesSnoc(acc, a + b', x);
      PutExamplesSnoc(PutExamples(acc, a), b', x);
    }
  }

  /** The keys after writing: the earlier keys, then the new names in
      first-occurrence order. */
  lemma {:induction false} PutExamplesKeys(acc: Obj<Snippet>, xs: seq<Example>)
    requires Valid(acc)
    ensures Keys(PutExamples(acc, xs)) == Dedup(Keys(acc) + ExampleNames(xs))
  {
    if |xs| == 0 {
      assert Keys(acc) + ExampleNames(xs) == Keys(acc);
      DedupOfDistinct(Keys(acc));
    } else {
      var init := xs[..|xs| - 1];
      var x := xs[|xs| - 1];
      assert xs == init + [x];
      PutExamplesKeys(acc, init);
      PutExamplesKeysStep(acc, init, x);
    }
  }

  lemma PutExamplesKeysStep(acc: Obj<Snippet>, init: seq<Example>, x: Example)
    requires Keys(PutExamples(acc, init)) == Dedup(Keys(acc) + ExampleNames(init))
    ensures Keys(PutExamples(acc, init + [x])) == Dedup(Keys(acc) + ExampleNames(init + [x]))
  {
    NamesAfter(acc, init, x);
    KeysAfter(acc, init, x);
  }

  lemma NamesAfter(acc: Obj<Snippet>, init: seq<Example>, x: Example)
    ensures Keys(acc) + ExampleNames(init + [x]) == (Keys(acc) + ExampleNames(init)) + [x.name]
  {
    ExampleNamesSnoc(init, x);
  }

  lemma KeysAfter(acc: Obj<Snippet>, init: seq<Example>, x: Example)
    requires Keys(PutExamples(acc, init)) == Dedup(Keys(acc) + ExampleNames(init))
    ensures Keys(PutExamples(acc, init + [x])) == Dedup((Keys(acc) + ExampleNames(init)) + [x.name])
  {
    PutExamplesSnoc(acc, init, x);
    PutDedup(PutExamples(acc, init), Keys(acc) + ExampleNames(init), x.name, SnippetOf(x));
  }

  /** Last write wins: a name takes the snippet of the last example
      carrying it, and every other key keeps its earlier value. */
  lemma {:induction false} PutExamplesGet(acc: Obj<Snippet>, xs: seq<Example>, k: string)
    ensures LastNamed(xs, k).None? ==> Get(PutExamples(acc, xs), k) == Get(acc, k)
    ensures LastNamed(xs, k).Some? ==> Get(PutExamples(acc, xs), k) == Some(SnippetOf(xs[LastNamed(xs, k).value]))
  {
    if |xs| > 0 {
      var init := xs[..|xs| - 1];
      var x := xs[|xs| - 1];
      assert xs == init + [x];
      PutExamplesGet(acc, init, k);
      PutExamplesSnoc(acc, init, x);
      LastNamedSnoc(init, x, k);
    }
  }

  /** The examples of the components `keys`, in order. */
  function Flatten(parsed: Obj<seq<Example>>, keys: seq<string>): seq<Example>
    requires forall i :: 0 <= i < |keys| ==> keys[i] in Keys(parsed)
  {
    if |keys| == 0 then []
    else Flatten(parsed, keys[..|keys| - 1]) + Get(parsed, keys[|keys| - 1]).value
  }

  /** The outer loop of `createSnippets`: every component in key order. */
  function PutComponents(acc: Obj<Snippet>, parsed: Obj<seq<Example>>, keys: seq<string>): (r: Obj<Snippet>)
    requires forall i :: 0 <= i < |keys| ==> keys[i] in Keys(parsed)
    ensures r == PutExamples(acc, Flatten(parsed, keys))
  {
    if |keys| == 0 then acc
    else
      var init := keys[..|keys| - 1];
      var prev := PutComponents(acc, parsed, init);
      PutExamplesAppend(acc, Flatten(parsed, init), Get(parsed, keys[|keys| - 1]).value);
      PutExamples(prev, Get(parsed, keys[|keys| - 1]).value)
  }

  /** Every example of the parse, component by component in key order. */
  function AllExamples(parsed: Obj<seq<Example>>): seq<Example> {
    Flatten(parsed, Keys(parsed))
  }

  /** `createSnippets(parsedExamples)`: one snippet per distinct example
      name, in the order the names first occur across the components, each
      holding the last example of that name. */
  function CreateSnippets(parsed: Obj<seq<Example>>): (r: Obj<Snippet>)
    ensures Valid(r)
    ensures Keys(r) == Dedup(ExampleNames(AllExamples(parsed)))
    ensures forall k :: LastNamed(AllExamples(parsed), k).None? <==> Get(r, k).None?
  {
    var r := PutComponents(Empty(), parsed, Keys(parsed));
    WrittenFromEmpty(AllExamples(parsed));
    r
  }

  /** Writing a run of examples into an empty object. */
  lemma WrittenFromEmpty(xs: seq<Example>)
    ensures Valid(PutExamples(Empty(), xs))
    ensures Keys(PutExamples(Empty(), xs)) == Dedup(ExampleNames(xs))
    ensures forall k :: LastNamed(xs, k).None? <==> Get(PutExamples(Empty(), xs), k).None?
  {
    PutExamplesKeys(Empty(), xs);
    assert Keys(Empty<Snippet>()) + ExampleNames(xs) == ExampleNames(xs);
    forall k ensures LastNamed(xs, k).None? <==> Get(PutExamples(Empty(), xs), k).None? {
      PutExamplesGet(Empty(), xs, k);
    }
  }

  /** The snippet under a name is that of the last example of the name. */
  lemma CreateSnippetsGet(parsed: Obj<seq<Example>>, k: string)
    requires LastNamed(AllExamples(parsed), k).Some?
    ensures Get(CreateSnippets(parsed), k) == Some(SnippetOf(AllExamples(parsed)[LastNamed(AllExamples(parsed), k).value]))
  {
    PutExamplesGet(Empty(), AllExamples(parsed), k);
  }

  /** Without name collisions no example is lost: there is a snippet per
      example, in example order. */
  lemma DistinctNamesKeepAll(parsed: Obj<seq<Example>>)
    requires NoDup(ExampleNames(AllExamples(parsed)))
    ensures Keys(CreateSnippets(parsed)) == ExampleNames(AllExamples(parsed))
    ensures |Keys(CreateSnippets(parsed))| == |AllExamples(parsed)|
  {
    DedupOfDistinct(ExampleNames(AllExamples(parsed)));
  }

  /** Every flattened example comes from one of the components. */
  lemma {:induction false} FlattenSource(parsed: Obj<seq<Example>>, keys: seq<string>, j: nat)
    requires forall i :: 0 <= i < |keys| ==> keys[i] in Keys(parsed)
    requires j < |Flatten(parsed, keys)|
    ensures exists i :: 0 <= i < |keys| && Flatten(parsed, keys)[j] in Get(parsed, keys[i]).value
  {
    var init := keys[..|keys| - 1];
    var last := Get(parsed, keys[|keys| - 1]).value;
    var front := Flatten(parsed, init);
    assert Flatten(parsed, keys) == front + last;
    if j < |front| {
      FlattenSource(parsed, init, j);
      var i :| 0 <= i < |init| && front[j] in Get(parsed, init[i]).value;
      assert init[i] == keys[i];
    } else {
      assert Flatten(parsed, keys)[j] == last[j - |front|];
    }
  }

  /** Every snippet name is the name of an example stored under some
      component. */
  lemma SnippetSource(parsed: Obj<seq<Example>>, k: string)
    requires k in Keys(CreateSnippets(parsed))
    ensures exists component, x :: component in Keys(parsed) && x in Get(parsed, component).value && x.name == k
  {
    DedupSameElements(ExampleNames(AllExamples(parsed)), k);
    NamedExampleSource(parsed, k);
  }

  lemma NamedExampleSource(parsed: Obj<seq<Example>>, k: string)
    requires k in ExampleNames(AllExamples(parsed))
    ensures exists component, x :: component in Keys(parsed) && x in Get(parsed, component).value && x.name == k
  {
    var all := AllExamples(parsed);
    var names := ExampleNames(all);
    var j :| 0 <= j < |names| && names[j] == k;
    FlattenSource(parsed, Keys(parsed), j);
    var i :| 0 <= i < |Keys(parsed)| && all[j] in Get(parsed, Keys(parsed)[i]).value;
    assert all[j].name == k;
  }

  /** Every example of a listed component is among the flattened ones. */
  lemma {:induction false} FlattenCovers(parsed: Obj<seq<Example>>, keys: seq<string>, i: nat, x: Example)
    requires forall i :: 0 <= i < |keys| ==> keys[i] in Keys(parsed)
    requires i < |keys| && x in Get(parsed, keys[i]).value
    ensures x in Flatten(parsed, keys)
  {
    var init := keys[..|keys| - 1];
    assert Flatten(parsed, keys) == Flatten(parsed, init) + Get(parsed, keys[|keys| - 1]).value;
    if i < |init| {
      assert init[i] == keys[i];
      FlattenCovers(parsed, init, i, x);
    }
  }

  /** Every example stored under a component gets a snippet of its name. */
  lemma SnippetCovers(parsed: Obj<seq<Example>>, component: string, x: Example)
    requires component in Keys(parsed) && x in Get(parsed, component).value
    ensures x.name in Keys(CreateSnippets(parsed))
  {
    var i :| 0 <= i < |Keys(parsed)| && Keys(parsed)[i] == component;
    FlattenCovers(parsed, Keys(parsed), i, x);
    var all := AllExamples(parsed);
    var j :| 0 <= j < |all| && all[j] == x;
    assert ExampleNames(all)[j] == x.name;
    DedupSameElements(ExampleNames(all), x.name);
  }
}
