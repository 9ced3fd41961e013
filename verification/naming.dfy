/** Example names: a heading such as "Default badge" becomes the snippet
    key "DefaultBadge" by splitting on single spaces, upper-casing the first
    character of every word and concatenating the words. */
module Naming {
  import opened Results
  import opened Text

  /** `toUpperCase` of a single character; only ASCII letters change. */
  function UpperCase(c: char): char {
    if 'a' <= c <= 'z' then (c as int - 32) as char else c
  }

  /** `w[0].toUpperCase() + w.slice(1)`. The empty word never reaches this:
      `DeriveName` fails on it first, as the source throws on `w[0]`. */
  function Capitalize(w: string): string {
    if |w| == 0 then w else [UpperCase(w[0])] + w[1..]
  }

  /** `words.map(Capitalize).join("")`. */
  function ConcatCapitalized(words: seq<string>): string {
    if |words| == 0 then ""
    else ConcatCapitalized(words[..|words| - 1]) + Capitalize(words[|words| - 1])
  }

  /** Every space is preceded by a non-space character. */
  predicate SpacesSeparate(s: string) {
    forall i :: 0 <= i < |s| && s[i] == ' ' ==> 0 < i && s[i - 1] != ' '
  }

  /** A heading whose `split(" ")` has no empty word: it is non-empty,
      does not start or end with a space and has no two adjacent spaces. */
  predicate WellSpaced(title: string) {
    |title| > 0 && title[|title| - 1] != ' ' && SpacesSeparate(title)
  }

  /** Reference reading of the naming rule, character by character: drop
      every space and upper-case each character that starts the heading or
      follows a space. */
  ghost function CamelCase(s: string): string {
    if |s| == 0 then ""
    else
      var init := s[..|s| - 1];
      var c := s[|s| - 1];
      CamelCase(init) + (if c == ' ' then "" else if |init| == 0 || init[|init| - 1] == ' ' then [UpperCase(c)] else [c])
  }

  /** The example name derived from a heading; fails exactly where the
      source's `w[0].toUpperCase()` throws on an empty word. */
  function DeriveName(title: string): (r: Result<string>)
    ensures r.Failure? <==> !WellSpaced(title)
    ensures r.Success? ==> r.value == CamelCase(title)
    ensures r.Success? ==> ' ' !in r.value && |r.value| == |title| - Count(title, ' ')
  {
    var words := Split(title, ' ');
    EmptyWordIffIllSpaced(title);
    if "" in words then Failure(EmptyTitleWord(title))
    else
      CapitalizedWordsAreCamelCase(title);
      CamelCaseShape(title);
      Success(ConcatCapitalized(words))
  }

  /** All pieces of a split but the last are non-empty. */
  predicate InnerNonEmpty(pieces: seq<string>) {
    forall i :: 0 <= i < |pieces| - 1 ==> pieces[i] != ""
  }

  lemma SpacesSeparateSnoc(init: string, c: char)
    ensures SpacesSeparate(init + [c]) <==>
      SpacesSeparate(init) && (c == ' ' ==> |init| > 0 && init[|init| - 1] != ' ')
  {
    var s := init + [c];
    assert forall i :: 0 <= i < |init| ==> s[i] == init[i];
    if SpacesSeparate(s) {
      assert c == ' ' ==> s[|init|] == ' ';
    }
  }

  /** All pieces but the last are non-empty exactly when every space
      follows a non-space. */
  lemma {:induction false} InnerPiecesNonEmpty(s: string)
    ensures InnerNonEmpty(Split(s, ' ')) <==> SpacesSeparate(s)
  {
    if |s| > 0 {
      var init := s[..|s| - 1];
      assert s == init + [s[|s| - 1]];
      InnerPiecesNonEmpty(init);
      InnerPiecesStep(init, s[|s| - 1]);
    }
  }

  /** The inductive step of `InnerPiecesNonEmpty`. */
  lemma InnerPiecesStep(init: string, c: char)
    requires InnerNonEmpty(Split(init, ' ')) <==> SpacesSeparate(init)
    ensures InnerNonEmpty(Split(init + [c], ' ')) <==> SpacesSeparate(init + [c])
  {
    SpacesSeparateSnoc(init, c);
    SplitSnoc(init, c, ' ');
    SplitLastPiece(init, ' ');
    if c == ' ' {
      InnerNonEmptyNewPiece(Split(init, ' '));
    } else {
      InnerNonEmptyExtendLast(Split(init, ' '), c);
    }
  }

  lemma InnerNonEmptyNewPiece(q: seq<string>)
    requires |q| > 0
    ensures InnerNonEmpty(q + [""]) <==> InnerNonEmpty(q) && q[|q| - 1] != ""
  {
    assert forall i :: 0 <= i < |q| ==> (q + [""])[i] == q[i];
  }

  lemma InnerNonEmptyExtendLast(q: seq<string>, c: char)
    requires |q| > 0
    ensures InnerNonEmpty(q[..|q| - 1] + [q[|q| - 1] + [c]]) <==> InnerNonEmpty(q)
  {
    var p := q[..|q| - 1] + [q[|q| - 1] + [c]];
    assert forall i :: 0 <= i < |q| - 1 ==> p[i] == q[i];
  }

  /** A heading splits into an empty word exactly when it is not well
      spaced. */
  lemma EmptyWordIffIllSpaced(title: string)
    ensures "" in Split(title, ' ') <==> !WellSpaced(title)
  {
    InnerPiecesNonEmpty(title);
    SplitLastPiece(title, ' ');
    var p := Split(title, ' ');
    if "" in p {
      var i :| 0 <= i < |p| && p[i] == "";
    }
  }

  lemma ConcatCapitalizedSnoc(words: seq<string>, w: string)
    ensures ConcatCapitalized(words + [w]) == ConcatCapitalized(words) + Capitalize(w)
  {
    assert (words + [w])[..|words|] == words;
  }

  /** The character a heading's last character contributes to the name. */
  ghost function CamelStep(init: string, c: char): string {
    if c == ' ' then "" else if |init| == 0 || init[|init| - 1] == ' ' then [UpperCase(c)] else [c]
  }

  lemma CamelCaseSnoc(init: string, c: char)
    ensures CamelCase(init + [c]) == CamelCase(init) + CamelStep(init, c)
  {
    assert (init + [c])[..|init|] == init;
  }

  /** The split-based derivation agrees with the character-wise reading. */
  lemma {:induction false} CapitalizedWordsAreCamelCase(s: string)
    ensures ConcatCapitalized(Split(s, ' ')) == CamelCase(s)
  {
    if |s| > 0 {
      var init := s[..|s| - 1];
      assert s == init + [s[|s| - 1]];
      CapitalizedWordsAreCamelCase(init);
      CapitalizedStep(init, s[|s| - 1]);
    }
  }

  /** The inductive step of `CapitalizedWordsAreCamelCase`. */
  lemma CapitalizedStep(init: string, c: char)
    requires ConcatCapitalized(Split(init, ' ')) == CamelCase(init)
    ensures ConcatCapitalized(Split(init + [c], ' ')) == CamelCase(init + [c])
  {
    CamelCaseSnoc(init, c);
    SplitSnoc(init, c, ' ');
    if c == ' ' {
      ConcatCapitalizedSnoc(Split(init, ' '), "");
    } else {
      CapitalizedStepWord(init, c);
    }
  }

  lemma CapitalizedStepWord(init: string, c: char)
    requires c != ' '
    requires ConcatCapitalized(Split(init, ' ')) == CamelCase(init)
    ensures var q := Split(init, ' ');
      ConcatCapitalized(q[..|q| - 1] + [q[|q| - 1] + [c]]) == CamelCase(init) + CamelStep(init, c)
  {
    SplitLastPiece(init, ' ');
    ExtendLastWord(Split(init, ' '), c);
  }

  /** Extending the last word by a character extends the name by that
      character, upper-cased when the word was empty. */
  lemma ExtendLastWord(words: seq<string>, c: char)
    requires |words| > 0
    ensures var w := words[|words| - 1];
      ConcatCapitalized(words[..|words| - 1] + [w + [c]]) ==
      ConcatCapitalized(words) + (if w == "" then [UpperCase(c)] else [c])
  {
    var front := words[..|words| - 1];
    var w := words[|words| - 1];
    calc {
      ConcatCapitalized(front + [w + [c]]);
      { ConcatCapitalizedSnoc(front, w + [c]); }
      ConcatCapitalized(front) + Capitalize(w + [c]);
      { CapitalizeSnoc(w, c); }
      ConcatCapitalized(front) + Capitalize(w) + (if w == "" then [UpperCase(c)] else [c]);
    }
  }

  lemma CapitalizeSnoc(w: string, c: char)
    ensures Capitalize(w + [c]) == Capitalize(w) + (if w == "" then [UpperCase(c)] else [c])
  {
    if |w| > 0 {
      assert (w + [c])[1..] == w[1..] + [c];
    } else {
      assert w + [c] == [c];
    }
  }

  /** The derived name has no spaces and loses exactly the spaces. */
  lemma {:induction false} CamelCaseShape(s: string)
    ensures ' ' !in CamelCase(s)
    ensures |CamelCase(s)| == |s| - Count(s, ' ')
  {
    if |s| > 0 {
      var init := s[..|s| - 1];
      assert s == init + [s[|s| - 1]];
      CamelCaseShape(init);
    }
  }

  /** A heading that starts with a non-space starts the name, upper-cased. */
  lemma {:induction false} CamelCaseFirst(s: string)
    requires |s| > 0 && s[0] != ' '
    ensures |CamelCase(s)| > 0 && CamelCase(s)[0] == UpperCase(s[0])
  {
    var init := s[..|s| - 1];
    if |init| > 0 {
      CamelCaseFirst(init);
    }
  }

  /** A single word is its own only piece and is only capitalized. */
  lemma DeriveNameOfWord(w: string)
    requires |w| > 0 && ' ' !in w
    ensures DeriveName(w) == Success(Capitalize(w))
  {
    SplitNoSeparator(w, ' ');
    assert "" !in [w];
    assert [w][..0] == [];
    assert ConcatCapitalized([w]) == Capitalize(w);
  }

  /** Deriving a name from a derived name changes nothing. */
  lemma DeriveNameIdempotent(title: string)
    requires DeriveName(title).Success?
    ensures DeriveName(DeriveName(title).value) == DeriveName(title)
  {
    var r := DeriveName(title);
    var name := r.value;
    assert r == Success(name);
    assert WellSpaced(title);
    assert title[0] != ' ';
    CamelCaseFirst(title);
    CapitalizedWordIsFixed(name);
  }

  /** A capitalized word without spaces is its own name. */
  lemma CapitalizedWordIsFixed(w: string)
    requires |w| > 0 && ' ' !in w && w[0] == UpperCase(w[0])
    ensures DeriveName(w) == Success(w)
  {
    DeriveNameOfWord(w);
    assert [w[0]] + w[1..] == w;
  }
}
