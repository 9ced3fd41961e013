/** The JavaScript string operations the snippet generator relies on:
    `indexOf`, `lastIndexOf`, `includes`, `split` and `join` with a
    one-character separator, and `replace` with a string pattern (which
    replaces the first occurrence only). */
module Text {
  import opened Results

  /** `pat` occurs in `s` starting at index `i`. */
  predicate OccursAt(s: string, pat: string, i: int) {
    0 <= i && i + |pat| <= |s| && s[i..i + |pat|] == pat
  }

  predicate StartsWith(s: string, prefix: string) {
    prefix <= s
  }

  predicate EndsWith(s: string, suffix: string) {
    |suffix| <= |s| && s[|s| - |suffix|..] == suffix
  }

  /** `s.indexOf(pat, from)`, with None for JavaScript's -1, for a non-empty
      pattern or `from <= |s|`. */
  function IndexOf(s: string, pat: string, from: nat): (r: Option<nat>)
    ensures r.Some? ==> from <= r.value && OccursAt(s, pat, r.value)
    ensures r.Some? ==> forall j :: from <= j < r.value ==> !OccursAt(s, pat, j)
    ensures r.None? ==> forall j :: from <= j ==> !OccursAt(s, pat, j)
    decreases |s| - from
  {
    if from + |pat| > |s| then None
    else if OccursAt(s, pat, from) then Some(from)
    else IndexOf(s, pat, from + 1)
  }

  /** The largest index below `upto` at which `pat` occurs. */
  function LastIndexBelow(s: string, pat: string, upto: nat): (r: Option<nat>)
    ensures r.Some? ==> r.value < upto && OccursAt(s, pat, r.value)
    ensures r.Some? ==> forall j :: r.value < j < upto ==> !OccursAt(s, pat, j)
    ensures r.None? ==> forall j :: 0 <= j < upto ==> !OccursAt(s, pat, j)
  {
    if upto == 0 then None
    else if OccursAt(s, pat, upto - 1) then Some(upto - 1)
    else LastIndexBelow(s, pat, upto - 1)
  }

  /** `s.lastIndexOf(pat)`, with None for -1. */
  function LastIndexOf(s: string, pat: string): (r: Option<nat>)
    ensures r.Some? ==> OccursAt(s, pat, r.value)
    ensures r.Some? ==> forall j :: r.value < j ==> !OccursAt(s, pat, j)
    ensures r.None? ==> forall j :: !OccursAt(s, pat, j)
  {
    LastIndexBelow(s, pat, |s| + 1)
  }

  /** `s.includes(pat)`. */
  function Includes(s: string, pat: string): (r: bool)
    ensures r <==> exists i :: OccursAt(s, pat, i)
  {
    var found := IndexOf(s, pat, 0);
    if found.None? then
      assert forall i :: !OccursAt(s, pat, i) by {
        forall i ensures !OccursAt(s, pat, i) {
          if 0 <= i { assert !OccursAt(s, pat, i); }
        }
      }
      false
    else true
  }

  /** `xs.join(sep)`: the empty array joins to "", one element to itself. */
  function Join(xs: seq<string>, sep: string): string {
    if |xs| == 0 then ""
    else if |xs| == 1 then xs[0]
    else Join(xs[..|xs| - 1], sep) + sep + xs[|xs| - 1]
  }

  /** An occurrence survives text added on either side. */
  lemma OccursInContext(a: string, b: string, c: string)
    ensures OccursAt(a + b + c, b, |a|)
  {
    assert (a + b + c)[|a|..|a| + |b|] == b;
  }

  /** Text put in front of a string keeps what the string includes. */
  lemma IncludesAfterPrefix(p: string, s: string, pat: string)
    requires Includes(s, pat)
    ensures Includes(p + s, pat)
  {
    var j :| OccursAt(s, pat, j);
    assert (p + s)[|p| + j..|p| + j + |pat|] == s[j..j + |pat|];
    assert OccursAt(p + s, pat, |p| + j);
  }

  /** Every piece of a join occurs in it. */
  lemma {:induction false} JoinIncludes(xs: seq<string>, sep: string, i: nat)
    requires i < |xs|
    ensures Includes(Join(xs, sep), xs[i])
  {
    if |xs| == 1 {
      OccursInContext("", xs[0], "");
      assert "" + xs[0] + "" == xs[0];
    } else {
      var init := xs[..|xs| - 1];
      var front := Join(init, sep);
      assert Join(xs, sep) == front + sep + xs[|xs| - 1];
      if i < |init| {
        JoinIncludes(init, sep, i);
        assert init[i] == xs[i];
        var j :| OccursAt(front, xs[i], j);
        assert (front + (sep + xs[|xs| - 1]))[j..j + |xs[i]|] == front[j..j + |xs[i]|];
        assert front + sep + xs[|xs| - 1] == front + (sep + xs[|xs| - 1]);
        assert OccursAt(Join(xs, sep), xs[i], j);
      } else {
        OccursInContext(front + sep, xs[i], "");
        assert front + sep + xs[i] + "" == Join(xs, sep);
      }
    }
  }

  /** Joining one more piece appends the separator and the piece. */
  lemma JoinSnoc(xs: seq<string>, w: string, sep: string)
    requires |xs| > 0
    ensures Join(xs + [w], sep) == Join(xs, sep) + sep + w
  {
    assert (xs + [w])[..|xs|] == xs;
  }

  /** Extending the last piece by a character extends the joined text by it. */
  lemma JoinExtendLast(xs: seq<string>, c: char, sep: string)
    requires |xs| > 0
    ensures Join(xs[..|xs| - 1] + [xs[|xs| - 1] + [c]], sep) == Join(xs, sep) + [c]
  {
    var front := xs[..|xs| - 1];
    if |front| > 0 {
      JoinSnoc(front, xs[|xs| - 1] + [c], sep);
      JoinSnoc(front, xs[|xs| - 1], sep);
      assert front + [xs[|xs| - 1]] == xs;
    }
  }

  /** The number of occurrences of `c` in `s`. */
  function Count(s: string, c: char): nat {
    if |s| == 0 then 0
    else Count(s[..|s| - 1], c) + (if s[|s| - 1] == c then 1 else 0)
  }

  /** `s.split(sep)` for a one-character separator: the maximal pieces
      between separators, empty pieces included, and `[""]` for "". */
  function Split(s: string, sep: char): (r: seq<string>)
    ensures |r| == Count(s, sep) + 1
    ensures forall i :: 0 <= i < |r| ==> sep !in r[i]
  {
    if |s| == 0 then [""]
    else
      var init := s[..|s| - 1];
      var c := s[|s| - 1];
      assert s == init + [c];
      var pieces := Split(init, sep);
      if c == sep then pieces + [""]
      else pieces[..|pieces| - 1] + [pieces[|pieces| - 1] + [c]]
  }

  /** Joining the pieces of a split with the separator restores the text. */
  lemma {:induction false} JoinOfSplit(s: string, sep: char)
    ensures Join(Split(s, sep), [sep]) == s
  {
    if |s| > 0 {
      var init := s[..|s| - 1];
      var c := s[|s| - 1];
      assert s == init + [c];
      JoinOfSplit(init, sep);
      SplitSnoc(init, c, sep);
      var pieces := Split(init, sep);
      if c == sep {
        JoinSnoc(pieces, "", [sep]);
      } else {
        JoinExtendLast(pieces, c, [sep]);
      }
    }
  }

  /** Splitting a text extended by one character, in terms of splitting
      the text: a separator opens a new empty piece, any other character
      extends the last piece. */
  lemma SplitSnoc(s: string, c: char, sep: char)
    ensures var p := Split(s, sep);
      Split(s + [c], sep) == if c == sep then p + [""] else p[..|p| - 1] + [p[|p| - 1] + [c]]
  {
    assert (s + [c])[..|s|] == s;
  }

  /** The last piece of a split is empty exactly when the text is empty or
      ends with the separator. */
  lemma SplitLastPiece(s: string, sep: char)
    ensures var r := Split(s, sep); r[|r| - 1] == "" <==> (|s| == 0 || s[|s| - 1] == sep)
  {
    if |s| > 0 {
      assert s == s[..|s| - 1] + [s[|s| - 1]];
      SplitSnoc(s[..|s| - 1], s[|s| - 1], sep);
    }
  }

  /** Appending a separator and a separator-free word adds exactly that word
      as a new last piece. */
  lemma {:induction false} SplitAppendWord(s: string, sep: char, w: string)
    requires sep !in w
    ensures Split(s + [sep] + w, sep) == Split(s, sep) + [w]
    decreases |w|
  {
    if |w| == 0 {
      assert s + [sep] + w == s + [sep];
      SplitSnoc(s, sep, sep);
    } else {
      var w' := w[..|w| - 1];
      var c := w[|w| - 1];
      assert w == w' + [c];
      SplitAppendWord(s, sep, w');
      assert s + [sep] + w == (s + [sep] + w') + [c];
      SplitSnoc(s + [sep] + w', c, sep);
      var p := Split(s, sep) + [w'];
      assert p[..|p| - 1] == Split(s, sep);
    }
  }

  /** A separator-free text splits into itself. */
  lemma {:induction false} SplitNoSeparator(w: string, sep: char)
    requires sep !in w
    ensures Split(w, sep) == [w]
    decreases |w|
  {
    if |w| > 0 {
      var w' := w[..|w| - 1];
      assert w == w' + [w[|w| - 1]];
      SplitNoSeparator(w', sep);
      SplitSnoc(w', w[|w| - 1], sep);
    }
  }

  /** Splitting undoes joining: `join(sep).split(sep)` is the identity on
      non-empty lists of separator-free pieces. */
  lemma {:induction false} SplitOfJoin(ws: seq<string>, sep: char)
    requires |ws| > 0
    requires forall i :: 0 <= i < |ws| ==> sep !in ws[i]
    ensures Split(Join(ws, [sep]), sep) == ws
    decreases |ws|
  {
    if |ws| == 1 {
      SplitNoSeparator(ws[0], sep);
    } else {
      var init := ws[..|ws| - 1];
      var last := ws[|ws| - 1];
      assert ws == init + [last];
      JoinSnoc(init, last, [sep]);
      SplitOfJoin(init, sep);
      SplitAppendWord(Join(init, [sep]), sep, last);
    }
  }

  /** `s.replace(c, "")` for a one-character string pattern: deletes the
      first occurrence of `c`, if any. */
  function RemoveFirst(s: string, c: char): (r: string)
    ensures c !in s ==> r == s
    ensures c in s ==> exists i :: 0 <= i < |s| && s[i] == c && c !in s[..i] && r == s[..i] + s[i + 1..]
  {
    match IndexOf(s, [c], 0)
    case None =>
      assert c !in s by {
        forall j | 0 <= j < |s| ensures s[j] != c {
          assert !OccursAt(s, [c], j);
          assert s[j..j + 1] == [s[j]];
        }
      }
      s
    case Some(i) =>
      assert s[i..i + 1] == [s[i]];
      assert c !in s[..i] by {
        forall j | 0 <= j < i ensures s[j] != c {
          assert !OccursAt(s, [c], j);
          assert s[j..j + 1] == [s[j]];
        }
      }
      s[..i] + s[i + 1..]
  }
}
