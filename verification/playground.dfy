/** Playground synthesis: the snippet body built from an example's trimmed
    code, its deduplicated component tags and the React names it uses. The
    body is a React import line, an optional import of the components from
    '../src', and the code exported either as it stands (when it mentions
    `function`) or wrapped in a `Playground` component that returns it. */
module Playground {
  import opened Results
  import opened Text

  const ReactDefaultImport: string := "import React from 'react';\n"
  const ReactNamedImportHead: string := "import React, {"
  const ReactNamedImportTail: string := "} from 'react';\n"
  const ComponentImportHead: string := "import {"
  const ComponentImportTail: string := "} from '../src';\n\n"
  const FunctionKeyword: string := "function"
  const ExportKeyword: string := "export "
  const WrapperHead: string := "export function Playground() {\n  return (\n    "
  const WrapperTail: string := "\n  );\n}"

  /** The React import line: named imports for the React scope, or the bare
      default import when the scope is empty. */
  function ReactImport(reactScope: seq<string>): string {
    if |reactScope| > 0 then ReactNamedImportHead + Join(reactScope, ", ") + ReactNamedImportTail
    else ReactDefaultImport
  }

  /** The component import line, followed by a blank line; nothing when
      there are no components. */
  function ComponentImport(components: seq<string>): string {
    if |components| > 0 then ComponentImportHead + Join(components, ", ") + ComponentImportTail
    else ""
  }

  /** The exported code. The rename to `Playground` that the source
      computes for function-style code is discarded there, so the code is
      exported under its own name. */
  function ExportedCode(code: string): string {
    if Includes(code, FunctionKeyword) then ExportKeyword + code
    else WrapperHead + code + WrapperTail
  }

  /** `createPlayground(code, components, reactScope)`. */
  function CreatePlayground(code: string, components: seq<string>, reactScope: seq<string>): (body: string)
    ensures |reactScope| == 0 <==> StartsWith(body, ReactDefaultImport)
    ensures |components| > 0 <==> StartsWith(body, ReactImport(reactScope) + ComponentImportHead)
    ensures |components| > 0 ==> StartsWith(body, ReactImport(reactScope) + ComponentImport(components))
    ensures |components| == 0 ==> body == ReactImport(reactScope) + ExportedCode(code)
    ensures Includes(code, FunctionKeyword) ==> EndsWith(body, ExportKeyword + code)
    ensures !Includes(code, FunctionKeyword) ==> EndsWith(body, WrapperHead + code + WrapperTail)
    ensures |body| == |ReactImport(reactScope)| + |ComponentImport(components)| + |ExportedCode(code)|
  {
    var header := ReactImport(reactScope);
    var rest := ComponentImport(components) + ExportedCode(code);
    HeaderOf(reactScope, rest);
    ExportedCodeStart(code);
    RestOf(header, components, ExportedCode(code));
    EndOf(header, ComponentImport(components), code);
    header + rest
  }

  /** The body opens with the React import line chosen by the scope. */
  lemma HeaderOf(reactScope: seq<string>, rest: string)
    ensures var body := ReactImport(reactScope) + rest;
      && (|reactScope| == 0 <==> StartsWith(body, ReactDefaultImport))
      && (|reactScope| > 0 ==> StartsWith(body, ReactNamedImportHead + Join(reactScope, ", ") + ReactNamedImportTail))
  {
    var header := ReactImport(reactScope);
    var body := header + rest;
    assert body[..|header|] == header;
    ReactImportShape(reactScope);
    if |reactScope| > 0 {
      assert body[12] == header[12];
    }
  }

  /** After the React line: the component import line when there are
      components, and otherwise directly the exported code, which starts
      with `export` and so not with an import. */
  lemma RestOf(header: string, components: seq<string>, exported: string)
    requires |exported| > 0 && exported[0] == 'e'
    ensures var body := header + (ComponentImport(components) + exported);
      && (|components| > 0 <==> StartsWith(body, header + ComponentImportHead))
      && (|components| > 0 ==> StartsWith(body, header + ComponentImport(components)))
      && (|components| == 0 ==> body == header + exported)
  {
    var rest := ComponentImport(components) + exported;
    PrefixUnderHeader(header, rest, ComponentImportHead);
    PrefixUnderHeader(header, rest, ComponentImport(components));
    if |components| > 0 {
      ImportThenCode(Join(components, ", "), exported);
    } else {
      CodeAlone(exported);
    }
  }

  /** A common first part does not change whether one text starts another. */
  lemma PrefixUnderHeader(header: string, rest: string, x: string)
    ensures StartsWith(header + rest, header + x) <==> StartsWith(rest, x)
  {
    if StartsWith(rest, x) {
      assert (header + rest)[..|header + x|] == header + rest[..|x|];
    }
    if StartsWith(header + rest, header + x) {
      assert rest[..|x|] == (header + rest)[|header|..|header| + |x|];
      assert (header + x)[|header|..] == x;
    }
  }

  lemma ImportThenCode(names: string, exported: string)
    ensures StartsWith(ComponentImportHead + names + ComponentImportTail + exported, ComponentImportHead + names + ComponentImportTail)
    ensures StartsWith(ComponentImportHead + names + ComponentImportTail + exported, ComponentImportHead)
  {
    var line := ComponentImportHead + names + ComponentImportTail;
    PrefixOfAppend(line, exported);
    assert line + exported == ComponentImportHead + (names + ComponentImportTail + exported);
    PrefixOfAppend(ComponentImportHead, names + ComponentImportTail + exported);
  }

  lemma CodeAlone(exported: string)
    requires |exported| > 0 && exported[0] == 'e'
    ensures "" + exported == exported
    ensures !StartsWith(exported, ComponentImportHead)
  {
    assert ComponentImportHead[0] == 'i';
  }

  lemma PrefixOfAppend(a: string, b: string)
    ensures StartsWith(a + b, a)
  {
    assert (a + b)[..|a|] == a;
  }

  /** The body closes with the exported code. */
  lemma EndOf(header: string, imports: string, code: string)
    ensures var body := header + (imports + ExportedCode(code));
      && (Includes(code, FunctionKeyword) ==> EndsWith(body, ExportKeyword + code))
      && (!Includes(code, FunctionKeyword) ==> EndsWith(body, WrapperHead + code + WrapperTail))
  {
    var exported := ExportedCode(code);
    assert header + (imports + exported) == (header + imports) + exported;
    SuffixOfAppend(header + imports, exported);
  }

  lemma SuffixOfAppend(a: string, b: string)
    ensures EndsWith(a + b, b)
  {
    assert (a + b)[|a|..] == b;
  }

  /** Both forms of the exported code start with `export`. */
  lemma ExportedCodeStart(code: string)
    ensures |ExportedCode(code)| > 0 && ExportedCode(code)[0] == 'e'
  {
    assert ExportKeyword[0] == 'e' && WrapperHead[0] == 'e';
    if Includes(code, FunctionKeyword) {
      HeadOfAppend(ExportKeyword, code);
    } else {
      HeadOfAppend(WrapperHead + code, WrapperTail);
      HeadOfAppend(WrapperHead, code);
    }
  }

  lemma HeadOfAppend(a: string, b: string)
    requires |a| > 0
    ensures |a + b| > 0 && (a + b)[0] == a[0]
  {
  }


  /** The React import line is the default one exactly when the scope is
      empty: the named form differs from it at its 13th character. */
  lemma ReactImportShape(reactScope: seq<string>)
    ensures |ReactImport(reactScope)| > 12
    ensures |reactScope| > 0 ==> ReactImport(reactScope)[12] == ','
    ensures ReactDefaultImport[12] == ' '
  {
  }

  /** End of the run of characters other than '(' that starts at `k`. */
  function ParenFreeEnd(s: string, k: nat): (j: nat)
    requires k <= |s|
    ensures k <= j <= |s|
    ensures j == |s| || s[j] == '('
    ensures forall m :: k <= m < j ==> s[m] != '('
    decreases |s| - k
  {
    if k == |s| || s[k] == '(' then k else ParenFreeEnd(s, k + 1)
  }

  /** `code.replace(/function(.*?)[^(]*\/ms, "function Playground")`: the
      first `function` and every following character up to the next '('
      (or the end) become `function Playground`. The lazy group matches
      nothing, so the greedy class takes the whole run. */
  function RenamedDeclaration(code: string): (r: string)
    ensures !Includes(code, FunctionKeyword) ==> r == code
    ensures Includes(code, FunctionKeyword) ==>
      exists i, j :: OccursAt(code, FunctionKeyword, i) && i + 8 <= j <= |code|
        && (forall m :: 0 <= m < i ==> !OccursAt(code, FunctionKeyword, m))
        && (j == |code| || code[j] == '(')
        && (forall m :: i + 8 <= m < j ==> code[m] != '(')
        && r == code[..i] + "function Playground" + code[j..]
  {
    match IndexOf(code, FunctionKeyword, 0)
    case None => code
    case Some(i) =>
      var j := ParenFreeEnd(code, i + 8);
      code[..i] + "function Playground" + code[j..]
  }

  /** The run of characters other than '(' from `k` ends at the first '('
      (or the end). */
  lemma {:induction false} ParenFreeEndAt(s: string, k: nat, j: nat)
    requires k <= j <= |s| && (j == |s| || s[j] == '(')
    requires forall m :: k <= m < j ==> s[m] != '('
    ensures ParenFreeEnd(s, k) == j
    decreases j - k
  {
    if k < j {
      ParenFreeEndAt(s, k + 1, j);
    }
  }

  /** A function-style example using an `Autocomplete` component: the
      function keeps its own name in the body, although the
      discarded rename would have called it `Playground`. */
  lemma DiscardedRenameExample()
    ensures CreatePlayground("function Example() {}", ["Autocomplete"], ["useState"])
      == ReactNamedImportHead + "useState" + ReactNamedImportTail
         + (ComponentImportHead + "Autocomplete" + ComponentImportTail)
         + (ExportKeyword + "function Example() {}")
    ensures RenamedDeclaration("function Example() {}") == "function Playground" + "() {}"
  {
    SingleImports("useState", "Autocomplete");
    FunctionExampleExport();
    FunctionExampleRename();
  }

  /** The import lines of a single React name and a single component. */
  lemma SingleImports(name: string, component: string)
    ensures ReactImport([name]) == ReactNamedImportHead + name + ReactNamedImportTail
    ensures ComponentImport([component]) == ComponentImportHead + component + ComponentImportTail
  {
  }

  lemma FunctionExampleExport()
    ensures ExportedCode("function Example() {}") == ExportKeyword + "function Example() {}"
  {
    var code := "function Example() {}";
    assert code[..8] == FunctionKeyword;
    assert OccursAt(code, FunctionKeyword, 0);
  }

  lemma FunctionExampleRename()
    ensures RenamedDeclaration("function Example() {}") == "function Playground" + "() {}"
  {
    var code := "function Example() {}";
    assert code[..8] == FunctionKeyword;
    assert code[16] == '(';
    assert forall m :: 8 <= m < 16 ==> code[m] != '(';
    RenameOfLeadingFunction(code, 16);
    assert code[16..] == "() {}";
  }

  /** Code that starts with `function` is renamed up to its first '('. */
  lemma RenameOfLeadingFunction(code: string, j: nat)
    requires OccursAt(code, FunctionKeyword, 0)
    requires 8 <= j <= |code| && (j == |code| || code[j] == '(')
    requires forall m :: 8 <= m < j ==> code[m] != '('
    ensures RenamedDeclaration(code) == "function Playground" + code[j..]
  {
    assert IndexOf(code, FunctionKeyword, 0) == Some(0);
    ParenFreeEndAt(code, 8, j);
    assert code[..0] == "";
  }

  /** Text lacking one of the pattern's characters does not include it. */
  lemma MissingLetterExcludes(s: string, pat: string, k: nat)
    requires k < |pat| && pat[k] !in s
    ensures !Includes(s, pat)
  {
    forall i | 0 <= i && i + |pat| <= |s| ensures !OccursAt(s, pat, i) {
      assert s[i..i + |pat|][k] == s[i + k];
    }
  }

  /** The markup-only badge example: no React names, one component. */
  lemma MarkupExample()
    ensures CreatePlayground("<Badge>Fulfilled</Badge>", ["Badge"], [])
      == ReactDefaultImport + "import {Badge} from '../src';\n\n" + (WrapperHead + "<Badge>Fulfilled</Badge>" + WrapperTail)
  {
    MarkupExampleImport();
    MarkupExampleExport();
  }

  lemma MarkupExampleImport()
    ensures ComponentImport(["Badge"]) == "import {Badge} from '../src';\n\n"
  {
  }

  lemma MarkupExampleExport()
    ensures ExportedCode("<Badge>Fulfilled</Badge>") == WrapperHead + "<Badge>Fulfilled</Badge>" + WrapperTail
  {
    var code := "<Badge>Fulfilled</Badge>";
    assert 'n' !in code;
    MissingLetterExcludes(code, FunctionKeyword, 2);
  }
}
