# polaris-example-snippets in Dafny

A model of the snippet generator in `main.js` of polaris-example-snippets.
The generator reads the README of every component directory of the Polaris
component library. It cuts the "## Examples" section of each README into
examples and turns every example into an editor snippet: a name derived
from the example's heading, the alias `PE<name>`, the trimmed description,
and a playground body that imports React and the components the code uses.
All snippets go into one object keyed by example name.

The model is functional throughout. Strings are `seq<char>`, and the two
JavaScript objects of the source (`parsedExamples` and `snippets`) are
insertion-ordered association lists (`JsObject.Obj`). That makes both the
order of `Object.keys` and the rule that the last write wins exact. The
three regular-expression scans are an input, `scan: string -> seq<RawMatch>`.
It gives, for an examples section, the matches in order: each with its
title, description and code captures, the raw component-tag captures and
the raw React-name matches. The `/## Examples(.*)---/gms` section match is
modelled exactly: it runs from the first heading to the last `---`.

Modules, in dependency order:

- `Results`: `Option` and `Result`, and the error a run can abort with.
- `Text`: the JavaScript string operations used.
  - `indexOf`, `lastIndexOf` and `includes`.
  - `split(" ")` and `join`.
  - `replace` with a string pattern, which replaces the first occurrence only.
- `Unique`: `[...new Set(xs)]`, that is first-occurrence deduplication.
- `Trimming`: `String.prototype.trim` over the ECMAScript white-space and
  line-terminator characters.
- `Naming`: the name derivation, which throws on an empty word (`w[0]` is
  `undefined`).
- `Playground`: `createPlayground`.
- `JsObject`: property reads and writes on a plain object.
- `ReadMes`: `getReadMes`. The file system becomes what the loop observes of
  each entry: whether it is a directory, and whether reading its README
  succeeded.
- `Examples`: `parseExamples`.
- `Snippets`: `createSnippets`.
- `Pipeline`: `main` from the README collection on. A run returns the
  warning it printed and either the snippets object or the error that
  aborted it.

The code and the accompanying material disagree in two places; the model
follows the code.

- The test expects a second alias `PolarisExample<name>`. `main.js:79`
  produces only `PE<name>`.
- `createPlayground` tests `code.includes("function")` anywhere in the
  code, not only at its start. Markup that mentions the word `function`
  therefore takes the `export <code>` path.

The rename on `main.js:151` computes `function Playground` but discards
the result. The body therefore exports function-style code under its own
name. The model keeps this: `ExportedCode` ignores the rename, and
`RenamedDeclaration` models the discarded value.

## Model

| member | source | states |
|---|---|---|
| Naming.DeriveName | main.js:69-74 | Derivation fails exactly when the title has an empty word, i.e. it is empty, ends in a space, or has a leading or doubled space. On success the name is the title camel-cased word by word; it has no space and is the title's length minus its space count. |
| Naming.EmptyWordIffIllSpaced | main.js:69-72 | Splitting on " " yields an empty word exactly when the title is not well spaced, which is when `w[0]` would be undefined. |
| Naming.CapitalizedWordsAreCamelCase | main.js:69-74 | Capitalising each piece of `split(" ")` and joining with "" equals the character-by-character camel-case definition. |
| Naming.CamelCaseShape | main.js:69-74 | The camel-cased title has no space, and its length is the title's length minus its number of spaces. |
| Naming.DeriveNameIdempotent | main.js:69-74 | A derived name derives to itself: it is one word that already starts upper-case. |
| Naming.DeriveNameOfWord | main.js:69-74 | A title of one word derives to that word with its first letter upper-cased. |
| Text.Split | main.js:70 | `split` yields one piece more than there are separators, and no piece holds a separator. |
| Text.JoinOfSplit | main.js:70 | Joining the pieces of `split(sep)` with sep gives the original string back. |
| Text.SplitOfJoin | main.js:70 | Splitting a join of separator-free words gives the words back. |
| Text.RemoveFirst | main.js:64 | `replace("\n", "")` removes only the first line break, and leaves a string without one unchanged. |
| Text.IndexOf | main.js:50 | The result is the first occurrence at or after the start position; None means there is none. |
| Text.LastIndexOf | main.js:50 | The result is the last occurrence; None means there is none. |
| Text.Includes | main.js:149 | `includes` holds exactly when the pattern occurs at some position. |
| Text.JoinIncludes | main.js:35-37 | A joined list contains each of its elements. |
| Trimming.Trim | main.js:80-81 | The result has no white space at either end, and the input is that result padded with white space on both sides. |
| Trimming.TrimOfPadded | main.js:80-81 | Trimming white-space padding around a tight string gives that string back. |
| Trimming.TrimIdempotent | main.js:80-81 | Trimming twice is trimming once. |
| Unique.Dedup | main.js:67 | `[...new Set(xs)]` has no duplicates, holds exactly the elements of xs, and keeps them in first-occurrence order. |
| Unique.DedupOfDistinct | main.js:84-87 | Deduplicating a list without duplicates returns it unchanged. |
| Examples.ExamplesSectionBounds | main.js:50-52 | The section is absent exactly when no "## Examples" is followed by a "---". Otherwise it is the text between the first heading and the last "---". |
| Examples.BuildExample | main.js:59-89 | The record fails exactly when the title has an empty word, with that error. Otherwise: the alias is `["PE" + name]`; description and code are the trimmed captures; components and React names are the first-occurrence deduplication of the raw captures; the body is the playground of those three. |
| Examples.MatchAll | main.js:55-58 | The callbacks run in match order. The first failing callback aborts with its error; otherwise there is one result per match, in order. |
| Examples.BuildAll | main.js:55-91 | An examples section fails exactly when one of its titles is ill-spaced. Otherwise it yields one record per match, in order. |
| Examples.FirstFailingUnique | main.js:99-104 | The first failing match is the unique index that fails with every earlier index succeeding. |
| Examples.ContributionOfOne | main.js:49-52 | A README without an examples section contributes nothing. One with a section contributes its component with the outcome of building its examples. |
| Examples.ContributionsAppend | main.js:49 | The READMEs are processed in order: contributions of a concatenation are the concatenated contributions. |
| Examples.ContributionCovers | main.js:49-93 | Every README with a section has its contribution in the list. |
| Examples.ContributionSource | main.js:49-93 | Every contribution comes from a README with a section. |
| Examples.ParseWith | main.js:47-97 | Parsing fails exactly when some contribution's outcome is a failure, and then with the error of the first such contribution. |
| Examples.ParseExamples | main.js:47-97 | With the scans as input, parsing fails exactly when some section fails to build, and with the first such error. |
| Examples.ParseWithKeys | main.js:48-93 | After a successful parse, the keys are the distinct components with a section, in first-occurrence order. |
| Examples.ParseWithGet | main.js:93 | Each component maps to the records of its last contribution; a component without one is absent. |
| Examples.ParseExamplesEntries | main.js:47-97 | The keys and the stored values of `parsedExamples`, as given by the contributions of the scanned READMEs. |
| Examples.ParseExamplesFails | main.js:47-97 | A parse aborts exactly when some README has a section whose examples fail to build. |
| Examples.ParseExamplesStores | main.js:93 | With distinct component names, every README with a section is stored under its component with all its examples. |
| Examples.ParsedExampleSource | main.js:49-93 | Every stored record was built from a match in the section of a README of that component. |
| Playground.CreatePlayground | main.js:148-176 | The body starts with the default React import exactly when the scope is empty, and otherwise with the named import line of the scope. Next comes the component import line exactly when there are components, otherwise the code directly. It ends with `export <code>` when the code includes "function", and otherwise with the Playground wrapper around the code. Its length is the sum of the three parts, so nothing lies between them. |
| Playground.HeaderOf | main.js:153-160 | A body opening with the React line starts with the default import exactly when the scope is empty, and otherwise with `import React, {` + the scope joined by ", " + `} from 'react';`. |
| Playground.RenamedDeclaration | main.js:151 | The discarded rename: code without "function" is unchanged. Otherwise the first "function" and the following run of characters other than '(' become "function Playground". |
| Playground.DiscardedRenameExample | main.js:149-168 | For a function-style example, the body exports the function under its own name. The rename, had it been kept, would have produced "function Playground() {}". |
| Playground.MarkupExample | main.js:153-175 | For markup without React names and with one component, the exact body: default React import, the component import line, then the wrapper around the markup. |
| JsObject.Get | main.js:131 | A property read is absent exactly when the key is not among the object's keys. |
| JsObject.Put | main.js:93 | A property write makes the key read back the value and leaves every other key unchanged. It keeps the position of a present key, appends a new key, and keeps keys distinct. |
| JsObject.PutDedup | main.js:133 | Writing a name onto an object keyed by the distinct names so far keeps it keyed by the distinct names. |
| Snippets.PutExamplesAppend | main.js:130-139 | Writing a concatenation of example lists is writing one list after the other. |
| Snippets.PutExamplesKeys | main.js:132-138 | After writing examples, the keys are the distinct names, previous keys first, in first-occurrence order. |
| Snippets.PutExamplesGet | main.js:132-138 | A name maps to the snippet of the last example with that name; other keys are unchanged. |
| Snippets.CreateSnippets | main.js:128-142 | The snippets object has distinct keys: the distinct example names across all components in `Object.keys` order. A name is present exactly when some example has it. |
| Snippets.CreateSnippetsGet | main.js:133-137 | Each snippet is the prefix, body and description of the last example with its name (last write wins). |
| Snippets.DistinctNamesKeepAll | main.js:128-142 | With distinct example names, there is one snippet per example, in order. |
| Snippets.SnippetSource | main.js:130-138 | Every snippet name is the name of some stored example. |
| Snippets.SnippetCovers | main.js:130-138 | Every stored example has a snippet under its name. |
| ReadMes.GetReadMes | main.js:106-126 | Every directory entry is counted once, in exactly one of the two lists. |
| ReadMes.GetReadMesMembers | main.js:109-123 | The READMEs read are exactly those of the directories whose file could be read. The components without a README are exactly the directories whose read threw. |
| ReadMes.GetReadMesAppend | main.js:109-123 | Collection keeps listing order: collecting a concatenation is collecting its parts one after the other. |
| ReadMes.ExactlyOnePlace | main.js:109-123 | With distinct entry names, a readable directory is in the README list only, and an unreadable one in the missing list only. Any other entry is in neither. |
| Pipeline.MissingWarning | main.js:32-40 | A warning is printed exactly when the missing list is non-empty; it starts with the fixed message and names every missing component. |
| Pipeline.Main | main.js:27-43 | The warning is printed exactly when some directory's README could not be read, and it names every such directory. A completed run yields a snippets object with distinct keys. |
| Pipeline.WarningNamesUnreadable | main.js:27-40 | The warning is absent exactly when every directory is readable, and otherwise names each unreadable one. |
| Pipeline.MainFails | main.js:42 | A run aborts exactly when the examples of some readable README fail to build. |
| Pipeline.MainSnippetSource | main.js:42-43 | Every snippet name is derived from the title of an example in the section of a readable README. |
| Pipeline.MainSnippetComplete | main.js:42-43 | With distinct directory names, every example of every readable README with a section has a snippet under its derived name. |
| Pipeline.DistinctDirectories | main.js:24-30 | Distinct directory names give distinct components among the READMEs read. |

## Left out

- The `rm -rf` and `git clone` of the component library (main.js:21-22): shell and network side effects.
- Directory listing, `lstat`, reading and writing files (main.js:24, 113, 145, 45). Each entry arrives as its name, whether it is a directory and the README text or a failed read.
- The serialisation with `JSON.stringify(snippets, null, 2)` (main.js:45): a library formatter. The model ends with the snippets object in key order.
- The red colouring of the warning by chalk (main.js:34): console styling. The warning text itself is modelled.
- The three regular-expression scans (main.js:8-13, 56-65, 67): they use lazy and look-around semantics and `lastIndex` state, and the React scan depends on the keys of the loaded React module. Their matches are an input.
- Naming.DeriveName: upper-casing covers ASCII `a`-`z` only. The model does not cover other letters with an upper-case form, nor the UTF-16 code units of `w[0]`.
- JsObject.Put: keys that look like array indices, which JavaScript lists before all other keys, are not modelled, and neither is the special key `__proto__`. Example and directory names are assumed to be neither.
- The second alias `PolarisExample<name>` that the test expects: the code does not produce it.
