# html-template-builder: the template engine, in Dafny

`build.mjs` turns the HTML pages under `src` into pages under `dist`. Each
page is read as lines. A line that, once trimmed, has the form
`<!-->NAME<-->` or `<!-->NAME:::KEY:::(((VALUE)))…<-->` is a *directive*.
The builder looks for the template `name.html` in the `src` tree, never
entering a directory called `pages`. It fills every `:::KEY:::` of that
template with its value and splits the result into lines. Those lines are
resolved the same way, and they take the directive's place. One set of
visited template paths is shared by the whole walk. A template already in
it, or one that is not found, makes the directive disappear with a warning.
Finally every `BASE_URL` becomes the site's base, and the lines are joined
with `\n`.

This project models that engine as pure functions:

| module | file | models |
|---|---|---|
| `Strings` | `strings.dfy` | `indexOf`, `split` with a string separator, `trim`, `toLowerCase`, `split(/\r?\n/)`, `join('\n')` |
| `JsReplace` | `js_replace.dfy` | `String.prototype.replace` with a global pattern that matches one literal string, including the `$$ $& $\` $'` patterns of the replacement |
| `ParamsObject` | `params_object.dfy` | the plain object that collects a directive's parameters: assignment, the `__proto__` setter, `Object.entries` order |
| `TagParser` | `tag_parser.dfy` | `parseTemplateTag` |
| `Substitutor` | `substitutor.dfy` | `applyParams` |
| `Locator` | `locator.dfy` | the template tree and `findTemplatePath` |
| `Resolver` | `resolver.dfy` | `resolveTemplates` with its visited set and warnings |
| `BaseUrl` | `base_url.dfy` | `replaceBaseUrl` |
| `Page` | `page.dfy` | the text `processHtmlFile` writes for one page |

Several things are given to the model as parameters:

- The template tree is a value, `seq<Entry>`, in `readdirSync` listing order.
- A template's path is the sequence of names from the `src` directory down.
- The development/production switch and the relative path from the output
  file's directory to `dist` form a `BaseUrl.Mode`.
- The `BASE_URL` environment variable is part of `BaseUrl.Mode` too.

Two features of the engine are given their own datatypes:

- Warnings are returned as a list in `Resolver.Resolution`.
- `Resolution` also records the order in which templates were expanded, so
  that "at most once" can be stated.

## Model

| member | source | states |
|---|---|---|
| Strings.IndexOf | build.mjs:29 | the search for a separator returns the leftmost position at or after the start where it occurs, and `None` only when it occurs nowhere from there |
| Strings.JoinSplit | build.mjs:29 | splitting a text at a separator and joining the pieces with it gives the text back |
| Strings.SplitPiecesFree | build.mjs:29 | no piece of a split contains the separator |
| Strings.SplitAt | build.mjs:29 | the split cuts at the first occurrence of the separator and carries on with the text after it |
| Strings.TrimStart | build.mjs:26 | trimming the front removes exactly the longest prefix of ECMAScript white space and line terminators |
| Strings.TrimEnd | build.mjs:26 | trimming the end removes exactly the longest suffix of ECMAScript white space and line terminators |
| Strings.Lower | build.mjs:30 | every capital `A`–`Z` becomes the small letter at the same place in the alphabet, the Kelvin sign becomes `k`, every other character is kept, and no capital is left |
| Strings.LowerIdempotent | build.mjs:30 | lower-casing an already lower-cased text changes nothing |
| Strings.SplitLinesNoLineFeed | build.mjs:16 | no line produced by `split(/\r?\n/)` holds a line feed |
| Strings.SplitJoinLines | build.mjs:71 | joining lines with `\n` and splitting again gives them back, when no line holds `\n` and none but the last ends in `\r` |
| Strings.SplitLinesSingle | build.mjs:16 | a text without a line feed is a single line |
| Strings.JoinSplitLines | build.mjs:16 | splitting at `/\r?\n/` and joining with `\n` is cutting at every `\r\n` and gluing with `\n`: a lone `\n` or `\r` is kept and each `\r\n` becomes `\n` |
| JsReplace.Expand | build.mjs:48 | a replacement string without `$` is inserted verbatim |
| JsReplace.ReplaceAll | build.mjs:48 | a text in which the pattern does not occur is returned unchanged |
| JsReplace.ReplaceIsSplitJoin | build.mjs:48 | with a replacement free of `$`, a global replace equals cutting at every occurrence found left to right and gluing the pieces with the replacement, so inserted text is never scanned again |
| JsReplace.ReplaceBySelf | build.mjs:48 | replacing a pattern by itself changes nothing |
| JsReplace.ReplaceCharRemovesIt | build.mjs:103 | replacing every `\` by text without `\` and `$` leaves no `\` |
| JsReplace.ReplaceRestOnce | build.mjs:48 | a single occurrence is replaced by the expanded replacement, which sees the text before and after the match |
| JsReplace.DollarAmpersandKeepsMatch | build.mjs:48 | a value `[$&]` puts the matched placeholder back inside brackets |
| ParamsObject.KeyIndex | build.mjs:37 | the position of the first property with a key, or none when no property has it |
| ParamsObject.Put | build.mjs:37 | `params[key] = v` ignores `__proto__`, keeps every existing key at its position, adds at most one property and keeps keys distinct |
| ParamsObject.PutThenGet | build.mjs:37 | after `params[key] = v`, reading `key` gives `v` unless the key is `__proto__`, and every other key reads as before |
| ParamsObject.Entries | build.mjs:46 | `Object.entries` lists the same properties, array-index keys first in ascending numeric order, and the creation order itself when no key is an array index |
| ParamsObject.EntriesKeepOtherOrder | build.mjs:46 | the keys that are not array indices are listed in creation order |
| ParamsObject.SortIsSorted | build.mjs:46 | the array-index keys come out in ascending numeric order |
| ParamsObject.PartitionKeepsElements | build.mjs:46 | splitting the properties into array-index keys and the rest loses none and adds none |
| TagParser.NameRun | build.mjs:25 | the name is the longest run of `[A-Z0-9_]` at the start of the capture |
| TagParser.FindValue | build.mjs:35 | a found value starts right after the part's first `(((` and ends at the first `)))` after that `(((`; none is found exactly when no `)))` follows any `(((` |
| TagParser.ParseTag | build.mjs:24-42 | an accepted line trims to `<!-->…<-->` without line terminators, and its template name is `[a-z0-9_]+` |
| TagParser.FirstPartIsName | build.mjs:29-30 | the first `:::` part of an accepted capture is exactly the name run, so the template name is that run lower-cased |
| TagParser.ValueOfGroup | build.mjs:35 | the value read back from `(((v)))` is `v` |
| TagParser.SplitRendered | build.mjs:29 | splitting `name:::K1:::(((V1)))…` at `:::` gives the name followed by the keys and groups in turn |
| TagParser.CollectFlat | build.mjs:33-39 | the pair loop over those parts collects exactly the written parameters, in order |
| TagParser.ParseRendered | build.mjs:24-42 | every directive written from a name and parameters parses back to the lower-cased name and those parameters, in order. This needs distinct keys other than `__proto__`, keys and values on one line without `:::`, keys that do not end in `:`, and values that do not end in `)` or hold `)))`. Single and double colons are allowed |
| TagParser.ParsesUrlValue | build.mjs:29-36 | a parameter whose value is a URL `scheme://host` parses back whole: its colon does not split the directive |
| TagParser.ParseIgnoresSurroundingSpace | build.mjs:26 | white space around a line does not change how it parses |
| TagParser.RejectsNonNameStart | build.mjs:25 | `<!-->` followed by anything but `[A-Z0-9_]` is no directive |
| TagParser.RejectsBrokenName | build.mjs:25 | a name run followed by anything but `:::` (a single `:` or a lower-case letter, say) makes the line no directive |
| TagParser.RejectsMixedCase | build.mjs:25 | `<!-->Header<-->` is no directive |
| TagParser.RejectsLineTerminator | build.mjs:25 | a line terminator inside the trimmed line makes it no directive |
| TagParser.UnframedIsPlain | build.mjs:25-27 | a trimmed line that is not of the form `<!-->…<-->` is no directive |
| TagParser.DropsKeyWithoutGroup | build.mjs:33-39 | for example, `<!-->X:::K:::V<-->` parses to `x` with no parameters |
| TagParser.CollectTrailingKey | build.mjs:33-35 | a key that is the last part, with no part after it, is dropped |
| TagParser.CollectDropsTrailing | build.mjs:33-39 | after any number of key and part pairs, a last lone key changes nothing |
| TagParser.CollectSkipsNoGroup | build.mjs:35-38 | a key whose next part holds no `(((…)))` group is skipped without complaint, and the loop carries on after that part |
| TagParser.CollectAssignsGroup | build.mjs:35-38 | a key whose next part holds a group is set to the group's value, and the loop carries on after that part |
| TagParser.CollectOnlyFromPairs | build.mjs:33-39 | every collected parameter was already set or is a key part at an even position whose next part's first group holds its value |
| TagParser.CollectKeepsOld | build.mjs:37 | a key once set stays set for the rest of the loop |
| TagParser.CollectKeepsGrouped | build.mjs:33-39 | every key part other than `__proto__` whose next part holds a group ends up set |
| TagParser.DecodeOnlyPairs | build.mjs:29-39 | every parameter of a directive comes from a key part followed by a part holding a group with that value; keys without one are dropped |
| TagParser.DecodeKeepsGrouped | build.mjs:29-39 | every key of a directive followed by a part holding a group, `__proto__` aside, is a parameter |
| TagParser.ParseTagAsWritten | build.mjs:25-27 | the as-written recognizer also accepts only lines that trim to `<!-->…<-->` |
| TagParser.AsWrittenAgrees | build.mjs:25 | whenever the `:::` recognizer accepts a line, the as-written regular expression accepts it too, with the same tag |
| TagParser.AsWrittenAcceptsDoubleColon | build.mjs:25 | the as-written regular expression accepts `<!-->A::B:::C<-->` as template `a::b`, which the `:::` grammar rejects |
| TagParser.ParsesHeader | __tests__/build.test.js:35-41 | `<!-->HEADER<-->` parses to `header` with no parameters |
| TagParser.ParsesFooter | __tests__/build.test.js:43-49 | the footer line parses to `footer` with `COPYRIGHT` set to `2024 MySite` |
| TagParser.ParsesCard | __tests__/build.test.js:51-57 | the card line parses to `card` with `TITLE` then `DESC` |
| TagParser.RejectsComment | __tests__/build.test.js:60 | `<!-- Not a tag -->` is no directive |
| TagParser.RejectsText | __tests__/build.test.js:61 | `Some random text` is no directive |
| Substitutor.ApplyEntries | build.mjs:46-49 | text with no placeholder of any entry is returned unchanged |
| Substitutor.ApplyParams | build.mjs:44-51 | text with no placeholder of any parameter is returned unchanged |
| Substitutor.ApplyEntriesAppend | build.mjs:46-49 | applying two lists of entries is applying the first, then the second to its result |
| Substitutor.ApplyOneIsSplitJoin | build.mjs:47-48 | one entry turns each placeholder found by a left-to-right scan into its value, verbatim |
| Substitutor.ApplyInCreationOrder | build.mjs:46-48 | without array-index keys, the keys apply in creation order, and a key added last runs over the text the earlier keys produced |
| Substitutor.NamedKeysInOrder | build.mjs:46 | keys that start with a non-digit are listed in creation order |
| Substitutor.ReplaceAt | build.mjs:48 | the first placeholder becomes the value and the scan carries on after it |
| Substitutor.NotRescanned | build.mjs:48 | a value that spells the placeholder together with its neighbours is not replaced again |
| Substitutor.EarlierValueFeedsLaterKey | build.mjs:46-49 | an earlier value can bring in a later key's placeholder, which the later pass replaces |
| Substitutor.ReplacesSingle | __tests__/build.test.js:66-70 | one placeholder is replaced |
| Substitutor.ReplacesMultiple | __tests__/build.test.js:72-76 | two different placeholders are replaced |
| Substitutor.ReplacesEveryOccurrence | __tests__/build.test.js:78-82 | every occurrence of a placeholder is replaced |
| Substitutor.LeavesTextWithoutPlaceholder | __tests__/build.test.js:84-88 | text without placeholders is returned as it is |
| Locator.FindIn | build.mjs:82-97 | a found file's lower-cased name is the template name plus `.html`, and no directory on its path is called `pages` |
| Locator.FirstMatch | build.mjs:85-94 | the reference search returns the first listed file with a matching name, and none only when no file matches |
| Locator.FindIsFirstMatch | build.mjs:82-97 | the recursive search returns exactly the first match of the depth-first listing that leaves out `pages` directories |
| Locator.FindNoneIff | build.mjs:96 | the search returns null exactly when no file outside `pages` directories matches, and otherwise the first one that does |
| Locator.FoundIsReachable | build.mjs:89-92 | the path returned is one of the files the search can reach |
| Locator.FoundReadsBack | build.mjs:86-92 | in a tree whose sibling names are distinct, reading the returned path gives the file that was found |
| Locator.SkipsPagesFindsAnyCase | build.mjs:88-91 | a template under `pages` is invisible, and `Card.HTML` elsewhere is found for `card` |
| Resolver.ResolveLines | build.mjs:53-80 | the visited set only grows |
| Resolver.ResolveLine | build.mjs:57-76 | the visited set only grows |
| Resolver.ResolveTemplates | build.mjs:53-80 | no resolved line is a directive, and each template is expanded at most once, was not visited before and is a reachable file |
| Resolver.LinesKeep | build.mjs:53-80 | from any visited set, the visited set grows by exactly the expanded templates, each is new and reachable, no two are the same, and no output line is a directive |
| Resolver.NoDirectivesUnchanged | build.mjs:74-76 | lines none of which is a directive come back unchanged, with no expansion and no warning |
| Resolver.TextLineKept | build.mjs:74-76 | a line that is no directive is kept as it is |
| Resolver.TextLinesKept | build.mjs:74-76 | the lines that are no directives appear in the output unchanged and in their original order |
| Resolver.ResolveAppend | build.mjs:56-77 | resolving two runs of lines is resolving the first, then the second from the visited set the first left |
| Resolver.ExpandsFound | build.mjs:68-73 | a found template not visited before is visited, filled in, split into lines and resolved in the directive's place |
| Resolver.DropsNotFound | build.mjs:61-66 | a directive whose template is found nowhere leaves no line, no expansion and the visited set as it was, and gives one warning without a path |
| Resolver.SkipsVisited | build.mjs:63-66 | a found template already visited leaves no line and one warning naming its path |
| Resolver.ExpansionsBounded | build.mjs:63-68 | a page expands no more templates than the tree holds files |
| Resolver.SelfReference | build.mjs:63-72 | for example, a template that names itself is expanded once, and the inner directive leaves no line and one warning |
| Resolver.ReuseExpandedOnce | build.mjs:63-68 | for example, a template used twice on one page, with no cycle, is expanded only the first time |
| BaseUrl.ActualBase | build.mjs:100-104 | in development the base has no `\` and is never empty: the relative path with slashes, or `.`; otherwise it is the configured value or empty |
| BaseUrl.BackslashesBecomeSlashes | build.mjs:103 | replacing `\` by `/` with a regular expression is the character-by-character substitution |
| BaseUrl.ReplaceBaseUrl | build.mjs:105 | the number of lines is kept, and a line without `BASE_URL` is kept as it is |
| BaseUrl.NoTokenUnchanged | build.mjs:105 | lines none of which holds `BASE_URL` are returned unchanged |
| BaseUrl.EveryTokenReplaced | build.mjs:105 | with a base free of `$`, every `BASE_URL` found by a left-to-right scan becomes the base |
| BaseUrl.DevLinksUp | build.mjs:100-105 | in development, one level below `dist`, `BASE_URL/about` becomes `../about` |
| BaseUrl.DevEmptyIsDot | build.mjs:103 | the page written to `dist` itself gets `.` as its base |
| BaseUrl.DevBackslashes | build.mjs:103 | a Windows relative path `..\..` becomes `../..` |
| Page.BuildPage | build.mjs:108-112 | a page with no directive and no `BASE_URL` comes out as its lines joined with `\n` |
| Page.SplitLinesWithoutCR | build.mjs:16 | without `\r`, `split(/\r?\n/)` is the plain split at `\n` |
| Page.PlainPageUnchanged | build.mjs:108-112 | a page with `\n` line ends, no directive and no `BASE_URL` is written out exactly as it is |
| Page.CrLfPageBecomesLf | build.mjs:108-112 | a page with no directive and no `BASE_URL` comes out as its source with every `\r\n` replaced by `\n` and nothing else changed |
| Page.CrLfBecomesLf | build.mjs:109-112 | for example, `a\r\nb` comes out as `a\nb` |

## Left out

- File reading and writing, directory creation and console output. The template tree is a value. A warning is an element of `Resolution.warnings`, not a printed line.
- `readdirSync` and `readFileSync` errors, symbolic links and `Dirent` typing. Every entry is a file or a directory. `Locator.FoundReadsBack` shows that the path found reads back in a tree whose sibling names are distinct.
- `path.join`, `path.relative` and `path.resolve`. A template's path is its sequence of names from the search root. The relative path from the output file's directory to `dist` is a parameter of `BaseUrl.Dev`.
- Reading `.env`, `process.env` and `process.argv`. The development switch and the configured `BASE_URL` are `BaseUrl.Mode`.
- `buildAll`, the choice of output paths, asset copying and the watch loop. They only call `processHtmlFile` and file-system routines.
- Substitutor.ApplyParams: each key is matched as literal text. The source splices the key into a `RegExp` unescaped, so a key holding regular-expression metacharacters matches other text, or throws when it is not a valid pattern. The model is exact for keys without metacharacters, which covers every key the directive grammar is meant for.
- Strings.Lower: lower-cases ASCII capitals and the Kelvin sign and keeps every other character. This is exact for the file-name test. The target name there is ASCII, and no other character has a lower case made of ASCII characters only.
- TagParser.ParseTag: follows the `:::` grammar, not the regular expression as written at build.mjs:25 (see "Findings"). For `<!-->A::B:::C<-->` the source yields template `a::b` and the model yields no directive.
- Resolver.ResolveLine: recognises directives with `TagParser.ParseTag`, so `Resolver.ResolveTemplates` and `Page.BuildPage` do too. For the line `<!-->A::B:::C<-->` the source searches for `a::b.html`, does not find it, drops the line and warns (build.mjs:57-66). The model keeps the line as text with no warning. The lemmas about lines that are no directive (`Resolver.NoDirectivesUnchanged`, `Resolver.TextLineKept`, `Resolver.TextLinesKept`, `Page.PlainPageUnchanged`) speak of directives in `ParseTag`'s sense.
- TagParser.ParseTagAsWritten: lower-cases the name with `Strings.Lower`. The as-written expression lets any character follow `::`, so for `<!-->A::É:::C<-->` the source yields `a::é` and the model `a::É`. The model is exact for names of ASCII characters.
- Resolver.ResolveLines: its own `ensures` states only that the visited set grows. The full invariant is the separate lemma `Resolver.LinesKeep`, which `Resolver.ResolveTemplates` carries in its contract.
- Characters are Unicode scalar values, not UTF-16 code units. No part of the engine looks at surrogate pairs.

## Findings

| source | as written | input that shows it | evidently intended | confidence | as-written member | corrected member |
|---|---|---|---|---|---|---|
| build.mjs:25 | the repeated group is written `(?:::.*?:::.*?)`, and `(?:` consumes one colon, so each group opens with only `::` | `<!-->A::B:::C<-->` is accepted as template `a::b` with no parameters | each parameter group opens with the `:::` separator, so the line is no directive | medium; not executed | TagParser.AsWrittenAcceptsDoubleColon | TagParser.ParseRendered |

`TagParser.ParseTagAsWritten` is the recognizer as written, exact for names whose characters lower-case as `Strings.Lower` does (see "Left out"). `TagParser.ParseTag` is the corrected recognizer, and the rest of the model uses it.
`TagParser.AsWrittenAgrees` shows that the fix only rejects lines: every line `ParseTag` accepts, the as-written expression accepts with the same tag.
