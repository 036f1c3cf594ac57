# oreore-mode in Dafny

A verified model of the logic inside the `oreore` editor extension
(`extension.js`). The extension plugs fixed answers into a host editor's
extension points. One piece does real work: the "format document" command.
It cuts the whole document text into lines at `\r\n` or `\n`, removes each
line's leading whitespace, and joins the lines again with `\n`. Around it sit
small decision rules: go-to-definition for three fruit words, a signature-help
guard on `(`, a fixed completion list, and the children of a two-level tree.

Modules:

- `Wrappers` (`wrappers.dfy`): `Option` for a host lookup that may find
  nothing, and `Result` for a provider answer that resolves or is rejected.
- `Text` (`text.dfy`): JavaScript's `\s` class (`IsWs`), `split(/\r?\n/)`
  (`Split`), `split('\n')` (`SplitLf`, used to read the output back),
  `join('\n')` (`Join`), `replace(/^\s+/, '')` (`StripLeadingWs`), and the
  round trips between them.
- `Formatter` (`formatter.dfy`): the transform `Format` and its properties.
- `Providers` (`providers.dfy`): definition, completion and signature help.
- `TreeView` (`tree_view.dfy`): the tree data and `getChildren`.

Every part of the source modelled here is pure, so the model is functions
over datatypes with lemmas about them. The only field updates in the source
fill in a freshly made `SignatureHelp`. They are modelled as building the
record at once.

`IsWs` is the exact ECMAScript `\s` set: WhiteSpace (tab, vertical tab, form
feed, space, U+00A0, U+FEFF and the Unicode space separators U+1680,
U+2000 to U+200A, U+202F, U+205F, U+3000) plus LineTerminator (`\n`, `\r`,
U+2028, U+2029). Characters are Unicode scalar values. JavaScript strings are
UTF-16 code units, but every `\s` character lies in the Basic Multilingual
Plane, so the two views give the same lines of the formatted text.

Formatting is idempotent only on some texts. A line can end in a lone `\r`,
as in `"a\r\r\nb"`. That `\r` survives and then meets the joining `\n`, so a
second pass reads `\r\n` there. `"a\r\r\nb"` becomes `"a\r\nb"`, which then
becomes `"a\nb"`. One might expect `Format(Format(T)) == Format(T)` for every
text; the code does not do that, and the model follows the code. It proves
idempotence for texts without `\r` (`FormatIdempotent`), proves that a second
pass changes nothing if and only if no output line but the last ends in `\r`
(`FormatIdempotentWhen`), and proves the counterexample
(`FormatNotIdempotent`).

The host counts a cursor's column in UTF-16 code units, and so does
`substr`. Signature help follows that count: `Utf16Length` gives a text's
length in code units, with two units for a character above U+FFFF.

## Model

| member | source | states |
|---|---|---|
| Text.Split | extension.js:13 | `split(/\r?\n/)` scanning left to right: there is at least one line and no line contains `\n` |
| Text.SplitCount | extension.js:13 | the split has exactly one line more than the text has `\n` characters |
| Text.SplitChars | extension.js:13 | every character of every line comes from the text |
| Text.SplitWithoutCrLf | extension.js:13 | on text without `\r\n`, splitting on `\r?\n` and on `\n` give the same lines |
| Text.SplitLine | extension.js:13 | a `\n`-free line not ending in `\r`, followed by `\n`, is the first piece of the split |
| Text.SplitCrLfLine | extension.js:13 | a `\n`-free line followed by `\r\n` is the first piece, even when it ends in `\r` |
| Text.SplitJoin | extension.js:13 | splitting undoes `join('\n')` for `\n`-free lines where no line but the last ends in `\r` |
| Text.JoinSplit | extension.js:13 | joining the split lines with `\n` gives the text with each `\r\n` turned into `\n` |
| Text.StripLeadingWs | extension.js:13 | `replace(/^\s+/, '')`: the result is a suffix of the line, everything removed is whitespace, and the result is empty or starts with non-whitespace (the removed prefix is maximal) |
| Text.SplitLfJoin | extension.js:13 | for lines without `\n`, splitting their `\n`-join on `\n` gives the same lines back |
| Text.JoinSplitLf | extension.js:13 | joining the `\n`-split lines of any text with `\n` gives the text back |
| Text.HasCrLfJoin | extension.js:13 | if a line other than the last ends in `\r`, the `\n`-joined text contains `\r\n` |
| Formatter.FormatLines | extension.js:13 | read back on `\n`, the output has one line per input line, in order, each equal to the input line with its leading whitespace removed |
| Formatter.FormatUnindents | extension.js:13 | no output line starts with whitespace |
| Formatter.FormatKeepsLineCount | extension.js:13 | the output has exactly as many `\n` as the input |
| Formatter.FormatEmpty | extension.js:13 | the empty text maps to the empty text |
| Formatter.SplitFormat | extension.js:13 | the output splits on `\r?\n` back into the stripped input lines when no stripped line but the last ends in `\r` |
| Formatter.FormatIdempotent | extension.js:13 | formatting twice equals formatting once on text without `\r` |
| Formatter.FormatStable | extension.js:13 | formatting twice equals formatting once when no output line but the last ends in `\r` |
| Formatter.FormatUnstable | extension.js:13 | an output line other than the last that ends in `\r` makes the second pass strictly shorter than the first |
| Formatter.FormatIdempotentWhen | extension.js:13 | formatting twice equals formatting once if and only if no output line but the last ends in `\r` |
| Formatter.FormatNotIdempotent | extension.js:13 | a line ending in a lone `\r` before `\r\n` makes the second pass differ from the first |
| Formatter.FormatCrLfPair | extension.js:13 | two unindented lines separated by `\r\n` come out separated by `\n` |
| Formatter.JoinStripShorter | extension.js:13 | removing indentation from each line never lengthens the joined text |
| Formatter.FormatFixedPoint | extension.js:13 | the text is returned unchanged if and only if it has no `\r\n` and no line starts with whitespace |
| Providers.ProvideDefinition | extension.js:28-43 | no word rejects with "No word here."; `apple`, `banana`, `cherry` resolve to their index as line, column 4, in the document's file; any other word rejects with "No definition found" |
| Providers.DefinitionIsTableLookup | extension.js:34-38 | the chain of comparisons answers exactly as a lookup in the word-to-line table |
| Providers.ProvideCompletionItems | extension.js:48-64 | at every position, a complete list of exactly `apple` (variable), `banana` (value), `cherry` (method) |
| Providers.CompletionsHaveDefinitions | extension.js:49-62 | each completion label resolves to a definition on the line of its place in the list |
| Providers.Prefix | extension.js:71 | `substr(0, n)` with `n` in UTF-16 code units: the longest prefix of whole characters whose code-unit length is at most `n` |
| Providers.PrefixHolds | extension.js:71 | a character lies in `substr(0, n)` exactly when its code-unit end offset is at most `n` |
| Providers.Utf16LengthMonotone | extension.js:71 | a longer prefix of the line never has fewer UTF-16 code units |
| Providers.ProvideSignatureHelp | extension.js:70-81 | rejected with "no open parenthesis before cursor" exactly when no `(` ends at or before the cursor's UTF-16 column; otherwise the Alice/King, Bob/Queen, Carol/Jack signatures with active signature and parameter 0 |
| Providers.SignatureHelpStaysOpen | extension.js:71 | once a `(` lies before the cursor, moving right on the line keeps signature help available |
| Providers.SignatureHelpAfterParen | extension.js:71-81 | with the cursor at the code-unit offset right after a `(`, signature help resolves to the fixed signatures |
| Providers.SignatureHelpCountsCodeUnits | extension.js:71 | on the line `"😀("` a cursor at column 2 is rejected and one at column 3 succeeds, because the emoji takes two code units |
| TreeView.GetChildren | extension.js:146-152 | no element gives the tree's roots; an element gives its own `children` |
| TreeView.RootsOfTree | extension.js:85-139 | the roots are `root1` and `root2`, collapsed, without a command |
| TreeView.ChildrenOfRoot | extension.js:90-137 | each root has two leaves `<root>/child1` and `<root>/child2`, not collapsible, running "say hello", with no children |
| TreeView.ExpandableExactlyWithChildren | extension.js:85-139 | every node has children exactly when it is collapsible |

## Left out

- The document range and the edit (extension.js:10-12, 14): the host's buffer model. `Format` is the string from old text to new text.
- Finding the word under the cursor (`getWordRangeAtPosition`, extension.js:29-32) and the cursor's line (`lineAt`, extension.js:70): host lookups. The word and the line text are inputs.
- Building the file URI from the document's file name (extension.js:40): host code. `FileUri` only records the name.
- The hover provider (extension.js:17-25): it only echoes the word the host found and has no logic of its own.
- `getTreeItem` (extension.js:142-144): it returns its argument unchanged.
- `helloWorld` (extension.js:4-6), `activate` and `deactivate` (extension.js:155-167): notifications, registration and subscriptions belong to the host.
- Promises: a resolved promise is `Success`, a rejected one `Failure`.
- Providers.ProvideSignatureHelp: the failing branch calls `vscode.reject`, which is not part of the host API and would most likely throw; only the rejection condition and message are modelled.
- Providers.ProvideCompletionItems: `CompletionItemKind` holds only the three kinds the list uses, without the host's numeric values.
- The `document`, `position` and `token` arguments the providers ignore are not modelled, except the completion position, which shows that the answer does not depend on it.
- Providers.Prefix: when `n` falls inside a surrogate pair, `substr` keeps the lone high surrogate; the model drops it. A lone surrogate is never `(`, so the signature-help test is unaffected.
