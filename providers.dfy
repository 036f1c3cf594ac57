/** The language providers of the `oreore` language: go-to-definition,
    completion and signature help. Each answers with fixed data; the word
    under the cursor and the text of the cursor's line are found by the host
    editor and are inputs here. */
module Providers {
  import opened Wrappers

  /** A zero-based line and character offset in a document. */
  datatype Position = Position(line: nat, character: nat)

  /** A file URI, built by the host from the document's file name. */
  datatype Uri = FileUri(fsPath: string)

  datatype Location = Location(uri: Uri, position: Position)

  /** The three words the language knows, in the order of their definition
      lines. */
  const Fruits: seq<string> := ["apple", "banana", "cherry"]

  /** The column every definition sits at. */
  const DefinitionColumn: nat := 4

  /** Go to definition. `word` is the word under the cursor (`None` when the
      host finds no word of `[a-zA-Z0-9_]` characters there). */
  function ProvideDefinition(fileName: string, word: Option<string>): (r: Result<Location, string>)
    ensures word.None? ==> r == Failure("No word here.")
    ensures r.Success? <==> word.Some? && word.value in Fruits
    ensures word.Some? && word.value !in Fruits ==> r == Failure("No definition found")
    ensures r.Success? ==>
      && r.value.uri == FileUri(fileName)
      && r.value.position.character == DefinitionColumn
      && r.value.position.line < |Fruits|
      && Fruits[r.value.position.line] == word.value
  {
    match word
    case None => Failure("No word here.")
    case Some(w) =>
      var line :=
        if w == "apple" then 0
        else if w == "banana" then 1
        else if w == "cherry" then 2
        else -1;
      if line < 0 then Failure("No definition found")
      else Success(Location(FileUri(fileName), Position(line, 4)))
  }

  /** The definitions as a lookup table from word to line. */
  const DefinitionLines: map<string, nat> := map["apple" := 0, "banana" := 1, "cherry" := 2]

  /** The chain of comparisons answers exactly as a lookup in the table. */
  lemma DefinitionIsTableLookup(fileName: string, word: string)
    ensures ProvideDefinition(fileName, Some(word)) ==
      if word in DefinitionLines
      then Success(Location(FileUri(fileName), Position(DefinitionLines[word], DefinitionColumn)))
      else Failure("No definition found")
  {
  }

  /** The kinds of completion item the provider uses. */
  datatype CompletionItemKind = Method | Variable | Value

  datatype CompletionItem = CompletionItem(labelText: string, kind: CompletionItemKind)

  datatype CompletionList = CompletionList(items: seq<CompletionItem>, isIncomplete: bool)

  /** Completion, whatever the position: the same three items, as a
      complete list. */
  function ProvideCompletionItems(position: Position): (r: CompletionList)
    ensures !r.isIncomplete
    ensures |r.items| == |Fruits|
    ensures forall i :: 0 <= i < |r.items| ==> r.items[i].labelText == Fruits[i]
    ensures r.items[0].kind == Variable && r.items[1].kind == Value && r.items[2].kind == Method
  {
    CompletionList(
      [ CompletionItem("apple", Variable),
        CompletionItem("banana", Value),
        CompletionItem("cherry", Method) ],
      false)
  }

  /** Every completion item has a definition, on the line of its place in
      the list. */
  lemma CompletionsHaveDefinitions(fileName: string, position: Position, i: nat)
    requires i < |ProvideCompletionItems(position).items|
    ensures ProvideDefinition(fileName, Some(ProvideCompletionItems(position).items[i].labelText))
      == Success(Location(FileUri(fileName), Position(i, DefinitionColumn)))
  {
    var word := ProvideCompletionItems(position).items[i].labelText;
    assert word == Fruits[i];
  }

  datatype SignatureInformation = SignatureInformation(labelText: string, documentation: string)

  datatype SignatureHelp = SignatureHelp(
    signatures: seq<SignatureInformation>,
    activeSignature: int,
    activeParameter: int)

  /** The signatures offered inside any parenthesis. */
  const Signatures: seq<SignatureInformation> := [
    SignatureInformation("Alice", "King"),
    SignatureInformation("Bob", "Queen"),
    SignatureInformation("Carol", "Jack")
  ]

  /** The number of UTF-16 code units that encode `c`: two for a character
      above U+FFFF (a surrogate pair), one otherwise. */
  function CodeUnits(c: char): nat
  {
    if c >= '\U{10000}' then 2 else 1
  }

  /** The length of `s` in UTF-16 code units, the unit in which the host
      counts columns and in which `substr` counts. */
  function Utf16Length(s: string): nat
  {
    if s == [] then 0 else CodeUnits(s[0]) + Utf16Length(s[1..])
  }

  /** `text.substr(0, n)`, with `n` counted in UTF-16 code units: the
      longest run of whole characters from the start that fits in `n` code
      units. A surrogate pair cut in half by `substr` leaves a lone surrogate,
      which is never `(`, so dropping it does not change which texts
      contain `(`. */
  function Prefix(text: string, n: nat): (r: string)
    ensures |r| <= |text| && r == text[..|r|]
    ensures Utf16Length(r) <= n
    ensures |r| == |text| || Utf16Length(text[..|r| + 1]) > n
    decreases |text|
  {
    if text == [] || CodeUnits(text[0]) > n then
      assert text != [] ==> text[..1] == [text[0]] && text[..1][1..] == [];
      []
    else
      var rest := Prefix(text[1..], n - CodeUnits(text[0]));
      assert |rest| < |text[1..]| ==> text[..|rest| + 2][1..] == text[1..][..|rest| + 1];
      assert ([text[0]] + rest)[1..] == rest;
      [text[0]] + rest
  }

  /** Code-unit offsets grow along the text. */
  lemma {:induction false} Utf16LengthMonotone(s: string, i: nat, j: nat)
    requires i <= j <= |s|
    ensures Utf16Length(s[..i]) <= Utf16Length(s[..j])
    decreases j
  {
    if i < j {
      Utf16LengthMonotone(s, i, j - 1);
      Utf16LengthSnoc(s[..j - 1], s[j - 1]);
      assert s[..j - 1] + [s[j - 1]] == s[..j];
    }
  }

  /** Appending a character adds its code units. */
  lemma {:induction false} Utf16LengthSnoc(s: string, c: char)
    ensures Utf16Length(s + [c]) == Utf16Length(s) + CodeUnits(c)
    decreases |s|
  {
    if s != [] {
      assert (s + [c])[1..] == s[1..] + [c];
      Utf16LengthSnoc(s[1..], c);
    } else {
      assert ([] + [c])[1..] == [];
    }
  }

  /** The character at index `i` lies before a cursor at code-unit column
      `n` exactly when it ends at or before `n`. */
  lemma PrefixHolds(text: string, n: nat, i: nat)
    requires i < |text|
    ensures i < |Prefix(text, n)| <==> Utf16Length(text[..i + 1]) <= n
  {
    var r := Prefix(text, n);
    if i < |r| {
      Utf16LengthMonotone(text, i + 1, |r|);
    } else if |r| < |text| {
      Utf16LengthMonotone(text, |r| + 1, i + 1);
    }
  }

  /** Signature help. `lineText` is the text of the cursor's line and
      `character` the cursor's column on it, in UTF-16 code units. */
  function ProvideSignatureHelp(lineText: string, character: nat): (r: Result<SignatureHelp, string>)
    ensures r.Failure? <==> forall i :: 0 <= i < |lineText| && Utf16Length(lineText[..i + 1]) <= character ==> lineText[i] != '('
    ensures r.Failure? ==> r.error == "no open parenthesis before cursor"
    ensures r.Success? ==>
      && r.value.signatures == Signatures
      && r.value.activeSignature == 0
      && r.value.activeParameter == 0
  {
    var before := Prefix(lineText, character);
    forall j | 1 <= j <= |lineText| ensures j - 1 < |before| <==> Utf16Length(lineText[..j]) <= character {
      PrefixHolds(lineText, character, j - 1);
    }
    if '(' !in before then Failure("no open parenthesis before cursor")
    else Success(SignatureHelp(Signatures, 0, 0))
  }

  /** Once a `(` lies before the cursor, moving the cursor further right
      along the same line keeps signature help available. */
  lemma SignatureHelpStaysOpen(lineText: string, character: nat, later: nat)
    requires character <= later
    requires ProvideSignatureHelp(lineText, character).Success?
    ensures ProvideSignatureHelp(lineText, later).Success?
  {
  }

  /** Typing the trigger character `(` opens signature help right after it:
      the cursor then sits at the code-unit offset where the `(` ends. */
  lemma SignatureHelpAfterParen(lineText: string, i: nat)
    requires i < |lineText| && lineText[i] == '('
    ensures ProvideSignatureHelp(lineText, Utf16Length(lineText[..i + 1])) == Success(SignatureHelp(Signatures, 0, 0))
  {
  }

  /** Columns count UTF-16 code units: in `"😀("` the emoji takes columns 0
      and 1, so at column 2 the `(` is not yet before the cursor. */
  lemma SignatureHelpCountsCodeUnits()
    ensures ProvideSignatureHelp("\U{1F600}(", 2).Failure?
    ensures ProvideSignatureHelp("\U{1F600}(", 3).Success?
  {
    var line := "\U{1F600}(";
    assert line[..1] == "\U{1F600}" && line[..1][1..] == [];
    assert line[..2] == line && line[1..] == "(" && line[1..][1..] == [];
    assert Utf16Length(line[..2]) == 3;
  }
}
