/**
 The pure specification of how a successful lookup is turned into search
 results: one result per definition, walking entries, then meanings, then
 definitions, each in the order the service gave them, with nothing sorted,
 merged or dropped.
 */
module Flattening {
  import opened Records

  /** The line shown for a definition: `<partOfSpeech>: <definition>`. */
  function Title(pos: string, d: WordDefinition): string
  {
    pos + ": " + d.definition
  }

  /** The clipboard text for a definition: `<word>. <title>`, then a newline and the example if there is one. */
  function Clipboard(word: string, pos: string, d: WordDefinition): string
  {
    word + ". " + pos + ": " + d.definition
    + match d.example
      case Some(e) => "\n" + e
      case None => ""
  }

  /** The one result pushed for definition `d` of a meaning with part of speech `pos` under headword `word`. */
  function ResultOf(word: string, pos: string, d: WordDefinition): SearchResult
  {
    SearchResult(Title(pos, d), d.example.GetOr(""), Clipboard(word, pos, d))
  }

  /**
   The three fields of a result are tied to each other: the context is the
   example or "" when there is none, and the clipboard text is the headword,
   ". ", the title and, only when there is an example, a newline and the context.
   */
  lemma ResultFields(word: string, pos: string, d: WordDefinition)
    ensures ResultOf(word, pos, d).title == pos + ": " + d.definition
    ensures d.example.None? ==> ResultOf(word, pos, d).context == ""
    ensures d.example.None? ==> ResultOf(word, pos, d).extraInfo == word + ". " + ResultOf(word, pos, d).title
    ensures d.example.Some? ==> ResultOf(word, pos, d).context == d.example.value
    ensures d.example.Some? ==> ResultOf(word, pos, d).extraInfo == word + ". " + ResultOf(word, pos, d).title + "\n" + ResultOf(word, pos, d).context
  {
  }

  /** The results of the innermost loop: one per definition, in order. */
  function DefinitionResults(word: string, pos: string, defs: seq<WordDefinition>): (r: seq<SearchResult>)
    ensures |r| == |defs|
  {
    if defs == [] then [] else [ResultOf(word, pos, defs[0])] + DefinitionResults(word, pos, defs[1..])
  }

  /** The `k`-th result of the innermost loop is the result for the `k`-th definition. */
  lemma {:induction false} DefinitionResultsAt(word: string, pos: string, defs: seq<WordDefinition>, k: nat)
    requires k < |defs|
    ensures DefinitionResults(word, pos, defs)[k] == ResultOf(word, pos, defs[k])
  {
    if k > 0 {
      DefinitionResultsAt(word, pos, defs[1..], k - 1);
    }
  }

  /** The number of definitions over a sequence of meanings. */
  function MeaningsDefinitionCount(ms: seq<Meaning>): nat
  {
    if ms == [] then 0 else |ms[0].definitions| + MeaningsDefinitionCount(ms[1..])
  }

  /** The number of definitions over all meanings of all entries. */
  function DefinitionCount(ws: seq<DictionaryApiResponse>): nat
  {
    if ws == [] then 0 else MeaningsDefinitionCount(ws[0].meanings) + DefinitionCount(ws[1..])
  }

  /** The results of the middle loop over the meanings of headword `word`. */
  function MeaningResults(word: string, ms: seq<Meaning>): (r: seq<SearchResult>)
    ensures |r| == MeaningsDefinitionCount(ms)
  {
    if ms == [] then []
    else DefinitionResults(word, ms[0].partOfSpeech, ms[0].definitions) + MeaningResults(word, ms[1..])
  }

  /** The results of a successful lookup: the outer loop over entries. */
  function Flatten(ws: seq<DictionaryApiResponse>): (r: seq<SearchResult>)
    ensures |r| == DefinitionCount(ws)
  {
    if ws == [] then [] else MeaningResults(ws[0].word, ws[0].meanings) + Flatten(ws[1..])
  }

  /** What a search returns for a lookup outcome: nothing on an error, the flattened entries otherwise. */
  function SearchResults(lookup: LookupOutcome): seq<SearchResult>
  {
    match lookup
    case Ok(ws) => Flatten(ws)
    case Err(_) => []
  }

  // ---------------------------------------------------------------------------
  // Concatenation: each level of the walk distributes over splitting its input,
  // so the results of earlier items come before those of later ones.

  lemma {:induction false} DefinitionResultsAppend(word: string, pos: string, a: seq<WordDefinition>, b: seq<WordDefinition>)
    ensures DefinitionResults(word, pos, a + b) == DefinitionResults(word, pos, a) + DefinitionResults(word, pos, b)
  {
    if a != [] {
      assert (a + b)[1..] == a[1..] + b;
      DefinitionResultsAppend(word, pos, a[1..], b);
    } else {
      assert a + b == b;
    }
  }

  lemma {:induction false} MeaningResultsAppend(word: string, a: seq<Meaning>, b: seq<Meaning>)
    ensures MeaningResults(word, a + b) == MeaningResults(word, a) + MeaningResults(word, b)
  {
    if a != [] {
      assert (a + b)[1..] == a[1..] + b;
      MeaningResultsAppend(word, a[1..], b);
    } else {
      assert a + b == b;
    }
  }

  lemma {:induction false} FlattenAppend(a: seq<DictionaryApiResponse>, b: seq<DictionaryApiResponse>)
    ensures Flatten(a + b) == Flatten(a) + Flatten(b)
  {
    if a != [] {
      assert (a + b)[1..] == a[1..] + b;
      FlattenAppend(a[1..], b);
    } else {
      assert a + b == b;
    }
  }

  // One more item of each loop adds its results at the end.

  lemma DefinitionResultsStep(done: seq<SearchResult>, word: string, pos: string, defs: seq<WordDefinition>, k: nat)
    requires k < |defs|
    ensures done + DefinitionResults(word, pos, defs[..k]) + [ResultOf(word, pos, defs[k])] == done + DefinitionResults(word, pos, defs[..k + 1])
  {
    assert defs[..k + 1] == defs[..k] + [defs[k]];
    DefinitionResultsAppend(word, pos, defs[..k], [defs[k]]);
  }

  lemma MeaningResultsStep(done: seq<SearchResult>, word: string, ms: seq<Meaning>, j: nat)
    requires j < |ms|
    ensures done + MeaningResults(word, ms[..j]) + DefinitionResults(word, ms[j].partOfSpeech, ms[j].definitions[..|ms[j].definitions|])
            == done + MeaningResults(word, ms[..j + 1])
  {
    assert ms[j].definitions[..|ms[j].definitions|] == ms[j].definitions;
    assert ms[..j + 1] == ms[..j] + [ms[j]];
    MeaningResultsAppend(word, ms[..j], [ms[j]]);
  }

  lemma FlattenStep(ws: seq<DictionaryApiResponse>, i: nat)
    requires i < |ws|
    ensures Flatten(ws[..i]) + MeaningResults(ws[i].word, ws[i].meanings[..|ws[i].meanings|]) == Flatten(ws[..i + 1])
  {
    assert ws[i].meanings[..|ws[i].meanings|] == ws[i].meanings;
    assert ws[..i + 1] == ws[..i] + [ws[i]];
    FlattenAppend(ws[..i], [ws[i]]);
  }

  // ---------------------------------------------------------------------------
  // Format of one result.

  /** The clipboard text always starts with the headword followed by ". ". */
  lemma ClipboardStartsWithWord(word: string, pos: string, d: WordDefinition)
    ensures |word| + 2 <= |ResultOf(word, pos, d).extraInfo|
    ensures ResultOf(word, pos, d).extraInfo[..|word| + 2] == word + ". "
  {
  }

  /**
   When neither the headword, the part of speech nor the definition holds a
   line break, the clipboard text holds one exactly when the definition has
   an example.
   */
  lemma NewlineIffExample(word: string, pos: string, d: WordDefinition)
    requires '\n' !in word && '\n' !in pos && '\n' !in d.definition
    ensures '\n' in ResultOf(word, pos, d).extraInfo <==> d.example.Some?
  {
  }

  lemma NoNewlineInHead(word: string, pos: string, def: string)
    requires '\n' !in word && '\n' !in pos && '\n' !in def
    ensures '\n' !in word + ". " + pos + ": " + def
  {
  }

  /**
   Splits a text at its first line break: the first line and, when there is
   a line break, everything after it.
   */
  function SplitFirstLine(s: string): (r: (string, Option<string>))
    ensures '\n' !in r.0
    ensures r.1.None? ==> r.0 == s
    ensures r.1.Some? ==> s == r.0 + "\n" + r.1.value
  {
    if s == [] then ("", None)
    else if s[0] == '\n' then ("", Some(s[1..]))
    else
      var rest := SplitFirstLine(s[1..]);
      ([s[0]] + rest.0, rest.1)
  }

  /** A text without line breaks, optionally followed by a line break and more, splits back into its parts. */
  lemma {:induction false} SplitFirstLineOf(h: string, t: Option<string>)
    requires '\n' !in h
    ensures SplitFirstLine(h + match t case Some(e) => "\n" + e case None => "") == (h, t)
  {
    var s := h + match t case Some(e) => "\n" + e case None => "";
    if h == [] {
      assert s == match t case Some(e) => "\n" + e case None => "";
      match t
      case Some(e) => assert s[1..] == e;
      case None =>
    } else {
      assert s[0] == h[0] && s[1..] == h[1..] + match t case Some(e) => "\n" + e case None => "";
      SplitFirstLineOf(h[1..], t);
      assert [h[0]] + h[1..] == h;
    }
  }

  /**
   The clipboard text gives back what it was made from: when neither the
   headword, the part of speech nor the definition holds a line break, its
   first line is `<word>. <title>` and the rest, if any, is exactly the example.
   */
  lemma ClipboardRoundTrip(word: string, pos: string, d: WordDefinition)
    requires '\n' !in word && '\n' !in pos && '\n' !in d.definition
    ensures SplitFirstLine(ResultOf(word, pos, d).extraInfo) == (word + ". " + Title(pos, d), d.example)
  {
    NoNewlineInHead(word, pos, d.definition);
    assert word + ". " + Title(pos, d) == word + ". " + pos + ": " + d.definition;
    SplitFirstLineOf(word + ". " + pos + ": " + d.definition, d.example);
  }
}
