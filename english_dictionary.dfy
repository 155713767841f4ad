/**
 The search operation of the English dictionary plugin. The lookup itself
 (an HTTP request and JSON decoding) is outside the model: its outcome is
 the input. The method walks the entries with three nested loops and pushes
 one result per definition, and is proved to return exactly `SearchResults`.
 */
module EnglishDictionary {
  import opened Records
  import opened Flattening

  method Search(lookup: LookupOutcome) returns (res: seq<SearchResult>)
    ensures res == SearchResults(lookup)
    ensures lookup.Err? ==> res == []
    ensures lookup.Ok? ==> |res| == DefinitionCount(lookup.words)
  {
    res := [];
    match lookup {
      case Ok(words) =>
        for i := 0 to |words|
          invariant res == Flatten(words[..i])
        {
          var word := words[i];
          ghost var before := res;
          for j := 0 to |word.meanings|
            invariant res == before + MeaningResults(word.word, word.meanings[..j])
          {
            var meaning := word.meanings[j];
            ghost var beforeMeaning := res;
            for k := 0 to |meaning.definitions|
              invariant res == beforeMeaning + DefinitionResults(word.word, meaning.partOfSpeech, meaning.definitions[..k])
            {
              var definition := meaning.definitions[k];
              res := res + [ResultOf(word.word, meaning.partOfSpeech, definition)];
              DefinitionResultsStep(beforeMeaning, word.word, meaning.partOfSpeech, meaning.definitions, k);
            }
            MeaningResultsStep(before, word.word, word.meanings, j);
          }
          FlattenStep(words, i);
        }
        assert words[..|words|] == words;
      case Err(_) =>
    }
  }
}
