/**
 The records the English dictionary plugin works with: the shape of one entry
 of the dictionary service's answer (a headword, its meanings, their
 definitions), the outcome of one lookup, and the flat result record that is
 handed back to the search host.
 */
module Records {

  /** An optional value, as Rust's `Option`. */
  datatype Option<T> = None | Some(value: T) {

    /** The value, or `default` when there is none (Rust's `unwrap_or`). */
    function GetOr(default: T): (r: T)
      ensures Some? ==> r == value
      ensures None? ==> r == default
    {
      match this
      case Some(v) => v
      case None => default
    }
  }

  /** One definition of a meaning; the usage example is optional. */
  datatype WordDefinition = WordDefinition(definition: string, example: Option<string>)

  /** One meaning of a headword: a free-form part of speech and its definitions, in service order. */
  datatype Meaning = Meaning(partOfSpeech: string, definitions: seq<WordDefinition>)

  /** One entry of the service's answer: a headword and its meanings, in service order. */
  datatype DictionaryApiResponse = DictionaryApiResponse(word: string, meanings: seq<Meaning>)

  /**
   The outcome of one lookup of a query against the dictionary service:
   the deserialized entries, or a single error whatever went wrong
   (transport failure or a body that is not a list of entries).
   */
  datatype LookupOutcome = Ok(words: seq<DictionaryApiResponse>) | Err(cause: string)

  /**
   A flat result shown by the search host: the line shown (`title`), a
   secondary line (`context`) and the text the plugin copies to the
   clipboard when the result is chosen (`extraInfo`).
   */
  datatype SearchResult = SearchResult(title: string, context: string, extraInfo: string)
}
