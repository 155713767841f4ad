# English dictionary search plugin — result flattening

This project models the search operation of the English dictionary plugin
for the quick-search host. The plugin looks a query up in an online
dictionary. The answer is a list of entries: a headword, its meanings (a
part of speech and its definitions) and, for each definition, an optional
usage example. The plugin turns that nested answer into a flat list of
search results, one per definition, and nothing more. Each result has:

- a title `"<partOfSpeech>: <definition>"`;
- a context: the example, or `""` when there is none;
- an extra-info text that the plugin later copies to the clipboard:
  `"<word>. <partOfSpeech>: <definition>"`, followed by a newline and the
  example only when there is an example.

When the lookup fails, the search returns no results. Results keep the
order of entries, then meanings, then definitions. They are neither sorted
nor deduplicated: the sort and the dedup are commented out in the source.

Modules:

- `Records` (records.dfy): the record types `WordDefinition`, `Meaning`
  and `DictionaryApiResponse` of the service's answer. It also defines the
  lookup outcome `LookupOutcome = Ok(words) | Err(cause)` and the flat
  `SearchResult(title, context, extraInfo)`.
- `Flattening` (flattening.dfy): the pure specification. `ResultOf` builds
  the one result for a definition. `DefinitionResults`, `MeaningResults`
  and `Flatten` are the three loop levels as recursive functions.
  `SearchResults` gives the answer for a lookup outcome. This module also
  holds the lemmas about the format of one result.
- `EnglishDictionary` (english_dictionary.dfy): `Search`, the imperative
  method. Like the source, it runs three nested loops and appends one
  result per definition. It is proved to return exactly `SearchResults`.
- `FlattenProperties` (flatten_properties.dfy): lemmas about the whole
  list. They show exactly one result per definition, each at the position
  fixed by the (entry, meaning, definition) order. Every position belongs
  to a definition. Nothing is merged. The list is empty exactly when there
  are no definitions.

## Model

| member | source | states |
|---|---|---|
| `EnglishDictionary.Search` | src/lib.rs:39-71 | The nested loops over entries, meanings and definitions return exactly `SearchResults(lookup)`: no results when the lookup failed, and otherwise one result per definition, so the length is the total number of definitions |
| `Flattening.ResultFields` | src/lib.rs:47-57 | The title is `pos + ": " + definition`. The context is the example, or `""` when there is none. The clipboard text is `word + ". " + title`, plus `"\n" + context` exactly when there is an example |
| `Flattening.DefinitionResults` | src/lib.rs:46-58 | The innermost loop pushes exactly one result per definition |
| `Flattening.DefinitionResultsAt` | src/lib.rs:46-57 | The k-th result of a meaning is the result for its k-th definition |
| `Flattening.MeaningResults` | src/lib.rs:45-59 | The results of a headword number the sum of the definitions over its meanings |
| `Flattening.Flatten` | src/lib.rs:44-60 | The results of a successful lookup number the sum of the definitions over all entries and their meanings |
| `Flattening.DefinitionResultsAppend` | src/lib.rs:46 | Splitting a meaning's definitions splits its results the same way: the results of earlier definitions come first |
| `Flattening.MeaningResultsAppend` | src/lib.rs:45 | Splitting a headword's meanings splits its results the same way: the results of earlier meanings come first |
| `Flattening.FlattenAppend` | src/lib.rs:44 | Splitting the entries splits the results the same way: the results of earlier entries come first |
| `Flattening.ClipboardStartsWithWord` | src/lib.rs:49-55 | The clipboard text always starts with the headword followed by `". "` |
| `Flattening.NewlineIffExample` | src/lib.rs:49-55 | When headword, part of speech and definition have no line break, the clipboard text has one if and only if the definition has an example |
| `Flattening.ClipboardRoundTrip` | src/lib.rs:49-55 | Under the same condition, splitting the clipboard text at its first line break gives back `word + ". " + title` and exactly the definition's optional example |
| `FlattenProperties.FlattenAt` | src/lib.rs:44-57 | The result for definition k of meaning j of entry i sits at position `Offset(i, j, k)`: after all definitions of earlier entries and of earlier meanings of entry i |
| `FlattenProperties.FlattenPositionOf` | src/lib.rs:44-58 | Every position of the results is `Offset(i, j, k)` for some definition `(i, j, k)`, so no result comes from anywhere else |
| `FlattenProperties.OffsetOrdered` | src/lib.rs:44-46 | A definition that comes earlier in entry, then meaning, then definition order gets a strictly smaller position, so the results are not reordered |
| `FlattenProperties.NoDeduplication` | src/lib.rs:57-68 | Two different definitions get two different positions, both within the results, even when their titles coincide |
| `FlattenProperties.RepeatedDefinitionKept` | src/lib.rs:46-57 | A meaning that lists the same definition twice yields the same result twice |
| `FlattenProperties.FlattenEmptyIff` | src/lib.rs:44-46 | The results are empty if and only if no meaning of any entry has a definition. This covers an empty entry list |
| `FlattenProperties.RunExample` | src/lib.rs:44-58 | For the entry "run" with one verb definition "move fast" and the example "He ran home.", the search gives the single result `("verb: move fast", "He ran home.", "run. verb: move fast\nHe ran home.")` |

## Left out

- `DictionaryApiResponse::get_word` (src/lib.rs:184-192) makes a blocking HTTP request and decodes JSON. This is network I/O in foreign libraries. Its outcome is the input `LookupOutcome` of `Search`. The query string, the URL with its percent-encoding and the HTTP client therefore do not appear.
- The error is only logged (src/lib.rs:63). All logging is left out, because it has no effect on the results.
- `SearchResult::new`, `set_context` and `set_extra_info` belong to the host library, which is not part of this model. They are taken to set the three fields and nothing else. `SearchResult` is a plain record. The conversion of the `Vec` into the host's vector type (src/lib.rs:70) is left out.
- `execute` (src/lib.rs:80-93) writes the extra-info text to the system clipboard. This is an OS side effect with logging only.
- `name`, `colored_name` and `plugin_id` (src/lib.rs:72-79, 94-96) are constant getters or calls into the host library.
- Plugin registration and construction (`get_library`, `get_searchable`, `EnglishDictionary::new`, src/lib.rs:12-36) is ABI glue. `Search` is a plain method, because `search` only reads `self` to reach the HTTP client.
- The commented-out types `Phonetic`, `License` and `PartOfSpeech` (src/lib.rs:110-181) are dead code. The part of speech is a free string, as in the code.
- Rust strings are UTF-8 byte strings. Here they are sequences of characters. The flattening only concatenates strings, so nothing depends on the encoding.
- Idempotence of the search for equal lookup outcomes has no lemma: `SearchResults` is a function, so it holds by construction.
- NewlineIffExample: holds only when the headword, part of speech and definition contain no line break. The service does not guarantee this, and otherwise the clipboard text is ambiguous.
- ClipboardRoundTrip: same premise as NewlineIffExample, for the same reason.
