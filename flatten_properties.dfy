/**
 What the flattening promises about the whole result list: there is exactly
 one result per definition, it sits at a position fixed by the order of
 entries, then meanings, then definitions, every position is taken by some
 definition, and nothing is merged or dropped.
 */
module FlattenProperties {
  import opened Records
  import opened Flattening

  /** `(i, j, k)` names definition `k` of meaning `j` of entry `i`. */
  ghost predicate ValidPosition(ws: seq<DictionaryApiResponse>, i: nat, j: nat, k: nat)
  {
    i < |ws| && j < |ws[i].meanings| && k < |ws[i].meanings[j].definitions|
  }

  /**
   Where the result for definition `(i, j, k)` goes: after every definition of
   the earlier entries and of the earlier meanings of entry `i`.
   */
  ghost function Offset(ws: seq<DictionaryApiResponse>, i: nat, j: nat, k: nat): nat
    requires i < |ws| && j <= |ws[i].meanings|
  {
    DefinitionCount(ws[..i]) + MeaningsDefinitionCount(ws[i].meanings[..j]) + k
  }

  // ---------------------------------------------------------------------------
  // Counting

  lemma MeaningsCountAppend(a: seq<Meaning>, b: seq<Meaning>)
    ensures MeaningsDefinitionCount(a + b) == MeaningsDefinitionCount(a) + MeaningsDefinitionCount(b)
  {
    MeaningResultsAppend("", a, b);
  }

  lemma DefinitionCountAppend(a: seq<DictionaryApiResponse>, b: seq<DictionaryApiResponse>)
    ensures DefinitionCount(a + b) == DefinitionCount(a) + DefinitionCount(b)
  {
    FlattenAppend(a, b);
  }

  /** Counting meanings up to `j + 1` adds the definitions of meaning `j`, and counts only grow with the prefix. */
  lemma MeaningsPrefixCount(ms: seq<Meaning>, j: nat, j2: nat)
    requires j < j2 <= |ms|
    ensures MeaningsDefinitionCount(ms[..j]) + |ms[j].definitions| <= MeaningsDefinitionCount(ms[..j2])
  {
    assert ms[..j2] == ms[..j] + [ms[j]] + ms[j + 1..j2];
    MeaningsCountAppend(ms[..j] + [ms[j]], ms[j + 1..j2]);
    MeaningsCountAppend(ms[..j], [ms[j]]);
  }

  /** Counting entries up to `i + 1` adds the definitions of entry `i`, and counts only grow with the prefix. */
  lemma DefinitionPrefixCount(ws: seq<DictionaryApiResponse>, i: nat, i2: nat)
    requires i < i2 <= |ws|
    ensures DefinitionCount(ws[..i]) + MeaningsDefinitionCount(ws[i].meanings) <= DefinitionCount(ws[..i2])
  {
    assert ws[..i2] == ws[..i] + [ws[i]] + ws[i + 1..i2];
    DefinitionCountAppend(ws[..i] + [ws[i]], ws[i + 1..i2]);
    DefinitionCountAppend(ws[..i], [ws[i]]);
  }

  // ---------------------------------------------------------------------------
  // Positions

  /** Within the results of one headword, the result for definition `k` of meaning `j` follows every definition of the earlier meanings. */
  lemma MeaningResultsAt(word: string, ms: seq<Meaning>, j: nat, k: nat)
    requires j < |ms| && k < |ms[j].definitions|
    ensures MeaningsDefinitionCount(ms[..j]) + k < |MeaningResults(word, ms)|
    ensures MeaningResults(word, ms)[MeaningsDefinitionCount(ms[..j]) + k]
            == ResultOf(word, ms[j].partOfSpeech, ms[j].definitions[k])
  {
    assert ms == ms[..j] + ms[j..];
    MeaningResultsAppend(word, ms[..j], ms[j..]);
    assert ms[j..][0] == ms[j];
    DefinitionResultsAt(word, ms[j].partOfSpeech, ms[j].definitions, k);
  }

  /** The results of entry `i` follow every result of the earlier entries. */
  lemma FlattenAtEntry(ws: seq<DictionaryApiResponse>, i: nat, x: nat)
    requires i < |ws| && x < MeaningsDefinitionCount(ws[i].meanings)
    ensures DefinitionCount(ws[..i]) + x < |Flatten(ws)|
    ensures Flatten(ws)[DefinitionCount(ws[..i]) + x] == MeaningResults(ws[i].word, ws[i].meanings)[x]
  {
    assert ws == ws[..i] + ws[i..];
    FlattenAppend(ws[..i], ws[i..]);
    assert ws[i..][0] == ws[i];
  }

  /** The result at `Offset(ws, i, j, k)` is the one for definition `(i, j, k)`. */
  lemma FlattenAt(ws: seq<DictionaryApiResponse>, i: nat, j: nat, k: nat)
    requires ValidPosition(ws, i, j, k)
    ensures Offset(ws, i, j, k) < |Flatten(ws)|
    ensures Flatten(ws)[Offset(ws, i, j, k)]
            == ResultOf(ws[i].word, ws[i].meanings[j].partOfSpeech, ws[i].meanings[j].definitions[k])
  {
    var x := MeaningsDefinitionCount(ws[i].meanings[..j]) + k;
    MeaningResultsAt(ws[i].word, ws[i].meanings, j, k);
    FlattenAtEntry(ws, i, x);
    assert Offset(ws, i, j, k) == DefinitionCount(ws[..i]) + x;
  }

  /** Every position of the flattened meanings belongs to some definition of some meaning. */
  lemma {:induction false} MeaningsPositionOf(ms: seq<Meaning>, p: nat) returns (j: nat, k: nat)
    requires p < MeaningsDefinitionCount(ms)
    ensures j < |ms| && k < |ms[j].definitions|
    ensures MeaningsDefinitionCount(ms[..j]) + k == p
  {
    if p < |ms[0].definitions| {
      j, k := 0, p;
      assert ms[..0] == [];
    } else {
      var j', k' := MeaningsPositionOf(ms[1..], p - |ms[0].definitions|);
      j, k := j' + 1, k';
      assert ms[..j] == [ms[0]] + ms[1..][..j'];
      MeaningsCountAppend([ms[0]], ms[1..][..j']);
    }
  }

  /** Every result comes from some definition: each position has its `(i, j, k)`. */
  lemma {:induction false} FlattenPositionOf(ws: seq<DictionaryApiResponse>, p: nat) returns (i: nat, j: nat, k: nat)
    requires p < |Flatten(ws)|
    ensures ValidPosition(ws, i, j, k)
    ensures Offset(ws, i, j, k) == p
    decreases |ws|, 1
  {
    var n := MeaningsDefinitionCount(ws[0].meanings);
    if p < n {
      i := 0;
      j, k := MeaningsPositionOf(ws[0].meanings, p);
      assert ws[..0] == [];
    } else {
      i, j, k := FlattenPositionOfTail(ws, p - n);
    }
  }

  lemma {:induction false} FlattenPositionOfTail(ws: seq<DictionaryApiResponse>, q: nat) returns (i: nat, j: nat, k: nat)
    requires ws != [] && q < |Flatten(ws[1..])|
    ensures ValidPosition(ws, i, j, k) && i > 0
    ensures Offset(ws, i, j, k) == MeaningsDefinitionCount(ws[0].meanings) + q
    decreases |ws|, 0
  {
    var i', j', k' := FlattenPositionOf(ws[1..], q);
    i, j, k := i' + 1, j', k';
    assert ws[..i] == [ws[0]] + ws[1..][..i'];
    DefinitionCountAppend([ws[0]], ws[1..][..i']);
  }

  /**
   Results follow the order of entries, then meanings, then definitions: a
   definition that comes earlier in that order gets a strictly smaller position.
   */
  lemma OffsetOrdered(ws: seq<DictionaryApiResponse>, i: nat, j: nat, k: nat, i2: nat, j2: nat, k2: nat)
    requires ValidPosition(ws, i, j, k) && ValidPosition(ws, i2, j2, k2)
    requires i < i2 || (i == i2 && j < j2) || (i == i2 && j == j2 && k < k2)
    ensures Offset(ws, i, j, k) < Offset(ws, i2, j2, k2)
  {
    var ms := ws[i].meanings;
    if i < i2 {
      MeaningsPrefixCount(ms, j, |ms|);
      assert ms[..|ms|] == ms;
      DefinitionPrefixCount(ws, i, i2);
    } else if j < j2 {
      MeaningsPrefixCount(ms, j, j2);
    }
  }

  /**
   Nothing is merged: two different definitions get two different positions,
   both holding their own result, even when their titles are the same.
   */
  lemma NoDeduplication(ws: seq<DictionaryApiResponse>, i: nat, j: nat, k: nat, i2: nat, j2: nat, k2: nat)
    requires ValidPosition(ws, i, j, k) && ValidPosition(ws, i2, j2, k2)
    requires (i, j, k) != (i2, j2, k2)
    ensures Offset(ws, i, j, k) != Offset(ws, i2, j2, k2)
    ensures Offset(ws, i, j, k) < |Flatten(ws)| && Offset(ws, i2, j2, k2) < |Flatten(ws)|
  {
    if i < i2 || (i == i2 && j < j2) || (i == i2 && j == j2 && k < k2) {
      OffsetOrdered(ws, i, j, k, i2, j2, k2);
    } else {
      OffsetOrdered(ws, i2, j2, k2, i, j, k);
    }
    FlattenAt(ws, i, j, k);
    FlattenAt(ws, i2, j2, k2);
  }

  /** A meaning that lists the same definition twice yields the same result twice. */
  lemma RepeatedDefinitionKept(word: string, pos: string, d: WordDefinition)
    ensures Flatten([DictionaryApiResponse(word, [Meaning(pos, [d, d])])]) == [ResultOf(word, pos, d), ResultOf(word, pos, d)]
  {
    var m := Meaning(pos, [d, d]);
    var r := ResultOf(word, pos, d);
    assert [d, d][1..] == [d] && [d][1..] == [];
    assert DefinitionResults(word, pos, [d]) == [r];
    assert DefinitionResults(word, pos, [d, d]) == [r, r];
    assert [m][1..] == [];
    assert MeaningResults(word, [m]) == [r, r];
    assert [DictionaryApiResponse(word, [m])][1..] == [];
  }

  /**
   The results are empty exactly when no meaning of any entry has a
   definition (in particular when the lookup found no entries).
   */
  lemma FlattenEmptyIff(ws: seq<DictionaryApiResponse>)
    ensures Flatten(ws) == [] <==>
            forall i, j :: 0 <= i < |ws| && 0 <= j < |ws[i].meanings| ==> ws[i].meanings[j].definitions == []
  {
    if Flatten(ws) != [] {
      var i, j, k := FlattenPositionOf(ws, 0);
    } else {
      forall i, j | 0 <= i < |ws| && 0 <= j < |ws[i].meanings|
        ensures ws[i].meanings[j].definitions == []
      {
        if ws[i].meanings[j].definitions != [] {
          FlattenAt(ws, i, j, 0);
        }
      }
    }
  }

  /** The worked example: one entry "run" with one verb definition and an example. */
  lemma RunExample()
    ensures SearchResults(Ok([DictionaryApiResponse("run", [Meaning("verb", [WordDefinition("move fast", Some("He ran home."))])])]))
            == [SearchResult("verb: move fast", "He ran home.", "run. verb: move fast\nHe ran home.")]
  {
    var d := WordDefinition("move fast", Some("He ran home."));
    var m := Meaning("verb", [d]);
    var w := DictionaryApiResponse("run", [m]);
    var r := SearchResult("verb: move fast", "He ran home.", "run. verb: move fast\nHe ran home.");
    RunExampleRecord();
    assert [d][1..] == [];
    assert DefinitionResults("run", "verb", [d]) == [r];
    assert [m][1..] == [];
    assert MeaningResults("run", [m]) == [r];
    assert [w][1..] == [];
  }

  lemma RunExampleRecord()
    ensures ResultOf("run", "verb", WordDefinition("move fast", Some("He ran home.")))
            == SearchResult("verb: move fast", "He ran home.", "run. verb: move fast\nHe ran home.")
  {
    var d := WordDefinition("move fast", Some("He ran home."));
    var r := ResultOf("run", "verb", d);
    assert r.title == "verb: move fast";
    assert r.context == "He ran home.";
    RunExampleClipboard();
  }

  lemma RunExampleClipboard()
    ensures Clipboard("run", "verb", WordDefinition("move fast", Some("He ran home."))) == "run. verb: move fast\nHe ran home."
  {
    assert "run" + ". " + "verb" + ": " + "move fast" == "run. verb: move fast";
    assert "run. verb: move fast" + "\nHe ran home." == "run. verb: move fast\nHe ran home.";
  }
}
