/**
 * The dictionary endpoint: `parse_wiktionary_content` and the exception
 * handling of `lookup_word`. The network fetch is a parameter: either the
 * page's wikitext or the exception the fetch raised.
 */
module Lookup {
  import opened Wrappers
  import opened Text
  import opened Wikitext

  /** The record the endpoint returns. */
  datatype WordDefinition = WordDefinition(
    word: string,
    definitions: seq<string>,
    pronunciation: Option<string>,
    examples: seq<string>,
    partOfSpeech: Option<string>)

  /** The exceptions that reach `lookup_word`. */
  datatype Exception =
    | HttpException(statusCode: nat, detail: string)
    | NameError(name: string)
    | OtherError(message: string)

  /** What the parser raises for a page without a Vietnamese section. */
  const NoVietnameseEntry: Exception := HttpException(404, "No Vietnamese entry found")

  /** Python's `str(e)` for an exception that is not an HTTP exception. */
  function Describe(e: Exception): (r: string)
    requires !e.HttpException?
  {
    match e
    case NameError(name) => "name '" + name + "' is not defined"
    case OtherError(message) => message
  }

  /**
   * The `except` clauses of `lookup_word`: an HTTP exception is re-raised as
   * it is, any other becomes status 500 carrying its text.
   */
  function ToHttpError(e: Exception): (h: Exception)
    ensures h.HttpException?
    ensures e.HttpException? ==> h == e
  {
    if e.HttpException? then e else HttpException(500, Describe(e))
  }

  /** The text Python gives the NameError raised for `word`. */
  lemma NameErrorText()
    ensures Describe(NameError("word")) == "name 'word' is not defined"
  {
    assert "name '" + "word" + "' is not defined" == "name 'word' is not defined";
  }

  /** Mapping an exception a second time changes nothing. */
  lemma ToHttpErrorIdempotent(e: Exception)
    ensures ToHttpError(ToHttpError(e)) == ToHttpError(e)
  {
  }

  /**
   * One of the two list-building loops: for each line that starts with
   * `marker`, remove templates, then link brackets, and keep the stripped
   * remainder if it was non-empty before stripping.
   */
  method CollectEntries(lines: seq<string>, marker: string) returns (entries: seq<string>)
    ensures entries == Entries(lines, marker)
  {
    PatternsAreMatchers();
    entries := [];
    for i := 0 to |lines|
      invariant entries == Entries(lines[..i], marker)
    {
      var line := lines[i];
      assert lines[..i + 1][..i] == lines[..i];
      if StartsAt(line, marker, 0) {
        var entry := Delete(TemplateMatch, line[|marker|..]);
        entry := Delete(LinkMarkerMatch, entry);
        if entry != [] {
          entries := entries + [Strip(entry)];
        }
      }
    }
    assert lines[..|lines|] == lines;
  }

  /**
   * Everything the parser takes from a Vietnamese section: the definition
   * lines, the pronunciation, the example lines and the part of speech.
   */
  method ExtractFields(text: string, isWord: char -> bool)
    returns (definitions: seq<string>, pronunciation: Option<string>, examples: seq<string>, partOfSpeech: Option<string>)
    ensures definitions == Entries(SplitLines(text), DefinitionMarker)
    ensures examples == Entries(SplitLines(text), ExampleMarker)
    ensures pronunciation == Pronunciation(text)
    ensures partOfSpeech == PartOfSpeech(text, isWord)
  {
    pronunciation := Pronunciation(text);
    definitions := CollectEntries(SplitLines(text), DefinitionMarker);
    examples := CollectEntries(SplitLines(text), ExampleMarker);
    partOfSpeech := PartOfSpeech(text, isWord);
  }

  /**
   * `parse_wiktionary_content` with the looked-up word passed in: 404 when the
   * page has no Vietnamese section, otherwise the fields of that section, and
   * never a part of speech.
   */
  method ParseWiktionaryContent(word: string, content: string, isWord: char -> bool)
    returns (r: Result<WordDefinition, Exception>)
    ensures VietnameseSection(content).None? <==> r == Failure(NoVietnameseEntry)
    ensures VietnameseSection(content).Some? <==> r.Success?
    ensures r.Success? ==> r.value.word == word && r.value.partOfSpeech == None
    ensures r.Success? ==>
      var text := VietnameseSection(content).value;
      && r.value.definitions == Entries(SplitLines(text), DefinitionMarker)
      && r.value.examples == Entries(SplitLines(text), ExampleMarker)
      && r.value.pronunciation == Pronunciation(text)
  {
    var section := VietnameseSection(content);
    if section.None? {
      return Failure(NoVietnameseEntry);
    }
    var text := section.value;
    var definitions, pronunciation, examples, partOfSpeech := ExtractFields(text, isWord);
    PartOfSpeechAlwaysNone(content, isWord);
    return Success(WordDefinition(word, definitions, pronunciation, examples, partOfSpeech));
  }

  /**
   * `parse_wiktionary_content` as written: the record is built from `word`,
   * a name bound neither in the function nor in its module, so every page
   * that has a Vietnamese section raises NameError.
   */
  method ParseWiktionaryContentAsWritten(content: string, isWord: char -> bool)
    returns (r: Result<WordDefinition, Exception>)
    ensures r.Failure?
    ensures VietnameseSection(content).None? ==> r.error == NoVietnameseEntry
    ensures VietnameseSection(content).Some? ==> r.error == NameError("word")
  {
    var section := VietnameseSection(content);
    if section.None? {
      return Failure(NoVietnameseEntry);
    }
    var definitions, pronunciation, examples, partOfSpeech := ExtractFields(section.value, isWord);
    return Failure(NameError("word"));
  }

  /**
   * `lookup_word` on the outcome of the fetch, with the corrected parser:
   * every failure leaves as an HTTP exception; a fetch failure is mapped, a
   * page without a Vietnamese section is 404, any other page gives its record.
   */
  method LookupWord(word: string, fetched: Result<string, Exception>, isWord: char -> bool)
    returns (r: Result<WordDefinition, Exception>)
    ensures r.Failure? ==> r.error.HttpException?
    ensures fetched.Failure? ==> r == Failure(ToHttpError(fetched.error))
    ensures fetched.Success? && VietnameseSection(fetched.value).None? ==> r == Failure(NoVietnameseEntry)
    ensures fetched.Success? && VietnameseSection(fetched.value).Some? ==>
      r.Success? && r.value.word == word && r.value.partOfSpeech == None
    ensures fetched.Success? && VietnameseSection(fetched.value).Some? ==>
      var text := VietnameseSection(fetched.value).value;
      && r.value.definitions == Entries(SplitLines(text), DefinitionMarker)
      && r.value.examples == Entries(SplitLines(text), ExampleMarker)
      && r.value.pronunciation == Pronunciation(text)
  {
    if fetched.Failure? {
      return Failure(ToHttpError(fetched.error));
    }
    var parsed := ParseWiktionaryContent(word, fetched.value, isWord);
    if parsed.Failure? {
      return Failure(ToHttpError(parsed.error));
    }
    return parsed;
  }

  /**
   * `lookup_word` as written: it never returns a record. A page with a
   * Vietnamese section ends in status 500 "name 'word' is not defined".
   */
  method LookupWordAsWritten(fetched: Result<string, Exception>, isWord: char -> bool)
    returns (r: Result<WordDefinition, Exception>)
    ensures r.Failure? && r.error.HttpException?
    ensures fetched.Failure? ==> r == Failure(ToHttpError(fetched.error))
    ensures fetched.Success? && VietnameseSection(fetched.value).None? ==> r == Failure(NoVietnameseEntry)
    ensures fetched.Success? && VietnameseSection(fetched.value).Some? ==>
      r == Failure(HttpException(500, "name 'word' is not defined"))
  {
    if fetched.Failure? {
      return Failure(ToHttpError(fetched.error));
    }
    var parsed := ParseWiktionaryContentAsWritten(fetched.value, isWord);
    NameErrorText();
    return Failure(ToHttpError(parsed.error));
  }

  /** A page for which the two versions differ: it has a Vietnamese section. */
  lemma NameErrorWitness()
    ensures VietnameseSection("==Vietnamese==\n") == Some("==Vietnamese==\n")
  {
    var c := "==Vietnamese==\n";
    assert StartsAt(c, Heading, 0);
    assert IndexOfFrom(c, Heading, 0) == Some(0);
    assert !StartsAt(c, "==", |Heading|);
    assert IndexOfFrom(c, "==", |Heading|) == None;
    assert SectionEnd(c, |Heading|) == |c|;
    assert c[0..|c|] == c;
  }
}
