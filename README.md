# VietLearn core logic in Dafny

This project models the three pieces of logic of the VietLearn prototype that
hold state or compute something:

- **The end-of-lesson practice test** (`PracticeSection`). This is a class
  with the component's state: the question cursor, the answers keyed by
  question id, the recordings, the flashcard flip flag, the score and the
  submitted flag. The event handlers are methods, and `calculateScore` is a
  loop proved against a fold over the question list. The component's own mock
  question list is kept as a concrete witness.
- **The Wiktionary parser of the dictionary endpoint**
  (`parse_wiktionary_content` and the exception handling of `lookup_word`).
  Each regular expression is written out as a string function for that one
  pattern:
  - the section search `==Vietnamese==.*?(?===|\Z)`;
  - the IPA capture `{{IPA\|vi\|(.*?)}}`;
  - the part-of-speech capture `===(\w+)===`, with `\w` as a parameter;
  - the deletions `\{\{.*?\}}` and `\[\[|\]\]`.

  The two list-building loops are methods proved against a function over
  the section's lines.
- **Lesson-page navigation** (`LessonView`). This is a class with one field,
  `activeSection`, changed by the tab, Previous and Next buttons.

The modules follow that split:

| module | contents |
|---|---|
| `Wrappers` | `Option` and `Result` |
| `Text` | substring search, Python's `str.strip()`, `str.split("\n")` |
| `Wikitext` | the patterns of the parser and the definition/example lists |
| `Lookup` | the endpoint's record, exceptions, the parse and lookup methods |
| `Navigation` | the clamped Previous/Next moves shared by both pages |
| `Practice` | the practice test |
| `Lesson` | the lesson page |

Python's regular expressions are modelled with these semantics:
- `re.search` finds the leftmost index at which the pattern matches.
- A lazy `.*?` without DOTALL stops at the first closing delimiter on the same line.
- Greedy `\w+` backtracks to the longest run that is followed by `===`.
- `re.sub(p, "", s)` scans from left to right. Each time the pattern matches, the match is dropped; otherwise the character is kept.
- `str.strip()` removes the characters for which `str.isspace()` holds. That set is written out by code point.

## Model

| member | source | states |
|---|---|---|
| Text.StartsAt | api/main.py:60 | definition only: `p` occurs in `s` at index `i`; at index 0 it is `str.startswith` (lines 60 and 69), and it states the literal parts of every pattern |
| Text.IndexOfFrom | api/main.py:47 | the index found is where the pattern occurs, no earlier index at or after the start has it, and None means it occurs nowhere from there |
| Text.CloseAfter | api/main.py:54 | a lazy `.*?}}` without DOTALL: the first "}}" from the start, with no line break before it; None exactly when no "}}" is reachable on that line |
| Text.Strip | api/main.py:64 | the result is the input without its leading and trailing whitespace: it occurs in the input right after the leading whitespace, everything around it is whitespace, and it neither starts nor ends with whitespace |
| Text.StripIdempotent | api/main.py:64 | stripping twice is stripping once |
| Text.StripEmptyIffAllSpace | api/main.py:63-64 | a string strips to "" exactly when every character is whitespace |
| Text.SplitLines | api/main.py:59 | `split("\n")`: at least one piece, no piece holds a line break, and joining the pieces with "\n" gives back the text |
| Text.SplitJoin | api/main.py:59 | splitting the "\n"-join of line-break-free lines gives back those lines, so split and join are inverse |
| Text.IsSpace | api/main.py:64 | definition only: Python's `str.isspace()` for one character, by code point; `Strip`, `StripIdempotent` and `StripEmptyIffAllSpace` state what it is used for |
| Text.StartsAtConcat | api/main.py:54 | helper of `Wikitext.PronunciationShape`: three pieces occurring one after another occur as their concatenation |
| Wikitext.SectionEnd | api/main.py:47 | the lazy cut stops at the first "==" at or after the start, or at the end of the text when there is none |
| Wikitext.SectionShape | api/main.py:47 | helper of `Wikitext.VietnameseSection`: a stretch from the heading to the cut starts with the heading and holds no "==" after it |
| Wikitext.VietnameseSection | api/main.py:47-51 | None exactly when "==Vietnamese==" occurs nowhere; otherwise the match starts at the first heading, starts with the heading, and ends at the first "==" after the heading (no "==" starts anywhere in between, not even one straddling the end), or at the end of the page when there is none |
| Wikitext.IpaMatchesAt | api/main.py:54 | definition only: the IPA pattern matches at an index when "{{IPA\|vi\|" starts there and a "}}" is reachable after it on the same line (`Text.CloseAfter`); `Wikitext.IpaStart` and `Wikitext.PronunciationShape` state what follows from it |
| Wikitext.IpaStart | api/main.py:54 | the index returned is where the IPA pattern matches, it matches at no earlier index, and None means it matches nowhere |
| Wikitext.Pronunciation | api/main.py:54-55 | None exactly when the IPA pattern matches at no index; what the capture is, is stated by `Wikitext.PronunciationShape` |
| Wikitext.PronunciationShape | api/main.py:54-55 | at the leftmost match the page reads "{{IPA\|vi\|", the capture, then "}}"; the capture lies on one line, and no "}}" starts anywhere from its first character up to its end, so the closing "}}" is the first one (the lazy capture) |
| Wikitext.WordRun | api/main.py:76 | the greedy `\w+` run: every character in it is a word character and the one after it is not |
| Wikitext.Backtrack | api/main.py:76 | backtracking of `\w+===`: the longest prefix of the run followed by "===", and None when no prefix is |
| Wikitext.PartOfSpeechAt | api/main.py:76-77 | a match at an index is "===", a non-empty capture of word characters, then "==="; the capture is the page text right after the first "==="; the capture is the longest such run (greedy), and None means no run of word characters at the index is enclosed by "===" on both sides |
| Wikitext.PartOfSpeechStart | api/main.py:76 | the leftmost index at which the part-of-speech pattern matches, None when it matches nowhere |
| Wikitext.PartOfSpeech | api/main.py:76-77 | `re.search(r"===(\w+)===", text)`: None exactly when the pattern matches at no index; otherwise the capture of the match at the leftmost index where the pattern matches (so page text of word characters, non-empty) |
| Wikitext.HeadingHasNoTripleEquals | api/main.py:47 | helper of `Wikitext.NoHeadingInSection`: "===" occurs nowhere in "==Vietnamese==" |
| Wikitext.NoHeadingInSection | api/main.py:76-77 | in a text that starts with the heading and holds no "==" after it, the part-of-speech pattern matches at no index |
| Wikitext.PartOfSpeechAlwaysNone | api/main.py:76-77 | because the section stops at the first "==" (line 47), the part of speech found in it is always None, whatever `\w` stands for |
| Wikitext.TemplateMatch | api/main.py:61 | a template match at an index runs from "{{" to the first "}}" after it (no "}}" starts in between) with no line break in between; None when there is no "{{" there or no such "}}" |
| Wikitext.LinkMarkerMatch | api/main.py:62 | a match exactly when "[[" or "]]" starts at the index, and then of length 2 |
| Wikitext.PatternsAreMatchers | api/main.py:61-62 | both patterns give non-empty matches that stay inside the text |
| Wikitext.DeleteFrom | api/main.py:61-62 | the deletion scan never lengthens the text |
| Wikitext.Delete | api/main.py:61-62 | `re.sub(p, "", s)` never lengthens the text |
| Wikitext.SubAllFrom | api/main.py:61-62 | reference definition of `re.sub(p, "", s)` by repeated leftmost search; it never lengthens the text, and `Wikitext.DeleteIsSubAll` proves the scan equal to it |
| Wikitext.FirstMatchFrom | api/main.py:61 | the index returned is inside the text and the pattern matches there |
| Wikitext.FirstMatchIsLeftmost | api/main.py:61 | no match starts before the index found, and None means no match at any index |
| Wikitext.DeleteKeepsUnmatched | api/main.py:61-62 | helper of `Wikitext.DeleteIsSubAll`: a stretch in which no match starts is copied unchanged |
| Wikitext.DeleteUpToMatch | api/main.py:61-62 | helper of `Wikitext.DeleteIsSubAll`: the scan keeps the text before the leftmost match, drops the match and goes on after it; with no match it keeps the whole text |
| Wikitext.DeleteIsSubAll | api/main.py:61-62 | the scan equals the reference `re.sub`: remove the leftmost match, then continue after it |
| Wikitext.DeleteWithoutMatch | api/main.py:61-62 | a text in which the pattern matches nowhere comes out unchanged |
| Wikitext.NoMatchNoChange | api/main.py:61-62 | helper of `Wikitext.Clean`: a line with no "{{", "[[" or "]]" is left unchanged by both substitutions |
| Wikitext.Clean | api/main.py:61-62 | the two substitutions in order, as applied to a definition (lines 61-62) or example (lines 70-71) remainder: the result is never longer, and a remainder with no "{{", "[[" or "]]" comes out unchanged |
| Wikitext.EntryOf | api/main.py:60-64 | one line adds at most one entry, and it adds one exactly when it starts with the marker and its cleaned remainder is non-empty; the entry is no longer than the line after the marker and is already stripped |
| Wikitext.Entries | api/main.py:58-64 | the list has at most one entry per line, and each entry is the stripped, cleaned remainder of a line that starts with the marker |
| Wikitext.EntriesComplete | api/main.py:58-64 | conversely, every line that starts with the marker and whose cleaned remainder is non-empty puts its stripped remainder in the list |
| Wikitext.EntriesAppend | api/main.py:59-64 | the list for two blocks of lines is the list for the first followed by the list for the second, so line order is kept |
| Wikitext.MarkersExclusive | api/main.py:60-69 | no line starts with both "# " and "#: ", so no line feeds both lists |
| Wikitext.EmptinessTestedBeforeStrip | api/main.py:63-64 | a marker line with an empty cleaned remainder adds nothing, and one whose remainder is non-empty whitespace adds "" |
| Wikitext.EmptinessWitness | api/main.py:63-64 | "#  " adds the definition "" while "# " adds none |
| Lookup.Describe | api/main.py:99 | definition only: Python's `str(e)` for a NameError ("name '<name>' is not defined") or any other exception's carried text; `Lookup.NameErrorText` states the NameError case |
| Lookup.ToHttpError | api/main.py:96-99 | every exception leaves as an HTTP exception, and an HTTP exception leaves unchanged |
| Lookup.ToHttpErrorIdempotent | api/main.py:96-99 | mapping an already mapped exception changes nothing |
| Lookup.NameErrorText | api/main.py:99 | the text of the NameError for `word` is "name 'word' is not defined" |
| Lookup.CollectEntries | api/main.py:58-64 | the loop builds exactly the list that `Entries` defines for the marker |
| Lookup.ExtractFields | api/main.py:53-77 | definitions and examples are the lists for "# " and "#: " over the section's lines; pronunciation and part of speech are the two captures |
| Lookup.ParseWiktionaryContent | api/main.py:45-85 | 404 "No Vietnamese entry found" exactly when there is no section, a record exactly when there is one; the record has the looked-up word, no part of speech, and the section's lists and pronunciation |
| Lookup.ParseWiktionaryContentAsWritten | api/main.py:79-85 | as written the parser always raises: 404 without a section, NameError for `word` with one |
| Lookup.LookupWord | api/main.py:93-99 | every failure leaves as an HTTP exception: a fetch failure is mapped, a page without a section gives 404, and any other page gives the record for the word whose definitions, examples and pronunciation are those of the page's Vietnamese section and whose part of speech is None |
| Lookup.LookupWordAsWritten | api/main.py:93-99 | as written the endpoint never returns a record: a page with a Vietnamese section ends in 500 "name 'word' is not defined" |
| Lookup.NameErrorWitness | api/main.py:47-51 | the page "==Vietnamese==\n" has a Vietnamese section, so it reaches line 80 |
| Navigation.Previous | src/components/LessonView.tsx:127 | definition only: `Math.max(0, i - 1)`; its meaning is stated by the four Navigation lemmas below |
| Navigation.Next | src/components/LessonView.tsx:135 | definition only: `Math.min(n - 1, i + 1)` for an n-item list; its meaning is stated by the four Navigation lemmas below |
| Navigation.MovesStayInRange | src/components/LessonView.tsx:127-136 | Previous and Next keep an index of an n-item list in [0, n-1] |
| Navigation.MovesStepByOne | src/components/LessonView.tsx:127-136 | Previous steps back by one except at 0; Next steps on by one except at the last index |
| Navigation.NextThenPrevious | src/components/LessonView.tsx:127-135 | from any index but the last, Next then Previous comes back |
| Navigation.PreviousThenNext | src/components/LessonView.tsx:127-135 | from any index but the first, Previous then Next comes back |
| Lesson.LessonView.constructor | src/components/LessonView.tsx:75-82 | the page opens on section 0 of the four sections |
| Lesson.LessonView.ActiveTitle | src/components/LessonView.tsx:123 | indexing the sections by the active section is always defined and gives one of the four titles |
| Lesson.LessonView.ClickTab | src/components/LessonView.tsx:108-113 | clicking tab k makes k the active section and keeps the range invariant |
| Lesson.LessonView.PreviousEnabled | src/components/LessonView.tsx:128 | definition only: Previous is disabled on the first section; `Lesson.LessonView.ClickPrevious` is stated in its terms |
| Lesson.LessonView.NextEnabled | src/components/LessonView.tsx:136 | definition only: Next is disabled on the last section; `Lesson.LessonView.ClickNext` is stated in its terms |
| Lesson.LessonView.ClickPrevious | src/components/LessonView.tsx:127-128 | the active section becomes max(0, i-1), and nothing changes when the button is disabled |
| Lesson.LessonView.ClickNext | src/components/LessonView.tsx:135-136 | the active section becomes min(3, i+1), and nothing changes when the button is disabled |
| Lesson.NextThenPreviousReturns | src/components/LessonView.tsx:127-136 | from an interior section, Next then Previous returns to it |
| Practice.StoredAnswer | src/components/lesson/PracticeSection.tsx:97 | definition only: `answers[question.id]`, undefined when the id has no entry, for ids that do not name an inherited `Object.prototype` member (see "## Left out") |
| Practice.MockIdsArePlain | src/components/lesson/PracticeSection.tsx:25-76 | no mock question id names an `Object.prototype` member, so for the mock list the map lookup is exactly `answers[question.id]` |
| Practice.IsCorrect | src/components/lesson/PracticeSection.tsx:98 | definition only: strict equality of the stored answer and the correct answer, undefined equal to undefined; `Practice.MockExactComparison` and `Practice.UnansweredUnkeyedQuestionsScore` state its consequences |
| Practice.TotalPoints | src/components/lesson/PracticeSection.tsx:265 | definition only: the reduce over the points; `Practice.ScoreAtMostTotal`, `Practice.FullMarksIff` and `Practice.MockTotal` state its properties |
| Practice.ScoreOf | src/components/lesson/PracticeSection.tsx:94-104 | definition only: the points of the questions answered exactly right, in list order; `Practice.PracticeSection.CalculateScore` is proved equal to it and `Practice.ScoreAtMostTotal`/`Practice.FullMarksIff` state its properties |
| Practice.ScoreAtMostTotal | src/components/lesson/PracticeSection.tsx:94-104 | the score never exceeds the total points shown beside it |
| Practice.FullMarksIff | src/components/lesson/PracticeSection.tsx:94-104 | the score is the total exactly when every question worth points is answered exactly right |
| Practice.FreePoints | src/components/lesson/PracticeSection.tsx:97-99 | helper of `Practice.UnansweredUnkeyedQuestionsScore`, definition only: the points of the questions with no correct answer and no stored answer |
| Practice.UnansweredUnkeyedQuestionsScore | src/components/lesson/PracticeSection.tsx:97-99 | questions with no correct answer and no stored answer count as correct: their points are part of the score (for ids that do not name an `Object.prototype` member, see "## Left out") |
| Practice.WritesAnswer | src/components/lesson/PracticeSection.tsx:106-255 | definition only: the question types whose rendered controls call `handleAnswer` (multiple choice, free response, vocabulary bank, image selection): all but flashcard and speaking |
| Practice.AnswerableIds | src/components/lesson/PracticeSection.tsx:106-255 | definition only: the ids of the questions whose controls call `handleAnswer`; `Practice.AnswerableIdsContains` and `Practice.MockAnswerableIds` state its contents, and `Practice.PracticeSection.Valid` bounds the answer keys by it |
| Practice.SpeakingIds | src/components/lesson/PracticeSection.tsx:207-221 | definition only: the ids of the speaking questions, the only ones rendered with a recorder calling `handleRecording`; `Practice.SpeakingIdsContains` states its contents |
| Practice.AnswerableIdsContains | src/components/lesson/PracticeSection.tsx:86-88 | a question whose controls store answers has its id among the answerable ids |
| Practice.SpeakingIdsContains | src/components/lesson/PracticeSection.tsx:90-92 | a speaking question has its id among the ids with a recorder |
| Practice.MockTotal | src/components/lesson/PracticeSection.tsx:265 | the total of the mock list is 10 |
| Practice.MockScore | src/components/lesson/PracticeSection.tsx:25-76 | the score of the mock list (the constants `MockQuestions` and `Q1`-`Q6`, which copy ids, types, texts, correct answers and points of the six mock questions) is the sum of 1, 2, 2, 1, 3, 1 over the questions answered exactly right |
| Practice.MockEmptySubmission | src/components/lesson/PracticeSection.tsx:50-62 | with no answers the mock list scores 4 of 10: the flashcard and speaking points |
| Practice.MockAnswerableIds | src/components/lesson/PracticeSection.tsx:25-76 | answers can be stored only under the ids 1, 2, 3 and 6 |
| Practice.MockScoreBounds | src/components/lesson/PracticeSection.tsx:50-62 | whatever the learner enters, the score lies between 4 and 10 |
| Practice.MockExactComparison | src/components/lesson/PracticeSection.tsx:98 | answers are compared exactly: "hello" earns nothing for "Hello", "Hello" earns its point |
| Practice.MockBankWordNeverCorrect | src/components/lesson/PracticeSection.tsx:45-46 | no single word of the vocabulary bank equals the expected answer |
| Practice.IndexToString | src/components/lesson/PracticeSection.tsx:229 | `index.toString()`: a non-empty string of decimal digits without a leading zero |
| Practice.DecimalRoundTrip | src/components/lesson/PracticeSection.tsx:229 | reading the decimal string back gives the index |
| Practice.ImageChoiceCorrectIff | src/components/lesson/PracticeSection.tsx:73 | choosing image k matches the expected "2" exactly when k is 2 |
| Practice.PracticeSection.constructor | src/components/lesson/PracticeSection.tsx:79-84 | the test mounts on question 0 with no answers, no recordings, score 0 and not submitted |
| Practice.PracticeSection.Current | src/components/lesson/PracticeSection.tsx:273-280 | definition only: `mockQuestions[currentQuestion]`, the question on screen, defined under the class invariant; the handlers' contracts are stated in its terms |
| Practice.PracticeSection.HandleAnswer | src/components/lesson/PracticeSection.tsx:86-88 | only the current question's entry changes; it is set to the answer, and the recordings, score and cursor are untouched |
| Practice.PracticeSection.HandleRecording | src/components/lesson/PracticeSection.tsx:90-92 | only the current question's recording changes; the answers and score are untouched |
| Practice.PracticeSection.CalculateScore | src/components/lesson/PracticeSection.tsx:94-104 | the score becomes the sum of the points of the questions answered exactly right, and the test is marked submitted |
| Practice.PracticeSection.SelectOption | src/components/lesson/PracticeSection.tsx:114 | clicking option k stores that option for the current question |
| Practice.PracticeSection.EditText | src/components/lesson/PracticeSection.tsx:145 | typing stores the whole text for the current question |
| Practice.PracticeSection.ClickBankWord | src/components/lesson/PracticeSection.tsx:166 | clicking a bank word replaces the answer with that one word; nothing is appended |
| Practice.PracticeSection.SelectImage | src/components/lesson/PracticeSection.tsx:229 | choosing image k stores the decimal string of k |
| Practice.PracticeSection.FlipFlashcard | src/components/lesson/PracticeSection.tsx:187 | clicking the flashcard negates the flip flag |
| Practice.FlipTwiceRestores | src/components/lesson/PracticeSection.tsx:187 | two clicks on the flashcard restore the side shown before |
| Practice.PracticeSection.ClickPrevious | src/components/lesson/PracticeSection.tsx:285-286 | the cursor becomes max(0, i-1) and stays on a question |
| Practice.PracticeSection.ClickNext | src/components/lesson/PracticeSection.tsx:302 | the cursor becomes min(n-1, i+1) and stays on a question |
| Practice.PracticeSection.SubmitEnabled | src/components/lesson/PracticeSection.tsx:292-295 | definition only: Submit is rendered on the last question only and disabled once submitted; `Practice.PracticeSection.ClickSubmit` is stated in its terms |
| Practice.PracticeSection.ClickSubmit | src/components/lesson/PracticeSection.tsx:292-299 | on the last question and not yet submitted the score is computed; otherwise the score and flag are unchanged, so the score is set at most once |
| Practice.EmptySubmission | src/components/lesson/PracticeSection.tsx:78-104 | walking to the last question without answering and submitting gives a score of 4 with a total of 10 |

The class invariant `Practice.PracticeSection.Valid` holds through every
handler. It says four things:
- the cursor is on a question;
- answers are stored only under ids whose controls write answers;
- recordings are stored only under speaking questions;
- the score is 0 until submission and never above the total.

`Lesson.LessonView.Valid` says that the active section indexes the four
sections.

## Left out

- Rendering, styling, icons and the feedback colours of the JSX are not modelled. Only the state each control writes is.
- Audio playback (`new Audio(...).play()`) and the recorder component are left out, because both depend on browser media APIs. A recording reaches the model as an opaque byte sequence passed to `HandleRecording`.
- The network fetch `fetch_wiktionary_content`, the FastAPI app, CORS, the health check and the server start-up are left out. The fetch's outcome is a parameter of `LookupWord`: the page text, or the exception the fetch raised.
- Pydantic's validation of the returned record is not modelled; the record is a plain datatype.
- `\w` is the parameter `isWord`. Python's Unicode word-character table is not written out, and the part-of-speech result is None whatever the parameter is.
- The text of an arbitrary Python exception is carried in `OtherError`. Only the NameError text is spelled out.
- Practice.StoredAnswer: `answers` is a plain object literal (src/components/lesson/PracticeSection.tsx:80), so `answers[id]` for an id that names an inherited `Object.prototype` member ("toString", "constructor", "valueOf", "__proto__", ...) yields that member, not undefined. The model treats the lookup as a map lookup, which is exact only for ids outside `Practice.ObjectPrototypeNames`; this holds for every mock id (`Practice.MockIdsArePlain`).
- Practice.UnansweredUnkeyedQuestionsScore: holds for question lists whose ids do not name an `Object.prototype` member. For an unanswered question without a correct answer and with such an id, the component compares the inherited member with undefined and awards nothing.
- Practice.TotalPoints, Practice.ScoreOf and Practice.PracticeSection.CalculateScore: `Question.points` and the sums over it are natural numbers. JavaScript number arithmetic is not modelled, since all points are small integers.
- The lesson page passes `exercises` to the practice test, but the component takes no props and always uses its own question list. The model's class takes its list as a constructor argument, and `MockQuestions` is the list the page actually shows.
- `Practice.PracticeSection.ClickSubmit`: "the score is set at most once" holds for one mount of the practice test only. The lesson page renders only the active section (src/components/LessonView.tsx:123), so leaving the Practice tab unmounts the test and discards its state; coming back mounts it afresh with score 0 and not submitted, and the learner can submit again. Each `PracticeSection` object stands for one mount, and `LessonView` and `PracticeSection` are not linked in the model.
- The lesson page's loading of lesson data (`useParams`, `useEffect`, the mock lesson) is not modelled, because it changes nothing the page computes.
- The progress percentages on other pages and the client-side API wrapper and store are not part of this model.

## Findings

| source | as written | input that shows it | evidently intended | confidence | as-written member | corrected member |
|---|---|---|---|---|---|---|
| api/main.py:80 | the record is built from `word`, which is neither a parameter of `parse_wiktionary_content` nor a module-level name, so a NameError is raised and `lookup_word` turns it into status 500 "name 'word' is not defined" | any page with a Vietnamese section, e.g. the content "==Vietnamese==\n" | return the record for the word that was looked up | high (not executed) | Lookup.LookupWordAsWritten | Lookup.LookupWord |
