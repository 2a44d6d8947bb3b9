/**
 * The search-and-capture expressions of the Wiktionary parser: the Vietnamese
 * section, the IPA pronunciation, the part-of-speech heading, and the
 * clean-up of definition and example lines. Each regular expression is
 * written out as a string function for that one pattern.
 */
module Wikitext {
  import opened Wrappers
  import opened Text

  const Heading: string := "==Vietnamese=="
  const IpaOpen: string := "{{IPA|vi|"
  const DefinitionMarker: string := "# "
  const ExampleMarker: string := "#: "

  // ---------------------------------------------------------------------
  // The Vietnamese section: ==Vietnamese==.*?(?===|\Z) with DOTALL
  // ---------------------------------------------------------------------

  /** Where the lazy `.*?` stops when it starts at `i`: the first "==" from there, or the end. */
  function SectionEnd(content: string, i: nat): (e: nat)
    requires i <= |content|
    ensures i <= e <= |content|
    ensures forall j :: i <= j < e ==> !StartsAt(content, "==", j)
    ensures e == |content| || StartsAt(content, "==", e)
  {
    match IndexOfFrom(content, "==", i)
    case Some(j) => j
    case None => |content|
  }

  /**
   * A stretch that opens with the heading and runs to the section's end
   * starts with the heading and holds no "==" after it.
   */
  lemma SectionShape(content: string, k: nat, e: nat)
    requires StartsAt(content, Heading, k) && k + |Heading| <= e <= |content|
    requires forall j :: k + |Heading| <= j < e ==> !StartsAt(content, "==", j)
    ensures StartsAt(content[k..e], Heading, 0)
    ensures FreeOf(content[k..e][|Heading|..], "==")
  {
    assert content[k..e][..|Heading|] == content[k..k + |Heading|];
    assert content[k..e][|Heading|..] == content[k + |Heading|..e];
    SliceFreeOf(content, "==", k + |Heading|, e);
  }

  /**
   * The text matched by the section search: the first "==Vietnamese==" and
   * everything after it up to, not including, the next "==" or the end.
   * None when the content has no such heading.
   */
  function VietnameseSection(content: string): (r: Option<string>)
    ensures r.None? <==> FreeOf(content, Heading)
    ensures r.Some? ==> StartsAt(r.value, Heading, 0) && FreeOf(r.value[|Heading|..], "==")
    ensures r.Some? ==>
      var k := IndexOfFrom(content, Heading, 0).value;
      && StartsAt(content, r.value, k)
      && (k + |r.value| == |content| || StartsAt(content, "==", k + |r.value|))
      && forall j :: k + |Heading| <= j < k + |r.value| ==> !StartsAt(content, "==", j)
  {
    match IndexOfFrom(content, Heading, 0)
    case None => None
    case Some(k) =>
      var e := SectionEnd(content, k + |Heading|);
      SectionShape(content, k, e);
      Some(content[k..e])
  }

  // ---------------------------------------------------------------------
  // Pronunciation: {{IPA\|vi\|(.*?)}}
  // ---------------------------------------------------------------------

  /** The pronunciation pattern matches at `k`. */
  predicate IpaMatchesAt(text: string, k: nat)
    requires k <= |text|
  {
    StartsAt(text, IpaOpen, k) && CloseAfter(text, k + |IpaOpen|).Some?
  }

  /** The leftmost index at or after `k` where the pronunciation pattern matches. */
  function IpaStart(text: string, k: nat): (r: Option<nat>)
    requires k <= |text|
    ensures r.Some? ==> k <= r.value <= |text| && IpaMatchesAt(text, r.value)
    ensures r.Some? ==> forall j :: k <= j < r.value ==> !IpaMatchesAt(text, j)
    ensures r.None? ==> forall j :: k <= j <= |text| ==> !IpaMatchesAt(text, j)
    decreases |text| - k
  {
    if IpaMatchesAt(text, k) then Some(k)
    else if k == |text| then None
    else IpaStart(text, k + 1)
  }

  /**
   * The text between the first "{{IPA|vi|" that has a "}}" later on the same
   * line and that "}}"; None when there is none.
   */
  function Pronunciation(text: string): (r: Option<string>)
    ensures r.None? <==> forall j :: 0 <= j <= |text| ==> !IpaMatchesAt(text, j)
  {
    match IpaStart(text, 0)
    case None => None
    case Some(j) => Some(text[j + |IpaOpen|..CloseAfter(text, j + |IpaOpen|).value])
  }

  /**
   * At the leftmost match the text reads "{{IPA|vi|", the captured
   * pronunciation, then "}}"; the capture lies on one line and contains no "}}".
   */
  lemma PronunciationShape(text: string)
    requires Pronunciation(text).Some?
    ensures StartsAt(text, IpaOpen + Pronunciation(text).value + "}}", IpaStart(text, 0).value)
    ensures '\n' !in Pronunciation(text).value
    ensures FreeOf(Pronunciation(text).value, "}}")
    ensures var a := IpaStart(text, 0).value + |IpaOpen|;
      forall j :: a <= j < a + |Pronunciation(text).value| ==> !StartsAt(text, "}}", j)
  {
    var p := Pronunciation(text).value;
    var j := IpaStart(text, 0).value;
    var a := j + |IpaOpen|;
    var e := CloseAfter(text, a).value;
    assert p == text[a..e];
    StartsAtConcat(text, IpaOpen, p, "}}", j);
    forall i | 0 <= i < |p| ensures p[i] != '\n' {
      assert p[i] == text[a + i];
    }
    SliceFreeOf(text, "}}", a, e);
  }

  // ---------------------------------------------------------------------
  // Part of speech: ===(\w+)===
  // ---------------------------------------------------------------------

  /** Length of the run of word characters starting at `i`. */
  function WordRun(text: string, isWord: char -> bool, i: nat): (n: nat)
    requires i <= |text|
    ensures i + n <= |text|
    ensures forall j :: i <= j < i + n ==> isWord(text[j])
    ensures i + n < |text| ==> !isWord(text[i + n])
    decreases |text| - i
  {
    if i == |text| || !isWord(text[i]) then 0 else 1 + WordRun(text, isWord, i + 1)
  }

  /**
   * Greedy `\w+` followed by "===", backtracking: the longest `j` in `1..n`
   * such that "===" follows the first `j` characters at `i`.
   */
  function Backtrack(text: string, i: nat, n: nat): (r: Option<string>)
    requires i + n <= |text|
    ensures r.Some? ==> 1 <= |r.value| <= n && r.value == text[i..i + |r.value|]
    ensures r.Some? ==> StartsAt(text, "===", i + |r.value|)
    ensures r.Some? ==> forall j :: i + |r.value| < j <= i + n ==> !StartsAt(text, "===", j)
    ensures r.None? ==> forall j :: i + 1 <= j <= i + n ==> !StartsAt(text, "===", j)
    decreases n
  {
    if n == 0 then None
    else if StartsAt(text, "===", i + n) then Some(text[i..i + n])
    else Backtrack(text, i, n - 1)
  }

  /** The capture of the part-of-speech pattern if it matches at `k`. */
  function PartOfSpeechAt(text: string, isWord: char -> bool, k: nat): (r: Option<string>)
    requires k <= |text|
    ensures r.Some? ==> StartsAt(text, "===", k) && StartsAt(text, "===", k + 3 + |r.value|)
    ensures r.Some? ==> 1 <= |r.value| && forall c :: 0 <= c < |r.value| ==> isWord(r.value[c])
    ensures r.Some? ==> k + 3 + |r.value| <= |text| && r.value == text[k + 3..k + 3 + |r.value|]
    ensures r.Some? ==>
      forall e :: k + 3 + |r.value| < e <= |text| && (forall c :: k + 3 <= c < e ==> isWord(text[c]))
        ==> !StartsAt(text, "===", e)
    ensures r.None? ==>
      forall e :: k + 4 <= e <= |text| && (forall c :: k + 3 <= c < e ==> isWord(text[c]))
        ==> !(StartsAt(text, "===", k) && StartsAt(text, "===", e))
  {
    if StartsAt(text, "===", k) then Backtrack(text, k + 3, WordRun(text, isWord, k + 3)) else None
  }

  /** The leftmost index at or after `k` where the part-of-speech pattern matches. */
  function PartOfSpeechStart(text: string, isWord: char -> bool, k: nat): (r: Option<nat>)
    requires k <= |text|
    ensures r.Some? ==> k <= r.value <= |text| && PartOfSpeechAt(text, isWord, r.value).Some?
    ensures r.Some? ==> forall j :: k <= j < r.value ==> PartOfSpeechAt(text, isWord, j).None?
    ensures r.None? ==> forall j :: k <= j <= |text| ==> PartOfSpeechAt(text, isWord, j).None?
    decreases |text| - k
  {
    if PartOfSpeechAt(text, isWord, k).Some? then Some(k)
    else if k == |text| then None
    else PartOfSpeechStart(text, isWord, k + 1)
  }

  /** `===(\w+)===` searched in `text`, with `isWord` standing for `\w`. */
  function PartOfSpeech(text: string, isWord: char -> bool): (r: Option<string>)
    ensures r.None? <==> forall j :: 0 <= j <= |text| ==> PartOfSpeechAt(text, isWord, j).None?
    ensures r.Some? ==> 1 <= |r.value| && forall c :: 0 <= c < |r.value| ==> isWord(r.value[c])
    ensures r.Some? ==>
      exists j :: 0 <= j <= |text| && r == PartOfSpeechAt(text, isWord, j)
        && forall i :: 0 <= i < j ==> PartOfSpeechAt(text, isWord, i).None?
  {
    match PartOfSpeechStart(text, isWord, 0)
    case None => None
    case Some(j) => PartOfSpeechAt(text, isWord, j)
  }

  /**
   * The section cut stops at the first "==", so the section never holds a
   * "===...===" heading: the part of speech found in it is always None,
   * whatever `\w` stands for.
   */
  lemma PartOfSpeechAlwaysNone(content: string, isWord: char -> bool)
    requires VietnameseSection(content).Some?
    ensures PartOfSpeech(VietnameseSection(content).value, isWord) == None
  {
    var text := VietnameseSection(content).value;
    forall k | 0 <= k <= |text| ensures PartOfSpeechAt(text, isWord, k).None? {
      NoHeadingInSection(text, isWord, k);
    }
  }

  /** "===" occurs nowhere inside the heading "==Vietnamese==". */
  lemma HeadingHasNoTripleEquals(k: nat)
    requires k + 3 <= |Heading|
    ensures Heading[k..k + 3] != "==="
  {
    if k <= 1 {
      assert Heading[k..k + 3][2 - k] == 'V';
    } else if k <= 9 {
      assert Heading[k..k + 3][0] == Heading[k];
      assert Heading[2..12] == "Vietnamese";
      assert Heading[k] == "Vietnamese"[k - 2];
    } else if k == 10 {
      assert Heading[k..k + 3][0] == 's';
    } else {
      assert Heading[k..k + 3][0] == 'e';
    }
  }

  /** No part-of-speech match at any index of a Vietnamese section. */
  lemma NoHeadingInSection(text: string, isWord: char -> bool, k: nat)
    requires StartsAt(text, Heading, 0) && FreeOf(text[|Heading|..], "==")
    requires k <= |text|
    ensures PartOfSpeechAt(text, isWord, k).None?
  {
    assert text[..14] == Heading;
    if k < 12 {
      assert !StartsAt(text, "===", k) by {
        assert text[k..k + 3] == Heading[k..k + 3];
        HeadingHasNoTripleEquals(k);
      }
    } else {
      var rest := text[|Heading|..];
      forall c | k + 3 < c ensures !StartsAt(text, "===", c) {
        if c + 3 <= |text| {
          assert text[c..c + 2] == text[c..c + 3][..2];
          assert text[c..c + 2] == rest[c - 14..c - 12];
          assert !StartsAt(rest, "==", c - 14);
        }
      }
    }
  }

  // ---------------------------------------------------------------------
  // Deleting \{\{.*?\}} and \[\[|\]\] from a line (re.sub with "")
  // ---------------------------------------------------------------------

  /** The length of a match of `\{\{.*?\}}` at index `k` of `s`, if one starts there. */
  function TemplateMatch(s: string, k: nat): (r: Option<nat>)
    ensures r.Some? ==> 4 <= r.value <= |s| - k
    ensures r.Some? ==> StartsAt(s, "{{", k) && StartsAt(s, "}}", k + r.value - 2)
    ensures r.Some? ==> NoNewline(s, k + 2, k + r.value - 2)
    ensures r.Some? ==> forall j :: k + 2 <= j < k + r.value - 2 ==> !StartsAt(s, "}}", j)
    ensures r.None? ==> !StartsAt(s, "{{", k) || CloseAfter(s, k + 2).None?
  {
    if StartsAt(s, "{{", k) then
      match CloseAfter(s, k + 2)
      case Some(e) => Some(e + 2 - k)
      case None => None
    else None
  }

  /** The length of a match of `\[\[|\]\]` at index `k` of `s`, if one starts there. */
  function LinkMarkerMatch(s: string, k: nat): (r: Option<nat>)
    ensures r.Some? <==> StartsAt(s, "[[", k) || StartsAt(s, "]]", k)
    ensures r.Some? ==> r.value == 2 <= |s| - k
  {
    if StartsAt(s, "[[", k) || StartsAt(s, "]]", k) then Some(2) else None
  }

  /**
   * A pattern given by the length of its match at an index of a string;
   * matches are never empty and never run past the end.
   */
  ghost predicate IsMatcher(m: (string, nat) -> Option<nat>)
  {
    forall s: string, k: nat :: k <= |s| && m(s, k).Some? ==> 1 <= m(s, k).value <= |s| - k
  }

  /**
   * `re.sub(pattern, "", s[k..])` as a scan from left to right: drop each
   * match and keep every character at which no match starts.
   */
  function DeleteFrom(m: (string, nat) -> Option<nat>, s: string, k: nat): (r: string)
    requires IsMatcher(m) && k <= |s|
    ensures |r| <= |s| - k
    decreases |s| - k
  {
    if k == |s| then []
    else match m(s, k)
      case Some(n) => DeleteFrom(m, s, k + n)
      case None => [s[k]] + DeleteFrom(m, s, k + 1)
  }

  /** `re.sub(pattern, "", s)`. */
  function Delete(m: (string, nat) -> Option<nat>, s: string): (r: string)
    requires IsMatcher(m)
    ensures |r| <= |s|
  {
    DeleteFrom(m, s, 0)
  }

  /** The leftmost index at or after `k` at which the pattern matches. */
  function FirstMatchFrom(m: (string, nat) -> Option<nat>, s: string, k: nat): (r: Option<nat>)
    requires k <= |s|
    ensures r.Some? ==> k <= r.value < |s| && m(s, r.value).Some?
    decreases |s| - k
  {
    if k == |s| then None
    else if m(s, k).Some? then Some(k)
    else FirstMatchFrom(m, s, k + 1)
  }

  /** FirstMatchFrom finds the leftmost match, and None means no match at any index. */
  lemma {:induction false} FirstMatchIsLeftmost(m: (string, nat) -> Option<nat>, s: string, k: nat)
    requires k <= |s|
    ensures FirstMatchFrom(m, s, k).Some? ==> forall j :: k <= j < FirstMatchFrom(m, s, k).value ==> m(s, j).None?
    ensures FirstMatchFrom(m, s, k).None? ==> forall j :: k <= j < |s| ==> m(s, j).None?
    decreases |s| - k
  {
    if k < |s| && m(s, k).None? {
      FirstMatchIsLeftmost(m, s, k + 1);
    }
  }

  /**
   * Reference definition of `re.sub(pattern, "", s[k..])`: keep the text
   * before the leftmost match, drop the match, and continue after it.
   */
  function SubAllFrom(m: (string, nat) -> Option<nat>, s: string, k: nat): (r: string)
    requires IsMatcher(m) && k <= |s|
    ensures |r| <= |s| - k
    decreases |s| - k
  {
    match FirstMatchFrom(m, s, k)
    case None => s[k..]
    case Some(i) => s[k..i] + SubAllFrom(m, s, i + m(s, i).value)
  }

  /** The scan keeps, unchanged, a stretch of text in which no match starts. */
  lemma {:induction false} DeleteKeepsUnmatched(m: (string, nat) -> Option<nat>, s: string, k: nat, i: nat)
    requires IsMatcher(m) && k <= i <= |s|
    requires forall j :: k <= j < i ==> m(s, j).None?
    ensures DeleteFrom(m, s, k) == s[k..i] + DeleteFrom(m, s, i)
    decreases i - k
  {
    if k < i {
      DeleteKeepsUnmatched(m, s, k + 1, i);
      var rest := DeleteFrom(m, s, i);
      assert DeleteFrom(m, s, k) == [s[k]] + (s[k + 1..i] + rest);
      assert s[k..i] == [s[k]] + s[k + 1..i];
      assert [s[k]] + (s[k + 1..i] + rest) == ([s[k]] + s[k + 1..i]) + rest;
    } else {
      assert s[k..i] + DeleteFrom(m, s, i) == DeleteFrom(m, s, i);
    }
  }

  /**
   * The scan keeps everything before the leftmost match and goes on after
   * the match; with no match it keeps the whole text.
   */
  lemma DeleteUpToMatch(m: (string, nat) -> Option<nat>, s: string, k: nat)
    requires IsMatcher(m) && k <= |s|
    ensures FirstMatchFrom(m, s, k).None? ==> DeleteFrom(m, s, k) == s[k..]
    ensures FirstMatchFrom(m, s, k).Some? ==>
      var i := FirstMatchFrom(m, s, k).value;
      DeleteFrom(m, s, k) == s[k..i] + DeleteFrom(m, s, i + m(s, i).value)
  {
    FirstMatchIsLeftmost(m, s, k);
    match FirstMatchFrom(m, s, k)
    case None =>
      DeleteKeepsUnmatched(m, s, k, |s|);
      assert s[k..|s|] + [] == s[k..];
    case Some(i) =>
      DeleteKeepsUnmatched(m, s, k, i);
  }

  /** The left-to-right scan is `re.sub`: DeleteFrom agrees with SubAllFrom on every input. */
  lemma {:induction false} DeleteIsSubAll(m: (string, nat) -> Option<nat>, s: string, k: nat)
    requires IsMatcher(m) && k <= |s|
    ensures DeleteFrom(m, s, k) == SubAllFrom(m, s, k)
    decreases |s| - k
  {
    DeleteUpToMatch(m, s, k);
    match FirstMatchFrom(m, s, k)
    case None =>
    case Some(i) =>
      var j := i + m(s, i).value;
      DeleteIsSubAll(m, s, j);
      calc {
        DeleteFrom(m, s, k);
        s[k..i] + DeleteFrom(m, s, j);
        s[k..i] + SubAllFrom(m, s, j);
        SubAllFrom(m, s, k);
      }
  }

  /** Text in which the pattern matches nowhere comes out unchanged. */
  lemma DeleteWithoutMatch(m: (string, nat) -> Option<nat>, s: string)
    requires IsMatcher(m)
    requires FirstMatchFrom(m, s, 0).None?
    ensures Delete(m, s) == s
  {
    DeleteUpToMatch(m, s, 0);
    assert s[0..] == s;
  }

  /** Both patterns of the parser are matchers. */
  lemma PatternsAreMatchers()
    ensures IsMatcher(TemplateMatch) && IsMatcher(LinkMarkerMatch)
  {
  }

  /** A line's remainder after its marker: templates removed, then link brackets. */
  function Clean(s: string): (r: string)
    ensures |r| <= |s|
    ensures (forall j :: !StartsAt(s, "{{", j) && !StartsAt(s, "[[", j) && !StartsAt(s, "]]", j)) ==> r == s
  {
    PatternsAreMatchers();
    NoMatchNoChange(s);
    Delete(LinkMarkerMatch, Delete(TemplateMatch, s))
  }

  /** A line with no "{{", "[[" or "]]" has no match of either pattern. */
  lemma NoMatchNoChange(s: string)
    ensures (forall j :: !StartsAt(s, "{{", j) && !StartsAt(s, "[[", j) && !StartsAt(s, "]]", j))
      ==> Delete(TemplateMatch, s) == s && Delete(LinkMarkerMatch, s) == s
  {
    PatternsAreMatchers();
    if forall j :: !StartsAt(s, "{{", j) && !StartsAt(s, "[[", j) && !StartsAt(s, "]]", j) {
      DeleteWithoutMatch(TemplateMatch, s);
      DeleteWithoutMatch(LinkMarkerMatch, s);
    }
  }

  // ---------------------------------------------------------------------
  // Definition and example lists
  // ---------------------------------------------------------------------

  /** What one line adds to the list for `marker` ("# " or "#: "). */
  function EntryOf(line: string, marker: string): (r: seq<string>)
    ensures |r| <= 1
    ensures r != [] <==> StartsAt(line, marker, 0) && Clean(line[|marker|..]) != []
    ensures r != [] ==> StartsAt(line, marker, 0) && |r[0]| <= |line| - |marker|
    ensures r != [] ==> Strip(r[0]) == r[0]
  {
    if StartsAt(line, marker, 0) && Clean(line[|marker|..]) != [] then
      StripIdempotent(Clean(line[|marker|..]));
      [Strip(Clean(line[|marker|..]))]
    else []
  }
  /**
   * The list the parser builds for `marker`: for each line in order that
   * starts with the marker and whose cleaned remainder is non-empty, that
   * remainder stripped.
   */
  function Entries(lines: seq<string>, marker: string): (r: seq<string>)
    ensures |r| <= |lines|
    ensures forall e :: e in r ==> exists l :: l in lines && StartsAt(l, marker, 0) && e == Strip(Clean(l[|marker|..]))
    decreases |lines|
  {
    if lines == [] then []
    else
      var init := lines[..|lines| - 1];
      var last := lines[|lines| - 1];
      assert forall l :: l in init ==> l in lines;
      Entries(init, marker) + EntryOf(last, marker)
  }

  /**
   * Every line that starts with the marker and whose cleaned remainder is
   * non-empty contributes its stripped remainder to the list.
   */
  lemma {:induction false} EntriesComplete(lines: seq<string>, marker: string)
    ensures forall l :: l in lines && StartsAt(l, marker, 0) && Clean(l[|marker|..]) != [] ==>
      Strip(Clean(l[|marker|..])) in Entries(lines, marker)
    decreases |lines|
  {
    if lines != [] {
      var init := lines[..|lines| - 1];
      EntriesComplete(init, marker);
      forall l | l in lines && StartsAt(l, marker, 0) && Clean(l[|marker|..]) != []
        ensures Strip(Clean(l[|marker|..])) in Entries(lines, marker)
      {
        if l != lines[|lines| - 1] {
          assert lines == init + [lines[|lines| - 1]];
          assert l in init;
        }
      }
    }
  }

  /** The list for a concatenation of lines is the concatenation of the lists: order is kept. */
  lemma {:induction false} EntriesAppend(a: seq<string>, b: seq<string>, marker: string)
    ensures Entries(a + b, marker) == Entries(a, marker) + Entries(b, marker)
    decreases |b|
  {
    if b == [] {
      assert a + b == a;
    } else {
      var b' := b[..|b| - 1];
      assert (a + b)[..|a + b| - 1] == a + b';
      EntriesAppend(a, b', marker);
    }
  }

  /** A line never feeds both lists: "# " and "#: " differ at their second character. */
  lemma MarkersExclusive(line: string)
    ensures !(StartsAt(line, DefinitionMarker, 0) && StartsAt(line, ExampleMarker, 0))
    ensures EntryOf(line, DefinitionMarker) == [] || EntryOf(line, ExampleMarker) == []
  {
    if StartsAt(line, DefinitionMarker, 0) {
      assert line[1] == line[..2][1] == ' ';
    }
  }

  /**
   * The emptiness test comes before stripping: a marker line whose cleaned
   * remainder is non-empty whitespace adds an empty string, while one whose
   * remainder is empty adds nothing.
   */
  lemma EmptinessTestedBeforeStrip(line: string, marker: string)
    requires StartsAt(line, marker, 0)
    ensures Clean(line[|marker|..]) == [] ==> Entries([line], marker) == []
    ensures Clean(line[|marker|..]) != [] && (forall i :: 0 <= i < |Clean(line[|marker|..])| ==> IsSpace(Clean(line[|marker|..])[i]))
      ==> Entries([line], marker) == [""]
  {
    assert [line][..0] == [];
    StripEmptyIffAllSpace(Clean(line[|marker|..]));
  }

  /** Witness: "#  " gives the entry "" and "# " gives none. */
  lemma EmptinessWitness()
    ensures Entries(["#  "], DefinitionMarker) == [""]
    ensures Entries(["# "], DefinitionMarker) == []
  {
    var line := "#  ";
    assert line[2..] == " ";
    PatternsAreMatchers();
    assert Delete(TemplateMatch, []) == [];
    assert TemplateMatch(" ", 0).None?;
    assert Delete(TemplateMatch, " ") == " ";
    assert LinkMarkerMatch(" ", 0).None?;
    assert Delete(LinkMarkerMatch, " ") == " ";
    EmptinessTestedBeforeStrip(line, DefinitionMarker);
    EmptinessTestedBeforeStrip("# ", DefinitionMarker);
  }
}
