/**
 * String primitives used by the wikitext parser: substring search, Python's
 * `str.strip()` and `str.split("\n")`.
 */
module Text {
  import opened Wrappers

  /** `p` occurs in `s` at index `i`. */
  predicate StartsAt(s: string, p: string, i: int)
  {
    0 <= i && i + |p| <= |s| && s[i..i + |p|] == p
  }

  /** `p` occurs nowhere in `s`. */
  ghost predicate FreeOf(s: string, p: string)
  {
    forall j :: !StartsAt(s, p, j)
  }

  /** A slice in which no occurrence of `p` of the whole string fits is free of `p`. */
  lemma SliceFreeOf(s: string, p: string, i: nat, e: nat)
    requires i <= e <= |s|
    requires forall j :: i <= j && j + |p| <= e ==> !StartsAt(s, p, j)
    ensures FreeOf(s[i..e], p)
  {
    forall j | 0 <= j && j + |p| <= e - i ensures !StartsAt(s[i..e], p, j) {
      var q := s[i..e];
      assert forall k :: j <= k < j + |p| ==> q[k] == s[i + k];
      assert q[j..j + |p|] == s[i + j..i + j + |p|];
      assert !StartsAt(s, p, i + j);
    }
  }

  /** Three pieces occurring one after the other occur together. */
  lemma StartsAtConcat(s: string, a: string, b: string, c: string, i: nat)
    requires StartsAt(s, a, i) && StartsAt(s, b, i + |a|) && StartsAt(s, c, i + |a| + |b|)
    ensures StartsAt(s, a + b + c, i)
  {
    var j, k := i + |a|, i + |a| + |b|;
    assert s[i..k + |c|] == s[i..j] + s[j..k] + s[k..k + |c|];
  }

  /** The leftmost index at or after `i` where `p` occurs in `s`. */
  function IndexOfFrom(s: string, p: string, i: nat): (r: Option<nat>)
    requires i <= |s|
    ensures r.Some? ==> i <= r.value && StartsAt(s, p, r.value)
    ensures r.Some? ==> forall j :: i <= j < r.value ==> !StartsAt(s, p, j)
    ensures r.None? ==> forall j :: i <= j ==> !StartsAt(s, p, j)
    decreases |s| - i
  {
    if StartsAt(s, p, i) then Some(i)
    else if i == |s| then None
    else IndexOfFrom(s, p, i + 1)
  }

  /** No line break in `s[i..e]`. */
  predicate NoNewline(s: string, i: int, e: int)
    requires 0 <= i <= e <= |s|
  {
    forall j :: i <= j < e ==> s[j] != '\n'
  }

  /**
   * The lazy `.*?}}` of a regular expression without DOTALL, starting at `i`:
   * the first `e >= i` where "}}" occurs, provided no line break comes before it.
   */
  function CloseAfter(s: string, i: nat): (r: Option<nat>)
    requires i <= |s|
    ensures r.Some? ==> i <= r.value && r.value + 2 <= |s| && StartsAt(s, "}}", r.value)
    ensures r.Some? ==> NoNewline(s, i, r.value)
    ensures r.Some? ==> forall j :: i <= j < r.value ==> !StartsAt(s, "}}", j)
    ensures r.None? ==> forall e :: i <= e <= |s| && NoNewline(s, i, e) ==> !StartsAt(s, "}}", e)
    decreases |s| - i
  {
    if StartsAt(s, "}}", i) then Some(i)
    else if i == |s| || s[i] == '\n' then None
    else CloseAfter(s, i + 1)
  }

  /** Python's `str.isspace()` for one character, by code point. */
  predicate IsSpace(c: char)
  {
    var n := c as int;
    n == 0x20 || 0x09 <= n <= 0x0D || 0x1C <= n <= 0x1F || n == 0x85 || n == 0xA0
    || n == 0x1680 || 0x2000 <= n <= 0x200A || n == 0x2028 || n == 0x2029
    || n == 0x202F || n == 0x205F || n == 0x3000
  }

  /** Number of whitespace characters at the start of `s`. */
  function LeadingSpaces(s: string): (n: nat)
    ensures n <= |s|
    ensures forall i :: 0 <= i < n ==> IsSpace(s[i])
    ensures n < |s| ==> !IsSpace(s[n])
  {
    if s == [] || !IsSpace(s[0]) then 0 else 1 + LeadingSpaces(s[1..])
  }

  /** Number of whitespace characters at the end of `s`. */
  function TrailingSpaces(s: string): (n: nat)
    ensures n <= |s|
    ensures forall i :: |s| - n <= i < |s| ==> IsSpace(s[i])
    ensures n < |s| ==> !IsSpace(s[|s| - 1 - n])
  {
    if s == [] || !IsSpace(s[|s| - 1]) then 0 else 1 + TrailingSpaces(s[..|s| - 1])
  }

  /**
   * Python's `str.strip()`: the slice of `s` left after removing leading and
   * trailing whitespace.
   */
  function Strip(s: string): (r: string)
    ensures StartsAt(s, r, LeadingSpaces(s))
    ensures forall i :: 0 <= i < LeadingSpaces(s) ==> IsSpace(s[i])
    ensures forall i :: LeadingSpaces(s) + |r| <= i < |s| ==> IsSpace(s[i])
    ensures r != [] ==> !IsSpace(r[0]) && !IsSpace(r[|r| - 1])
  {
    var rest := s[LeadingSpaces(s)..];
    rest[..|rest| - TrailingSpaces(rest)]
  }

  /** Stripping twice is stripping once. */
  lemma StripIdempotent(s: string)
    ensures Strip(Strip(s)) == Strip(s)
  {
    var r := Strip(s);
    if r != [] {
      assert LeadingSpaces(r) == 0;
      assert TrailingSpaces(r) == 0;
    }
  }

  /** The stripped text is empty exactly when the input is all whitespace. */
  lemma StripEmptyIffAllSpace(s: string)
    ensures Strip(s) == [] <==> forall i :: 0 <= i < |s| ==> IsSpace(s[i])
  {
    var r := Strip(s);
    var a := LeadingSpaces(s);
    if r == [] {
      assert a == |s|;
    } else {
      assert s[a] == r[0];
    }
  }

  /** Lines joined with "\n"; the inverse of SplitLines. */
  function JoinLines(lines: seq<string>): (s: string)
    requires |lines| >= 1
  {
    if |lines| == 1 then lines[0] else lines[0] + "\n" + JoinLines(lines[1..])
  }

  /**
   * Python's `s.split("\n")`: the pieces between line breaks, always one more
   * than the number of line breaks, so "" gives [""].
   */
  function SplitLines(s: string): (r: seq<string>)
    ensures |r| >= 1
    ensures forall k :: 0 <= k < |r| ==> '\n' !in r[k]
    ensures JoinLines(r) == s
  {
    if s == [] then [""]
    else
      var rest := SplitLines(s[1..]);
      if s[0] == '\n' then [""] + rest
      else
        JoinConsFirst(s[0], rest);
        [[s[0]] + rest[0]] + rest[1..]
  }

  /** Prefixing a character to the first line prefixes it to the joined text. */
  lemma JoinConsFirst(c: char, lines: seq<string>)
    requires |lines| >= 1
    ensures JoinLines([[c] + lines[0]] + lines[1..]) == [c] + JoinLines(lines)
  {
    var l := [[c] + lines[0]] + lines[1..];
    assert l[1..] == lines[1..];
  }

  /** A line without line breaks, followed by "\n", splits off as one line. */
  lemma {:induction false} SplitAfterLine(line: string, s: string)
    requires '\n' !in line
    ensures SplitLines(line + "\n" + s) == [line] + SplitLines(s)
    ensures SplitLines(line) == [line]
    decreases |line|
  {
    if line == [] {
      assert line + "\n" + s == ['\n'] + s;
      assert (['\n'] + s)[1..] == s;
    } else {
      var t := line + "\n" + s;
      assert t[0] == line[0] && t[1..] == line[1..] + "\n" + s;
      SplitAfterLine(line[1..], s);
      assert line == [line[0]] + line[1..];
    }
  }

  /** Splitting joined lines gives back the lines: SplitLines inverts JoinLines. */
  lemma {:induction false} SplitJoin(lines: seq<string>)
    requires |lines| >= 1
    requires forall k :: 0 <= k < |lines| ==> '\n' !in lines[k]
    ensures SplitLines(JoinLines(lines)) == lines
    decreases |lines|
  {
    if |lines| == 1 {
      SplitAfterLine(lines[0], "");
    } else {
      SplitAfterLine(lines[0], JoinLines(lines[1..]));
      SplitJoin(lines[1..]);
    }
  }
}
