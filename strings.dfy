/**
 * The parts of the .NET string library that the command loop relies on:
 * String.Trim, String.Split(' ', 2, StringSplitOptions.RemoveEmptyEntries),
 * String.ToLowerInvariant and String.Equals(..., StringComparison.OrdinalIgnoreCase).
 * Case mapping is modelled on ASCII letters only.
 */
module Strings {

  /** Char.IsWhiteSpace: the separators of categories Zs, Zl and Zp
      together with the controls U+0009..U+000D and U+0085. */
  predicate IsWhiteSpace(c: char) {
    var n := c as int;
    (0x09 <= n <= 0x0D) || n == 0x20 || n == 0x85 || n == 0xA0 || n == 0x1680
    || (0x2000 <= n <= 0x200A) || n == 0x2028 || n == 0x2029 || n == 0x202F
    || n == 0x205F || n == 0x3000
  }

  predicate AllWhiteSpace(s: string) {
    forall i :: 0 <= i < |s| ==> IsWhiteSpace(s[i])
  }

  /** The number of white-space characters at the start of s. */
  function LeadingWhiteSpace(s: string): (n: nat)
    ensures n <= |s|
    ensures forall i :: 0 <= i < n ==> IsWhiteSpace(s[i])
    ensures n < |s| ==> !IsWhiteSpace(s[n])
  {
    if s != [] && IsWhiteSpace(s[0]) then 1 + LeadingWhiteSpace(s[1..]) else 0
  }

  /** The number of white-space characters at the end of s. */
  function TrailingWhiteSpace(s: string): (n: nat)
    ensures n <= |s|
    ensures forall i :: |s| - n <= i < |s| ==> IsWhiteSpace(s[i])
    ensures n < |s| ==> !IsWhiteSpace(s[|s| - 1 - n])
  {
    if s != [] && IsWhiteSpace(s[|s| - 1]) then 1 + TrailingWhiteSpace(s[..|s| - 1]) else 0
  }

  /** String.Trim(): s without the white space at either end. */
  function Trim(s: string): (r: string)
    ensures r == [] <==> AllWhiteSpace(s)
    ensures r != [] ==> !IsWhiteSpace(r[0]) && !IsWhiteSpace(r[|r| - 1])
  {
    var start := LeadingWhiteSpace(s);
    var rest := s[start..];
    assert start < |s| ==> rest[0] == s[start];
    rest[..|rest| - TrailingWhiteSpace(rest)]
  }

  /** The white-space counts are determined by where the first (last) other character stands. */
  lemma LeadingWhiteSpaceIs(s: string, n: nat)
    requires n <= |s| && (forall i :: 0 <= i < n ==> IsWhiteSpace(s[i]))
    requires n < |s| ==> !IsWhiteSpace(s[n])
    ensures LeadingWhiteSpace(s) == n
  {
  }

  lemma TrailingWhiteSpaceIs(s: string, n: nat)
    requires n <= |s| && (forall i :: |s| - n <= i < |s| ==> IsWhiteSpace(s[i]))
    requires n < |s| ==> !IsWhiteSpace(s[|s| - 1 - n])
    ensures TrailingWhiteSpace(s) == n
  {
  }

  /** Trimming undoes padding with white space, whatever the padding. */
  lemma TrimOfPadded(lead: string, s: string, trail: string)
    requires AllWhiteSpace(lead) && AllWhiteSpace(trail)
    requires s == [] || (!IsWhiteSpace(s[0]) && !IsWhiteSpace(s[|s| - 1]))
    ensures Trim(lead + s + trail) == s
  {
    var padded := lead + s + trail;
    assert forall i :: 0 <= i < |lead| ==> padded[i] == lead[i];
    assert forall i :: 0 <= i < |trail| ==> padded[|lead| + |s| + i] == trail[i];
    if s == [] {
      assert AllWhiteSpace(padded) by {
        forall i | 0 <= i < |padded| ensures IsWhiteSpace(padded[i]) {
          if i >= |lead| { assert padded[i] == trail[i - |lead|]; }
        }
      }
    } else {
      assert padded[|lead|] == s[0];
      LeadingWhiteSpaceIs(padded, |lead|);
      var rest := padded[|lead|..];
      assert rest == s + trail;
      assert forall i :: 0 <= i < |trail| ==> rest[|s| + i] == trail[i];
      assert rest[|s| - 1] == s[|s| - 1];
      TrailingWhiteSpaceIs(rest, |trail|);
      assert rest[..|s|] == s;
    }
  }

  /** Trim is idempotent. */
  lemma TrimIdempotent(s: string)
    ensures Trim(Trim(s)) == Trim(s)
  {
    TrimOfPadded([], Trim(s), []);
    assert [] + Trim(s) + [] == Trim(s);
  }

  function Spaces(n: nat): (r: string)
    ensures |r| == n && forall i :: 0 <= i < n ==> r[i] == ' '
  {
    if n == 0 then [] else [' '] + Spaces(n - 1)
  }

  predicate AllSpaces(s: string) {
    forall i :: 0 <= i < |s| ==> s[i] == ' '
  }

  /** The number of spaces at the start of s. */
  function LeadingSpaces(s: string): (n: nat)
    ensures n <= |s|
    ensures forall i :: 0 <= i < n ==> s[i] == ' '
    ensures n < |s| ==> s[n] != ' '
  {
    if s != [] && s[0] == ' ' then 1 + LeadingSpaces(s[1..]) else 0
  }

  /** The position of the first space in s, or |s| when it has none. */
  function IndexOfSpace(s: string): (k: nat)
    ensures k <= |s|
    ensures forall i :: 0 <= i < k ==> s[i] != ' '
    ensures k < |s| ==> s[k] == ' '
  {
    if s == [] || s[0] == ' ' then 0 else 1 + IndexOfSpace(s[1..])
  }

  lemma LeadingSpacesIs(s: string, n: nat)
    requires n <= |s| && (forall i :: 0 <= i < n ==> s[i] == ' ')
    requires n < |s| ==> s[n] != ' '
    ensures LeadingSpaces(s) == n
  {
  }

  lemma IndexOfSpaceIs(s: string, k: nat)
    requires k <= |s| && (forall i :: 0 <= i < k ==> s[i] != ' ')
    requires k < |s| ==> s[k] == ' '
    ensures IndexOfSpace(s) == k
  {
  }

  /** At most two non-empty parts, none starting with a space, the first holding no space at all. */
  predicate PartsWellFormed(parts: seq<string>) {
    && (forall i :: 0 <= i < |parts| ==> parts[i] != [] && parts[i][0] != ' ')
    && (|parts| >= 1 ==> ' ' !in parts[0])
  }

  /**
   * String.Split(' ', 2, StringSplitOptions.RemoveEmptyEntries): empty entries
   * are dropped and do not count towards the limit of two parts, so the first
   * part is the first run of non-spaces and the second is everything after the
   * spaces that follow it, not split any further.
   */
  function SplitVerb(s: string): (parts: seq<string>)
    ensures |parts| <= 2 && PartsWellFormed(parts)
    ensures parts == [] <==> AllSpaces(s)
  {
    var lead := LeadingSpaces(s);
    if lead == |s| then [] else SplitWord(s[lead..])
  }

  /** SplitVerb once the leading spaces are gone. */
  function SplitWord(t: string): (parts: seq<string>)
    requires t != [] && t[0] != ' '
    ensures 1 <= |parts| <= 2 && PartsWellFormed(parts)
  {
    var k := IndexOfSpace(t);
    if k == |t| then [t]
    else
      var after := t[k + 1..];
      var gap := LeadingSpaces(after);
      if gap == |after| then [t[..k]] else [t[..k], after[gap..]]
  }

  /** A single word splits into itself. */
  lemma SplitOfWord(word: string)
    requires word != [] && ' ' !in word
    ensures SplitVerb(word) == [word]
  {
    LeadingSpacesIs(word, 0);
    IndexOfSpaceIs(word, |word|);
    assert word[0..] == word;
  }

  /** A word, a run of spaces and an argument split into the word and the argument. */
  lemma SplitOfWordAndArgument(word: string, gap: nat, argument: string)
    requires word != [] && ' ' !in word
    requires argument == [] || argument[0] != ' '
    ensures SplitVerb(word + Spaces(gap + 1) + argument)
            == if argument == [] then [word] else [word, argument]
  {
    var s := word + Spaces(gap + 1) + argument;
    assert forall i :: 0 <= i < |word| ==> s[i] == word[i];
    assert s[|word|] == ' ';
    LeadingSpacesIs(s, 0);
    assert s[0..] == s;
    IndexOfSpaceIs(s, |word|);
    var after := s[|word| + 1..];
    assert after == Spaces(gap) + argument;
    assert argument != [] ==> after[gap] == argument[0];
    LeadingSpacesIs(after, gap);
    assert s[..|word|] == word;
    assert after[gap..] == argument;
  }

  /** Reassembly, the converse of the two lemmas above: two parts come from spaces, a word, spaces and an argument. */
  lemma SplitReassembles(s: string) returns (lead: nat, gap: nat)
    requires |SplitVerb(s)| == 2
    ensures s == Spaces(lead) + SplitVerb(s)[0] + Spaces(gap + 1) + SplitVerb(s)[1]
  {
    lead := LeadingSpaces(s);
    var t := SplitVerbSkipsSpaces(s);
    gap := SplitWordReassembles(t);
    SpacesThen(s, lead);
    Prepend(s, Spaces(lead), t, SplitVerb(s)[0], Spaces(gap + 1), SplitVerb(s)[1]);
  }

  /** Unless s is all spaces, SplitVerb splits what follows its leading spaces. */
  lemma SplitVerbSkipsSpaces(s: string) returns (t: string)
    requires !AllSpaces(s)
    ensures t == s[LeadingSpaces(s)..] && t != [] && t[0] != ' '
    ensures SplitVerb(s) == SplitWord(t)
  {
    var lead := LeadingSpaces(s);
    assert lead < |s|;
    t := s[lead..];
    assert t[0] == s[lead];
  }

  lemma Prepend(s: string, prefix: string, t: string, a: string, b: string, c: string)
    requires s == prefix + t && t == a + b + c
    ensures s == prefix + a + b + c
  {
  }

  /** The two parts of SplitWord, with the run of spaces between them put back, give the word again. */
  lemma SplitWordReassembles(t: string) returns (gap: nat)
    requires t != [] && t[0] != ' ' && |SplitWord(t)| == 2
    ensures t == SplitWord(t)[0] + Spaces(gap + 1) + SplitWord(t)[1]
  {
    var k := IndexOfSpace(t);
    assert k < |t|;
    var after := t[k + 1..];
    gap := LeadingSpaces(after);
    assert gap < |after|;
    assert SplitWord(t) == [t[..k], after[gap..]];
    SpacesThen(after, gap);
    BreakAtSpace(t, k);
    JoinSpaces(t, t[..k], after, gap, after[gap..]);
  }

  lemma JoinSpaces(t: string, word: string, after: string, gap: nat, rest: string)
    requires t == word + [' '] + after && after == Spaces(gap) + rest
    ensures t == word + Spaces(gap + 1) + rest
  {
    assert Spaces(gap + 1) == [' '] + Spaces(gap);
  }

  lemma SpacesThen(s: string, n: nat)
    requires n <= |s| && forall i :: 0 <= i < n ==> s[i] == ' '
    ensures s == Spaces(n) + s[n..]
  {
    assert s == s[..n] + s[n..];
    assert s[..n] == Spaces(n);
  }

  lemma BreakAtSpace(t: string, k: nat)
    requires k < |t| && t[k] == ' '
    ensures t == t[..k] + [' '] + t[k + 1..]
  {
  }

  /** Char.ToLowerInvariant on ASCII: maps 'A'..'Z' to 'a'..'z' and leaves every other character alone. */
  function ToLowerChar(c: char): char {
    if 'A' <= c <= 'Z' then (c as int - 'A' as int + 'a' as int) as char else c
  }

  /** String.ToLowerInvariant, character by character. */
  function ToLower(s: string): (r: string)
    ensures |r| == |s|
    ensures forall i :: 0 <= i < |s| ==> r[i] == ToLowerChar(s[i])
  {
    if s == [] then [] else [ToLowerChar(s[0])] + ToLower(s[1..])
  }

  /**
   * String.Equals(a, b, StringComparison.OrdinalIgnoreCase): the same length,
   * and the characters at each position agree once case is folded.
   */
  predicate EqualsIgnoreCase(a: string, b: string) {
    |a| == |b| && forall i :: 0 <= i < |a| ==> ToLowerChar(a[i]) == ToLowerChar(b[i])
  }

  /** Comparing ignoring case is comparing the lower-cased strings. */
  lemma EqualsIgnoreCaseIff(a: string, b: string)
    ensures EqualsIgnoreCase(a, b) <==> ToLower(a) == ToLower(b)
  {
    if ToLower(a) == ToLower(b) {
      assert forall i :: 0 <= i < |a| ==> ToLower(a)[i] == ToLower(b)[i];
    }
  }

  /** Equality ignoring case is an equivalence. */
  lemma EqualsIgnoreCaseEquivalence(a: string, b: string, c: string)
    ensures EqualsIgnoreCase(a, a)
    ensures EqualsIgnoreCase(a, b) ==> EqualsIgnoreCase(b, a)
    ensures EqualsIgnoreCase(a, b) && EqualsIgnoreCase(b, c) ==> EqualsIgnoreCase(a, c)
  {
  }

  /** Strings that differ, after folding, at some position are not equal ignoring case. */
  lemma DiffersIgnoringCaseAt(a: string, b: string, i: nat)
    requires i < |a| && i < |b| && ToLowerChar(a[i]) != ToLowerChar(b[i])
    ensures !EqualsIgnoreCase(a, b)
  {
  }

  /** Lower-casing twice is lower-casing once. */
  lemma ToLowerIdempotent(s: string)
    ensures ToLower(ToLower(s)) == ToLower(s)
  {
  }

  /** Characters that fold to the same one agree on being a space and on being white space. */
  lemma ToLowerCharKeepsWhiteSpace(c: char, d: char)
    requires ToLowerChar(c) == ToLowerChar(d)
    ensures (c == ' ') == (d == ' ') && IsWhiteSpace(c) == IsWhiteSpace(d)
  {
  }

  /** Characters that fold to the same letter are equal or the two cases of one ASCII letter. */
  lemma ToLowerCharSame(c: char, d: char)
    ensures ToLowerChar(c) == ToLowerChar(d) <==>
            c == d || ('A' <= c <= 'Z' && d as int == c as int + 32) || ('A' <= d <= 'Z' && c as int == d as int + 32)
  {
  }
}
