/**
 The fragment of `preg_match` the detector uses: a case-insensitive (`/i`)
 literal token, optionally followed by one of a list of literal suffixes, with
 `\b` on both sides. There is no `/u` modifier, so PCRE's default tables apply:
 only ASCII letters, digits and `_` are word characters and only ASCII letters
 fold case. Text is a sequence of characters; every non-ASCII character is a
 non-word character, as each byte of its UTF-8 encoding is for PCRE.
 */
module Pcre {

  /** `\w` outside UTF mode: `[A-Za-z0-9_]`. */
  function IsWordChar(c: char): (b: bool)
    ensures b ==> c as int < 128
  {
    ('a' <= c <= 'z') || ('A' <= c <= 'Z') || ('0' <= c <= '9') || c == '_'
  }

  /** The case folding `/i` applies: ASCII upper-case letters to lower case. */
  function Fold(c: char): (r: char)
    ensures IsWordChar(r) <==> IsWordChar(c)
    ensures 'A' <= c <= 'Z' ==> r as int == c as int + 32
    ensures !('A' <= c <= 'Z') ==> r == c
  {
    if 'A' <= c <= 'Z' then (c as int + 32) as char else c
  }

  /**
   Two characters are the same under `/i` exactly when they are equal or are
   the upper- and lower-case forms of one ASCII letter.
   */
  lemma FoldSameIff(a: char, b: char)
    ensures Fold(a) == Fold(b) <==>
      a == b || ('A' <= a <= 'Z' && b as int == a as int + 32) || ('A' <= b <= 'Z' && a as int == b as int + 32)
  {
  }

  /** `a` and `b` are the same string under `/i`. */
  function SameIgnoringCase(a: string, b: string): (same: bool)
    ensures same ==> |a| == |b|
    ensures a == b ==> same
  {
    |a| == |b| && forall i :: 0 <= i < |a| ==> Fold(a[i]) == Fold(b[i])
  }

  /** Position `i` of `t` holds a word character (positions outside `t` do not). */
  predicate WordAt(t: string, i: int) {
    0 <= i < |t| && IsWordChar(t[i])
  }

  /**
   `\b` at position `i`: a word character on exactly one side; the ends of the
   text count as non-word.
   */
  function BoundaryAt(t: string, i: int): (b: bool)
    ensures i <= 0 ==> (b <==> WordAt(t, i))
    ensures i >= |t| ==> (b <==> WordAt(t, i - 1))
  {
    WordAt(t, i - 1) != WordAt(t, i)
  }

  /** The literal `lit` occurs in `t` at position `i`, ignoring case. */
  function LiteralAt(t: string, i: int, lit: string): (b: bool)
    ensures b ==> 0 <= i && i + |lit| <= |t|
    ensures 0 <= i && i + |lit| <= |t| && t[i..i + |lit|] == lit ==> b
  {
    0 <= i && i + |lit| <= |t| && SameIgnoringCase(t[i..i + |lit|], lit)
  }

  /**
   The pattern `/\b token (?:s1|...|sn)? \b/i`; with no suffixes, `/\b token \b/i`.
   */
  datatype Pattern = Pattern(token: string, suffixes: seq<string>)

  /**
   The optional group followed by the closing `\b`, from position `j`: each
   alternative is tried in turn and, when none leads to a match, the group is
   skipped.
   */
  function GroupThenBoundary(t: string, j: int, alternatives: seq<string>): (b: bool)
    ensures BoundaryAt(t, j) ==> b
    ensures alternatives == [] ==> (b <==> BoundaryAt(t, j))
    decreases |alternatives|
  {
    if alternatives == [] then BoundaryAt(t, j)
    else
      (LiteralAt(t, j, alternatives[0]) && BoundaryAt(t, j + |alternatives[0]|))
      || GroupThenBoundary(t, j, alternatives[1..])
  }

  /** Any alternative that occurs at `j` with `\b` right after it lets the group succeed. */
  lemma {:induction false} AlternativeTaken(t: string, j: int, alternatives: seq<string>, k: nat)
    requires k < |alternatives|
    requires LiteralAt(t, j, alternatives[k]) && BoundaryAt(t, j + |alternatives[k]|)
    ensures GroupThenBoundary(t, j, alternatives)
    decreases k
  {
    if k > 0 {
      assert alternatives[1..][k - 1] == alternatives[k];
      AlternativeTaken(t, j, alternatives[1..], k - 1);
    }
  }

  /**
   When the group succeeds but cannot be skipped, one of its alternatives
   occurs at `j` with `\b` right after it.
   */
  lemma {:induction false} AlternativeOfGroup(t: string, j: int, alternatives: seq<string>) returns (k: nat)
    requires GroupThenBoundary(t, j, alternatives) && !BoundaryAt(t, j)
    ensures k < |alternatives|
    ensures LiteralAt(t, j, alternatives[k]) && BoundaryAt(t, j + |alternatives[k]|)
    decreases |alternatives|
  {
    if LiteralAt(t, j, alternatives[0]) && BoundaryAt(t, j + |alternatives[0]|) {
      k := 0;
    } else {
      var rest := alternatives[1..];
      var i := AlternativeOfGroup(t, j, rest);
      assert rest[i] == alternatives[i + 1];
      k := i + 1;
    }
  }

  /** The pattern matches starting at position `i`. */
  predicate MatchesAt(t: string, p: Pattern, i: int)
    ensures MatchesAt(t, p, i) ==> 0 <= i && i + |p.token| <= |t|
  {
    BoundaryAt(t, i) && LiteralAt(t, i, p.token) && GroupThenBoundary(t, i + |p.token|, p.suffixes)
  }

  /** The pattern matches somewhere in `t`. */
  ghost predicate Matches(t: string, p: Pattern) {
    exists i :: 0 <= i <= |t| && MatchesAt(t, p, i)
  }

  /** The scan `preg_match` performs, trying start positions from `from` onwards. */
  function SearchFrom(t: string, p: Pattern, from: nat): (found: bool)
    requires from <= |t| + 1
    ensures found <==> exists i :: from <= i <= |t| && MatchesAt(t, p, i)
    decreases |t| + 1 - from
  {
    if from > |t| then false
    else MatchesAt(t, p, from) || SearchFrom(t, p, from + 1)
  }

  /** `preg_match($pattern, $t)` as a yes/no answer. */
  function PregMatch(p: Pattern, t: string): (found: bool)
    ensures found <==> Matches(t, p)
  {
    SearchFrom(t, p, 0)
  }

  predicate AllWordChars(w: string) {
    forall i :: 0 <= i < |w| ==> IsWordChar(w[i])
  }

  /**
   Reference reading of "`w` occurs as a whole word": an occurrence, ignoring
   case, with no word character right before it and none right after it.
   */
  ghost predicate OccursAsWholeWord(t: string, w: string) {
    exists i :: LiteralAt(t, i, w) && !WordAt(t, i - 1) && !WordAt(t, i + |w|)
  }

  /** A case-insensitive occurrence of a word copies its word characters. */
  lemma LiteralWordChars(t: string, i: int, w: string, k: int)
    requires LiteralAt(t, i, w) && AllWordChars(w) && 0 <= k < |w|
    ensures WordAt(t, i + k)
  {
    assert t[i..i + |w|][k] == t[i + k];
    assert Fold(t[i + k]) == Fold(w[k]);
  }

  /** For a token made of word characters, `\b token \b` means "whole word". */
  lemma WholeWordPattern(t: string, w: string)
    requires |w| > 0 && AllWordChars(w)
    ensures Matches(t, Pattern(w, [])) <==> OccursAsWholeWord(t, w)
  {
    forall i | LiteralAt(t, i, w)
      ensures MatchesAt(t, Pattern(w, []), i) <==> !WordAt(t, i - 1) && !WordAt(t, i + |w|)
    {
      LiteralWordChars(t, i, w, 0);
      LiteralWordChars(t, i, w, |w| - 1);
    }
  }

  /**
   Right after a word character, alternatives that all start with a non-word
   character make no difference to the group: taking any of them already needs
   the `\b` that skipping the group needs, so PCRE, backtracking, finds a match
   exactly when `\b` holds there.
   */
  lemma {:induction false} NonWordAlternativesIrrelevant(t: string, j: int, alternatives: seq<string>)
    requires WordAt(t, j - 1)
    requires forall s :: s in alternatives ==> |s| > 0 && !IsWordChar(s[0])
    ensures GroupThenBoundary(t, j, alternatives) <==> BoundaryAt(t, j)
    decreases |alternatives|
  {
    if alternatives != [] {
      var s := alternatives[0];
      if LiteralAt(t, j, s) {
        assert t[j..j + |s|][0] == t[j];
        assert Fold(t[j]) == Fold(s[0]);
      }
      NonWordAlternativesIrrelevant(t, j, alternatives[1..]);
    }
  }

  /** At one start position, such a group makes no difference to a word token. */
  lemma NonWordSuffixIrrelevantAt(t: string, w: string, suffixes: seq<string>, i: int)
    requires |w| > 0 && AllWordChars(w)
    requires forall s :: s in suffixes ==> |s| > 0 && !IsWordChar(s[0])
    ensures MatchesAt(t, Pattern(w, suffixes), i) <==> MatchesAt(t, Pattern(w, []), i)
  {
    if LiteralAt(t, i, w) {
      LiteralWordChars(t, i, w, |w| - 1);
      NonWordAlternativesIrrelevant(t, i + |w|, suffixes);
    }
  }

  /**
   An optional group whose alternatives all start with a non-word character
   never changes whether a word token matches.
   */
  lemma OptionalNonWordSuffixIrrelevant(t: string, w: string, suffixes: seq<string>)
    requires |w| > 0 && AllWordChars(w)
    requires forall s :: s in suffixes ==> |s| > 0 && !IsWordChar(s[0])
    ensures Matches(t, Pattern(w, suffixes)) <==> Matches(t, Pattern(w, []))
  {
    var long, short := Pattern(w, suffixes), Pattern(w, []);
    if Matches(t, long) {
      var i :| 0 <= i <= |t| && MatchesAt(t, long, i);
      NonWordSuffixIrrelevantAt(t, w, suffixes, i);
    }
    if Matches(t, short) {
      var i :| 0 <= i <= |t| && MatchesAt(t, short, i);
      NonWordSuffixIrrelevantAt(t, w, suffixes, i);
    }
  }

  /** A word with a letter that the text lacks in either case occurs nowhere in it. */
  lemma MissingLetterNoOccurrence(t: string, w: string, k: nat)
    requires k < |w| && 'A' <= w[k] <= 'Z'
    requires w[k] !in t && Fold(w[k]) !in t
    ensures forall i :: !LiteralAt(t, i, w)
  {
  }

  /**
   A word whose `k`-th letter appears, in either case, only at position `p` of
   the text can occur only at `p - k`.
   */
  lemma LetterPinsOccurrence(t: string, w: string, k: nat, p: int)
    requires k < |w| && 'A' <= w[k] <= 'Z'
    requires forall j :: 0 <= j < |t| && j != p ==> t[j] != w[k] && t[j] != Fold(w[k])
    ensures forall i :: LiteralAt(t, i, w) ==> i == p - k
  {
    forall i | LiteralAt(t, i, w)
      ensures i == p - k
    {
      assert t[i..i + |w|][k] == t[i + k];
      assert Fold(t[i + k]) == Fold(w[k]);
    }
  }
}
