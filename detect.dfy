/**
 The marker detector (`jwop_scf_detect_translations`): which translation codes
 of the fixed registry a post body mentions, in registry order.
 */
module Detect {
  import opened Php
  import opened Pcre

  /** The detector's registry, in its iteration order: code => abbreviation. */
  const Registry: seq<(string, string)> :=
    [("NIV", "NIV"), ("AMP", "AMP"), ("ESV", "ESV"), ("MSG", "MSG"), ("NKJV", "NKJV"), ("NLT", "NLT")]

  /**
   The registry's codes, in order. The six codes are also written out in
   `RegistryIndex` and in the notice table's `Footer.NoticeCodes`;
   `CodesAreRegistryKeys` and `Filter.NoticeTableMatchesRegistry` prove that
   all of them are the same list.
   */
  const Codes: seq<string> := ["NIV", "AMP", "ESV", "MSG", "NKJV", "NLT"]

  /** `Codes` lists the registry's keys in order, and every key is its own abbreviation. */
  lemma CodesAreRegistryKeys()
    ensures |Codes| == |Registry|
    ensures forall i :: 0 <= i < |Registry| ==> Registry[i].0 == Codes[i] && Registry[i].1 == Codes[i]
  {
  }

  /** Position of a code in the registry (`|Codes|` for a string that is not one). */
  function RegistryIndex(code: string): (n: nat)
    ensures n <= |Codes|
    ensures n < |Codes| <==> code in Codes
    ensures n < |Codes| ==> Codes[n] == code
  {
    if code == "NIV" then 0
    else if code == "AMP" then 1
    else if code == "ESV" then 2
    else if code == "MSG" then 3
    else if code == "NKJV" then 4
    else if code == "NLT" then 5
    else 6
  }

  /**
   The pattern the detector builds for a registry entry: NIV allows a trailing
   registered sign, written as the character or as the `&reg;` entity; every
   other abbreviation is quoted into a plain literal.
   */
  function PatternFor(code: string, abbr: string): (p: Pattern)
    ensures code != "NIV" ==> p == Pattern(abbr, [])
    ensures code == "NIV" ==> p.token == code && |p.suffixes| == 2
    ensures forall k :: 0 <= k < |p.suffixes| ==> p.suffixes[k] != "" && !IsWordChar(p.suffixes[k][0])
  {
    if code == "NIV" then Pattern("NIV", ["®", "&reg;"]) else Pattern(abbr, [])
  }

  /** The codes among `entries` whose pattern matches `content`, in order. */
  function DetectedAmong(content: string, entries: seq<(string, string)>): (found: seq<string>)
    ensures |found| <= |entries|
  {
    if entries == [] then []
    else
      var entry := entries[|entries| - 1];
      DetectedAmong(content, entries[..|entries| - 1])
        + (if PregMatch(PatternFor(entry.0, entry.1), content) then [entry.0] else [])
  }

  /** The detector's result: registry codes whose pattern matches, in registry order. */
  function Detected(content: string): (found: seq<string>)
    ensures |found| <= |Registry|
  {
    DetectedAmong(content, Registry)
  }

  /** `s` holds registry codes only, each later one further down the registry. */
  predicate InRegistryOrder(s: seq<string>) {
    (forall k :: k in s ==> k in Codes) &&
    forall i, j :: 0 <= i < j < |s| ==> RegistryIndex(s[i]) < RegistryIndex(s[j])
  }

  /** `jwop_scf_detect_translations($content)`. */
  method DetectTranslations(content: string) returns (found: seq<string>)
    ensures found == Detected(content)
    ensures InRegistryOrder(found)
    ensures Distinct(found)
  {
    found := [];
    for n := 0 to |Registry|
      invariant found == DetectedAmong(content, Registry[..n])
    {
      var (code, abbr) := Registry[n];
      var pattern := PatternFor(code, abbr);
      if PregMatch(pattern, content) {
        found := found + [code];
      }
      assert Registry[..n + 1][..n] == Registry[..n];
    }
    assert Registry[..|Registry|] == Registry;
    DetectedInRegistryOrder(content);
    RegistryOrderIsDistinct(found);
    ArrayUniqueOfDistinct(found);
    found := ArrayUnique(found);
  }

  /**
   `entries` is a prefix of the registry as far as the detector can tell: each
   entry's code is its own abbreviation and sits at its registry position.
   */
  predicate IndexedEntries(entries: seq<(string, string)>) {
    |entries| <= |Codes| &&
    forall i :: 0 <= i < |entries| ==> entries[i].0 == entries[i].1 && RegistryIndex(entries[i].0) == i
  }

  lemma RegistryIsIndexed()
    ensures IndexedEntries(Registry)
  {
    forall i | 0 <= i < |Registry|
      ensures Registry[i].0 == Registry[i].1 && RegistryIndex(Registry[i].0) == i
    {
      assert Registry[i].0 == Codes[i];
    }
  }

  lemma IndexedInit(entries: seq<(string, string)>)
    requires IndexedEntries(entries) && entries != []
    ensures IndexedEntries(entries[..|entries| - 1])
  {
    var init := entries[..|entries| - 1];
    forall i | 0 <= i < |init|
      ensures init[i].0 == init[i].1 && RegistryIndex(init[i].0) == i
    {
      assert init[i] == entries[i];
    }
  }

  /** A code further down the registry than every member can be appended in registry order. */
  lemma AppendInRegistryOrder(prev: seq<string>, code: string)
    requires InRegistryOrder(prev) && RegistryIndex(code) < |Codes|
    requires forall k :: k in prev ==> RegistryIndex(k) < RegistryIndex(code)
    ensures InRegistryOrder(prev + [code])
  {
    var cur := prev + [code];
    forall i, j | 0 <= i < j < |cur|
      ensures RegistryIndex(cur[i]) < RegistryIndex(cur[j])
    {
      assert cur[i] == prev[i] && prev[i] in prev;
      if j < |prev| {
        assert cur[j] == prev[j];
      }
    }
  }

  lemma {:induction false} DetectedAmongOrdered(content: string, entries: seq<(string, string)>)
    requires IndexedEntries(entries)
    ensures InRegistryOrder(DetectedAmong(content, entries))
    ensures forall k :: k in DetectedAmong(content, entries) ==> RegistryIndex(k) < |entries|
  {
    if entries != [] {
      var n := |entries|;
      var entry := entries[n - 1];
      IndexedInit(entries);
      var prev := DetectedAmong(content, entries[..n - 1]);
      DetectedAmongOrdered(content, entries[..n - 1]);
      var hit := PregMatch(PatternFor(entry.0, entry.1), content);
      assert DetectedAmong(content, entries) == prev + (if hit then [entry.0] else []);
      if hit {
        AppendInRegistryOrder(prev, entry.0);
      } else {
        assert prev + [] == prev;
      }
    }
  }

  /** Whatever order the markers appear in, the result follows the registry. */
  lemma DetectedInRegistryOrder(content: string)
    ensures InRegistryOrder(Detected(content))
  {
    RegistryIsIndexed();
    DetectedAmongOrdered(content, Registry);
  }

  /** Registry order admits no repetition, so no code is reported twice. */
  lemma RegistryOrderIsDistinct(s: seq<string>)
    requires InRegistryOrder(s)
    ensures Distinct(s)
  {
  }

  /** Of two lists in registry order with the same members, neither head can come later. */
  lemma RegistryOrderHeads(s1: seq<string>, s2: seq<string>)
    requires InRegistryOrder(s1) && InRegistryOrder(s2) && s1 != [] && s2 != []
    requires forall k :: k in s1 <==> k in s2
    ensures s1[0] == s2[0]
  {
    assert s2[0] in s2 && s1[0] in s1;
    var i :| 0 <= i < |s1| && s1[i] == s2[0];
    var j :| 0 <= j < |s2| && s2[j] == s1[0];
    assert RegistryIndex(s1[0]) <= RegistryIndex(s1[i]);
    assert RegistryIndex(s2[0]) <= RegistryIndex(s2[j]);
  }

  lemma TailMembers(s: seq<string>, k: string)
    requires Distinct(s) && s != []
    ensures k in s[1..] <==> k in s && k != s[0]
  {
    if k in s && k != s[0] {
      var i :| 0 <= i < |s| && s[i] == k;
      assert s[1..][i - 1] == k;
    }
  }

  lemma TailInRegistryOrder(s: seq<string>)
    requires InRegistryOrder(s) && s != []
    ensures InRegistryOrder(s[1..])
  {
    forall i, j | 0 <= i < j < |s| - 1
      ensures RegistryIndex(s[1..][i]) < RegistryIndex(s[1..][j])
    {
      assert s[1..][i] == s[i + 1] && s[1..][j] == s[j + 1];
    }
  }

  /** Two lists in registry order with the same members are the same list. */
  lemma {:induction false} RegistryOrderUnique(s1: seq<string>, s2: seq<string>)
    requires InRegistryOrder(s1) && InRegistryOrder(s2)
    requires forall k :: k in s1 <==> k in s2
    ensures s1 == s2
  {
    assert s1 == [] <==> s2 == [] by {
      if s1 != [] { assert s1[0] in s2; }
      if s2 != [] { assert s2[0] in s1; }
    }
    if s1 != [] {
      RegistryOrderHeads(s1, s2);
      RegistryOrderIsDistinct(s1);
      RegistryOrderIsDistinct(s2);
      forall k
        ensures k in s1[1..] <==> k in s2[1..]
      {
        TailMembers(s1, k);
        TailMembers(s2, k);
      }
      TailInRegistryOrder(s1);
      TailInRegistryOrder(s2);
      RegistryOrderUnique(s1[1..], s2[1..]);
      assert s1 == [s1[0]] + s1[1..];
      assert s2 == [s2[0]] + s2[1..];
    }
  }

  lemma {:induction false} DetectedAmongMembers(content: string, entries: seq<(string, string)>, code: string)
    requires IndexedEntries(entries)
    ensures code in DetectedAmong(content, entries)
        <==> RegistryIndex(code) < |entries| && PregMatch(PatternFor(code, code), content)
  {
    if entries != [] {
      var n := |entries|;
      var entry := entries[n - 1];
      IndexedInit(entries);
      var prev := DetectedAmong(content, entries[..n - 1]);
      var hit := PregMatch(PatternFor(entry.0, entry.1), content);
      var cur := prev + (if hit then [entry.0] else []);
      assert DetectedAmong(content, entries) == cur;
      DetectedAmongMembers(content, entries[..n - 1], code);
      var own := PregMatch(PatternFor(code, code), content);
      assert code in cur <==> code in prev || (hit && code == entry.0);
      if code == entry.0 {
        assert own == hit;
        assert RegistryIndex(code) == n - 1;
        assert code !in prev;
      } else {
        assert RegistryIndex(code) != n - 1 by {
          if RegistryIndex(code) == n - 1 {
            assert false;
          }
        }
        assert code in cur <==> code in prev;
      }
    }
  }

  /** A code is reported exactly when it is in the registry and its own pattern matches. */
  lemma DetectedMembers(content: string, code: string)
    ensures code in Detected(content) <==> code in Codes && PregMatch(PatternFor(code, code), content)
  {
    RegistryIsIndexed();
    DetectedAmongMembers(content, Registry, code);
  }

  /** Every registry abbreviation is a non-empty run of word characters. */
  lemma CodesAreWords(code: string)
    requires code in Codes
    ensures |code| > 0 && AllWordChars(code)
  {
  }

  /**
   The NIV pattern, for all its optional registered sign, matches exactly
   when `NIV` stands as a whole word.
   */
  lemma NivPatternIsWholeWord(content: string)
    ensures PregMatch(PatternFor("NIV", "NIV"), content) <==> OccursAsWholeWord(content, "NIV")
  {
    assert AllWordChars("NIV");
    OptionalNonWordSuffixIrrelevant(content, "NIV", ["®", "&reg;"]);
    WholeWordPattern(content, "NIV");
  }

  /** A registry code is detected iff it occurs as a whole word, ignoring case. */
  lemma DetectedIffWholeWord(content: string, code: string)
    ensures code in Detected(content) <==> code in Codes && OccursAsWholeWord(content, code)
  {
    DetectedMembers(content, code);
    if code in Codes {
      CodesAreWords(code);
      if code == "NIV" {
        NivPatternIsWholeWord(content);
      } else {
        WholeWordPattern(content, code);
      }
    }
  }

  /**
   Reference characterisation of the detector: the result is THE list, in
   registry order, of the codes that occur in the text as whole words.
   */
  lemma DetectedIsMarkedCodesInOrder(content: string, s: seq<string>)
    requires InRegistryOrder(s)
    requires forall code :: code in s <==> code in Codes && OccursAsWholeWord(content, code)
    ensures Detected(content) == s
  {
    DetectedInRegistryOrder(content);
    forall code
      ensures code in Detected(content) <==> code in s
    {
      DetectedIffWholeWord(content, code);
    }
    RegistryOrderUnique(Detected(content), s);
  }

  /** Nothing is detected exactly when no registry code occurs as a whole word. */
  lemma DetectedEmptyIffNoMarker(content: string)
    ensures Detected(content) == [] <==> forall code :: code in Codes ==> !OccursAsWholeWord(content, code)
  {
    forall code | code in Codes
      ensures code in Detected(content) <==> OccursAsWholeWord(content, code)
    {
      DetectedIffWholeWord(content, code);
    }
    if Detected(content) != [] {
      DetectedInRegistryOrder(content);
      assert Detected(content)[0] in Codes;
    }
  }

  /** Empty text marks nothing. */
  lemma DetectedOfEmpty()
    ensures Detected("") == []
  {
    forall code | code in Codes
      ensures !OccursAsWholeWord("", code)
    {
    }
    DetectedEmptyIffNoMarker("");
  }

  lemma {:induction false} DetectedPrefixDependsOnMarks(c1: string, c2: string, n: nat)
    requires n <= |Registry|
    requires forall code :: code in Codes ==> (OccursAsWholeWord(c1, code) <==> OccursAsWholeWord(c2, code))
    ensures DetectedAmong(c1, Registry[..n]) == DetectedAmong(c2, Registry[..n])
  {
    if n > 0 {
      assert Registry[..n][..n - 1] == Registry[..n - 1];
      DetectedPrefixDependsOnMarks(c1, c2, n - 1);
      var code := Registry[n - 1].0;
      assert code == Registry[n - 1].1 && code in Codes;
      DetectedIffWholeWord(c1, code);
      DetectedIffWholeWord(c2, code);
      DetectedMembers(c1, code);
      DetectedMembers(c2, code);
    }
  }

  /**
   The result depends only on which codes are marked, not on where, how
   often or in which order the markers occur.
   */
  lemma DetectedDependsOnlyOnMarks(c1: string, c2: string)
    requires forall code :: code in Codes ==> (OccursAsWholeWord(c1, code) <==> OccursAsWholeWord(c2, code))
    ensures Detected(c1) == Detected(c2)
  {
    DetectedPrefixDependsOnMarks(c1, c2, |Registry|);
    assert Registry[..|Registry|] == Registry;
  }
}
