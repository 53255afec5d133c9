/**
 The few PHP and WordPress library behaviours the plugin relies on, stated on
 Dafny values: a missing lookup result, a loosely typed stored value, `implode`,
 `array_unique`, the falsiness of a string, and the HTML escaping done by
 `esc_html` and `esc_attr`.
 */
module Php {

  /** A lookup that may find nothing (`isset` failing, an option or meta key absent). */
  datatype Option<T> = None | Some(value: T)

  /** A value as the options and post-meta APIs hand it back: a string, or anything else. */
  datatype Value = Str(s: string) | NonString

  /** PHP's `$v === '1'`: strict, so only the one-character string "1" qualifies. */
  function IsStrictOne(v: Value): (b: bool)
    ensures b <==> v == Str("1")
  {
    v.Str? && v.s == "1"
  }

  /** `!$s` for a string: PHP treats "" and "0" as false. */
  function IsFalsy(s: string): (b: bool)
    ensures b <==> |s| == 0 || (|s| == 1 && s[0] == '0')
  {
    s == "" || s == "0"
  }

  /** `implode($sep, $parts)`. */
  function Implode(sep: string, parts: seq<string>): (r: string)
    ensures parts == [] ==> r == ""
    ensures |parts| == 1 ==> r == parts[0]
  {
    if parts == [] then ""
    else if |parts| == 1 then parts[0]
    else parts[0] + sep + Implode(sep, parts[1..])
  }

  predicate Distinct<T(==)>(s: seq<T>) {
    forall i, j :: 0 <= i < j < |s| ==> s[i] != s[j]
  }

  /** Position of the first occurrence of `x` in `s`. */
  function FirstIndex<T(==)>(s: seq<T>, x: T): (i: nat)
    requires x in s
    ensures i < |s| && s[i] == x
    ensures forall j :: 0 <= j < i ==> s[j] != x
  {
    if s[0] == x then 0 else 1 + FirstIndex(s[1..], x)
  }

  lemma FirstIndexInPrefix<T>(s: seq<T>, n: nat, x: T)
    requires n <= |s| && x in s[..n]
    ensures FirstIndex(s, x) == FirstIndex(s[..n], x)
  {
    var a, b := FirstIndex(s, x), FirstIndex(s[..n], x);
    assert s[b] == s[..n][b] == x;
    assert a <= b;
    assert s[..n][a] == s[a] == x;
    assert b <= a;
  }

  /**
   `array_unique` on a list: keeps the first occurrence of each element. PHP
   also keeps each survivor's original key (`['a', 'a', 'b']` gives keys 0 and
   2); the list form drops the keys, which the detector never sees, since its
   input has no repetitions (`RegistryOrderIsDistinct`, `ArrayUniqueOfDistinct`).
   */
  function ArrayUnique<T(==,!new)>(s: seq<T>): (r: seq<T>)
    ensures forall x :: x in r <==> x in s
    ensures Distinct(r)
  {
    if s == [] then []
    else
      var init := ArrayUnique(s[..|s| - 1]);
      var last := s[|s| - 1];
      if last in s[..|s| - 1] then init else init + [last]
  }

  /**
   `array_unique` keeps elements in the order of their first occurrences, so
   with its contract it returns exactly the first occurrences, in input order.
   */
  lemma {:induction false} ArrayUniqueKeepsFirstOrder<T(!new)>(s: seq<T>)
    ensures forall i, j :: 0 <= i < j < |ArrayUnique(s)| ==>
      FirstIndex(s, ArrayUnique(s)[i]) < FirstIndex(s, ArrayUnique(s)[j])
  {
    if s != [] {
      var n := |s|;
      var init := s[..n - 1];
      var last := s[n - 1];
      var ri := ArrayUnique(init);
      ArrayUniqueKeepsFirstOrder(init);
      forall y | y in ri
        ensures FirstIndex(s, y) == FirstIndex(init, y) < n - 1
      {
        FirstIndexInPrefix(s, n - 1, y);
      }
      if last !in init {
        assert forall j :: 0 <= j < n - 1 ==> s[j] != last by {
          forall j | 0 <= j < n - 1
            ensures s[j] != last
          {
            assert s[j] == init[j];
          }
        }
        assert FirstIndex(s, last) == n - 1;
        var r := ArrayUnique(s);
        assert r == ri + [last];
        forall i, j | 0 <= i < j < |r|
          ensures FirstIndex(s, r[i]) < FirstIndex(s, r[j])
        {
          assert r[i] == ri[i] && r[i] in ri;
          assert FirstIndex(s, r[i]) == FirstIndex(init, ri[i]) < n - 1;
          if j < |ri| {
            assert r[j] == ri[j] && r[j] in ri;
            assert FirstIndex(s, r[j]) == FirstIndex(init, ri[j]);
            assert FirstIndex(init, ri[i]) < FirstIndex(init, ri[j]);
          } else {
            assert r[j] == last;
            assert FirstIndex(s, r[j]) == n - 1;
          }
        }
      } else {
        assert ArrayUnique(s) == ri;
      }
    }
  }

  /** On a list without repetitions `array_unique` changes nothing. */
  lemma {:induction false} ArrayUniqueOfDistinct<T(!new)>(s: seq<T>)
    requires Distinct(s)
    ensures ArrayUnique(s) == s
  {
    if s != [] {
      var init := s[..|s| - 1];
      assert Distinct(init);
      ArrayUniqueOfDistinct(init);
      assert s[|s| - 1] !in init;
      assert init + [s[|s| - 1]] == s;
    }
  }

  /** The characters HTML escaping rewrites. */
  predicate IsHtmlSpecial(c: char) {
    c == '&' || c == '<' || c == '>' || c == '"' || c == '\''
  }

  function EscapeChar(c: char): (r: string)
    ensures IsHtmlSpecial(c) ==> |r| > 1 && r[0] == '&'
    ensures IsInert(r)
    ensures !IsHtmlSpecial(c) ==> r == [c]
  {
    match c
    case '&' => "&amp;"
    case '<' => "&lt;"
    case '>' => "&gt;"
    case '"' => "&quot;"
    case '\'' => "&#039;"
    case _ => [c]
  }

  /** The concatenation of a list of strings. */
  function Concat(parts: seq<string>): string {
    if parts == [] then "" else parts[0] + Concat(parts[1..])
  }

  /** `esc_html` and `esc_attr`, read as escaping the five HTML-special characters one by one. */
  function Escape(s: string): (r: string)
    ensures IsInert(r)
  {
    var parts := seq(|s|, i requires 0 <= i < |s| => EscapeChar(s[i]));
    ConcatOfInert(parts);
    Concat(parts)
  }

  /** `s` can neither open or close a tag nor end an attribute value. */
  predicate IsInert(s: string) {
    forall i :: 0 <= i < |s| ==> s[i] != '<' && s[i] != '>' && s[i] != '"'
  }

  lemma {:induction false} ConcatOfInert(parts: seq<string>)
    requires forall j :: 0 <= j < |parts| ==> IsInert(parts[j])
    ensures IsInert(Concat(parts))
  {
    if parts != [] {
      ConcatOfInert(parts[1..]);
      var tail := Concat(parts[1..]);
      assert forall i :: |parts[0]| <= i < |parts[0]| + |tail| ==> Concat(parts)[i] == tail[i - |parts[0]|];
    }
  }

  predicate HasNoHtmlSpecial(s: string) {
    forall i :: 0 <= i < |s| ==> !IsHtmlSpecial(s[i])
  }

  lemma {:induction false} ConcatOfSingletons(parts: seq<string>, s: string)
    requires |parts| == |s|
    requires forall j :: 0 <= j < |parts| ==> parts[j] == [s[j]]
    ensures Concat(parts) == s
  {
    if parts != [] {
      ConcatOfSingletons(parts[1..], s[1..]);
      assert [s[0]] + s[1..] == s;
    }
  }

  /** Text without special characters comes out of escaping unchanged. */
  lemma EscapeOfPlain(s: string)
    requires HasNoHtmlSpecial(s)
    ensures Escape(s) == s
  {
    ConcatOfSingletons(seq(|s|, i requires 0 <= i < |s| => EscapeChar(s[i])), s);
  }
}
