/**
 The notice composer (`jwop_scf_build_footer_html`): the copyright block for a
 list of translation codes, or the empty string when none of them has a notice.
 */
module Footer {
  import opened Php

  /** The codes the notice table lists. */
  const NoticeCodes: set<string> := {"NIV", "AMP", "ESV", "MSG", "NKJV", "NLT"}

  /**
   `isset($notices[$code])`. The table's keys are exactly the detector's
   registry codes (`Filter.NoticeTableMatchesRegistry`).
   */
  function HasNotice(code: string): (b: bool)
    ensures b ==> 3 <= |code| <= 4 && forall i :: 0 <= i < |code| ==> 'A' <= code[i] <= 'Z'
  {
    code in NoticeCodes
  }

  /** How every notice begins, before it names its code. */
  const Lead: string := "Scripture quotations marked "

  /**
   The notice table's text for a code it lists: `Lead`, the code, then the
   code's own wording.
   */
  function NoticeText(code: string): (r: string)
    requires HasNotice(code)
    ensures |Lead| + |code| <= |r|
    ensures r[..|Lead| + |code|] == Lead + code
  {
    Lead + code + NoticeWording(code)
  }

  /** What each notice says after its code. */
  function NoticeWording(code: string): string
    requires HasNotice(code)
  {
    if code == "NIV" then "® are taken from the Holy Bible, New International Version®, NIV®. Copyright © 1973, 1978, 1984, 2011 by Biblica, Inc.™ Used by permission. All rights reserved worldwide."
    else if code == "AMP" then " are taken from the Amplified® Bible, Copyright © 2015 by The Lockman Foundation, La Habra, CA 90631, www.lockman.org. All rights reserved."
    else if code == "ESV" then " are from The Holy Bible, English Standard Version®. Copyright © 2001 by Crossway, a publishing ministry of Good News Publishers. Used by permission. All rights reserved."
    else if code == "MSG" then " are from THE MESSAGE. Copyright © by Eugene H. Peterson. Used by permission. All rights reserved."
    else if code == "NKJV" then " are from the New King James Version®. Copyright © 1982 by Thomas Nelson. Used by permission. All rights reserved."
    else " are from the Holy Bible, New Living Translation, Copyright © 1996, 2004, 2015 by Tyndale House Foundation. Used by permission of Tyndale House Publishers, Inc., Carol Stream, Illinois 60188. All rights reserved."
  }

  /** The inline style of the block. */
  const Style: string := "margin-top:1.25rem;padding:0.75rem 1rem;border:1px solid #e6e6e6;border-radius:8px;background:#fafafa;color:#666;font-size:0.9em;line-height:1.5;"

  const Heading: string := "<strong>Scripture Copyright:</strong><br>"
  const Separator: string := "<br><br>"
  const Closer: string := "</div>"

  /** The opening of the block: the styled `div` and the heading. */
  function Opener(): (r: string)
    ensures |Heading| < |r| && r[0] == '<'
    ensures r[|r| - |Heading|..] == Heading
  {
    "<div class=\"jwop-scf-footer\" style=\"" + Escape(Style) + "\">" + Heading
  }

  /**
   The escaped notices of the codes in `codes` that have one, in the order of
   `codes`.
   */
  function NoticeLines(codes: seq<string>): (lines: seq<string>)
    ensures |lines| <= |codes|
  {
    if codes == [] then []
    else
      var code := codes[|codes| - 1];
      NoticeLines(codes[..|codes| - 1]) + (if HasNotice(code) then [Escape(NoticeText(code))] else [])
  }

  /**
   The composer's result: `''`, or the opener, the notice lines and the
   closing tag.
   */
  function FooterHtml(codes: seq<string>): (html: string)
    ensures html == "" || |Opener()| + |Closer| <= |html|
  {
    var lines := NoticeLines(codes);
    if lines == [] then "" else Opener() + Implode(Separator, lines) + Closer
  }

  /** `jwop_scf_build_footer_html($codes)`. */
  method BuildFooterHtml(codes: seq<string>) returns (html: string)
    ensures html == FooterHtml(codes)
    ensures html == "" <==> forall code :: code in codes ==> !HasNotice(code)
  {
    FooterEmptyIff(codes);
    if codes == [] {
      return "";
    }
    var lines: seq<string> := [];
    for i := 0 to |codes|
      invariant lines == NoticeLines(codes[..i])
    {
      if HasNotice(codes[i]) {
        lines := lines + [Escape(NoticeText(codes[i]))];
      }
      assert codes[..i + 1][..i] == codes[..i];
    }
    assert codes[..|codes|] == codes;
    if lines == [] {
      return "";
    }
    html := "<div class=\"jwop-scf-footer\" style=\"" + Escape(Style) + "\">" + Heading;
    html := html + Implode(Separator, lines);
    html := html + Closer;
  }

  /** No notice is produced exactly when no code has one. */
  lemma {:induction false} NoticeLinesEmptyIff(codes: seq<string>)
    ensures NoticeLines(codes) == [] <==> forall code :: code in codes ==> !HasNotice(code)
  {
    if codes != [] {
      var init := codes[..|codes| - 1];
      NoticeLinesEmptyIff(init);
      assert codes == init + [codes[|codes| - 1]];
      assert forall code :: code in codes <==> code in init || code == codes[|codes| - 1];
    }
  }

  /** The block is empty exactly when no code has a notice; it is never the falsy "0". */
  lemma FooterEmptyIff(codes: seq<string>)
    ensures FooterHtml(codes) == "" <==> forall code :: code in codes ==> !HasNotice(code)
    ensures FooterHtml(codes) != "0"
  {
    NoticeLinesEmptyIff(codes);
  }

  /** Notices of a concatenation are the concatenated notices. */
  lemma {:induction false} NoticeLinesAppend(a: seq<string>, b: seq<string>)
    ensures NoticeLines(a + b) == NoticeLines(a) + NoticeLines(b)
    decreases |b|
  {
    if b != [] {
      var init := b[..|b| - 1];
      assert (a + b)[..|a + b| - 1] == a + init;
      NoticeLinesAppend(a, init);
    } else {
      assert a + b == a;
    }
  }

  lemma NoticeLinesOfOne(code: string)
    ensures NoticeLines([code]) == if HasNotice(code) then [Escape(NoticeText(code))] else []
  {
    assert [code][..0] == [];
  }

  /** A code without a notice is skipped wherever it stands. */
  lemma UnknownCodeSkipped(pre: seq<string>, code: string, post: seq<string>)
    requires !HasNotice(code)
    ensures NoticeLines(pre + [code] + post) == NoticeLines(pre + post)
  {
    NoticeLinesAppend(pre, [code]);
    NoticeLinesOfOne(code);
    NoticeLinesAppend(pre + [code], post);
    NoticeLinesAppend(pre, post);
  }

  /** When every code has a notice, the block lists one escaped notice per code, in order. */
  lemma {:induction false} NoticeLinesOfKnown(codes: seq<string>)
    requires forall code :: code in codes ==> HasNotice(code)
    ensures |NoticeLines(codes)| == |codes|
    ensures forall i :: 0 <= i < |codes| ==> NoticeLines(codes)[i] == Escape(NoticeText(codes[i]))
  {
    if codes != [] {
      var init := codes[..|codes| - 1];
      var last := codes[|codes| - 1];
      assert forall code :: code in init ==> code in codes;
      assert last in codes;
      NoticeLinesOfKnown(init);
      var lines := NoticeLines(codes);
      assert lines == NoticeLines(init) + [Escape(NoticeText(last))];
      forall i | 0 <= i < |codes|
        ensures lines[i] == Escape(NoticeText(codes[i]))
      {
        if i < |init| {
          assert codes[i] == init[i];
        }
      }
    }
  }

  /** Each notice line is escaped text, so none contains `<`. */
  lemma {:induction false} NoticeLinesHaveNoTag(codes: seq<string>)
    ensures forall line :: line in NoticeLines(codes) ==> '<' !in line
  {
    if codes != [] {
      NoticeLinesHaveNoTag(codes[..|codes| - 1]);
      var last := codes[|codes| - 1];
      if HasNotice(last) {
        var line := Escape(NoticeText(last));
        assert forall i :: 0 <= i < |line| ==> line[i] != '<';
      }
    }
  }

  /** Position of the first `c` in `s`, or `|s|` when there is none. */
  function IndexOfChar(s: string, c: char): (i: nat)
    ensures i <= |s|
    ensures i < |s| ==> s[i] == c
    ensures forall j :: 0 <= j < i ==> s[j] != c
  {
    if s == [] then 0
    else if s[0] == c then 0
    else 1 + IndexOfChar(s[1..], c)
  }

  lemma IndexOfAbsentChar(s: string, c: char)
    requires c !in s
    ensures IndexOfChar(s, c) == |s|
  {
  }

  /**
   Reads the notices back out of the inside of a block: as notices hold no `<`,
   every `<` there starts a separator.
   */
  function SplitLines(body: string): Option<seq<string>>
    decreases |body|
  {
    var i := IndexOfChar(body, '<');
    if i == |body| then Some([body])
    else if i + |Separator| <= |body| && body[i..i + |Separator|] == Separator then
      match SplitLines(body[i + |Separator|..])
      case None => None
      case Some(rest) => Some([body[..i]] + rest)
    else None
  }

  /** Reads the notices back out of a whole block, or fails if `html` is not one. */
  function ParseFooter(html: string): Option<seq<string>> {
    var open := Opener();
    if |open| + |Closer| <= |html| && html[..|open|] == open && html[|html| - |Closer|..] == Closer then
      SplitLines(html[|open|..|html| - |Closer|])
    else None
  }

  lemma FirstTagAfter(first: string, tail: string)
    requires '<' !in first && tail != [] && tail[0] == '<'
    ensures IndexOfChar(first + tail, '<') == |first|
  {
    assert (first + tail)[|first|] == '<';
  }

  /** Joining `<`-free lines with the separator and splitting again gives the lines back. */
  lemma {:induction false} SplitImplode(lines: seq<string>)
    requires lines != []
    requires forall line :: line in lines ==> '<' !in line
    ensures SplitLines(Implode(Separator, lines)) == Some(lines)
  {
    var first := lines[0];
    if |lines| == 1 {
      IndexOfAbsentChar(first, '<');
      assert lines == [first];
    } else {
      var rest := lines[1..];
      var body := Implode(Separator, lines);
      assert body == first + Separator + Implode(Separator, rest);
      FirstTagAfter(first, Separator + Implode(Separator, rest));
      assert body[|first|..|first| + |Separator|] == Separator;
      assert body[|first| + |Separator|..] == Implode(Separator, rest);
      assert body[..|first|] == first;
      assert forall line :: line in rest ==> line in lines;
      SplitImplode(rest);
      assert [first] + rest == lines;
    }
  }

  /** A block built from `<`-free lines reads back as those lines. */
  lemma ParseBuiltFooter(lines: seq<string>)
    requires lines != []
    requires forall line :: line in lines ==> '<' !in line
    ensures ParseFooter(Opener() + Implode(Separator, lines) + Closer) == Some(lines)
  {
    var open := Opener();
    var body := Implode(Separator, lines);
    var html := open + body + Closer;
    assert html[..|open|] == open;
    assert html[|html| - |Closer|..] == Closer;
    assert html[|open|..|html| - |Closer|] == body;
    SplitImplode(lines);
  }

  /**
   The block can be read back: it is the fixed opening, the notices of the
   codes that have one, in order, joined by the separator, and the closing;
   and when no code has a notice there is no block at all.
   */
  lemma FooterRoundTrip(codes: seq<string>)
    ensures var lines := NoticeLines(codes);
      ParseFooter(FooterHtml(codes)) == if lines == [] then None else Some(lines)
  {
    var lines := NoticeLines(codes);
    if lines != [] {
      NoticeLinesHaveNoTag(codes);
      ParseBuiltFooter(lines);
    }
  }

}
