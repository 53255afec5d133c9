/**
 Concrete behaviours of the plugin on small inputs, derived from the general
 lemmas of the other modules.
 */
module Scenarios {
  import opened Php
  import opened Pcre
  import opened Detect
  import opened Footer
  import opened Flags
  import opened Filter

  /**
   A marker glued to more word characters is not a marker: letters after it,
   `_` after it, or NIV followed by a letter.
   */
  lemma GluedMarkersIgnored()
    ensures "AMP" !in Detected("AMPed up")
    ensures "ESV" !in Detected("ESV_1")
    ensures "NIV" !in Detected("NIVX")
  {
    var t1, t2, t3 := "AMPed up", "ESV_1", "NIVX";
    LetterPinsOccurrence(t1, "AMP", 0, 0);
    LetterPinsOccurrence(t2, "ESV", 0, 0);
    LetterPinsOccurrence(t3, "NIV", 0, 0);
    assert WordAt(t1, 3) && WordAt(t2, 3) && WordAt(t3, 3);
    DetectedIffWholeWord(t1, "AMP");
    DetectedIffWholeWord(t2, "ESV");
    DetectedIffWholeWord(t3, "NIV");
  }

  /** Case is ignored and punctuation ends a word. */
  lemma LowerCaseMarkerFound()
    ensures "AMP" in Detected("quoted from amp.")
  {
    assert MatchesAt("quoted from amp.", PatternFor("AMP", "AMP"), 12);
    DetectedMembers("quoted from amp.", "AMP");
  }

  /** NIV is found with the registered sign. */
  lemma NivWithSignFound()
    ensures "NIV" in Detected("NIV®")
  {
    assert MatchesAt("NIV®", PatternFor("NIV", "NIV"), 0);
    DetectedMembers("NIV®", "NIV");
  }

  /** NIV is found with the registered sign written as an entity. */
  lemma NivWithEntityFound()
    ensures "NIV" in Detected("the NIV&reg; text")
  {
    assert MatchesAt("the NIV&reg; text", PatternFor("NIV", "NIV"), 4);
    DetectedMembers("the NIV&reg; text", "NIV");
  }

  lemma ReversedMarkersFound()
    ensures OccursAsWholeWord("ESV, NIV", "NIV") && OccursAsWholeWord("ESV, NIV", "ESV")
  {
    var t := "ESV, NIV";
    assert LiteralAt(t, 5, "NIV") && !WordAt(t, 4) && !WordAt(t, 8);
    assert LiteralAt(t, 0, "ESV") && !WordAt(t, -1) && !WordAt(t, 3);
  }

  lemma ReversedMarkersOnly()
    ensures !OccursAsWholeWord("ESV, NIV", "AMP") && !OccursAsWholeWord("ESV, NIV", "MSG")
    ensures !OccursAsWholeWord("ESV, NIV", "NKJV") && !OccursAsWholeWord("ESV, NIV", "NLT")
  {
    var t := "ESV, NIV";
    MissingLetterNoOccurrence(t, "AMP", 0);
    MissingLetterNoOccurrence(t, "MSG", 0);
    MissingLetterNoOccurrence(t, "NKJV", 1);
    MissingLetterNoOccurrence(t, "NLT", 1);
  }

  /** Registry order wins over the order of the markers in the text. */
  lemma OrderExample()
    ensures Detected("ESV, NIV") == ["NIV", "ESV"]
  {
    var t := "ESV, NIV";
    ReversedMarkersFound();
    ReversedMarkersOnly();
    assert InRegistryOrder(["NIV", "ESV"]);
    DetectedIsMarkedCodesInOrder(t, ["NIV", "ESV"]);
  }

  /** The block for two codes with notices reads back as their notices, in the order given. */
  lemma FooterOfTwo(first: string, second: string)
    requires HasNotice(first) && HasNotice(second)
    ensures ParseFooter(FooterHtml([first, second])) == Some([Escape(NoticeText(first)), Escape(NoticeText(second))])
  {
    var codes := [first, second];
    NoticeLinesOfKnown(codes);
    var lines := NoticeLines(codes);
    assert lines == [lines[0], lines[1]];
    FooterRoundTrip(codes);
  }

  /** The block for NIV and ESV reads back as NIV's notice, then ESV's. */
  lemma FooterOrderExample()
    ensures ParseFooter(FooterHtml(["NIV", "ESV"])) == Some([Escape(NoticeText("NIV")), Escape(NoticeText("ESV"))])
  {
    FooterOfTwo("NIV", "ESV");
  }

  lemma EsvQuotationOnly()
    ensures !OccursAsWholeWord("as the ESV says...", "NIV") && !OccursAsWholeWord("as the ESV says...", "AMP") && !OccursAsWholeWord("as the ESV says...", "MSG")
    ensures !OccursAsWholeWord("as the ESV says...", "NKJV") && !OccursAsWholeWord("as the ESV says...", "NLT")
  {
    var t := "as the ESV says...";
    MissingLetterNoOccurrence(t, "NIV", 0);
    MissingLetterNoOccurrence(t, "AMP", 1);
    MissingLetterNoOccurrence(t, "MSG", 0);
    MissingLetterNoOccurrence(t, "NKJV", 0);
    MissingLetterNoOccurrence(t, "NLT", 0);
  }

  /** The detector's answer for a post that quotes the ESV. */
  lemma EsvQuotationDetected()
    ensures Detected("as the ESV says...") == ["ESV"]
  {
    var t := "as the ESV says...";
    assert LiteralAt(t, 7, "ESV") && !WordAt(t, 6) && !WordAt(t, 10);
    EsvQuotationOnly();
    DetectedIsMarkedCodesInOrder(t, ["ESV"]);
  }

  /** The block for a single code that has a notice holds just that notice. */
  lemma FooterOfOne(code: string)
    requires HasNotice(code)
    ensures FooterHtml([code]) == Opener() + Escape(NoticeText(code)) + Closer
  {
    NoticeLinesOfOne(code);
  }

  /** A post that mentions exactly one translation gets exactly that notice. */
  lemma RenderOneCode(t: string, view: View, option: Option<Value>, meta: Option<Value>, code: string)
    requires ShouldAnnotate(view, option, meta) && Detected(t) == [code]
    ensures HasNotice(code)
    ensures Render(t, view, option, meta) == t + "\n\n" + (Opener() + Escape(NoticeText(code)) + Closer)
  {
    DetectedCodesHaveNotices(t);
    assert code in Detected(t);
    RenderAppends(t, view, option, meta);
    FooterOfOne(code);
  }

  /** A post shown normally that quotes the ESV gets exactly the ESV notice. */
  lemma EndToEndExample()
    ensures Render("as the ESV says...", View(true, true, true), None, None)
      == "as the ESV says..." + "\n\n" + (Opener() + Escape(NoticeText("ESV")) + Closer)
  {
    EsvQuotationDetected();
    RenderOneCode("as the ESV says...", View(true, true, true), None, None, "ESV");
  }

  /** The same post, opted out, is left alone. */
  lemma OptedOutExample()
    ensures Render("as the ESV says...", View(true, true, true), None, Some(Str("1"))) == "as the ESV says..."
  {
    RenderUnchanged("as the ESV says...", View(true, true, true), None, Some(Str("1")));
  }
}
