/**
 The `the_content` filter: appends the copyright block to the body of a
 single post shown in the main loop, unless the footer is switched off
 site-wide or for the post, or the body mentions no translation.
 */
module Filter {
  import opened Php
  import opened Flags
  import opened Pcre
  import opened Detect
  import opened Footer

  /** What WordPress reports about the current render: `is_singular('post')`, `in_the_loop()`, `is_main_query()`. */
  datatype View = View(isSingularPost: bool, inTheLoop: bool, isMainQuery: bool)

  /**
   None of the three conditions of the filter's first early return holds:
   only the one view that answers yes to all three questions passes.
   */
  function IsPrimaryView(view: View): (b: bool)
    ensures b <==> view == View(true, true, true)
  {
    view.isSingularPost && view.inTheLoop && view.isMainQuery
  }

  /**
   The visibility policy: the primary view of a post, the option enabled, the
   post not opted out.
   */
  function ShouldAnnotate(view: View, option: Option<Value>, meta: Option<Value>): (b: bool)
    ensures b <==>
      (view.isSingularPost && view.inTheLoop && view.isMainQuery
       && (option == None || option == Some(Str("1")))
       && meta != Some(Str("1")))
  {
    IsPrimaryView(view) && GetEnabled(option) && !IsDisabled(meta)
  }

  /**
   What the filter returns: the body unchanged, or, when the policy allows it
   and a translation is mentioned, the body followed by a blank line and the
   block for the mentioned translations.
   */
  function Render(content: string, view: View, option: Option<Value>, meta: Option<Value>): (r: string)
    ensures r == content || r == content + "\n\n" + FooterHtml(Detected(content))
    ensures r != content <==> ShouldAnnotate(view, option, meta) && Detected(content) != []
  {
    if !ShouldAnnotate(view, option, meta) then content
    else
      var codes := Detected(content);
      if codes == [] then content
      else
        FooterOfDetected(content);
        var footer := FooterHtml(codes);
        if IsFalsy(footer) then content else content + "\n\n" + footer
  }

  /**
   The filter callback. `option` is the stored `jwop_scf_enabled` option and
   `meta` the current post's `_jwop_scf_disable` meta, `None` when absent.
   */
  method FilterContent(content: string, view: View, option: Option<Value>, meta: Option<Value>)
    returns (out: string)
    ensures out == Render(content, view, option, meta)
  {
    if !view.isSingularPost || !view.inTheLoop || !view.isMainQuery {
      return content;
    }
    if !GetEnabled(option) {
      return content;
    }
    var disabled := IsDisabled(meta);
    if disabled {
      return content;
    }
    var codes := DetectTranslations(content);
    if codes == [] {
      return content;
    }
    var footer := BuildFooterHtml(codes);
    if IsFalsy(footer) {
      return content;
    }
    return content + "\n\n" + footer;
  }

  /** The notice table and the detector's registry list the same six codes. */
  lemma NoticeTableMatchesRegistry(code: string)
    ensures HasNotice(code) <==> code in Codes
  {
    if HasNotice(code) {
      assert code in NoticeCodes;
    }
  }

  /** Every code the detector can report has a notice. */
  lemma DetectedCodesHaveNotices(content: string)
    ensures forall code :: code in Detected(content) ==> HasNotice(code)
  {
    DetectedInRegistryOrder(content);
  }

  /** When the filter annotates at all, the block it appends is a real, truthy one. */
  lemma FooterOfDetected(content: string)
    requires Detected(content) != []
    ensures FooterHtml(Detected(content)) != ""
    ensures !IsFalsy(FooterHtml(Detected(content)))
  {
    DetectedCodesHaveNotices(content);
    var code := Detected(content)[0];
    assert code in Detected(content);
    FooterEmptyIff(Detected(content));
  }

  /**
   The body comes back unchanged when the view is not the primary one, the
   option is not exactly "1", the post meta is exactly "1", or no marker is
   found.
   */
  lemma RenderUnchanged(content: string, view: View, option: Option<Value>, meta: Option<Value>)
    requires !IsPrimaryView(view) || !GetEnabled(option) || IsDisabled(meta) || Detected(content) == []
    ensures Render(content, view, option, meta) == content
  {
  }

  /** Otherwise the blank line and the block are appended. */
  lemma RenderAppends(content: string, view: View, option: Option<Value>, meta: Option<Value>)
    requires ShouldAnnotate(view, option, meta) && Detected(content) != []
    ensures Render(content, view, option, meta) == content + "\n\n" + FooterHtml(Detected(content))
  {
    FooterOfDetected(content);
  }

  /**
   The filter changes the body exactly when the policy allows it and some
   registry code occurs in the body as a whole word.
   */
  lemma RenderChangesIff(content: string, view: View, option: Option<Value>, meta: Option<Value>)
    ensures Render(content, view, option, meta) != content
        <==> ShouldAnnotate(view, option, meta) && exists code :: code in Codes && OccursAsWholeWord(content, code)
  {
    DetectedEmptyIffNoMarker(content);
    if ShouldAnnotate(view, option, meta) && Detected(content) != [] {
      RenderAppends(content, view, option, meta);
      FooterOfDetected(content);
      assert |Render(content, view, option, meta)| > |content|;
    } else {
      RenderUnchanged(content, view, option, meta);
    }
  }

  lemma AppendedBlock(content: string, footer: string)
    ensures var out := content + "\n\n" + footer;
      out[..|content|] == content && out[|content|..|content| + 2] == "\n\n" && out[|content| + 2..] == footer
  {
  }

  /**
   The original body is always a prefix of the result, and whatever follows it
   is a blank line and a block that reads back as the escaped notices of the
   detected codes, in registry order.
   */
  lemma RenderExtendsBody(content: string, view: View, option: Option<Value>, meta: Option<Value>)
    ensures var out := Render(content, view, option, meta);
      |content| <= |out| && out[..|content|] == content &&
      (out == content ||
        (|content| + 2 <= |out| && out[|content|..|content| + 2] == "\n\n" &&
         ParseFooter(out[|content| + 2..]) == Some(NoticeLines(Detected(content)))))
  {
    var out := Render(content, view, option, meta);
    var codes := Detected(content);
    if ShouldAnnotate(view, option, meta) && codes != [] {
      RenderAppends(content, view, option, meta);
      var footer := FooterHtml(codes);
      AppendedBlock(content, footer);
      FooterRoundTrip(codes);
      FooterOfDetected(content);
    } else {
      RenderUnchanged(content, view, option, meta);
    }
  }
}
