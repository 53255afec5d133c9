# JWOP Scripture Copyright Footer, modelled in Dafny

The plugin appends translation copyright notices to single blog posts. This
project models the text pipeline at its core.

- **Detection.** `jwop_scf_detect_translations` walks a fixed six-entry
  registry (NIV, AMP, ESV, MSG, NKJV, NLT). A code is reported when its
  abbreviation occurs in the post body as a case-insensitive,
  `\b`-delimited word. For NIV, a trailing `®` or `&reg;` is also allowed.
- **Footer composition.** `jwop_scf_build_footer_html` maps each code to its
  fixed notice and skips codes without one. It returns `''` when no notice
  remains. Otherwise it wraps the escaped notices, joined by `<br><br>`, in
  one styled `div` under a fixed heading.
- **The `the_content` filter.** A chain of early returns decides whether the
  body comes back unchanged or as `body + "\n\n" + footer`. The chain covers:
  - the view (singular post, in the loop, main query);
  - the site-wide option `jwop_scf_enabled`;
  - the per-post meta `_jwop_scf_disable`;
  - the detection result;
  - the footer.
- **The flags.** `jwop_scf_get_enabled` and the option's sanitize callback.

Modules:

- `Php` (php.dfy): the PHP and WordPress behaviours the plugin relies on:
  - the strict comparison `=== '1'`;
  - string falsiness;
  - `implode`;
  - `array_unique`;
  - HTML escaping.
- `Pcre` (pcre.dfy): the fragment of `preg_match` that the detector's
  patterns use, i.e. `/\b token (?:s1|s2)? \b/i` without `/u`:
  - ASCII word characters;
  - ASCII case folding;
  - a left-to-right scan over start positions;
  - an optional group tried alternative by alternative, then skipped.
- `Detect` (detect.dfy): the registry and the detector. The detector is a
  method with the loop of the source, proved against the function
  `Detected`.
- `Footer` (footer.dfy): the notice table and the composer. The composer is
  a method with the loop and the successive concatenations of the source,
  proved against the function `FooterHtml`. It comes with a reader,
  `ParseFooter`, that recovers the notices from a block.
- `Flags` (flags.dfy): how the option and the post meta are read.
- `Filter` (filter.dfy): the filter callback as a method that follows the
  source's early returns, proved against the function `Render`.
- `Scenarios` (scenarios.dfy): concrete inputs derived from the general
  lemmas: glued words, underscores, case, the registered sign, order, and
  a whole render.

Text is a Dafny `string`, a sequence of characters. Without `/u`, PCRE
matches bytes. Every byte of the UTF-8 encoding of a non-ASCII character is
a non-word byte that matches no ASCII literal. Matching on characters
therefore gives the same verdicts as PCRE gives on the UTF-8 bytes. The one
exception is `®` in the NIV pattern, which is one character here.

WordPress state reaches the model as parameters:
- `View` carries the answers of `is_singular('post')`, `in_the_loop()` and
  `is_main_query()`;
- the stored option is an `Option<Value>`, `None` when it was never saved;
- the post meta is an `Option<Value>`, `None` when it is absent.

## Model

| member | source | states |
|---|---|---|
| Detect.DetectTranslations | jwop-scripture-copyright-footer.php:68-76 | the loop over the registry followed by `array_unique` returns `Detected(content)`; the result holds registry codes only, in registry order, with no code twice |
| Detect.Detected | jwop-scripture-copyright-footer.php:68-75 | the functional model of the detector: the registry codes whose pattern matches the body, in registry order, at most one per registry entry; `Detect.DetectedMembers` and `Detect.DetectedIffWholeWord` state which codes it holds |
| Detect.DetectedAmong | jwop-scripture-copyright-footer.php:71-74 | the loop's result after a prefix of the registry: the codes of those entries whose pattern matches, in order, at most one per entry |
| Detect.DetectedInRegistryOrder | jwop-scripture-copyright-footer.php:70-75 | whatever order the markers occur in, the detected codes are registry codes in registry order |
| Detect.RegistryOrderIsDistinct | jwop-scripture-copyright-footer.php:73-75 | a list in registry order has no repeated code, so each code is reported at most once |
| Php.ArrayUniqueOfDistinct | jwop-scripture-copyright-footer.php:75 | `array_unique` returns a list without repetitions unchanged, so the final `array_unique` changes nothing |
| Php.ArrayUnique | jwop-scripture-copyright-footer.php:75 | `array_unique` keeps exactly the elements of its input and repeats none |
| Php.ArrayUniqueKeepsFirstOrder | jwop-scripture-copyright-footer.php:75 | `array_unique` lists the kept elements in the order of their first occurrences in the input |
| Php.FirstIndex | jwop-scripture-copyright-footer.php:75 | the position of the first occurrence of an element, the position `array_unique` keeps |
| Php.FirstIndexInPrefix | jwop-scripture-copyright-footer.php:75 | helper for `Php.ArrayUniqueKeepsFirstOrder`: an element's first occurrence in a list is its first occurrence in any prefix that contains it |
| Detect.DetectedMembers | jwop-scripture-copyright-footer.php:71-73 | a code is reported iff it is a registry code and its own pattern matches the body |
| Detect.DetectedIffWholeWord | jwop-scripture-copyright-footer.php:72-73 | a code is reported iff it is a registry code that occurs in the body as a whole word, ignoring ASCII case |
| Detect.NivPatternIsWholeWord | jwop-scripture-copyright-footer.php:72 | the NIV pattern, with its optional `®` or `&reg;`, matches iff `NIV` occurs as a whole word |
| Detect.DetectedIsMarkedCodesInOrder | jwop-scripture-copyright-footer.php:68-76 | any list in registry order whose members are exactly the whole-word-marked registry codes is the detector's result |
| Detect.RegistryOrderUnique | jwop-scripture-copyright-footer.php:70-75 | two lists in registry order with the same members are equal, so registry order fixes the result |
| Detect.DetectedEmptyIffNoMarker | jwop-scripture-copyright-footer.php:69-75 | the result is empty iff no registry code occurs as a whole word |
| Detect.DetectedOfEmpty | jwop-scripture-copyright-footer.php:69-75 | empty text yields the empty result |
| Detect.DetectedDependsOnlyOnMarks | jwop-scripture-copyright-footer.php:70-75 | two bodies marking the same registry codes get the same result, wherever and however often the markers occur |
| Detect.CodesAreRegistryKeys | jwop-scripture-copyright-footer.php:70 | the list of codes used throughout is the registry's keys in order, and each key is its own abbreviation |
| Detect.PatternFor | jwop-scripture-copyright-footer.php:72 | the pattern built for an entry: `NIV` with two suffix alternatives for NIV, the plain abbreviation with none for every other code; every suffix starts with a non-word character |
| Detect.RegistryIndex | jwop-scripture-copyright-footer.php:70 | the position in the registry of a registry code, and `6` exactly for strings that are not registry codes |
| Detect.CodesAreWords | jwop-scripture-copyright-footer.php:70 | every registry abbreviation is a non-empty run of word characters |
| Pcre.PregMatch | jwop-scripture-copyright-footer.php:73 | `preg_match` reports a match iff the pattern matches at some start position |
| Pcre.SearchFrom | jwop-scripture-copyright-footer.php:73 | the scan from a start position finds a match iff one starts at or after that position |
| Pcre.IsWordChar | jwop-scripture-copyright-footer.php:72 | `\w` without `/u`: letters, digits and `_` of ASCII only, so `®` and every other non-ASCII character is a non-word character |
| Pcre.SameIgnoringCase | jwop-scripture-copyright-footer.php:72 | two strings are equal under `/i`: same length and position by position equal after folding; equal strings always are |
| Pcre.LiteralAt | jwop-scripture-copyright-footer.php:72 | a literal of the pattern occurs at a position of the text under `/i`: only inside the text, and always where it occurs exactly |
| Pcre.Fold | jwop-scripture-copyright-footer.php:72 | `/i` folding maps each ASCII upper-case letter to its lower-case form (code point + 32), leaves every other character unchanged, and keeps word characters word characters |
| Pcre.FoldSameIff | jwop-scripture-copyright-footer.php:72 | two characters are equal under `/i` iff they are equal or the upper- and lower-case forms of one ASCII letter |
| Pcre.BoundaryAt | jwop-scripture-copyright-footer.php:72 | `\b` holds between a word and a non-word character; at the start it holds iff the first character is a word character, at the end iff the last one is |
| Pcre.GroupThenBoundary | jwop-scripture-copyright-footer.php:72 | the optional group followed by `\b` succeeds whenever `\b` already holds where it starts (the group is skipped), and with no alternatives exactly then |
| Pcre.AlternativeTaken | jwop-scripture-copyright-footer.php:72 | any alternative that occurs where the group starts, ignoring case, with `\b` right after it makes the group succeed |
| Pcre.AlternativeOfGroup | jwop-scripture-copyright-footer.php:72 | a group that succeeds where `\b` does not hold took one of its alternatives, and that alternative is followed by `\b` |
| Pcre.MatchesAt | jwop-scripture-copyright-footer.php:72 | a match at a start position lies inside the text, with the token right at that position |
| Pcre.WholeWordPattern | jwop-scripture-copyright-footer.php:72 | for a token of word characters, `\b token \b` matches iff the token occurs as a whole word |
| Pcre.NonWordAlternativesIrrelevant | jwop-scripture-copyright-footer.php:72 | after a word character, an optional group whose alternatives start with non-word characters followed by `\b` holds iff `\b` holds there |
| Pcre.OptionalNonWordSuffixIrrelevant | jwop-scripture-copyright-footer.php:72 | such an optional group never changes whether a word token matches |
| Pcre.NonWordSuffixIrrelevantAt | jwop-scripture-copyright-footer.php:72 | helper for `Pcre.OptionalNonWordSuffixIrrelevant`: at any one start position such a group does not change whether a word token matches |
| Pcre.LiteralWordChars | jwop-scripture-copyright-footer.php:72 | helper for `Pcre.WholeWordPattern` and `Pcre.OptionalNonWordSuffixIrrelevant`: a case-insensitive occurrence of a word consists of word characters |
| Pcre.MissingLetterNoOccurrence | jwop-scripture-copyright-footer.php:72 | helper for the scenarios that show a code absent: a word with a letter the text lacks in both cases occurs nowhere in it |
| Pcre.LetterPinsOccurrence | jwop-scripture-copyright-footer.php:72 | helper for `Scenarios.GluedMarkersIgnored`: a word whose letter appears, in either case, at a single position of the text can occur only where that letter lines up |
| Footer.HasNotice | jwop-scripture-copyright-footer.php:80-89 | the notice table has a key for a code (`isset`); every key is a three- or four-letter upper-case code, and `Filter.NoticeTableMatchesRegistry` shows the keys are exactly the registry's codes |
| Footer.NoticeText | jwop-scripture-copyright-footer.php:80-87 | the table's notice for a listed code; each notice begins "Scripture quotations marked " followed by the code it is for |
| Footer.Opener | jwop-scripture-copyright-footer.php:91-92 | the block's opening: a `div` with the escaped inline style, ending with the fixed heading |
| Footer.NoticeLines | jwop-scripture-copyright-footer.php:88-89 | the loop's `$lines`: one escaped notice per given code that has one, in input order, never more lines than codes; `Footer.NoticeLinesOfOne`, `Footer.UnknownCodeSkipped` and `Footer.NoticeLinesOfKnown` state its contents |
| Footer.FooterHtml | jwop-scripture-copyright-footer.php:78-96 | the functional model of the composer: `''` or a block at least as long as the opener and `</div>`; `Footer.FooterEmptyIff` and `Footer.FooterRoundTrip` state when it is empty and what it holds |
| Footer.BuildFooterHtml | jwop-scripture-copyright-footer.php:78-96 | the loop and the successive concatenations return `FooterHtml(codes)`, which is `''` iff no given code has a notice |
| Footer.NoticeLinesEmptyIff | jwop-scripture-copyright-footer.php:88-90 | no notice line is produced iff no given code is in the notice table |
| Footer.FooterEmptyIff | jwop-scripture-copyright-footer.php:79-90 | the block is `''` iff no given code has a notice, the empty list included, and it is never the falsy `'0'` |
| Footer.NoticeLinesAppend | jwop-scripture-copyright-footer.php:89 | the notices of a concatenation of code lists are the concatenated notices |
| Footer.NoticeLinesOfOne | jwop-scripture-copyright-footer.php:89 | a single code yields its escaped notice if the table lists it, and nothing otherwise |
| Footer.UnknownCodeSkipped | jwop-scripture-copyright-footer.php:89 | a code without a notice is skipped wherever it stands in the list |
| Footer.NoticeLinesOfKnown | jwop-scripture-copyright-footer.php:89 | when every code has a notice, line i is the escaped notice of code i |
| Footer.NoticeLinesHaveNoTag | jwop-scripture-copyright-footer.php:89 | no escaped notice contains `<` |
| Footer.FooterRoundTrip | jwop-scripture-copyright-footer.php:88-95 | reading a block back gives exactly the escaped notices of the known codes, in input order, between the fixed opener and `</div>`; there is no block when there is no notice |
| Footer.ParseBuiltFooter | jwop-scripture-copyright-footer.php:92-94 | opener, lines joined by `<br><br>`, and `</div>` read back as the lines, for lines without `<` |
| Footer.SplitImplode | jwop-scripture-copyright-footer.php:93 | splitting `implode('<br><br>', lines)` at its tags gives the lines back, for lines without `<` |
| Footer.IndexOfChar | jwop-scripture-copyright-footer.php:93 | helper for `Footer.SplitImplode`: the reader's search finds the first occurrence of a character, or the end |
| Php.IsFalsy | jwop-scripture-copyright-footer.php:107 | `!$s` holds for a string iff it is `''` or `'0'`, so both `''` returns of the composer are caught |
| Php.IsStrictOne | jwop-scripture-copyright-footer.php:102 | `=== '1'` holds iff the value is exactly the string `'1'`, never for a non-string |
| Php.Implode | jwop-scripture-copyright-footer.php:93 | `implode` of no parts is `''` and of one part is that part |
| Php.Escape | jwop-scripture-copyright-footer.php:89-92 | `esc_html` and `esc_attr`: escaped text contains no `<`, `>` or `"` |
| Php.EscapeOfPlain | jwop-scripture-copyright-footer.php:89-92 | escaping text without HTML-special characters returns it unchanged |
| Php.EscapeChar | jwop-scripture-copyright-footer.php:89-92 | a special character becomes an entity starting with `&`; any other character is kept |
| Flags.GetEnabled | jwop-scripture-copyright-footer.php:11-14 | the footer is enabled iff the option was never saved (default `'1'`) or is exactly the string `'1'` |
| Flags.SanitizeEnabled | jwop-scripture-copyright-footer.php:40 | the sanitizer returns `'1'` or `'0'`, and `'1'` iff it was given exactly `'1'` |
| Flags.SanitizedOptionEnables | jwop-scripture-copyright-footer.php:40 | after sanitizing, the stored option enables the footer iff `'1'` was submitted |
| Flags.SanitizeIdempotent | jwop-scripture-copyright-footer.php:40 | sanitizing an already sanitized value changes nothing |
| Flags.IsDisabled | jwop-scripture-copyright-footer.php:102 | a post is opted out iff its meta is exactly `'1'`; absent meta does not opt out |
| Filter.ShouldAnnotate | jwop-scripture-copyright-footer.php:99-103 | the early returns let the body through iff the view is a singular post in the main loop, the stored option is unset or exactly `'1'`, and the post meta is not exactly `'1'` |
| Filter.IsPrimaryView | jwop-scripture-copyright-footer.php:99 | the view passes the first early return iff it is a singular post, in the loop and the main query, all three at once |
| Filter.Render | jwop-scripture-copyright-footer.php:99-108 | the result is the body itself or the body, a blank line and the block of the detected codes; it differs from the body iff the policy allows it and some code is detected |
| Filter.NoticeTableMatchesRegistry | jwop-scripture-copyright-footer.php:70-87 | the notice table and the detector's registry list the same codes |
| Filter.FilterContent | jwop-scripture-copyright-footer.php:98-109 | the early-return chain, calling the detector and composer methods, returns `Render(...)` |
| Filter.RenderUnchanged | jwop-scripture-copyright-footer.php:99-105 | the body comes back unchanged outside the primary view, when the option is not `'1'`, when the meta is `'1'`, or when nothing is detected |
| Filter.RenderAppends | jwop-scripture-copyright-footer.php:104-108 | otherwise the result is the body, a blank line and the footer of the detected codes |
| Filter.FooterOfDetected | jwop-scripture-copyright-footer.php:106-107 | when something is detected, the footer is non-empty and truthy, so the `!$footer` return is never taken |
| Filter.DetectedCodesHaveNotices | jwop-scripture-copyright-footer.php:80-87 | every code the detector can report has a notice |
| Filter.RenderChangesIff | jwop-scripture-copyright-footer.php:98-109 | the body changes iff the policy allows it and some registry code occurs as a whole word |
| Filter.RenderExtendsBody | jwop-scripture-copyright-footer.php:106-108 | the body is always a prefix of the result; anything after it is `"\n\n"` and a block that reads back as the escaped notices of the detected codes |
| Filter.AppendedBlock | jwop-scripture-copyright-footer.php:108 | helper for `Filter.RenderExtendsBody`: `body . "\n\n" . footer` splits back into the body, the blank line and the footer |
| Scenarios.GluedMarkersIgnored | jwop-scripture-copyright-footer.php:72-73 | `AMP` is not detected in "AMPed up", `ESV` not in "ESV_1", `NIV` not in "NIVX" |
| Scenarios.LowerCaseMarkerFound | jwop-scripture-copyright-footer.php:72-73 | `AMP` is detected in "quoted from amp." |
| Scenarios.NivWithSignFound | jwop-scripture-copyright-footer.php:72 | `NIV` is detected in "NIV®" |
| Scenarios.NivWithEntityFound | jwop-scripture-copyright-footer.php:72 | `NIV` is detected in "the NIV&reg; text" |
| Scenarios.OrderExample | jwop-scripture-copyright-footer.php:70-75 | "ESV, NIV" yields NIV then ESV, in registry order |
| Scenarios.FooterOfTwo | jwop-scripture-copyright-footer.php:89-94 | the block for two codes with notices reads back as their two escaped notices, in the order given |
| Scenarios.FooterOrderExample | jwop-scripture-copyright-footer.php:89-94 | the block for NIV and ESV reads back as NIV's escaped notice, then ESV's |
| Scenarios.EsvQuotationDetected | jwop-scripture-copyright-footer.php:68-76 | "as the ESV says..." yields exactly ESV |
| Scenarios.FooterOfOne | jwop-scripture-copyright-footer.php:89-95 | the block for one code with a notice is the opener, its escaped notice and `</div>` |
| Scenarios.RenderOneCode | jwop-scripture-copyright-footer.php:104-108 | a body in which exactly one code is detected gets exactly that code's notice appended |
| Scenarios.EndToEndExample | jwop-scripture-copyright-footer.php:98-109 | a primary-view post quoting the ESV, with the option unset and no meta, gets the ESV block appended |
| Scenarios.OptedOutExample | jwop-scripture-copyright-footer.php:102-103 | the same post with its meta set to `'1'` is left alone |

## Left out

- The activation hook, settings section and field, `register_setting`
  wiring and meta box (jwop-scripture-copyright-footer.php:15-59) are left
  out. They only register callbacks and echo markup. The sanitize
  callback at line 40 is modelled.
- The `save_post` handler (lines 60-66) is left out: nonce, autosave and
  capability checks, and `update_post_meta`. All of these are host calls.
- `get_option`, `get_post_meta`, `get_the_ID`, `is_singular`,
  `in_the_loop` and `is_main_query` are not modelled. Their answers are
  parameters, and the filter's priority (50) plays no part.
- Escaping is modelled as one function that rewrites `& < > " '` into
  entities:
  - `Php.Escape` does not model `esc_html`'s refusal to double-encode an
    existing entity;
  - it does not model the check for invalid UTF-8;
  - it does not model the filters WordPress runs on escaped text.
- Footer.FooterRoundTrip: its contract states the notices in escaped form,
  as `Escape(NoticeText(code))`, not as the literal text. The fixed notices
  and the style contain no HTML-special character, so `Escape` leaves them
  unchanged (`Php.EscapeOfPlain`). That fact about each long literal is
  not proved.
- Only the pattern shape the detector builds is modelled, not PCRE in
  general: a literal token with `\b` on both sides and `/i`, and an
  optional group of literal alternatives.
- Bodies that are not valid UTF-8 are not modelled, because text is a
  sequence of characters.
- Markers inside HTML tags and attributes of the body count as markers,
  since the source scans the raw markup. The model keeps that behaviour.
- PHP's loose typing is cut down to a string or a non-string (`Value`). A
  non-string stored value is never `=== '1'`, and the model needs nothing
  more about it.
