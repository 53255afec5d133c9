/**
 The two switches that gate the footer: the site-wide option
 `jwop_scf_enabled` and the per-post meta `_jwop_scf_disable`. Both are
 compared strictly with the string "1".
 */
module Flags {
  import opened Php

  /**
   `jwop_scf_get_enabled()`: the option as stored (`None` when it was never
   saved, in which case the default "1" applies) is enabled only when it is
   exactly the string "1".
   */
  function GetEnabled(stored: Option<Value>): (enabled: bool)
    ensures enabled <==> stored == None || stored == Some(Str("1"))
  {
    var v := if stored.Some? then stored.value else Str("1");
    IsStrictOne(v)
  }

  /** The option's sanitize callback: "1" stays "1", everything else becomes "0". */
  function SanitizeEnabled(v: Value): (r: string)
    ensures r == "1" || r == "0"
    ensures r == "1" <==> v == Str("1")
  {
    if IsStrictOne(v) then "1" else "0"
  }

  /**
   The filter's reading of the post meta: disabled only when the meta is
   exactly "1"; missing meta reads as "" and so as not disabled.
   */
  function IsDisabled(meta: Option<Value>): (disabled: bool)
    ensures disabled <==> meta == Some(Str("1"))
  {
    var v := if meta.Some? then meta.value else Str("");
    IsStrictOne(v)
  }

  /** A saved, sanitized option enables the footer exactly when "1" was submitted. */
  lemma SanitizedOptionEnables(v: Value)
    ensures GetEnabled(Some(Str(SanitizeEnabled(v)))) <==> v == Str("1")
  {
  }

  /** Sanitizing a sanitized value changes nothing. */
  lemma SanitizeIdempotent(v: Value)
    ensures SanitizeEnabled(Str(SanitizeEnabled(v))) == SanitizeEnabled(v)
  {
  }
}
