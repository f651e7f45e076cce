/**
 * The decisions of the CORS filter that every request passes through: which
 * origin is echoed in `Access-Control-Allow-Origin`, and whether the request
 * is a preflight answered at once with 200 instead of being passed on.
 */
module CorsFilter {
  import opened Wrappers
  import opened JavaText

  /** The fixed allow-list; its first entry is also the fallback. */
  const AllowedOrigins: seq<string> :=
    ["http://localhost:8081", "http://192.168.36.20:8081", "http://172.31.48.1:8081"]

  /** The first entry of `allowed` equal to `origin`, scanning in order. */
  function MatchOrigin(origin: string, allowed: seq<string>): (r: Option<string>)
    ensures r.Some? <==> origin in allowed
    ensures r.Some? ==> r.value == origin
  {
    if |allowed| == 0 then None
    else if allowed[0] == origin then Some(origin)
    else MatchOrigin(origin, allowed[1..])
  }

  /**
   * `getAllowedOrigin`: the request's `Origin` header (`None` when absent)
   * echoed back when it equals an allow-listed origin exactly, otherwise the
   * first allow-listed origin.
   */
  function GetAllowedOrigin(origin: Option<string>): (r: string)
    ensures r in AllowedOrigins
    ensures origin.Some? && origin.value in AllowedOrigins ==> r == origin.value
    ensures !(origin.Some? && origin.value in AllowedOrigins) ==> r == AllowedOrigins[0]
  {
    if origin.None? then AllowedOrigins[0]
    else
      match MatchOrigin(origin.value, AllowedOrigins)
      case Some(o) => o
      case None => AllowedOrigins[0]
  }

  /** Every allow-listed origin ends in the port's last digit. */
  lemma {:induction false} ListedEndInDigit()
    ensures forall o :: o in AllowedOrigins ==> |o| > 0 && o[|o| - 1] == '1'
  {
  }

  /** An allow-listed origin with a trailing slash is not matched: the fallback is sent. */
  lemma {:induction false} TrailingSlashFallsBack(o: string)
    ensures GetAllowedOrigin(Some(o + "/")) == AllowedOrigins[0]
  {
    ListedEndInDigit();
    assert (o + "/")[|o|] == '/';
  }

  /** Matching is case-sensitive: the upper-case spelling of the first origin is not matched. */
  lemma {:induction false} UpperCaseFallsBack()
    ensures GetAllowedOrigin(Some("HTTP://LOCALHOST:8081")) == AllowedOrigins[0]
  {
    var v := "HTTP://LOCALHOST:8081";
    assert v[0] == 'H';
    assert forall o :: o in AllowedOrigins ==> o[0] == 'h';
  }

  // ---------------------------------------------------------------------------
  // The preflight short-circuit
  // ---------------------------------------------------------------------------

  const Preflight: string := "OPTIONS"

  /** `"OPTIONS".equalsIgnoreCase(verb)`. */
  predicate IsPreflight(verb: string) {
    EqualsIgnoreCase(Preflight, verb)
  }

  /**
   * The characters `equalsIgnoreCase` accepts in place of the upper-case
   * ASCII letter `c`: itself, its lower case, and the non-ASCII letters whose
   * case mapping lands on it (dotted and dotless i, long s, the Kelvin sign).
   */
  function Spellings(c: char): set<char>
    requires 'A' <= c <= 'Z'
  {
    {c, (c as int + 32) as char}
    + (if c == 'I' then {'\U{0130}', '\U{0131}'} else {})
    + (if c == 'K' then {'\U{212A}'} else {})
    + (if c == 'S' then {'\U{017F}'} else {})
  }

  lemma {:induction false} SpellingsOfLetter(c: char, b: char)
    requires 'A' <= c <= 'Z'
    ensures CharEqualsIgnoreCase(c, b) <==> b in Spellings(c)
  {
  }

  /** A request method is a preflight exactly when it spells "OPTIONS" letter by letter in any case. */
  lemma {:induction false} PreflightSpellings(verb: string)
    ensures IsPreflight(verb) <==>
      |verb| == |Preflight| && forall i :: 0 <= i < |Preflight| ==> verb[i] in Spellings(Preflight[i])
  {
    if |verb| == |Preflight| {
      forall i | 0 <= i < |Preflight|
        ensures CharEqualsIgnoreCase(Preflight[i], verb[i]) <==> verb[i] in Spellings(Preflight[i])
      {
        SpellingsOfLetter(Preflight[i], verb[i]);
      }
    }
  }

  /** What the filter does with the request after setting the CORS headers. */
  datatype Disposition = RespondOk | PassDown

  datatype FilterOutcome = FilterOutcome(allowOrigin: string, disposition: Disposition)

  /**
   * `doFilter` reduced to its two decisions: the allowed origin it writes
   * and whether it answers 200 at once or passes the request down the chain.
   */
  function DoFilter(verb: string, origin: Option<string>): (r: FilterOutcome)
    ensures r.allowOrigin in AllowedOrigins
    ensures r.disposition == RespondOk <==>
      |verb| == |Preflight| && forall i :: 0 <= i < |Preflight| ==> verb[i] in Spellings(Preflight[i])
  {
    PreflightSpellings(verb);
    FilterOutcome(GetAllowedOrigin(origin), if IsPreflight(verb) then RespondOk else PassDown)
  }

  /** Both the lower-case spelling and the long-s spelling of the method short-circuit. */
  lemma {:induction false} PreflightVariants()
    ensures DoFilter("options", None).disposition == RespondOk
    ensures DoFilter("OPTION\U{017F}", None).disposition == RespondOk
    ensures DoFilter("OPTION", None).disposition == PassDown
  {
    PreflightSpellings("options");
    PreflightSpellings("OPTION\U{017F}");
  }
}
