/** The regular-expression engine (java.util.regex), Double.parseDouble,
    Double.toString and Character.isLetterOrDigit are not interpreted by this model:
    an `Oracle` value supplies them, and every property proved here holds for every
    oracle. */
module Regex {
  import opened Wrappers

  datatype Flag = CaseInsensitive | DotAll | Multiline

  /** A compiled java.util.regex.Pattern: its source and the flags it was compiled with. */
  datatype Pattern = Pattern(regex: string, flags: set<Flag>)

  /** What Matcher reports after a successful find(): `groups[i]` is group(i + 1),
      None when that group took no part in the match (Java returns null). */
  datatype Match = Match(groups: seq<Option<string>>) {
    function GroupCount(): nat {
      |groups|
    }
  }

  datatype Oracle = Oracle(
    /** Pattern.compile(regex, ...) returns instead of throwing PatternSyntaxException. */
    compiles: string -> bool,
    /** The first match Matcher.find() reports for a compiled pattern, if any. */
    find: (Pattern, string) -> Option<Match>,
    /** String.matches(regex): the whole string matches the (well-formed) regex. */
    fullMatch: (string, string) -> bool,
    /** Double.parseDouble on a non-empty string of digits and dots, as an exact real. */
    parseDouble: string -> Option<real>,
    /** Double.toString. */
    doubleToString: real -> string,
    /** Character.isLetterOrDigit. */
    isLetterOrDigit: char -> bool)

  /** Pattern.compile with exceptions caught: None for a pattern that does not compile. */
  function Compile(o: Oracle, regex: string, flags: set<Flag>): (r: Option<Pattern>)
    ensures r.Some? <==> o.compiles(regex)
    ensures r.Some? ==> r.value.regex == regex && r.value.flags == flags
  {
    if o.compiles(regex) then Some(Pattern(regex, flags)) else None
  }

  /** pattern.matcher(text).find(). */
  predicate Finds(o: Oracle, p: Pattern, text: string) {
    o.find(p, text).Some?
  }

  /** Double.parseDouble: the empty string raises NumberFormatException (None). */
  function ParseDouble(o: Oracle, s: string): (r: Option<real>)
    ensures s == [] ==> r.None?
  {
    if s == [] then None else o.parseDouble(s)
  }
}
