/**
 * The .NET regular expressions that come from territory data.
 *
 * Their patterns are data, so the engine is not modelled: a `Regex` is given by
 * what it finds in a string (`scan`, the first match, as `Regex.Match` reports it)
 * and by how it expands a replacement template against a match (`substitute`,
 * the `$1`-style expansion done by `Regex.Replace`).
 */
module Patterns {
  import opened Wrappers

  /** A successful match: where it starts, how long it is, and its groups. */
  datatype RegexMatch = RegexMatch(index: nat, length: nat, groups: seq<string>)

  datatype Regex = Regex(
    scan: string -> Option<RegexMatch>,
    substitute: (RegexMatch, string) -> string)

  /**
   * What the .NET engine guarantees of every regex: a match lies inside the
   * string it was found in, and an empty replacement template expands to nothing.
   */
  ghost predicate WellFormed(p: Regex) {
    && (forall s :: p.scan(s).Some? ==> p.scan(s).value.index + p.scan(s).value.length <= |s|)
    && (forall m :: p.substitute(m, "") == "")
  }

  /** `p.Match(s).Success`. */
  predicate Matches(p: Regex, s: string) {
    p.scan(s).Some?
  }

  /**
   * `p.Replace(s, rule, 1)`: the first match, and only it, is replaced by the
   * expansion of `rule`; everything before and after it is kept.
   */
  function ReplaceFirst(p: Regex, s: string, rule: string): (r: string)
    requires WellFormed(p)
    ensures !Matches(p, s) ==> r == s
    ensures Matches(p, s) ==>
      var m := p.scan(s).value;
      && |r| == |s| - m.length + |p.substitute(m, rule)|
      && r[..m.index] == s[..m.index]
      && r[m.index..m.index + |p.substitute(m, rule)|] == p.substitute(m, rule)
      && r[|r| - (|s| - m.index - m.length)..] == s[m.index + m.length..]
  {
    match p.scan(s)
    case None => s
    case Some(m) => s[..m.index] + p.substitute(m, rule) + s[m.index + m.length..]
  }
}
