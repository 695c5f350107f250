/**
 * `GlobalPhone.Territory` and the records it is built from.
 *
 * A territory is read-only once loaded, so it is a datatype. Its `Region` and
 * the region's `Format` records are defined outside `Territory.cs` and
 * `Number.cs` and are modelled abstractly: their data as fields, their
 * behaviour as function fields. The parsing side of
 * the territory is here: national-prefix stripping, the possible-number check
 * and territory equality.
 */
module Territories {
  import opened Wrappers
  import opened Patterns
  import opened Normalization

  /** The two template variants a `Format` can apply: `"national"` and `"international"`. */
  datatype FormatKind = National | International

  /**
   * A number format of the region: its strict and loose match tests
   * (`Match(str)` and `Match(str, false)`), `Apply(str, kind)`, which fills the
   * template for one kind or gives null, `FirstInPattern(str)`, and its own
   * national-prefix formatting rule.
   */
  datatype Format = Format(
    strictMatch: string -> bool,
    looseMatch: string -> bool,
    apply: (string, FormatKind) -> Option<string>,
    firstInPattern: string -> Option<string>,
    nationalPrefixFormattingRule: Option<string>)

  /** The country-level data a territory reads through its region. */
  datatype Region = Region(
    countryCode: Option<string>,
    nationalPrefix: Option<string>,
    nationalPrefixForParsing: Option<Regex>,
    nationalPrefixTransformRule: Option<string>,
    formats: seq<Format>)

  /**
   * A territory. `possiblePattern` and `nationalPattern` are the loader's
   * anchored `^(...)$` patterns; `validNumberFormats` is null when the data has
   * no list of valid formats, which is not the same as an empty list.
   */
  datatype Territory = Territory(
    name: Option<string>,
    region: Region,
    possiblePattern: Regex,
    nationalPattern: Regex,
    nationalPrefixFormattingRule: Option<string>,
    validNumberFormats: Option<seq<(string, Regex)>>)

  /** The engine's guarantees for the one pattern the territory replaces with. */
  ghost predicate WellFormedTerritory(t: Territory) {
    t.region.nationalPrefixForParsing.Some? ==> Patterns.WellFormed(t.region.nationalPrefixForParsing.value)
  }

  /** `Possible(str)`: the possible-number pattern accepts `str`, null read as `""`. */
  predicate Possible(t: Territory, str: Option<string>) {
    Matches(t.possiblePattern, str.GetOr(""))
  }

  /** `NationalNumber(str)`: the national-number pattern accepts `str`, null read as `""`. */
  predicate NationalNumber(t: Territory, str: Option<string>) {
    Matches(t.nationalPattern, str.GetOr(""))
  }

  /** `StartsWithNationalPrefix(str)`: the region has a national prefix and `str` begins with it. */
  predicate StartsWithNationalPrefix(t: Territory, str: string) {
    t.region.nationalPrefix.Some? && t.region.nationalPrefix.value <= str
  }

  /** The national-prefix-for-parsing pattern exists and matches `str`. */
  predicate ParsingPatternMatches(t: Territory, str: string) {
    t.region.nationalPrefixForParsing.Some? && Matches(t.region.nationalPrefixForParsing.value, str)
  }

  /**
   * `stringWithoutPrefix` of `StripNationalPrefix`: the transform branch when the
   * parsing pattern matches, else the literal branch when the prefix is there,
   * else null.
   */
  function PrefixCandidate(t: Territory, str: string): (r: Option<string>)
    requires WellFormedTerritory(t)
    ensures r.None? <==> !ParsingPatternMatches(t, str) && !StartsWithNationalPrefix(t, str)
  {
    if ParsingPatternMatches(t, str) then
      Some(ReplaceFirst(t.region.nationalPrefixForParsing.value, str,
                        t.region.nationalPrefixTransformRule.GetOr("")))
    else if StartsWithNationalPrefix(t, str) then
      Some(str[|t.region.nationalPrefix.value|..])
    else
      None
  }

  /**
   * `StripNationalPrefix(str)`: the candidate is kept only if it is a national
   * number; otherwise the stripping is rolled back. A null candidate is tested as
   * `""`, so the result is null when no branch applies and the national pattern
   * accepts the empty string.
   */
  function StripNationalPrefix(t: Territory, str: string): (r: Option<string>)
    requires WellFormedTerritory(t)
    ensures r == Some(str) || (r == PrefixCandidate(t, str) && NationalNumber(t, r))
  {
    var candidate := PrefixCandidate(t, str);
    if NationalNumber(t, candidate) then candidate else Some(str)
  }

  /** `ToNationalNumber(str)`: normalize, then strip the national prefix. */
  function ToNationalNumber(t: Territory, raw: Option<string>): (r: Option<string>)
    requires WellFormedTerritory(t)
    ensures r == Some(Normalize(raw)) || NationalNumber(t, r)
  {
    StripNationalPrefix(t, Normalize(raw))
  }

  /** The exception `ParseNationalString` throws, with its message `"not possible for " + Name`. */
  datatype ParseError = FailedToParseNumber(message: string)

  /** The message of the exception; a null name concatenates as `""`. */
  function NotPossibleMessage(t: Territory): (m: string)
    ensures "not possible for " <= m
  {
    "not possible for " + t.name.GetOr("")
  }

  /**
   * When the parsing pattern matches, only the transform branch runs: the
   * candidate is the input with its first match replaced, and the literal
   * national prefix plays no part, whatever it is, even when the rollback
   * brings back the input.
   */
  lemma TransformBranchExcludesLiteral(t: Territory, str: string, otherPrefix: Option<string>)
    requires WellFormedTerritory(t)
    requires ParsingPatternMatches(t, str)
    ensures var p := t.region.nationalPrefixForParsing.value;
      var m := p.scan(str).value;
      && PrefixCandidate(t, str)
         == Some(str[..m.index] + p.substitute(m, t.region.nationalPrefixTransformRule.GetOr(""))
                 + str[m.index + m.length..])
      && StripNationalPrefix(t, str)
         == StripNationalPrefix(t.(region := t.region.(nationalPrefix := otherPrefix)), str)
  {
  }

  /** With no transform rule the first match of the parsing pattern is simply deleted. */
  lemma NullTransformRuleDeletesMatch(t: Territory, str: string)
    requires WellFormedTerritory(t)
    requires ParsingPatternMatches(t, str)
    requires t.region.nationalPrefixTransformRule.None?
    ensures var m := t.region.nationalPrefixForParsing.value.scan(str).value;
      PrefixCandidate(t, str) == Some(str[..m.index] + str[m.index + m.length..])
  {
  }

  /**
   * The literal branch fires only when the parsing pattern does not apply and
   * the national prefix is present at the start; its candidate is what follows
   * the prefix.
   */
  lemma LiteralBranch(t: Territory, str: string)
    requires WellFormedTerritory(t)
    requires !ParsingPatternMatches(t, str)
    ensures PrefixCandidate(t, str).Some? <==> StartsWithNationalPrefix(t, str)
    ensures PrefixCandidate(t, str).Some? ==>
      t.region.nationalPrefix.value + PrefixCandidate(t, str).value == str
  {
    if StartsWithNationalPrefix(t, str) {
      var np := t.region.nationalPrefix.value;
      assert str == str[..|np|] + str[|np|..];
    }
  }

  /**
   * When neither branch applies the input comes back unchanged, unless the
   * national pattern accepts the empty string, in which case the null candidate
   * passes the check and the result is null.
   */
  lemma NeitherBranch(t: Territory, str: string)
    requires WellFormedTerritory(t)
    requires !ParsingPatternMatches(t, str) && !StartsWithNationalPrefix(t, str)
    ensures !Matches(t.nationalPattern, "") ==> StripNationalPrefix(t, str) == Some(str)
    ensures Matches(t.nationalPattern, "") ==> StripNationalPrefix(t, str).None?
  {
  }

  /** The stripped result is the candidate exactly when the candidate is a national number. */
  lemma StripRollback(t: Territory, str: string)
    requires WellFormedTerritory(t)
    ensures NationalNumber(t, PrefixCandidate(t, str)) ==> StripNationalPrefix(t, str) == PrefixCandidate(t, str)
    ensures !NationalNumber(t, PrefixCandidate(t, str)) ==> StripNationalPrefix(t, str) == Some(str)
  {
  }

  /** A reference passed to `Equals(object)`: null, a `Territory`, or an object of another type. */
  datatype Object = NullReference | TerritoryObject(territory: Territory) | OtherObject

  /** `Equals(Territory other)`: a non-null territory with an equal name (two null names are equal). */
  predicate EqualsTerritory(t: Territory, other: Option<Territory>) {
    other.Some? && other.value.name == t.name
  }

  /** `Equals(object obj)`: false for null and for other types, else by name. */
  predicate Equals(t: Territory, obj: Object) {
    match obj
    case NullReference => false
    case OtherObject => false
    case TerritoryObject(other) => EqualsTerritory(t, Some(other))
  }

  /** `GetHashCode()`, given the string hash of the runtime: 0 for a null name. */
  function GetHashCode(t: Territory, stringHash: string -> int): (h: int)
    ensures t.name.None? ==> h == 0
  {
    if t.name.None? then 0 else stringHash(t.name.value)
  }

  /** Territories are equal exactly when their names are. */
  lemma EqualsByName(t: Territory, u: Territory)
    ensures Equals(t, TerritoryObject(u)) <==> t.name == u.name
  {
  }

  /** Equality is reflexive, symmetric and transitive, and never holds of null or of another type. */
  lemma EqualsIsEquivalence(t: Territory, u: Territory, v: Territory)
    ensures Equals(t, TerritoryObject(t))
    ensures Equals(t, TerritoryObject(u)) ==> Equals(u, TerritoryObject(t))
    ensures Equals(t, TerritoryObject(u)) && Equals(u, TerritoryObject(v)) ==> Equals(t, TerritoryObject(v))
    ensures !Equals(t, NullReference) && !Equals(t, OtherObject)
  {
  }

  /** Equal territories have equal hash codes, whatever the string hash is. */
  lemma EqualsHashCode(t: Territory, u: Territory, stringHash: string -> int)
    requires Equals(t, TerritoryObject(u))
    ensures GetHashCode(t, stringHash) == GetHashCode(u, stringHash)
  {
  }
}
