/**
 * `GlobalPhone.Number`: a territory and a national string, with the format
 * chosen for the string, validity, and the national, international, area-code
 * and local-number renderings.
 *
 * Each rendering is first defined as a function of the territory and the
 * national string; the class `Number` then holds the memo cells of the .NET
 * object and its getters are proved to return those functions' values.
 */
module Numbers {
  import opened Wrappers
  import opened Patterns
  import opened Normalization
  import opened Territories

  /** `f.Match(str)` (strict) or `f.Match(str, false)` (loose). */
  predicate FormatMatches(f: Format, str: string, strict: bool) {
    if strict then f.strictMatch(str) else f.looseMatch(str)
  }

  /** Position `i` holds the first format of `formats` that matches `str` in this pass. */
  ghost predicate FirstMatchAt(formats: seq<Format>, str: string, strict: bool, i: nat) {
    && i < |formats|
    && FormatMatches(formats[i], str, strict)
    && forall j :: 0 <= j < i ==> !FormatMatches(formats[j], str, strict)
  }

  /** No format of `formats` matches `str` in this pass. */
  ghost predicate NoneMatches(formats: seq<Format>, str: string, strict: bool) {
    forall j :: 0 <= j < |formats| ==> !FormatMatches(formats[j], str, strict)
  }

  /** `formats.FirstOrDefault(...)` for one pass, as an index. */
  function FirstMatchIndex(formats: seq<Format>, str: string, strict: bool): (r: Option<nat>)
    ensures r.Some? ==> FirstMatchAt(formats, str, strict, r.value)
    ensures r.None? ==> NoneMatches(formats, str, strict)
  {
    if formats == [] then None
    else if FormatMatches(formats[0], str, strict) then Some(0)
    else
      match FirstMatchIndex(formats[1..], str, strict)
      case None => None
      case Some(i) => Some(i + 1)
  }

  /** `FindFormatFor(str)`: the first strict match, else the first loose match, else null. */
  function FindFormatFor(formats: seq<Format>, str: string): (r: Option<Format>)
    ensures r.None? <==> NoneMatches(formats, str, true) && NoneMatches(formats, str, false)
  {
    match FirstMatchIndex(formats, str, true)
    case Some(i) => Some(formats[i])
    case None =>
      match FirstMatchIndex(formats, str, false)
      case Some(i) => Some(formats[i])
      case None => None
  }

  /**
   * The two passes of `FindFormatFor`: the first strict match wins; a loose
   * match is taken only when no format matches strictly, and then the first one.
   */
  lemma FindFormatForTwoPass(formats: seq<Format>, str: string, i: nat)
    ensures FirstMatchAt(formats, str, true, i) ==> FindFormatFor(formats, str) == Some(formats[i])
    ensures NoneMatches(formats, str, true) && FirstMatchAt(formats, str, false, i) ==>
      FindFormatFor(formats, str) == Some(formats[i])
  {
    if FirstMatchAt(formats, str, true, i) {
      FirstMatchIsUnique(formats, str, true, i);
    }
    if NoneMatches(formats, str, true) && FirstMatchAt(formats, str, false, i) {
      FirstMatchIsUnique(formats, str, false, i);
    }
  }

  lemma FirstMatchIsUnique(formats: seq<Format>, str: string, strict: bool, i: nat)
    requires FirstMatchAt(formats, str, strict, i)
    ensures FirstMatchIndex(formats, str, strict) == Some(i)
  {
  }

  /** `ValidNumberFormats.Any(...)`: some listed pattern matches `str`. */
  function AnyValidPattern(formats: seq<(string, Regex)>, str: string): (r: bool)
    ensures r <==> exists i :: 0 <= i < |formats| && Matches(formats[i].1, str)
  {
    if formats == [] then false
    else if Matches(formats[0].1, str) then true
    else
      var rest := AnyValidPattern(formats[1..], str);
      assert forall i :: 1 <= i < |formats| ==> formats[i] == formats[1..][i - 1];
      rest
  }

  /**
   * `MatchAnyValidPattern`, with the `MissingValidNumberFormatsException` it
   * throws for a null list as `None`.
   */
  function MatchAnyValidPattern(t: Territory, str: string): (r: Option<bool>)
    ensures r.None? <==> t.validNumberFormats.None?
  {
    match t.validNumberFormats
    case None => None
    case Some(formats) => Some(AnyValidPattern(formats, str))
  }

  /**
   * `IsValid`: the national or the possible pattern must accept the string and
   * some valid pattern must match; a null list of valid patterns falls back to
   * "a format is found and the national pattern accepts".
   */
  function IsValidOf(t: Territory, str: string): (r: bool)
    ensures r ==> Matches(t.nationalPattern, str) || Matches(t.possiblePattern, str)
    ensures r && t.validNumberFormats.None? ==> FindFormatFor(t.region.formats, str).Some?
  {
    if !(Matches(t.nationalPattern, str) || Matches(t.possiblePattern, str)) then false
    else
      match MatchAnyValidPattern(t, str)
      case None => FindFormatFor(t.region.formats, str).Some? && Matches(t.nationalPattern, str)
      case Some(b) => b
  }

  /** The three ways `IsValid` decides. */
  lemma IsValidCases(t: Territory, str: string)
    ensures !Matches(t.nationalPattern, str) && !Matches(t.possiblePattern, str) ==> !IsValidOf(t, str)
    ensures t.validNumberFormats.Some? ==>
      (IsValidOf(t, str) <==>
        && (Matches(t.nationalPattern, str) || Matches(t.possiblePattern, str))
        && exists i :: 0 <= i < |t.validNumberFormats.value| && Matches(t.validNumberFormats.value[i].1, str))
    ensures t.validNumberFormats == Some([]) ==> !IsValidOf(t, str)
    ensures t.validNumberFormats.None? && (Matches(t.nationalPattern, str) || Matches(t.possiblePattern, str)) ==>
      (IsValidOf(t, str) <==> FindFormatFor(t.region.formats, str).Some? && Matches(t.nationalPattern, str))
  {
  }

  /** `NationalPrefixFormattingRule`: the format's own rule, else the territory's; no region-level rule. */
  function NationalPrefixFormattingRule(t: Territory, f: Format): (r: Option<string>)
    ensures f.nationalPrefixFormattingRule.Some? ==> r == f.nationalPrefixFormattingRule
    ensures f.nationalPrefixFormattingRule.None? ==> r == t.nationalPrefixFormattingRule
    ensures r.None? <==> f.nationalPrefixFormattingRule.None? && t.nationalPrefixFormattingRule.None?
  {
    if f.nationalPrefixFormattingRule.Some? then f.nationalPrefixFormattingRule
    else t.nationalPrefixFormattingRule
  }

  /**
   * A formatting rule with `$NP` replaced by the national prefix (null deletes
   * it) and then `$FG` replaced by `firstGroup`.
   */
  function FormattedPrefix(t: Territory, rule: string, firstGroup: string): string {
    ReplaceAll(ReplaceAll(rule, "$NP", t.region.nationalPrefix.GetOr("")), "$FG", firstGroup)
  }

  /** A rule with neither placeholder is used as it is. */
  lemma FormattedPrefixWithoutPlaceholders(t: Territory, rule: string, firstGroup: string)
    requires !Occurs(rule, "$NP") && !Occurs(rule, "$FG")
    ensures FormattedPrefix(t, rule, firstGroup) == rule
  {
    ReplaceAllAbsent(rule, "$NP", t.region.nationalPrefix.GetOr(""));
    ReplaceAllAbsent(rule, "$FG", firstGroup);
  }

  /**
   * `ApplyNationalPrefixFormat(result)`: with a non-empty rule and a result that
   * starts with a digit, the rule's rewriting, a space, and what follows the
   * first digit group and its separator; otherwise `result` unchanged.
   */
  function ApplyNationalPrefixFormat(t: Territory, f: Format, result: string): (r: string)
    ensures r != result ==>
      && NationalPrefixFormattingRule(t, f).Some? && NationalPrefixFormattingRule(t, f).value != ""
      && result != [] && IsDigit(result[0])
  {
    var rule := NationalPrefixFormattingRule(t, f);
    var split := SplitFirstGroup(result);
    if rule.Some? && rule.value != "" && split.Some? then
      FormattedPrefix(t, rule.value, split.value.firstGroup) + " " + split.value.rest
    else
      result
  }

  /** `NationalFormat`: the national template with the prefix rule applied, else the national string. */
  function NationalFormatOf(t: Territory, str: string): string {
    match FindFormatFor(t.region.formats, str)
    case None => str
    case Some(f) =>
      match f.apply(str, National)
      case None => str
      case Some(result) => ApplyNationalPrefixFormat(t, f, result)
  }

  /** Without a format, or without a national template, the national format is the national string. */
  lemma NationalFormatFallback(t: Territory, str: string)
    requires FindFormatFor(t.region.formats, str).None?
          || FindFormatFor(t.region.formats, str).value.apply(str, National).None?
    ensures NationalFormatOf(t, str) == str
  {
  }

  /**
   * With a non-empty effective rule and a templated result `res` that splits as
   * `firstGroup + separator + rest`, the national format is the rewritten rule,
   * a space, and `rest`.
   */
  lemma NationalFormatWithRule(t: Territory, str: string, f: Format, res: string, rule: string,
                               firstGroup: string, rest: string)
    requires FindFormatFor(t.region.formats, str) == Some(f)
    requires f.apply(str, National) == Some(res)
    requires NationalPrefixFormattingRule(t, f) == Some(rule) && rule != ""
    requires IsGreedySplit(res, firstGroup, rest)
    ensures NationalFormatOf(t, str) == FormattedPrefix(t, rule, firstGroup) + " " + rest
  {
    GreedySplitIsUnique(res, firstGroup, rest);
  }

  /** Without a usable rule, or when the templated result does not start with a digit, it is returned as is. */
  lemma NationalFormatUnchanged(t: Territory, str: string, f: Format, res: string)
    requires FindFormatFor(t.region.formats, str) == Some(f)
    requires f.apply(str, National) == Some(res)
    requires NationalPrefixFormattingRule(t, f) in {None, Some("")} || res == [] || !IsDigit(res[0])
    ensures NationalFormatOf(t, str) == res
  {
  }

  /** The `"+" + CountryCode + " "` lead of the international format; a null code reads as `""`. */
  function InternationalLead(t: Territory): string {
    "+" + t.region.countryCode.GetOr("") + " "
  }

  /** What follows the lead: the international template, else the national string. */
  function InternationalBody(t: Territory, str: string): string {
    match FindFormatFor(t.region.formats, str)
    case None => str
    case Some(f) => f.apply(str, International).GetOr(str)
  }

  /** `InternationalFormat`: the lead, then the international template or the national string. */
  function InternationalFormatOf(t: Territory, str: string): (r: string)
    ensures InternationalLead(t) <= r
    ensures FindFormatFor(t.region.formats, str).None? ==> r == InternationalLead(t) + str
  {
    InternationalLead(t) + InternationalBody(t, str)
  }

  /** The dialable characters of `"+" + cc + " " + body`: the `+`, then those of `cc` and of `body`. */
  lemma DialableInternationalParts(cc: string, body: string)
    ensures StripNonDialable("+" + cc + " " + body) == "+" + StripNonDialable(cc) + StripNonDialable(body)
  {
    var spaced := [' '] + body;
    var tail := cc + spaced;
    assert "+" + cc + " " + body == ['+'] + tail;
    StripNonDialableKeep('+', tail);
    StripNonDialableAppend(cc, spaced);
    StripNonDialableDrop(' ', body);
  }

  /** `InternationalString`: the international format with every non-dialable character removed. */
  function InternationalStringOf(t: Territory, str: string): (r: string)
    ensures AllDialable(r)
    ensures r == "+" + StripNonDialable(t.region.countryCode.GetOr("")) + StripNonDialable(InternationalBody(t, str))
  {
    DialableInternationalParts(t.region.countryCode.GetOr(""), InternationalBody(t, str));
    StripNonDialable(InternationalFormatOf(t, str))
  }

  /**
   * With a non-empty all-digit country code, the dialable international string
   * is already in normal form: normalizing it changes nothing.
   */
  lemma InternationalStringIsNormalized(t: Territory, str: string)
    requires t.region.countryCode.Some? && t.region.countryCode.value != [] && AllDigits(t.region.countryCode.value)
    ensures Normalize(Some(InternationalStringOf(t, str))) == InternationalStringOf(t, str)
  {
    var r := InternationalStringOf(t, str);
    var cc := t.region.countryCode.value;
    assert StripNonDialable(cc) == cc;
    assert r[1] == cc[0];
    NormalizeDialable(r);
    assert LeadingPlusCount(r[1..]) == 0;
    assert r == "+" + r[1..];
  }

  /** What `AreaCode` needs to return: a format, and a national template when a rule is in effect. */
  predicate AreaCodeDefined(t: Territory, str: string) {
    var f := FindFormatFor(t.region.formats, str);
    && f.Some?
    && (NationalPrefixFormattingRule(t, f.value).Some? ==> f.value.apply(str, National).Some?)
  }

  /** Group 1 of `SplitFirstGroup.Match(s)`; a failed match reports `""`. */
  function FirstGroupOrEmpty(s: string): string {
    match SplitFirstGroup(s)
    case Some(split) => split.firstGroup
    case None => ""
  }

  /** Group 2 of `SplitFirstGroup.Match(s)`; a failed match reports `""`. */
  function RestOrEmpty(s: string): string {
    match SplitFirstGroup(s)
    case Some(split) => split.rest
    case None => ""
  }

  /**
   * `AreaCode`: with a rule in effect (even an empty one), the digits of the
   * rule rewritten with the first group of the national template; without one,
   * the format's `FirstInPattern`.
   */
  function AreaCodeOf(t: Territory, str: string): (r: Option<string>)
    requires AreaCodeDefined(t, str)
    ensures var f := FindFormatFor(t.region.formats, str).value;
      && (NationalPrefixFormattingRule(t, f).Some? ==> r.Some? && AllDigits(r.value))
      && (NationalPrefixFormattingRule(t, f).None? ==> r == f.firstInPattern(str))
  {
    var f := FindFormatFor(t.region.formats, str).value;
    match NationalPrefixFormattingRule(t, f)
    case Some(rule) =>
      Some(StripNonDigits(FormattedPrefix(t, rule, FirstGroupOrEmpty(f.apply(str, National).value))))
    case None => f.firstInPattern(str)
  }

  /** What `LocalNumber` needs: what `AreaCode` needs, and a national template when there is an area code. */
  predicate LocalNumberDefined(t: Territory, str: string) {
    && AreaCodeDefined(t, str)
    && (AreaCodeOf(t, str).Some? ==> FindFormatFor(t.region.formats, str).value.apply(str, National).Some?)
  }

  /** `LocalNumber`: the rest after the first group of the national template, or the national format. */
  function LocalNumberOf(t: Territory, str: string): (r: string)
    requires LocalNumberDefined(t, str)
    ensures AreaCodeOf(t, str).None? ==> r == NationalFormatOf(t, str)
    ensures AreaCodeOf(t, str).Some? ==>
      var res := FindFormatFor(t.region.formats, str).value.apply(str, National).value;
      |r| <= |res| && res[|res| - |r|..] == r
  {
    if AreaCodeOf(t, str).Some? then
      RestOrEmpty(FindFormatFor(t.region.formats, str).value.apply(str, National).value)
    else
      NationalFormatOf(t, str)
  }

  /**
   * Whenever there is an area code, whether from a rule (an empty one included)
   * or from `FirstInPattern`, the local number is group 2 of the greedy split of
   * the national template.
   */
  lemma LocalNumberIsRest(t: Territory, str: string, f: Format, res: string, firstGroup: string, rest: string)
    requires FindFormatFor(t.region.formats, str) == Some(f)
    requires f.apply(str, National) == Some(res)
    requires AreaCodeDefined(t, str) && AreaCodeOf(t, str).Some?
    requires IsGreedySplit(res, firstGroup, rest)
    ensures LocalNumberDefined(t, str)
    ensures LocalNumberOf(t, str) == rest
  {
    GreedySplitIsUnique(res, firstGroup, rest);
  }

  /**
   * Whenever there is an area code and the national template does not start
   * with a digit, the failed match reports group 2 as `""`.
   */
  lemma LocalNumberWithoutSplit(t: Territory, str: string, f: Format, res: string)
    requires FindFormatFor(t.region.formats, str) == Some(f)
    requires f.apply(str, National) == Some(res)
    requires AreaCodeDefined(t, str) && AreaCodeOf(t, str).Some?
    requires res == [] || !IsDigit(res[0])
    ensures LocalNumberDefined(t, str)
    ensures LocalNumberOf(t, str) == ""
  {
  }

  /**
   * With a non-empty rule and a national template that splits greedily, the
   * national format is a prefix part, a space and the local number, and the
   * area code is the digits of that prefix part.
   */
  lemma AreaCodeLocalNumberDecomposition(t: Territory, str: string, f: Format, res: string, rule: string,
                                         firstGroup: string, rest: string)
    requires FindFormatFor(t.region.formats, str) == Some(f)
    requires f.apply(str, National) == Some(res)
    requires NationalPrefixFormattingRule(t, f) == Some(rule) && rule != ""
    requires IsGreedySplit(res, firstGroup, rest)
    ensures LocalNumberDefined(t, str)
    ensures LocalNumberOf(t, str) == rest
    ensures AreaCodeOf(t, str) == Some(StripNonDigits(FormattedPrefix(t, rule, firstGroup)))
    ensures NationalFormatOf(t, str) == FormattedPrefix(t, rule, firstGroup) + " " + LocalNumberOf(t, str)
  {
    GreedySplitIsUnique(res, firstGroup, rest);
  }

  /**
   * A number: its territory and national string, and the memo cells the .NET
   * getters fill on first use. A cell holds `None` until its getter runs; since
   * the getters use `??`, a getter whose value is null leaves its cell empty.
   */
  class Number {
    const territory: Territory
    const nationalString: Option<string>
    var formatCell: Option<Format>
    var nationalFormatCell: Option<string>
    var internationalFormatCell: Option<string>
    var internationalStringCell: Option<string>

    /** Every filled cell holds what a fresh computation would give. */
    ghost predicate Valid()
      reads this
    {
      && (formatCell.Some? ==>
            nationalString.Some? && formatCell == FindFormatFor(territory.region.formats, nationalString.value))
      && (nationalFormatCell.Some? ==>
            nationalString.Some? && nationalFormatCell.value == NationalFormatOf(territory, nationalString.value))
      && (internationalFormatCell.Some? ==>
            nationalString.Some? && internationalFormatCell.value == InternationalFormatOf(territory, nationalString.value))
      && (internationalStringCell.Some? ==>
            nationalString.Some? && internationalStringCell.value == InternationalStringOf(territory, nationalString.value))
    }

    constructor (territory: Territory, nationalString: Option<string>)
      ensures this.territory == territory && this.nationalString == nationalString
      ensures formatCell.None? && nationalFormatCell.None?
      ensures internationalFormatCell.None? && internationalStringCell.None?
      ensures Valid()
    {
      this.territory := territory;
      this.nationalString := nationalString;
      formatCell := None;
      nationalFormatCell := None;
      internationalFormatCell := None;
      internationalStringCell := None;
    }

    /** The `Format` getter: the cached format, or `FindFormatFor` stored on first use. */
    method MatchedFormat() returns (f: Option<Format>)
      requires Valid() && nationalString.Some?
      modifies this`formatCell
      ensures Valid()
      ensures f == FindFormatFor(territory.region.formats, nationalString.value)
      ensures formatCell == f
    {
      if formatCell.None? {
        formatCell := FindFormatFor(territory.region.formats, nationalString.value);
      }
      f := formatCell;
    }

    method NationalFormat() returns (r: string)
      requires Valid() && nationalString.Some?
      modifies this`formatCell, this`nationalFormatCell
      ensures Valid()
      ensures r == NationalFormatOf(territory, nationalString.value)
      ensures nationalFormatCell == Some(r)
      ensures old(nationalFormatCell).Some? ==> formatCell == old(formatCell)
      ensures old(nationalFormatCell).None? ==> formatCell == FindFormatFor(territory.region.formats, nationalString.value)
    {
      if nationalFormatCell.None? {
        var str := nationalString.value;
        var format := MatchedFormat();
        var result := str;
        if format.Some? {
          var applied := format.value.apply(str, National);
          if applied.Some? {
            result := ApplyNationalPrefixFormat(territory, format.value, applied.value);
          }
        }
        nationalFormatCell := Some(result);
      }
      r := nationalFormatCell.value;
    }

    method IsValid() returns (r: bool)
      requires Valid() && nationalString.Some?
      modifies this`formatCell
      ensures Valid()
      ensures r == IsValidOf(territory, nationalString.value)
      ensures formatCell == old(formatCell) || formatCell == FindFormatFor(territory.region.formats, nationalString.value)
    {
      var str := nationalString.value;
      if !(Matches(territory.nationalPattern, str) || Matches(territory.possiblePattern, str)) {
        return false;
      }
      var any := MatchAnyValidPattern(territory, str);
      match any {
        case Some(b) =>
          r := b;
        case None =>
          var format := MatchedFormat();
          r := format.Some? && Matches(territory.nationalPattern, str);
      }
    }

    method InternationalFormat() returns (r: string)
      requires Valid() && nationalString.Some?
      modifies this`formatCell, this`internationalFormatCell
      ensures Valid()
      ensures r == InternationalFormatOf(territory, nationalString.value)
      ensures internationalFormatCell == Some(r)
      ensures old(internationalFormatCell).Some? ==> formatCell == old(formatCell)
      ensures old(internationalFormatCell).None? ==> formatCell == FindFormatFor(territory.region.formats, nationalString.value)
    {
      if internationalFormatCell.None? {
        var str := nationalString.value;
        var format := MatchedFormat();
        var formatted := str;
        if format.Some? {
          var applied := format.value.apply(str, International);
          if applied.Some? {
            formatted := applied.value;
          }
        }
        internationalFormatCell := Some(InternationalLead(territory) + formatted);
      }
      r := internationalFormatCell.value;
    }

    method InternationalString() returns (r: string)
      requires Valid() && nationalString.Some?
      modifies this`formatCell, this`internationalFormatCell, this`internationalStringCell
      ensures Valid()
      ensures r == InternationalStringOf(territory, nationalString.value)
      ensures internationalStringCell == Some(r)
      ensures old(internationalStringCell).Some? ==>
        formatCell == old(formatCell) && internationalFormatCell == old(internationalFormatCell)
      ensures old(internationalStringCell).None? ==>
        internationalFormatCell == Some(InternationalFormatOf(territory, nationalString.value))
    {
      if internationalStringCell.None? {
        var formatted := InternationalFormat();
        internationalStringCell := Some(StripNonDialable(formatted));
      }
      r := internationalStringCell.value;
    }

    method AreaCode() returns (r: Option<string>)
      requires Valid() && nationalString.Some?
      requires AreaCodeDefined(territory, nationalString.value)
      modifies this`formatCell
      ensures Valid()
      ensures r == AreaCodeOf(territory, nationalString.value)
      ensures formatCell == FindFormatFor(territory.region.formats, nationalString.value)
    {
      var str := nationalString.value;
      var format := MatchedFormat();
      var rule := NationalPrefixFormattingRule(territory, format.value);
      if rule.Some? {
        var areaCodeSuffix := FirstGroupOrEmpty(format.value.apply(str, National).value);
        r := Some(StripNonDigits(FormattedPrefix(territory, rule.value, areaCodeSuffix)));
      } else {
        r := format.value.firstInPattern(str);
      }
    }

    method LocalNumber() returns (r: string)
      requires Valid() && nationalString.Some?
      requires LocalNumberDefined(territory, nationalString.value)
      modifies this`formatCell, this`nationalFormatCell
      ensures Valid()
      ensures r == LocalNumberOf(territory, nationalString.value)
      ensures formatCell == FindFormatFor(territory.region.formats, nationalString.value)
      ensures nationalFormatCell == old(nationalFormatCell) || nationalFormatCell == Some(r)
    {
      var areaCode := AreaCode();
      if areaCode.Some? {
        var format := MatchedFormat();
        r := RestOrEmpty(format.value.apply(nationalString.value, National).value);
      } else {
        r := NationalFormat();
      }
    }
  }

  /**
   * `Territory.ParseNationalString(raw)`: normalize and strip the national
   * prefix, then build a number if the possible-number pattern accepts the
   * result, and throw `FailedToParseNumberException` otherwise.
   */
  method ParseNationalString(t: Territory, raw: Option<string>) returns (r: Result<Number, ParseError>)
    requires WellFormedTerritory(t)
    ensures r.Success? <==> Possible(t, ToNationalNumber(t, raw))
    ensures r.Success? ==>
      && fresh(r.value)
      && r.value.territory == t
      && r.value.nationalString == ToNationalNumber(t, raw)
      && r.value.Valid()
      && r.value.formatCell.None? && r.value.nationalFormatCell.None?
      && r.value.internationalFormatCell.None? && r.value.internationalStringCell.None?
    ensures r.Failure? ==> r.error == FailedToParseNumber(NotPossibleMessage(t))
  {
    var str := ToNationalNumber(t, raw);
    if Possible(t, str) {
      var number := new Number(t, str);
      return Success(number);
    }
    return Failure(FailedToParseNumber(NotPossibleMessage(t)));
  }
}
