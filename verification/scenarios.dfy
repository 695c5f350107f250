/**
 * A worked territory: national prefix and country code `1`, national numbers of
 * ten digits, possible numbers of seven to ten digits, and one format
 * `(\d{3})(\d{3})(\d{4})` rendered as `$1-$2-$3`, with no formatting rule and no
 * list of valid formats.
 */
module Scenarios {
  import opened Wrappers
  import opened Patterns
  import opened Normalization
  import opened Territories
  import opened Numbers

  /** The anchored pattern `^(\d{lo,hi})$`. */
  function DigitRunPattern(lo: nat, hi: nat): Regex {
    Regex(
      s => if lo <= |s| <= hi && AllDigits(s) then Some(RegexMatch(0, |s|, [s, s])) else None,
      (m, rule) => rule)
  }

  predicate TenDigits(s: string) {
    |s| == 10 && AllDigits(s)
  }

  function DashedFormat(): Format {
    Format(
      s => TenDigits(s),
      s => TenDigits(s),
      (s, kind) => if TenDigits(s) then Some(s[..3] + "-" + s[3..6] + "-" + s[6..]) else None,
      s => if TenDigits(s) then Some(s[..3]) else None,
      None)
  }

  function Example(): Territory {
    Territory(
      Some("US"),
      Region(Some("1"), Some("1"), None, None, [DashedFormat()]),
      DigitRunPattern(7, 10),
      DigitRunPattern(10, 10),
      None,
      None)
  }

  /** The national format `$1-$2-$3` of a ten-digit national number. */
  function Dashed(ns: string): string
    requires |ns| == 10
  {
    ns[..3] + "-" + ns[3..6] + "-" + ns[6..]
  }

  /** Any ten-digit national number dialled after the national prefix `1` loses the prefix and is possible. */
  lemma ExampleParse(ns: string)
    requires TenDigits(ns)
    ensures ToNationalNumber(Example(), Some("1" + ns)) == Some(ns)
    ensures Possible(Example(), Some(ns))
  {
    var t := Example();
    var full := "1" + ns;
    assert AllDigits(full) by {
      forall i | 0 <= i < |full| ensures IsDigit(full[i]) {
        if i > 0 {
          assert full[i] == ns[i - 1];
        }
      }
    }
    assert AllDialable(full);
    assert LeadingPlusCount(full) == 0;
    assert Normalize(Some(full)) == full;
    assert StartsWithNationalPrefix(t, full);
    assert full[1..] == ns;
  }

  lemma ExampleFormatFound(ns: string)
    requires TenDigits(ns)
    ensures FindFormatFor(Example().region.formats, ns) == Some(DashedFormat())
  {
    assert FirstMatchIndex(Example().region.formats, ns, true) == Some(0);
  }

  /** The greedy split of `ddd-ddd-dddd` takes the first three digits and keeps the rest. */
  lemma DashedSplit(ns: string)
    requires TenDigits(ns)
    ensures IsGreedySplit(Dashed(ns), ns[..3], ns[3..6] + "-" + ns[6..])
  {
    var d := Dashed(ns);
    var rest := ns[3..6] + "-" + ns[6..];
    assert d == ns[..3] + "-" + rest;
    assert d[..3] == ns[..3];
    assert d[4..] == rest;
    assert d[|d| - |rest|..] == rest;
    assert d[3] == '-';
    assert rest[0] == ns[3];
  }

  lemma DigitsAreDialable(s: string)
    requires AllDigits(s)
    ensures AllDialable(s)
  {
  }

  /** A dash in front of a text is dropped from its dialable characters. */
  lemma DashDropped(x: string)
    ensures StripNonDialable("-" + x) == StripNonDialable(x)
  {
    assert ("-" + x)[1..] == x;
  }

  /** The dialable characters of `ddd-dddd` are its seven digits. */
  lemma LocalPartDialable(d: string, e: string)
    requires AllDigits(d) && AllDigits(e)
    ensures StripNonDialable(d + "-" + e) == d + e
  {
    var dashed := "-" + e;
    assert d + "-" + e == d + dashed;
    StripNonDialableAppend(d, dashed);
    DashDropped(e);
    DigitsAreDialable(d);
    DigitsAreDialable(e);
  }

  /** The digits of `ddd-ddd-dddd` are the national number again. */
  lemma DashedDigits(ns: string)
    requires TenDigits(ns)
    ensures StripNonDialable(Dashed(ns)) == ns
  {
    var local := ns[3..6] + "-" + ns[6..];
    var dashedLocal := "-" + local;
    assert Dashed(ns) == ns[..3] + dashedLocal;
    StripNonDialableAppend(ns[..3], dashedLocal);
    DashDropped(local);
    LocalPartDialable(ns[3..6], ns[6..]);
    DigitsAreDialable(ns[..3]);
    assert ns[..3] + (ns[3..6] + ns[6..]) == ns;
  }

  /** Without a formatting rule, the national format of a ten-digit number is the dashed template. */
  lemma ExampleNationalFormat(ns: string)
    requires TenDigits(ns)
    ensures NationalFormatOf(Example(), ns) == Dashed(ns)
  {
    ExampleFormatFound(ns);
    assert DashedFormat().apply(ns, National) == Some(Dashed(ns));
    NationalFormatUnchanged(Example(), ns, DashedFormat(), Dashed(ns));
  }

  /** The international template of a ten-digit number is the dashed template. */
  lemma ExampleBody(ns: string)
    requires TenDigits(ns)
    ensures InternationalBody(Example(), ns) == Dashed(ns)
  {
    ExampleFormatFound(ns);
    assert DashedFormat().apply(ns, International) == Some(Dashed(ns));
  }

  /** The international format puts `+1 ` before the dashed template; the dialable string is `+1` and the digits. */
  lemma ExampleInternational(ns: string)
    requires TenDigits(ns)
    ensures InternationalFormatOf(Example(), ns) == "+1 " + Dashed(ns)
    ensures InternationalStringOf(Example(), ns) == "+1" + ns
  {
    ExampleBody(ns);
    DashedDigits(ns);
    StripNonDialableKeep('1', []);
    assert "1" == ['1'] + [];
  }

  /** Without a rule, the area code is the format's first group and the local number the rest of the template. */
  lemma ExampleAreaCode(ns: string)
    requires TenDigits(ns)
    ensures LocalNumberDefined(Example(), ns)
    ensures AreaCodeOf(Example(), ns) == Some(ns[..3])
    ensures LocalNumberOf(Example(), ns) == ns[3..6] + "-" + ns[6..]
  {
    ExampleFormatFound(ns);
    assert DashedFormat().apply(ns, National) == Some(Dashed(ns));
    DashedSplit(ns);
    GreedySplitIsUnique(Dashed(ns), ns[..3], ns[3..6] + "-" + ns[6..]);
  }

  /** With no list of valid formats, a ten-digit number is valid: a format is found and the national pattern accepts. */
  lemma ExampleValid(ns: string)
    requires TenDigits(ns)
    ensures IsValidOf(Example(), ns)
  {
    ExampleFormatFound(ns);
    assert Matches(Example().nationalPattern, ns);
  }

  /**
   * A ten-digit national number renders as `ddd-ddd-dddd` nationally and with
   * `+1 ` in front internationally, dials as `+1` and its digits, has its first
   * three digits as area code and the rest of the national format as local
   * number, and is valid through the fallback for a missing list of valid formats.
   */
  lemma ExampleRendering(ns: string)
    requires TenDigits(ns)
    ensures NationalFormatOf(Example(), ns) == Dashed(ns)
    ensures InternationalFormatOf(Example(), ns) == "+1 " + Dashed(ns)
    ensures InternationalStringOf(Example(), ns) == "+1" + ns
    ensures LocalNumberDefined(Example(), ns)
    ensures AreaCodeOf(Example(), ns) == Some(ns[..3])
    ensures LocalNumberOf(Example(), ns) == ns[3..6] + "-" + ns[6..]
    ensures IsValidOf(Example(), ns)
  {
    ExampleNationalFormat(ns);
    ExampleInternational(ns);
    ExampleAreaCode(ns);
    ExampleValid(ns);
  }

  /**
   * Round trip: parsing the national format of a ten-digit number gives the
   * number back, including one that starts with the prefix digit `1`, whose
   * stripping the rollback undoes.
   */
  lemma ExampleRoundTrip(ns: string)
    requires TenDigits(ns)
    ensures ToNationalNumber(Example(), Some(NationalFormatOf(Example(), ns))) == Some(ns)
  {
    var t := Example();
    ExampleRendering(ns);
    var d := Dashed(ns);
    assert LeadingPlusCount(d) == 0 by {
      assert d[0] == ns[0];
    }
    DashedDigits(ns);
    assert Normalize(Some(d)) == ns;
    if StartsWithNationalPrefix(t, ns) {
      assert PrefixCandidate(t, ns) == Some(ns[1..]);
      assert |ns[1..]| == 9;
    }
  }

  /**
   * The same number dialled with a leading `+` and the country code is neither
   * stripped nor possible: country codes are not handled by national parsing.
   */
  lemma ExampleWithCountryCode(ns: string)
    requires TenDigits(ns)
    ensures ToNationalNumber(Example(), Some("+1" + ns)) == Some("+1" + ns)
    ensures !Possible(Example(), ToNationalNumber(Example(), Some("+1" + ns)))
  {
    var t := Example();
    var raw := "+1" + ns;
    assert AllDialable(raw) by {
      forall i | 0 <= i < |raw| ensures IsDialable(raw[i]) {
        if i > 1 {
          assert raw[i] == ns[i - 2];
        }
      }
    }
    assert LeadingPlusCount(raw) == 1 by {
      assert raw[1..] == "1" + ns;
      assert LeadingPlusCount(raw[1..]) == 0;
    }
    assert Normalize(Some(raw)) == raw;
    assert !StartsWithNationalPrefix(t, raw);
    assert !IsDigit(raw[0]);
  }

  /** `123` is too short: it keeps its leading `1` after the rollback and fails the possible pattern. */
  lemma ExampleTooShort()
    ensures ToNationalNumber(Example(), Some("123")) == Some("123")
    ensures !Possible(Example(), ToNationalNumber(Example(), Some("123")))
  {
    var t := Example();
    assert AllDialable("123");
    assert LeadingPlusCount("123") == 0;
    assert Normalize(Some("123")) == "123";
    assert StartsWithNationalPrefix(t, "123");
    assert PrefixCandidate(t, "123") == Some("23");
  }

  /**
   * The worked territory with the formatting rule `$NP ($FG)`: the national
   * prefix, then the first digit group in parentheses.
   */
  function RuleExample(): Territory {
    Example().(nationalPrefixFormattingRule := Some("$NP ($FG)"))
  }

  /** The national format `1 (ddd) ddd-dddd` under that rule. */
  function Parenthesized(ns: string): string
    requires |ns| == 10
  {
    "1 (" + ns[..3] + ")" + " " + (ns[3..6] + "-" + ns[6..])
  }

  /** `$NP` in front of a text without `N` becomes the replacement, and the text is kept. */
  lemma PrefixPlaceholderReplaced(x: string, np: string)
    requires 'N' !in x
    ensures ReplaceAll("$NP" + x, "$NP", np) == np + x
  {
    ReplaceAllHit("$NP" + x, "$NP", np);
    assert ("$NP" + x)[3..] == x;
    OccurrenceCharsInText(x, "$NP", 1);
    ReplaceAllAbsent(x, "$NP", np);
  }

  /** `$NP` in the rule becomes the national prefix `1`. */
  lemma RuleReplacesPrefix()
    ensures ReplaceAll("$NP ($FG)", "$NP", "1") == "1 ($FG)"
  {
    var x := " ($FG)";
    assert "$NP ($FG)" == "$NP" + x;
    assert 'N' !in x;
    PrefixPlaceholderReplaced(x, "1");
  }

  /** `$FG` in the rewritten rule becomes the first group. */
  lemma RuleReplacesFirstGroup(firstGroup: string)
    ensures ReplaceAll("1 ($FG)", "$FG", firstGroup) == "1 (" + firstGroup + ")"
  {
    var a: string, b: string := "1 (", ")";
    assert "1 ($FG)" == a + "$FG" + b;
    OccurrenceCharsInText("1 ($F", "$FG", 2);
    assert a + "$FG"[..2] == "1 ($F";
    ReplaceAllFirstOccurrence(a, "$FG", b, firstGroup);
    assert ReplaceAll(b, "$FG", firstGroup) == b;
  }

  /** With national prefix `1`, the rule `$NP ($FG)` becomes `1 (`, the first group and `)`. */
  lemma ParenthesizedRule(firstGroup: string)
    ensures FormattedPrefix(RuleExample(), "$NP ($FG)", firstGroup) == "1 (" + firstGroup + ")"
  {
    assert RuleExample().region.nationalPrefix.GetOr("") == "1";
    RuleReplacesPrefix();
    RuleReplacesFirstGroup(firstGroup);
  }

  /** The digits of `1 (ddd)` are `1` and the three digits. */
  lemma ParenthesizedDigits(d: string)
    requires AllDigits(d)
    ensures StripNonDigits("1 (" + d + ")") == "1" + d
  {
    StripNonDigitsAppend("1 (", d);
    StripNonDigitsAppend("1 (" + d, ")");
    assert StripNonDigits("1 (") == "1" by {
      assert "1 ("[1..] == " (";
      assert " ("[1..] == "(";
    }
    assert StripNonDigits(")") == "";
  }

  /** The rule territory finds the dashed format and takes the rule `$NP ($FG)` for it. */
  lemma RuleExampleFormat(ns: string)
    requires TenDigits(ns)
    ensures FindFormatFor(RuleExample().region.formats, ns) == Some(DashedFormat())
    ensures DashedFormat().apply(ns, National) == Some(Dashed(ns))
    ensures NationalPrefixFormattingRule(RuleExample(), DashedFormat()) == Some("$NP ($FG)")
  {
    ExampleFormatFound(ns);
    assert RuleExample().region == Example().region;
  }

  /** Under the rule, the national format of a ten-digit number is `1 (ddd) ddd-dddd`. */
  lemma ExampleRuleNationalFormat(ns: string)
    requires TenDigits(ns)
    ensures NationalFormatOf(RuleExample(), ns) == Parenthesized(ns)
  {
    var rest := ns[3..6] + "-" + ns[6..];
    RuleExampleFormat(ns);
    DashedSplit(ns);
    NationalFormatWithRule(RuleExample(), ns, DashedFormat(), Dashed(ns), "$NP ($FG)", ns[..3], rest);
    ParenthesizedRule(ns[..3]);
  }

  /**
   * Under the rule, the area code is the digits of the rewritten rule, so it
   * includes the national prefix: `1` and the first three digits. The local
   * number is what follows the first group in the template.
   */
  lemma ExampleRuleAreaCode(ns: string)
    requires TenDigits(ns)
    ensures LocalNumberDefined(RuleExample(), ns)
    ensures AreaCodeOf(RuleExample(), ns) == Some("1" + ns[..3])
    ensures LocalNumberOf(RuleExample(), ns) == ns[3..6] + "-" + ns[6..]
  {
    var rest := ns[3..6] + "-" + ns[6..];
    RuleExampleFormat(ns);
    DashedSplit(ns);
    AreaCodeLocalNumberDecomposition(RuleExample(), ns, DashedFormat(), Dashed(ns), "$NP ($FG)", ns[..3], rest);
    ParenthesizedRule(ns[..3]);
    ParenthesizedDigits(ns[..3]);
  }

  /**
   * Under the rule `$NP ($FG)`, a ten-digit number renders nationally as
   * `1 (ddd) ddd-dddd`, has `1` and its first three digits as area code, and
   * `ddd-dddd` as local number.
   */
  lemma ExampleRuleRendering(ns: string)
    requires TenDigits(ns)
    ensures NationalFormatOf(RuleExample(), ns) == Parenthesized(ns)
    ensures LocalNumberDefined(RuleExample(), ns)
    ensures AreaCodeOf(RuleExample(), ns) == Some("1" + ns[..3])
    ensures LocalNumberOf(RuleExample(), ns) == ns[3..6] + "-" + ns[6..]
  {
    ExampleRuleNationalFormat(ns);
    ExampleRuleAreaCode(ns);
  }

  /** The dialable characters of `1 (ddd)` are `1` and the three digits. */
  lemma ParenthesizedLeadDialable(d: string)
    requires AllDigits(d)
    ensures StripNonDialable("1 (" + d + ")") == "1" + d
  {
    StripNonDialableAppend("1 (", d);
    StripNonDialableAppend("1 (" + d, ")");
    assert StripNonDialable("1 (") == "1" by {
      assert "1 (" == ['1'] + (" (");
      StripNonDialableKeep('1', " (");
      assert " (" == [' '] + "(";
      StripNonDialableDrop(' ', "(");
    }
    assert StripNonDialable(")") == "" by {
      assert ")" == [')'] + [];
      StripNonDialableDrop(')', []);
    }
    DigitsAreDialable(d);
  }

  /** The dialable characters of `1 (ddd) ddd-dddd` are `1` and the ten digits. */
  lemma ParenthesizedDialable(ns: string)
    requires TenDigits(ns)
    ensures StripNonDialable(Parenthesized(ns)) == "1" + ns
  {
    var lead := "1 (" + ns[..3] + ")";
    var local := ns[3..6] + "-" + ns[6..];
    var spaced := [' '] + local;
    assert Parenthesized(ns) == lead + spaced;
    calc {
      StripNonDialable(lead + spaced);
      { StripNonDialableAppend(lead, spaced); }
      StripNonDialable(lead) + StripNonDialable(spaced);
      { ParenthesizedLeadDialable(ns[..3]); StripNonDialableDrop(' ', local); }
      "1" + ns[..3] + StripNonDialable(local);
      { LocalPartDialable(ns[3..6], ns[6..]); }
      "1" + ns[..3] + (ns[3..6] + ns[6..]);
      { assert ns[..3] + (ns[3..6] + ns[6..]) == ns; }
      "1" + ns;
    }
  }

  /** Parsing the national format `1 (ddd) ddd-dddd` gives the ten-digit number back. */
  lemma ExampleRuleRoundTrip(ns: string)
    requires TenDigits(ns)
    ensures ToNationalNumber(RuleExample(), Some(NationalFormatOf(RuleExample(), ns))) == Some(ns)
  {
    var t := RuleExample();
    ExampleRuleRendering(ns);
    var p := Parenthesized(ns);
    assert LeadingPlusCount(p) == 0 by {
      assert p[0] == '1';
    }
    ParenthesizedDialable(ns);
    assert Normalize(Some(p)) == "1" + ns;
    assert StartsWithNationalPrefix(t, "1" + ns);
    assert ("1" + ns)[1..] == ns;
  }
}
