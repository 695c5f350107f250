/**
 * The static text handling of `GlobalPhone.Number`: `Normalize`, the four fixed
 * regular expressions it and the formatting code use, and .NET's ordinal
 * `String.Replace`. The fixed regexes are modelled over ASCII: `\d` is `0`-`9`
 * and `\w` is letters, digits and `_`.
 */
module Normalization {
  import opened Wrappers

  predicate IsDigit(c: char) {
    '0' <= c <= '9'
  }

  predicate IsWordChar(c: char) {
    IsDigit(c) || 'a' <= c <= 'z' || 'A' <= c <= 'Z' || c == '_'
  }

  /** The characters `[,#+\*\d]` that survive normalization. */
  predicate IsDialable(c: char) {
    IsDigit(c) || c == ',' || c == '#' || c == '+' || c == '*'
  }

  predicate AllDigits(s: string) {
    forall i :: 0 <= i < |s| ==> IsDigit(s[i])
  }

  predicate AllDialable(s: string) {
    forall i :: 0 <= i < |s| ==> IsDialable(s[i])
  }

  /** `NonDialableChars.Replace(s, "")`: keeps exactly the dialable characters, in order. */
  function StripNonDialable(s: string): (r: string)
    ensures |r| <= |s|
    ensures AllDialable(r)
    ensures AllDialable(s) ==> r == s
  {
    if s == [] then []
    else if IsDialable(s[0]) then [s[0]] + StripNonDialable(s[1..])
    else StripNonDialable(s[1..])
  }

  /** `notSlashD.Replace(s, "")`: the digit subsequence of `s`. */
  function StripNonDigits(s: string): (r: string)
    ensures |r| <= |s|
    ensures AllDigits(r)
    ensures AllDigits(s) ==> r == s
  {
    if s == [] then []
    else if IsDigit(s[0]) then [s[0]] + StripNonDigits(s[1..])
    else StripNonDigits(s[1..])
  }

  /** Length of the run of `+` that `^\++` matches at the start of `s`. */
  function LeadingPlusCount(s: string): (n: nat)
    ensures n <= |s|
    ensures forall i :: 0 <= i < n ==> s[i] == '+'
    ensures n < |s| ==> s[n] != '+'
  {
    if s != [] && s[0] == '+' then 1 + LeadingPlusCount(s[1..]) else 0
  }

  /** `LeadingPlusChars.Replace(s, "+")`: a leading run of `+` becomes a single `+`. */
  function CollapseLeadingPluses(s: string): (r: string)
    ensures |r| <= |s|
    ensures LeadingPlusCount(s) == 0 ==> r == s
    ensures LeadingPlusCount(s) > 0 ==>
      r != [] && r[0] == '+' && LeadingPlusCount(r) == 1 && r[1..] == s[LeadingPlusCount(s)..]
  {
    var n := LeadingPlusCount(s);
    if n == 0 then s else "+" + s[n..]
  }

  /**
   * `Number.Normalize`: null reads as the empty string, the leading `+` run is
   * collapsed, and then every non-dialable character is deleted.
   */
  function Normalize(str: Option<string>): (r: string)
    ensures str.None? ==> r == ""
    ensures AllDialable(r)
    ensures |r| <= |str.GetOr("")|
  {
    StripNonDialable(CollapseLeadingPluses(str.GetOr("")))
  }

  lemma {:induction false} StripNonDigitsAppend(a: string, b: string)
    ensures StripNonDigits(a + b) == StripNonDigits(a) + StripNonDigits(b)
  {
    if a == [] {
      assert a + b == b;
    } else {
      assert (a + b)[1..] == a[1..] + b;
      StripNonDigitsAppend(a[1..], b);
    }
  }

  lemma {:induction false} StripNonDialableAppend(a: string, b: string)
    ensures StripNonDialable(a + b) == StripNonDialable(a) + StripNonDialable(b)
  {
    if a == [] {
      assert a + b == b;
    } else {
      assert (a + b)[1..] == a[1..] + b;
      StripNonDialableAppend(a[1..], b);
    }
  }

  /** A dialable character in front is kept. */
  lemma StripNonDialableKeep(c: char, x: string)
    requires IsDialable(c)
    ensures StripNonDialable([c] + x) == [c] + StripNonDialable(x)
  {
    assert ([c] + x)[1..] == x;
  }

  /** A character that is not dialable in front is dropped. */
  lemma StripNonDialableDrop(c: char, x: string)
    requires !IsDialable(c)
    ensures StripNonDialable([c] + x) == StripNonDialable(x)
  {
    assert ([c] + x)[1..] == x;
  }

  lemma {:induction false} DigitsSurviveStripNonDialable(s: string)
    ensures StripNonDigits(StripNonDialable(s)) == StripNonDigits(s)
  {
    if s != [] {
      DigitsSurviveStripNonDialable(s[1..]);
      if IsDialable(s[0]) {
        StripNonDigitsAppend([s[0]], StripNonDialable(s[1..]));
      }
    }
  }

  lemma {:induction false} PlusRunHasNoDigits(s: string)
    requires forall i :: 0 <= i < |s| ==> s[i] == '+'
    ensures StripNonDigits(s) == []
  {
    if s != [] {
      PlusRunHasNoDigits(s[1..]);
    }
  }

  lemma DigitsSurviveCollapse(s: string)
    ensures StripNonDigits(CollapseLeadingPluses(s)) == StripNonDigits(s)
  {
    var n := LeadingPlusCount(s);
    if n > 0 {
      assert s == s[..n] + s[n..];
      StripNonDigitsAppend(s[..n], s[n..]);
      StripNonDigitsAppend("+", s[n..]);
      PlusRunHasNoDigits(s[..n]);
    }
  }

  /** Normalization only deletes or collapses: the digits of the input all survive, in order. */
  lemma NormalizeKeepsDigits(str: Option<string>)
    ensures StripNonDigits(Normalize(str)) == StripNonDigits(str.GetOr(""))
  {
    var s := str.GetOr("");
    DigitsSurviveStripNonDialable(CollapseLeadingPluses(s));
    DigitsSurviveCollapse(s);
  }

  /** On text that is already dialable, normalization is just the `+` collapse. */
  lemma NormalizeDialable(s: string)
    requires AllDialable(s)
    ensures Normalize(Some(s)) == CollapseLeadingPluses(s)
  {
    var c := CollapseLeadingPluses(s);
    var n := LeadingPlusCount(s);
    if n > 0 {
      forall i | 0 <= i < |c| ensures IsDialable(c[i]) {
        if i > 0 {
          assert c[i] == s[n + i - 1];
        }
      }
    }
  }

  /**
   * Normalizing twice gives the same text exactly when the first result does not
   * start with `++`; the `+` collapse runs before the noise is deleted, so noise
   * between plus signs can leave such a run behind.
   */
  lemma NormalizeIdempotentIff(str: Option<string>)
    ensures var once := Normalize(str);
      Normalize(Some(once)) == once <==> !(|once| >= 2 && once[0] == '+' && once[1] == '+')
  {
    var once := Normalize(str);
    NormalizeDialable(once);
    var n := LeadingPlusCount(once);
    if |once| >= 2 && once[0] == '+' && once[1] == '+' {
      assert LeadingPlusCount(once[1..]) >= 1;
      assert n >= 2;
      assert |CollapseLeadingPluses(once)| < |once|;
    } else if n > 0 {
      assert n == 1;
      assert once == "+" + once[1..];
    }
  }

  /** The witness: `"a++1"` normalizes to `"++1"`, which normalizes further to `"+1"`. */
  lemma NormalizeNotIdempotent()
    ensures Normalize(Some("a++1")) == "++1"
    ensures Normalize(Some(Normalize(Some("a++1")))) == "+1"
    ensures Normalize(Some(Normalize(Some("a++1")))) != Normalize(Some("a++1"))
  {
    assert LeadingPlusCount("a++1") == 0;
    assert StripNonDialable("1") == "1";
    assert StripNonDialable("+1") == "+1";
    assert StripNonDialable("++1") == "++1";
    assert StripNonDialable("a++1") == "++1";
    assert LeadingPlusCount("1") == 0;
    assert LeadingPlusCount("+1") == 1;
    assert LeadingPlusCount("++1") == 2;
  }

  /** Length of the leading run of `s` whose characters satisfy `IsDigit`. */
  function LeadingDigitCount(s: string): (n: nat)
    ensures n <= |s|
    ensures forall i :: 0 <= i < n ==> IsDigit(s[i])
    ensures n < |s| ==> !IsDigit(s[n])
  {
    if s != [] && IsDigit(s[0]) then 1 + LeadingDigitCount(s[1..]) else 0
  }

  /** Length of the leading run of `s` that `\W*` consumes. */
  function LeadingNonWordCount(s: string): (n: nat)
    ensures n <= |s|
    ensures forall i :: 0 <= i < n ==> !IsWordChar(s[i])
    ensures n < |s| ==> IsWordChar(s[n])
  {
    if s != [] && !IsWordChar(s[0]) then 1 + LeadingNonWordCount(s[1..]) else 0
  }

  /** Groups 1 and 2 of a successful `SplitFirstGroup` match. */
  datatype FirstGroupSplit = FirstGroupSplit(firstGroup: string, rest: string)

  /**
   * How `^(\d+)\W*(.*)$` splits `s` into `firstGroup + separator + rest` when the
   * greedy quantifiers take all they can: a non-empty maximal digit run, a
   * separator of non-word characters only, and a rest that is empty or starts
   * with a word character.
   */
  predicate IsGreedySplit(s: string, firstGroup: string, rest: string) {
    && |firstGroup| + |rest| <= |s|
    && s[..|firstGroup|] == firstGroup
    && s[|s| - |rest|..] == rest
    && firstGroup != []
    && AllDigits(firstGroup)
    && (|firstGroup| < |s| ==> !IsDigit(s[|firstGroup|]))
    && (forall i :: |firstGroup| <= i < |s| - |rest| ==> !IsWordChar(s[i]))
    && (rest != [] ==> IsWordChar(rest[0]))
  }

  /**
   * `SplitFirstGroup.Match(s)`: it succeeds exactly when `s` starts with a digit,
   * and then its groups are the greedy split.
   */
  function SplitFirstGroup(s: string): (r: Option<FirstGroupSplit>)
    ensures r.Some? <==> |s| > 0 && IsDigit(s[0])
    ensures r.Some? ==> IsGreedySplit(s, r.value.firstGroup, r.value.rest)
  {
    var d := LeadingDigitCount(s);
    if d == 0 then None
    else
      var w := LeadingNonWordCount(s[d..]);
      Some(FirstGroupSplit(s[..d], s[d + w..]))
  }

  lemma {:induction false} LeadingDigitCountIs(s: string, k: nat)
    requires k <= |s|
    requires forall i :: 0 <= i < k ==> IsDigit(s[i])
    requires k < |s| ==> !IsDigit(s[k])
    ensures LeadingDigitCount(s) == k
  {
    if k > 0 {
      LeadingDigitCountIs(s[1..], k - 1);
    }
  }

  lemma {:induction false} LeadingNonWordCountIs(s: string, k: nat)
    requires k <= |s|
    requires forall i :: 0 <= i < k ==> !IsWordChar(s[i])
    requires k < |s| ==> IsWordChar(s[k])
    ensures LeadingNonWordCount(s) == k
  {
    if k > 0 {
      LeadingNonWordCountIs(s[1..], k - 1);
    }
  }

  /** The greedy split is unique: `SplitFirstGroup` finds any split that has its shape. */
  lemma GreedySplitIsUnique(s: string, firstGroup: string, rest: string)
    requires IsGreedySplit(s, firstGroup, rest)
    ensures SplitFirstGroup(s) == Some(FirstGroupSplit(firstGroup, rest))
  {
    var d := |firstGroup|;
    LeadingDigitCountIs(s, d);
    var w := |s| - |rest| - d;
    LeadingNonWordCountIs(s[d..], w);
  }

  /** `pattern` stands in `s` at position `i`. */
  predicate OccursAt(s: string, pattern: string, i: nat) {
    i + |pattern| <= |s| && s[i..i + |pattern|] == pattern
  }

  /** `s` contains `pattern` somewhere. */
  ghost predicate Occurs(s: string, pattern: string) {
    exists i: nat :: OccursAt(s, pattern, i)
  }

  /**
   * `s.Replace(oldValue, newValue)` of .NET (ordinal): every occurrence of
   * `oldValue`, scanning left to right without overlap, becomes `newValue`.
   * A null `newValue` is passed as `""` (it deletes the occurrences).
   */
  function ReplaceAll(s: string, oldValue: string, newValue: string): (r: string)
    requires oldValue != []
    decreases |s|
  {
    if |s| < |oldValue| then s
    else if s[..|oldValue|] == oldValue then newValue + ReplaceAll(s[|oldValue|..], oldValue, newValue)
    else [s[0]] + ReplaceAll(s[1..], oldValue, newValue)
  }

  /** A text without the placeholder is left alone by `ReplaceAll`. */
  lemma {:induction false} ReplaceAllAbsent(s: string, oldValue: string, newValue: string)
    requires oldValue != []
    requires !Occurs(s, oldValue)
    ensures ReplaceAll(s, oldValue, newValue) == s
  {
    if |s| >= |oldValue| {
      assert !OccursAt(s, oldValue, 0);
      if Occurs(s[1..], oldValue) {
        var i: nat :| OccursAt(s[1..], oldValue, i);
        assert s[i + 1..i + 1 + |oldValue|] == s[1..][i..i + |oldValue|];
        assert OccursAt(s, oldValue, i + 1);
      }
      ReplaceAllAbsent(s[1..], oldValue, newValue);
    }
  }

  /** Every character of a placeholder that occurs in a text is a character of the text. */
  lemma OccurrenceCharsInText(s: string, pattern: string, k: nat)
    requires k < |pattern|
    ensures Occurs(s, pattern) ==> pattern[k] in s
  {
    if Occurs(s, pattern) {
      var i: nat :| OccursAt(s, pattern, i);
      assert s[i..i + |pattern|][k] == pattern[k];
      assert s[i + k] == pattern[k];
    }
  }

  /** An occurrence in the tail of a text is an occurrence in the text. */
  lemma OccursInTail(s: string, pattern: string)
    requires s != []
    ensures Occurs(s[1..], pattern) ==> Occurs(s, pattern)
  {
    if Occurs(s[1..], pattern) {
      var i: nat :| OccursAt(s[1..], pattern, i);
      assert s[i + 1..i + 1 + |pattern|] == s[1..][i..i + |pattern|];
      assert OccursAt(s, pattern, i + 1);
    }
  }

  /** `ReplaceAll` at a position where the placeholder starts: it is replaced and the scan skips it. */
  lemma ReplaceAllHit(s: string, oldValue: string, newValue: string)
    requires oldValue != [] && oldValue <= s
    ensures ReplaceAll(s, oldValue, newValue) == newValue + ReplaceAll(s[|oldValue|..], oldValue, newValue)
  {
  }

  /** `ReplaceAll` at a position where the placeholder does not start: one character is kept. */
  lemma ReplaceAllMiss(s: string, oldValue: string, newValue: string)
    requires oldValue != [] && |s| >= |oldValue| && s[..|oldValue|] != oldValue
    ensures ReplaceAll(s, oldValue, newValue) == [s[0]] + ReplaceAll(s[1..], oldValue, newValue)
  {
  }

  /**
   * The scan of `ReplaceAll` at its first occurrence: when `oldValue` does not
   * start anywhere in `a` (no occurrence ends before or overlaps the one after
   * `a`), the result is `a`, the replacement, and the rest with its own
   * occurrences replaced.
   */
  lemma {:induction false} ReplaceAllFirstOccurrence(a: string, oldValue: string, b: string, newValue: string)
    requires oldValue != []
    requires !Occurs(a + oldValue[..|oldValue| - 1], oldValue)
    ensures ReplaceAll(a + oldValue + b, oldValue, newValue) == a + newValue + ReplaceAll(b, oldValue, newValue)
    decreases |a|
  {
    var s := a + oldValue + b;
    if a == [] {
      ReplaceAllHit(s, oldValue, newValue);
      assert s[|oldValue|..] == b;
    } else {
      var pre := a + oldValue[..|oldValue| - 1];
      var rest := a[1..] + oldValue + b;
      assert s[..|oldValue|] == pre[..|oldValue|];
      assert !OccursAt(pre, oldValue, 0);
      OccursInTail(pre, oldValue);
      assert pre[1..] == a[1..] + oldValue[..|oldValue| - 1];
      calc {
        ReplaceAll(s, oldValue, newValue);
        { ReplaceAllMiss(s, oldValue, newValue); }
        [s[0]] + ReplaceAll(s[1..], oldValue, newValue);
        { assert s[0] == a[0] && s[1..] == rest; }
        [a[0]] + ReplaceAll(rest, oldValue, newValue);
        { ReplaceAllFirstOccurrence(a[1..], oldValue, b, newValue); }
        [a[0]] + (a[1..] + newValue + ReplaceAll(b, oldValue, newValue));
        { assert a == [a[0]] + a[1..]; }
        a + newValue + ReplaceAll(b, oldValue, newValue);
      }
    }
  }
}
