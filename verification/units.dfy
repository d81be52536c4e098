/** Amounts as a person reads and writes them (apps/web/src/compliance/model.ts). */
module Units {
  import opened Common
  import opened Ordering
  import opened Decimal

  // ─── Writing ───────────────────────────────────────────────────────────────

  /** Leading zeros go as long as a digit follows. */
  function Strip(s: string): string {
    if |s| >= 2 && s[0] == '0' && IsDigit(s[1]) then Strip(s[1..]) else s
  }

  function PadStart(s: string, width: nat): (r: string)
    ensures |r| == if |s| >= width then |s| else width
    decreases width - |s|
  {
    if |s| >= width then s else PadStart("0" + s, width)
  }

  function PadEnd(s: string, width: nat): (r: string)
    ensures |r| == if |s| >= width then |s| else width
    decreases width - |s|
  {
    if |s| >= width then s else PadEnd(s + "0", width)
  }

  /** A comma before every third digit from the end. */
  function Group(whole: string): string {
    if |whole| <= 3 then whole else Group(whole[..|whole| - 3]) + "," + whole[|whole| - 3..]
  }

  function FormatUnits(raw: string, decimals: nat): string {
    var padded := PadStart(Strip(raw), decimals + 1);
    var at := |padded| - decimals;
    if decimals == 0 then Group(padded[..at]) else Group(padded[..at]) + "." + padded[at..]
  }

  // ─── Reading ───────────────────────────────────────────────────────────────

  predicate IsSpace(c: char) {
    || '\t' <= c <= '\r' || c == ' '
    || c in "\U{A0}\U{1680}\U{2028}\U{2029}\U{202F}\U{205F}\U{3000}\U{FEFF}" || '\U{2000}' <= c <= '\U{200A}'
  }

  /** The twenty-five signs that count as space. */
  lemma SpacesAre(c: char)
    ensures IsSpace(c) <==>
            c in "\t\n\U{B}\U{C}\r \U{A0}\U{1680}\U{2000}\U{2001}\U{2002}\U{2003}\U{2004}\U{2005}\U{2006}\U{2007}\U{2008}\U{2009}\U{200A}\U{2028}\U{2029}\U{202F}\U{205F}\U{3000}\U{FEFF}"
  {
    assert '\t' <= c <= '\r' <==> c in "\t\n\U{B}\U{C}\r" by {
      if '\t' <= c <= '\r' { assert c as int in {9, 10, 11, 12, 13}; }
    }
    assert '\U{2000}' <= c <= '\U{200A}' <==>
      c in "\U{2000}\U{2001}\U{2002}\U{2003}\U{2004}\U{2005}\U{2006}\U{2007}\U{2008}\U{2009}\U{200A}" by {
      if '\U{2000}' <= c <= '\U{200A}' { assert 0x2000 <= c as int <= 0x200A; }
    }
  }

  function Kept(): char -> bool { (c: char) => c != ',' && !IsSpace(c) }

  function Cleaned(text: string): string { Filter(text, Kept()) }

  datatype AmountError = Empty | NotAnAmount | TooManyDecimals | Zero | TooLarge

  /** The digits before and after the point. */
  datatype Parts = Parts(whole: string, fraction: string)

  function Match(cleaned: string): (r: Option<Parts>)
    ensures r.Some? ==> AllDigits(r.value.whole) && Digits(r.value.fraction)
  {
    var parts := Split(cleaned, '.');
    if |parts| == 1 && AllDigits(parts[0]) then Some(Parts(parts[0], ""))
    else if |parts| == 2 && AllDigits(parts[0]) && Digits(parts[1]) then Some(Parts(parts[0], parts[1]))
    else None
  }

  predicate AllZeros(s: string) { s != "" && forall i :: 0 <= i < |s| ==> s[i] == '0' }

  function ParseUnits(text: string, decimals: nat): Result<string, AmountError> {
    var cleaned := Cleaned(text);
    if cleaned == "" then Err(Empty)
    else
      match Match(cleaned)
      case None => Err(NotAnAmount)
      case Some(Parts(whole, fraction)) =>
        if |fraction| > decimals then Err(TooManyDecimals)
        else
          var raw := Strip(whole + PadEnd(fraction, decimals));
          if AllZeros(raw) then Err(Zero)
          else if (DigitsKept(whole, fraction, decimals); Number(raw)) > U64_MAX then Err(TooLarge)
          else Ok(raw)
  }

  // ─── Digits ────────────────────────────────────────────────────────────────

  lemma {:induction false} PadEndDigits(s: string, width: nat)
    requires Digits(s)
    ensures Digits(PadEnd(s, width))
    decreases width - |s|
  {
    if |s| < width { PadEndDigits(s + "0", width); }
  }

  lemma {:induction false} StripDigits(s: string)
    requires AllDigits(s)
    ensures Canonical(Strip(s)) && Number(Strip(s)) == Number(s)
  {
    if |s| >= 2 && s[0] == '0' {
      StripDigits(s[1..]);
      LeadingZero(s[1..]);
      assert s == "0" + s[1..];
    }
  }

  lemma {:induction false} LeadingZero(s: string)
    requires Digits(s)
    ensures Number("0" + s) == Number(s)
  {
    var all := "0" + s;
    if s == "" {
      assert all[..0] == "";
    } else {
      LeadingZero(s[..|s| - 1]);
      assert all[..|all| - 1] == "0" + s[..|s| - 1];
    }
  }

  lemma DigitsKept(whole: string, fraction: string, decimals: nat)
    requires AllDigits(whole) && Digits(fraction)
    ensures AllDigits(whole + PadEnd(fraction, decimals)) && Canonical(Strip(whole + PadEnd(fraction, decimals)))
  {
    PadEndDigits(fraction, decimals);
    StripDigits(whole + PadEnd(fraction, decimals));
  }

  lemma {:induction false} StripCanonical(s: string)
    requires Canonical(s)
    ensures Strip(s) == s
  {
  }

  lemma {:induction false} StripPadded(s: string, width: nat)
    requires AllDigits(s)
    ensures AllDigits(PadStart(s, width)) && Strip(PadStart(s, width)) == Strip(s)
    decreases width - |s|
  {
    if |s| < width {
      assert ("0" + s)[1..] == s;
      StripPadded("0" + s, width);
    }
  }

  lemma ZerosAreZero(s: string)
    requires Canonical(s)
    ensures AllZeros(s) <==> Number(s) == 0
  {
    if s[0] == '0' {
      assert s[..0] == "";
    } else {
      LeadingDigit(s);
    }
  }

  // ─── The two together ──────────────────────────────────────────────────────

  lemma {:induction false} DigitsAreKept(s: string)
    requires Digits(s)
    ensures Cleaned(s) == s
  {
    if s != "" {
      DigitsAreKept(s[1..]);
      assert s == [s[0]] + s[1..];
    }
  }

  lemma CleanedConcat(a: string, b: string)
    ensures Cleaned(a + b) == Cleaned(a) + Cleaned(b)
  {
    FilterConcat(a, b, Kept());
  }

  lemma CleanedSigns()
    ensures Cleaned(",") == "" && Cleaned(".") == "."
  {
  }

  lemma CommaCleaned(a: string, b: string)
    ensures Cleaned(a + "," + b) == Cleaned(a) + Cleaned(b)
  {
    CleanedConcat(a + ",", b);
    CleanedConcat(a, ",");
    CleanedSigns();
  }

  lemma {:induction false} GroupCleaned(s: string)
    requires Digits(s)
    ensures Cleaned(Group(s)) == s
  {
    if |s| <= 3 {
      DigitsAreKept(s);
    } else {
      var front, last := s[..|s| - 3], s[|s| - 3..];
      GroupCleaned(front);
      DigitsAreKept(last);
      CommaCleaned(Group(front), last);
      assert s == front + last;
    }
  }

  lemma PointCleaned(whole: string, fraction: string)
    requires Digits(whole) && Digits(fraction)
    ensures Cleaned(Group(whole) + "." + fraction) == whole + "." + fraction
  {
    CleanedConcat(Group(whole) + ".", fraction);
    CleanedConcat(Group(whole), ".");
    GroupCleaned(whole);
    DigitsAreKept(fraction);
    CleanedSigns();
  }

  lemma MatchesPoint(whole: string, fraction: string)
    requires AllDigits(whole) && Digits(fraction)
    ensures Match(whole + "." + fraction) == Some(Parts(whole, fraction))
    ensures Match(whole) == Some(Parts(whole, ""))
  {
    DigitsHaveNo(whole, '.');
    DigitsHaveNo(fraction, '.');
    SplitFirst(whole, fraction, '.');
    SplitWhole(fraction, '.');
    SplitWhole(whole, '.');
    assert ['.'] == ".";
  }

  /** What is read of a formatted amount is its padded digits, cut at the point. */
  lemma FormattedMatches(raw: string, decimals: nat)
    requires Canonical(raw)
    ensures
      var padded := PadStart(raw, decimals + 1);
      var at := |padded| - decimals;
      AllDigits(padded) && Strip(padded) == raw
      && Match(Cleaned(FormatUnits(raw, decimals))) == Some(Parts(padded[..at], padded[at..]))
  {
    var padded := PadStart(raw, decimals + 1);
    var at := |padded| - decimals;
    StripCanonical(raw);
    StripPadded(raw, decimals + 1);
    var whole, fraction := padded[..at], padded[at..];
    GroupCleaned(whole);
    PointCleaned(whole, fraction);
    MatchesPoint(whole, fraction);
    FormatOf(raw, decimals, padded, at);
  }

  /**
   * An amount written for a person and read back is the same amount, for every number of decimals:
   * exactly when it is not zero and a token can hold it.
   */
  lemma ParseFormat(raw: string, decimals: nat)
    requires Canonical(raw)
    ensures ParseUnits(FormatUnits(raw, decimals), decimals) == Ok(raw) <==> 0 < Number(raw) <= U64_MAX
  {
    var padded := PadStart(raw, decimals + 1);
    var at := |padded| - decimals;
    FormattedMatches(raw, decimals);
    Rejoined(padded, at, decimals);
    Answered(FormatUnits(raw, decimals), Parts(padded[..at], padded[at..]), decimals, raw);
  }

  lemma Rejoined(padded: string, at: nat, decimals: nat)
    requires at + decimals == |padded|
    ensures padded[..at] + PadEnd(padded[at..], decimals) == padded
  {
  }

  /** The answer to a text with these parts is decided by the number they make. */
  lemma Answered(text: string, parts: Parts, decimals: nat, raw: string)
    requires Match(Cleaned(text)) == Some(parts) && |parts.fraction| <= decimals && Canonical(raw)
    requires Strip(parts.whole + PadEnd(parts.fraction, decimals)) == raw
    ensures ParseUnits(text, decimals) ==
            if Number(raw) == 0 then Err(Zero) else if Number(raw) > U64_MAX then Err(TooLarge) else Ok(raw)
  {
    NothingMatchesEmpty();
    ZerosAreZero(raw);
  }

  lemma NothingMatchesEmpty()
    ensures Match("") == None
  {
    assert Split("", '.') == [""];
  }

  /** Whatever text is accepted, its amount written again is read as the same amount. */
  lemma AcceptedReformats(text: string, decimals: nat)
    requires ParseUnits(text, decimals).Ok?
    ensures
      var raw := ParseUnits(text, decimals).value;
      Canonical(raw) && 0 < Number(raw) <= U64_MAX && ParseUnits(FormatUnits(raw, decimals), decimals) == Ok(raw)
  {
    var parts := Match(Cleaned(text)).value;
    var raw := ParseUnits(text, decimals).value;
    DigitsKept(parts.whole, parts.fraction, decimals);
    ZerosAreZero(raw);
    ParseFormat(raw, decimals);
  }

  // ─── What an accepted text is worth ────────────────────────────────────────

  function Pow10(k: nat): nat { if k == 0 then 1 else 10 * Pow10(k - 1) }

  lemma {:induction false} NumberOfConcat(a: string, b: string)
    requires Digits(a) && Digits(b)
    ensures Digits(a + b) && Number(a + b) == Number(a) * Pow10(|b|) + Number(b)
  {
    if b == "" {
      assert a + b == a;
    } else {
      var front := b[..|b| - 1];
      NumberOfConcat(a, front);
      assert (a + b)[..|a + b| - 1] == a + front;
      Shifted(Number(a), Pow10(|front|), Number(front));
    }
  }

  lemma Shifted(a: nat, p: nat, f: nat)
    ensures 10 * (a * p + f) == a * (10 * p) + 10 * f
  {
  }

  lemma TenTimes(a: nat, p: nat)
    ensures (10 * a) * p == a * (10 * p)
  {
  }

  lemma {:induction false} NumberOfPadEnd(s: string, width: nat)
    requires Digits(s) && |s| <= width
    ensures Digits(PadEnd(s, width)) && Number(PadEnd(s, width)) == Number(s) * Pow10(width - |s|)
    decreases width - |s|
  {
    PadEndDigits(s, width);
    if |s| < width {
      var longer, missing := s + "0", width - |s| - 1;
      NumberOfPadEnd(longer, width);
      assert longer[..|longer| - 1] == s;
      assert Number(longer) == 10 * Number(s);
      assert PadEnd(s, width) == PadEnd(longer, width) && width - |longer| == missing;
      TenTimes(Number(s), Pow10(missing));
      assert Pow10(missing + 1) == 10 * Pow10(missing);
    }
  }

  /** An accepted text is worth its whole part in whole units plus its fraction at its decimal place, wherever its commas stand. */
  lemma AcceptedIsWorth(text: string, decimals: nat)
    requires ParseUnits(text, decimals).Ok?
    ensures Match(Cleaned(text)).Some? && |Match(Cleaned(text)).value.fraction| <= decimals
    ensures
      var Parts(whole, fraction) := Match(Cleaned(text)).value;
      var raw := ParseUnits(text, decimals).value;
      Canonical(raw)
      && Number(raw) == Number(whole) * Pow10(decimals) + Number(fraction) * Pow10(decimals - |fraction|)
  {
    var Parts(whole, fraction) := Match(Cleaned(text)).value;
    WrittenIsWorth(whole, fraction, decimals);
  }

  // ─── What an amount looks like ─────────────────────────────────────────────

  /** Counted from its end, every fourth sign is a comma and no other is, and it does not begin with one. */
  predicate InThrees(s: string) {
    && (forall k :: 0 <= k < |s| ==> (s[|s| - 1 - k] == ',' <==> k % 4 == 3))
    && (s != "" ==> s[0] != ',')
  }

  lemma InThreesMore(front: string, last: string)
    requires InThrees(front) && front != "" && |last| == 3 && Digits(last)
    ensures InThrees(front + "," + last)
  {
    var s := front + "," + last;
    forall k | 0 <= k < |s| ensures s[|s| - 1 - k] == ',' <==> k % 4 == 3 {
      if k >= 4 {
        var j := k - 4;
        assert s[|s| - 1 - k] == front[|front| - 1 - j] && k % 4 == j % 4;
        assert front[|front| - 1 - j] == ',' <==> j % 4 == 3;
      } else if k < 3 {
        assert s[|s| - 1 - k] == last[2 - k];
      }
    }
  }

  lemma {:induction false} GroupedInThrees(s: string)
    requires Digits(s)
    ensures InThrees(Group(s)) && (s != "" ==> Group(s) != "")
  {
    if |s| > 3 {
      GroupedInThrees(s[..|s| - 3]);
      InThreesMore(Group(s[..|s| - 3]), s[|s| - 3..]);
    }
  }

  lemma PaddedHead(s: string, width: nat)
    requires Canonical(s) && width >= 1
    ensures AllDigits(PadStart(s, width)) && Number(PadStart(s, width)) == Number(s)
    ensures |s| >= width ==> PadStart(s, width) == s
    ensures |s| < width ==> PadStart(s, width)[0] == '0'
  {
    PaddedNumber(s, width);
  }

  lemma {:induction false} PaddedNumber(s: string, width: nat)
    requires AllDigits(s)
    ensures AllDigits(PadStart(s, width)) && Number(PadStart(s, width)) == Number(s)
    ensures |s| < width ==> PadStart(s, width)[0] == '0'
    decreases width - |s|
  {
    if |s| < width {
      LeadingZero(s);
      PaddedNumber("0" + s, width);
    }
  }

  /** The digits of an amount before and behind its point. */
  ghost predicate SplitsAt(raw: string, decimals: nat, whole: string, fraction: string) {
    && Canonical(raw) && Canonical(whole) && Digits(fraction) && |fraction| == decimals
    && Number(whole) * Pow10(decimals) + Number(fraction) == Number(raw)
  }

  /** Whole units without leading zeros, in threes, and behind a point, if there is one, these digits. */
  ghost predicate IsWritten(text: string, raw: string, decimals: nat, whole: string, fraction: string) {
    && SplitsAt(raw, decimals, whole, fraction) && InThrees(Group(whole)) && Cleaned(Group(whole)) == whole
    && text == Group(whole) + (if decimals == 0 then "" else "." + fraction)
  }

  /**
   * A formatted amount is its whole units without leading zeros, a comma before every third digit
   * from the point, and behind the point, if there is one, as many digits as the token has decimals.
   */
  lemma FormatIs(raw: string, decimals: nat)
    requires Canonical(raw)
    ensures exists whole, fraction :: IsWritten(FormatUnits(raw, decimals), raw, decimals, whole, fraction)
  {
    var padded := PadStart(raw, decimals + 1);
    var at := |padded| - decimals;
    PaddedHead(raw, decimals + 1);
    PaddedSplits(raw, decimals, padded, at);
    Written(padded[..at], padded[at..], decimals);
    FormatOf(raw, decimals, padded, at);
    assert IsWritten(FormatUnits(raw, decimals), raw, decimals, padded[..at], padded[at..]);
  }

  lemma FormatOf(raw: string, decimals: nat, padded: string, at: nat)
    requires Canonical(raw) && padded == PadStart(raw, decimals + 1) && at == |padded| - decimals
    ensures FormatUnits(raw, decimals)
            == if decimals == 0 then Group(padded[..at]) else Group(padded[..at]) + "." + padded[at..]
  {
    StripCanonical(raw);
  }

  lemma PaddedSplits(raw: string, decimals: nat, padded: string, at: nat)
    requires Canonical(raw) && AllDigits(padded) && Number(padded) == Number(raw) && |padded| == at + decimals && at >= 1
    requires if |raw| >= decimals + 1 then padded == raw else padded[0] == '0' && at == 1
    ensures SplitsAt(raw, decimals, padded[..at], padded[at..])
  {
    var whole, fraction := padded[..at], padded[at..];
    assert padded == whole + fraction;
    NumberOfConcat(whole, fraction);
    assert whole[0] == padded[0];
  }

  lemma Written(whole: string, fraction: string, decimals: nat)
    requires Digits(whole) && |fraction| == decimals
    ensures InThrees(Group(whole)) && Cleaned(Group(whole)) == whole
    ensures (if decimals == 0 then Group(whole) else Group(whole) + "." + fraction)
            == Group(whole) + (if decimals == 0 then "" else "." + fraction)
  {
    GroupedInThrees(whole);
    GroupCleaned(whole);
  }

  /** The text, its commas and spaces aside, is these digits and at most one point between them. */
  predicate Writes(text: string, whole: string, fraction: string) {
    && AllDigits(whole) && Digits(fraction)
    && (Cleaned(text) == whole + "." + fraction || (Cleaned(text) == whole && fraction == ""))
  }

  lemma MatchedWrites(text: string)
    requires Match(Cleaned(text)).Some?
    ensures var parts := Match(Cleaned(text)).value; Writes(text, parts.whole, parts.fraction)
  {
    var cleaned := Cleaned(text);
    var parts := Split(cleaned, '.');
    JoinSplit(cleaned, '.');
    if |parts| == 2 {
      assert parts[1..] == [parts[1]];
      assert cleaned == parts[0] + ['.'] + parts[1];
    }
  }

  /** A text is accepted exactly when it writes an amount with no more decimals than the token has, not zero, that a token can hold. */
  lemma AcceptedExactly(text: string, decimals: nat)
    ensures ParseUnits(text, decimals).Ok? <==>
            exists whole, fraction ::
              && Writes(text, whole, fraction) && |fraction| <= decimals
              && 0 < Number(whole) * Pow10(decimals) + Number(fraction) * Pow10(decimals - |fraction|) <= U64_MAX
  {
    if ParseUnits(text, decimals).Ok? {
      MatchedWrites(text);
      AcceptedIsWorth(text, decimals);
      AcceptedReformats(text, decimals);
    }
    if whole, fraction :|
      && Writes(text, whole, fraction) && |fraction| <= decimals
      && 0 < Number(whole) * Pow10(decimals) + Number(fraction) * Pow10(decimals - |fraction|) <= U64_MAX
    {
      MatchesPoint(whole, fraction);
      WrittenIsWorth(whole, fraction, decimals);
      DigitsKept(whole, fraction, decimals);
      Answered(text, Parts(whole, fraction), decimals, Strip(whole + PadEnd(fraction, decimals)));
    }
  }

  lemma WrittenIsWorth(whole: string, fraction: string, decimals: nat)
    requires AllDigits(whole) && Digits(fraction) && |fraction| <= decimals
    ensures
      var raw := Strip(whole + PadEnd(fraction, decimals));
      Canonical(raw)
      && Number(raw) == Number(whole) * Pow10(decimals) + Number(fraction) * Pow10(decimals - |fraction|)
  {
    DigitsKept(whole, fraction, decimals);
    StripDigits(whole + PadEnd(fraction, decimals));
    NumberOfPadEnd(fraction, decimals);
    NumberOfConcat(whole, PadEnd(fraction, decimals));
  }

  /** A text that is refused is refused for what is wrong with it. */
  lemma RefusalIsTrue(text: string, decimals: nat)
    requires ParseUnits(text, decimals).Err?
    ensures
      match ParseUnits(text, decimals).error
      case Empty => Cleaned(text) == ""
      case NotAnAmount => Cleaned(text) != "" && forall whole, fraction :: !Writes(text, whole, fraction)
      case TooManyDecimals => exists whole, fraction :: Writes(text, whole, fraction) && |fraction| > decimals
      case Zero => WritesWorth(text, decimals, 0)
      case TooLarge => exists worth: nat :: WritesWorth(text, decimals, worth) && worth > U64_MAX
  {
    if Match(Cleaned(text)).Some? {
      MatchedWrites(text);
      var Parts(whole, fraction) := Match(Cleaned(text)).value;
      if |fraction| <= decimals {
        WrittenIsWorth(whole, fraction, decimals);
        DigitsKept(whole, fraction, decimals);
        ZerosAreZero(Strip(whole + PadEnd(fraction, decimals)));
        assert WritesWorth(text, decimals, Number(Strip(whole + PadEnd(fraction, decimals))));
      }
    } else {
      forall whole, fraction | Writes(text, whole, fraction) ensures false { MatchesPoint(whole, fraction); }
    }
  }

  /** The text writes an amount of this worth, with no more decimals than the token has. */
  ghost predicate WritesWorth(text: string, decimals: nat, worth: nat) {
    exists whole, fraction ::
      && Writes(text, whole, fraction) && |fraction| <= decimals
      && worth == Number(whole) * Pow10(decimals) + Number(fraction) * Pow10(decimals - |fraction|)
  }
}
