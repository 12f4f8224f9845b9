/** The LRC timecode codec: `[mm:ss.ff]` text to whole milliseconds and
    back (`LRCParser.parse_lrc_time` and `LRCParser.format_lrc_time`, also
    exposed as the module-level `parse_lrc_time` / `format_lrc_time`). */
module Timecode {
  import opened Wrappers
  import opened PyStr
  import opened Decimal

  /** The `ValueError` raised for a malformed timecode; it carries the
      bracket-stripped text. */
  datatype TimeError = InvalidFormat(text: string)

  const Brackets: set<char> := {'[', ']'}

  /** Milliseconds of the fractional digits: exactly two digits are
      hundredths; otherwise the first (at most) three digits are read
      as they stand. */
  function FractionMillis(frac: string): Option<nat> {
    if |frac| == 2 then
      match ParseNat(frac)
      case Some(v) => Some(v * 10)
      case None => None
    else
      ParseNat(FirstThree(frac))
  }

  /** `frac[:3]`. */
  function FirstThree(frac: string): (r: string)
    ensures |r| == if |frac| < 3 then |frac| else 3
    ensures r == frac[..|r|]
  {
    frac[..if |frac| < 3 then |frac| else 3]
  }

  /** Minutes and seconds text plus the millisecond part, split at the
      first `':'` and then at the first `'.'` after it. */
  function SplitTimecode(t: string): (r: (string, string, Option<nat>))
    requires ':' in t
  {
    var i := IndexOf(t, ':');
    var rest := t[i + 1..];
    if '.' in rest then
      var j := IndexOf(rest, '.');
      (t[..i], rest[..j], FractionMillis(rest[j + 1..]))
    else
      (t[..i], rest, Some(0))
  }

  /** What a successful parse has read: the bracket-stripped text is a
      digit run, `':'`, a digit run and then either nothing or `'.'` and a
      fraction whose first (at most three) characters are digits; the
      result is the minutes, seconds and fraction milliseconds they spell. */
  lemma ParseTimeShape(t: string) returns (m: string, s: string, rest: string)
    requires ParseTime(t).Ok?
    ensures Strip(t, Brackets) == m + ":" + s + rest
    ensures m != [] && s != [] && AllDigits(m) && AllDigits(s)
    ensures rest == [] || rest[0] == '.'
    ensures rest == [] ==> ParseTime(t).value == Value(m) * 60000 + Value(s) * 1000
    ensures rest != [] ==>
              FirstThree(rest[1..]) != [] && AllDigits(FirstThree(rest[1..]))
              && ParseTime(t).value
                 == Value(m) * 60000 + Value(s) * 1000 + FractionValue(FirstThree(rest[1..]))
  {
    var u := Strip(t, Brackets);
    m, s, rest := SplitShape(u);
    assert ParseNat(m).Some? && ParseNat(s).Some?;
    if rest != [] {
      FractionMillisRead(rest[1..]);
    }
  }

  /** The three parts `SplitTimecode` cuts a timecode into, and what lies
      between them. */
  lemma SplitShape(u: string) returns (m: string, s: string, rest: string)
    requires ':' in u
    ensures u == m + ":" + s + rest
    ensures SplitTimecode(u).0 == m && SplitTimecode(u).1 == s
    ensures rest == [] ==> SplitTimecode(u).2 == Some(0)
    ensures rest != [] ==> rest[0] == '.' && SplitTimecode(u).2 == FractionMillis(rest[1..])
  {
    var i := IndexOf(u, ':');
    var after := u[i + 1..];
    m := u[..i];
    s, rest := AfterColon(after);
    JoinParts(u, m, after, s, rest);
    SplitTimecodeParts(u, m, after);
  }

  lemma SplitTimecodeParts(u: string, m: string, after: string)
    requires ':' in u && m == u[..IndexOf(u, ':')] && after == u[IndexOf(u, ':') + 1..]
    ensures '.' in after ==>
              SplitTimecode(u) == (m, after[..IndexOf(after, '.')],
                                   FractionMillis(after[IndexOf(after, '.') + 1..]))
    ensures '.' !in after ==> SplitTimecode(u) == (m, after, Some(0))
  {
  }

  /** The seconds text and what follows it, cut at the first `'.'`. */
  lemma AfterColon(after: string) returns (s: string, rest: string)
    ensures after == s + rest
    ensures '.' in after ==> s == after[..IndexOf(after, '.')] && rest != [] && rest[0] == '.'
                             && rest[1..] == after[IndexOf(after, '.') + 1..]
    ensures '.' !in after ==> s == after && rest == []
  {
    if '.' in after {
      var j := IndexOf(after, '.');
      s, rest := after[..j], after[j..];
      CutAt(after, j);
    } else {
      s, rest := after, [];
    }
  }

  lemma CutAt(u: string, i: nat)
    requires i < |u|
    ensures u == u[..i] + [u[i]] + u[i + 1..]
    ensures u[i..] == [u[i]] + u[i + 1..] && u[i..][1..] == u[i + 1..]
    ensures u[..i] + u[i..] == u
  {
  }

  lemma JoinParts(u: string, m: string, after: string, s: string, rest: string)
    requires ':' in u && m == u[..IndexOf(u, ':')] && after == u[IndexOf(u, ':') + 1..]
    requires after == s + rest
    ensures u == m + ":" + s + rest
  {
    CutAt(u, IndexOf(u, ':'));
  }

  /** A fraction that reads as a number: its first (at most three)
      characters are digits, and they give its milliseconds. */
  lemma FractionMillisRead(frac: string)
    requires FractionMillis(frac).Some?
    ensures FirstThree(frac) != [] && AllDigits(FirstThree(frac))
    ensures FractionMillis(frac) == Some(FractionValue(FirstThree(frac)))
  {
    var f := FirstThree(frac);
    if |frac| == 2 {
      assert f == frac;
    } else {
      assert FirstThree(f) == f;
    }
  }

  /** ... and conversely: a fraction whose first (at most three)
      characters are digits converts, whatever follows them. */
  lemma FractionMillisAccepts(frac: string)
    requires FirstThree(frac) != [] && AllDigits(FirstThree(frac))
    ensures FractionMillis(frac) == Some(FractionValue(FirstThree(frac)))
  {
    var f := FirstThree(frac);
    if |frac| == 2 {
      assert f == frac;
    } else {
      assert FirstThree(f) == f;
    }
  }

  /** A timecode `t` spelled `m:s.f`, with digit minutes and seconds,
      parses whenever the first (at most three) characters of `f` are
      digits, whatever follows them, and its value `v` is minutes x 60000 +
      seconds x 1000 + those characters' milliseconds: `00:00.500x` is
      500 ms. */
  lemma ParseTimeOfFraction(t: string, m: string, s: string, f: string, v: nat)
    requires t == m + ":" + s + "." + f
    requires m != [] && s != [] && AllDigits(m) && AllDigits(s)
    requires FirstThree(f) != [] && AllDigits(FirstThree(f))
    requires Value(m) * 60000 + Value(s) * 1000 + FractionValue(FirstThree(f)) == v
    ensures ParseTime(t) == Ok(v)
  {
    var u := TrimmedFraction(t, m, s, f, v);
    SameStripSameParse(t, u, v);
  }

  /** The bracket-stripped timecode parses to the same value. */
  lemma TrimmedFraction(t: string, m: string, s: string, f: string, v: nat) returns (u: string)
    requires t == m + ":" + s + "." + f
    requires m != [] && s != [] && AllDigits(m) && AllDigits(s)
    requires FirstThree(f) != [] && AllDigits(FirstThree(f))
    requires Value(m) * 60000 + Value(s) * 1000 + FractionValue(FirstThree(f)) == v
    ensures Strip(t, Brackets) == u
    ensures ParseTime(u) == Ok(v)
  {
    var g := StrippedFraction(t, m, s, f);
    u := m + ":" + s + "." + g;
    FractionFieldsSplit(u, m, s, g);
    ParseOfFractionSplit(u, m, s, f, v);
  }

  /** `strip('[]')` can only take brackets off the end of the fraction,
      after its leading digits. */
  lemma StrippedFraction(t: string, m: string, s: string, f: string) returns (g: string)
    requires t == m + ":" + s + "." + f
    requires m != [] && AllDigits(m)
    requires FirstThree(f) != [] && AllDigits(FirstThree(f))
    ensures Strip(t, Brackets) == m + ":" + s + "." + g
    ensures Strip(m + ":" + s + "." + g, Brackets) == m + ":" + s + "." + g
    ensures FirstThree(g) == FirstThree(f)
  {
    var n := FractionTrail(t, f);
    g := f[..|f| - n];
    var u := m + ":" + s + "." + g;
    assert t[..|t| - n] == u;
    StripOfTrail(t, n);
    assert u[0] == m[0] && u[|u| - 1] == t[|t| - n - 1];
    StripClearEnds(u, Brackets);
  }

  /** The brackets `strip` would take off the end all lie after the first
      three characters of the fraction. */
  lemma FractionTrail(t: string, f: string) returns (n: nat)
    requires |f| < |t| && t[|t| - |f|..] == f
    requires FirstThree(f) != [] && AllDigits(FirstThree(f))
    ensures n == TrailCount(t, Brackets) && n <= |f| - |FirstThree(f)|
  {
    var k := |FirstThree(f)|;
    n := TrailCount(t, Brackets);
    var j := |t| - |f| + k - 1;
    assert IsDigit(FirstThree(f)[k - 1]);
    assert t[j] == f[k - 1] == FirstThree(f)[k - 1];
    assert t[j] !in Brackets;
  }

  lemma StripOfTrail(t: string, n: nat)
    requires t != [] && t[0] !in Brackets && n == TrailCount(t, Brackets)
    ensures Strip(t, Brackets) == t[..|t| - n]
  {
    assert LeadCount(t, Brackets) == 0;
  }

  lemma SameStripSameParse(a: string, b: string, v: nat)
    requires Strip(a, Brackets) == Strip(b, Brackets) && ParseTime(b) == Ok(v)
    ensures ParseTime(a) == Ok(v)
  {
  }

  lemma ParseOfFractionSplit(t: string, m: string, s: string, f: string, v: nat)
    requires m != [] && s != [] && AllDigits(m) && AllDigits(s)
    requires FirstThree(f) != [] && AllDigits(FirstThree(f)) && Strip(t, Brackets) == t
    requires ':' in t && SplitTimecode(t) == (m, s, Some(FractionValue(FirstThree(f))))
    requires Value(m) * 60000 + Value(s) * 1000 + FractionValue(FirstThree(f)) == v
    ensures ParseTime(t) == Ok(v)
  {
    ParseTimeOfFields(t, m, s, FractionValue(FirstThree(f)));
  }

  lemma FractionFieldsSplit(t: string, m: string, s: string, f: string)
    requires t == m + ":" + s + "." + f
    requires AllDigits(m) && AllDigits(s)
    requires FirstThree(f) != [] && AllDigits(FirstThree(f))
    ensures ':' in t && SplitTimecode(t) == (m, s, Some(FractionValue(FirstThree(f))))
  {
    SplitOfDigits(m, s, f);
    FractionMillisAccepts(f);
  }

  /** The number of milliseconds three split fields denote, when all three
      read as numbers. */
  function FieldsValue(fields: (string, string, Option<nat>)): Option<nat> {
    match (ParseNat(fields.0), ParseNat(fields.1), fields.2)
    case (Some(m), Some(s), Some(f)) => Some(m * 60000 + s * 1000 + f)
    case _ => None
  }

  /** `parse_lrc_time`: total milliseconds of a timecode, or the
      `ValueError` carrying the bracket-stripped text. */
  function ParseTime(timeStr: string): (r: Result<nat, TimeError>)
    ensures r.Err? ==> r.error == InvalidFormat(Strip(timeStr, Brackets))
    ensures ':' !in Strip(timeStr, Brackets) ==> r.Err?
  {
    var t := Strip(timeStr, Brackets);
    if ':' !in t then Err(InvalidFormat(t))
    else
      match FieldsValue(SplitTimecode(t))
      case Some(v) => Ok(v)
      case None => Err(InvalidFormat(t))
  }

  /** `format_lrc_time`: `[MM:SS.mmm]`, minutes unbounded. */
  function FormatTime(ms: nat): string {
    "[" + FormattedBody(ms) + "]"
  }

  function FormattedBody(ms: nat): string {
    MinutesField(ms) + ":" + SecondsField(ms) + "." + MillisField(ms)
  }

  function MinutesField(ms: nat): string {
    PadLeft(NatToString(ms / 60000), 2)
  }

  function SecondsField(ms: nat): string {
    PadLeft(NatToString(ms % 60000 / 1000), 2)
  }

  function MillisField(ms: nat): string {
    PadLeft(NatToString(ms % 1000), 3)
  }

  /** The shape of every formatted timecode: a minutes field of exactly two
      digits below ten minutes and with no leading zero from ten on, a
      two-digit seconds field below 60 and a three-digit millisecond field,
      which together denote `ms`. */
  lemma FormatTimeShape(ms: nat)
    ensures FormatTime(ms) == "[" + MinutesField(ms) + ":" + SecondsField(ms) + "." + MillisField(ms) + "]"
    ensures |MinutesField(ms)| >= 2 && |SecondsField(ms)| == 2 && |MillisField(ms)| == 3
    ensures ms / 60000 < 10 ==> |MinutesField(ms)| == 2
    ensures ms / 60000 >= 10 ==> MinutesField(ms)[0] != '0'
    ensures AllDigits(MinutesField(ms)) && AllDigits(SecondsField(ms)) && AllDigits(MillisField(ms))
    ensures Value(SecondsField(ms)) < 60 && Value(MillisField(ms)) < 1000
    ensures Value(MinutesField(ms)) * 60000 + Value(SecondsField(ms)) * 1000 + Value(MillisField(ms)) == ms
  {
    BracketedFields(MinutesField(ms), SecondsField(ms), MillisField(ms));
    MinutesFieldShape(ms);
    SecondsFieldShape(ms);
    MillisFieldShape(ms);
    MillisDecomposition(ms);
  }

  lemma BracketedFields(m: string, s: string, f: string)
    ensures "[" + (m + ":" + s + "." + f) + "]" == "[" + m + ":" + s + "." + f + "]"
  {
  }

  /** `{minutes:02d}`: the minute count, padded to two digits and no
      further. */
  lemma MinutesFieldShape(ms: nat)
    ensures |MinutesField(ms)| >= 2 && AllDigits(MinutesField(ms))
    ensures Value(MinutesField(ms)) == ms / 60000
    ensures ms / 60000 < 10 ==> |MinutesField(ms)| == 2
    ensures ms / 60000 >= 10 ==> MinutesField(ms)[0] != '0'
  {
    MinutesFieldDigits(ms);
    NumeralLength(ms / 60000);
  }

  lemma MinutesFieldDigits(ms: nat)
    ensures |MinutesField(ms)| >= 2 && AllDigits(MinutesField(ms))
    ensures Value(MinutesField(ms)) == ms / 60000
  {
    PaddedNumeralValue(ms / 60000, 2);
  }

  /** `str(n)` has one digit exactly below ten. */
  lemma NumeralLength(n: nat)
    ensures n < 10 <==> |NatToString(n)| == 1
  {
  }

  lemma SecondsFieldShape(ms: nat)
    ensures |SecondsField(ms)| == 2 && AllDigits(SecondsField(ms))
    ensures Value(SecondsField(ms)) == ms % 60000 / 1000 < 60
  {
    var s := ms % 60000 / 1000;
    PaddedNumeralValue(s, 2);
    assert s < 100 == Pow10(2);
    SmallNumeralLength(s, 2);
  }

  lemma MillisFieldShape(ms: nat)
    ensures |MillisField(ms)| == 3 && AllDigits(MillisField(ms))
    ensures Value(MillisField(ms)) == ms % 1000
  {
    var f := ms % 1000;
    PaddedNumeralValue(f, 3);
    assert f < 1000 == Pow10(3);
    SmallNumeralLength(f, 3);
  }

  lemma MillisDecomposition(ms: nat)
    ensures ms / 60000 * 60000 + ms % 60000 / 1000 * 1000 + ms % 1000 == ms
  {
    var a, r := ms / 60000, ms % 60000;
    var b, c := r / 1000, r % 1000;
    assert ms == (a * 60 + b) * 1000 + c;
    ModOfSplit(ms, a * 60 + b, c);
  }

  lemma ModOfSplit(n: nat, q: nat, c: nat)
    requires c < 1000 && n == q * 1000 + c
    ensures n % 1000 == c
  {
  }

  /** A number below `10^k` (k >= 1) prints in at most `k` digits. */
  lemma {:induction false} SmallNumeralLength(n: nat, k: nat)
    requires 1 <= k && n < Pow10(k)
    ensures |NatToString(n)| <= k
  {
    if n >= 10 {
      assert n / 10 < Pow10(k - 1);
      SmallNumeralLength(n / 10, k - 1);
    }
  }

  /** A timecode body `m:s.f` made only of digits, as the LRC tag pattern
      admits it, parses to `m` minutes, `s` seconds and the fraction's
      milliseconds. */
  lemma ParseTimeOfDigits(m: string, s: string, f: string)
    requires m != [] && s != [] && f != []
    requires AllDigits(m) && AllDigits(s) && AllDigits(f)
    ensures ParseTime(m + ":" + s + "." + f)
         == Ok(Value(m) * 60000 + Value(s) * 1000 + FractionValue(f))
  {
    ParseDigitFields(m + ":" + s + "." + f, m, s, f);
  }

  lemma ParseDigitFields(t: string, m: string, s: string, f: string)
    requires t == m + ":" + s + "." + f
    requires m != [] && s != [] && f != []
    requires AllDigits(m) && AllDigits(s) && AllDigits(f)
    ensures ParseTime(t) == Ok(Value(m) * 60000 + Value(s) * 1000 + FractionValue(f))
  {
    DigitFieldsStripped(t, m, s, f);
    DigitFieldsSplit(t, m, s, f);
    ParseOfSplitFields(t, m, s, f);
  }

  lemma ParseOfSplitFields(t: string, m: string, s: string, f: string)
    requires m != [] && s != [] && AllDigits(m) && AllDigits(s) && AllDigits(f)
    requires Strip(t, Brackets) == t
    requires ':' in t && SplitTimecode(t) == (m, s, Some(FractionValue(f)))
    ensures ParseTime(t) == Ok(Value(m) * 60000 + Value(s) * 1000 + FractionValue(f))
  {
    ParseTimeOfFields(t, m, s, FractionValue(f));
  }

  lemma DigitFieldsStripped(t: string, m: string, s: string, f: string)
    requires t == m + ":" + s + "." + f
    requires m != [] && f != [] && AllDigits(m) && AllDigits(f)
    ensures Strip(t, Brackets) == t
  {
    assert t[0] == m[0] && t[|t| - 1] == f[|f| - 1];
    StripKeepsDigitEnds(t);
  }

  lemma DigitFieldsSplit(t: string, m: string, s: string, f: string)
    requires t == m + ":" + s + "." + f
    requires f != [] && AllDigits(m) && AllDigits(s) && AllDigits(f)
    ensures ':' in t && SplitTimecode(t) == (m, s, Some(FractionValue(f)))
  {
    SplitOfDigits(m, s, f);
    FractionOfDigits(f);
  }

  /** A bracket-free timecode whose fields read as numbers denotes their
      weighted sum. */
  lemma ParseTimeOfFields(t: string, m: string, s: string, f: nat)
    requires Strip(t, Brackets) == t && ':' in t
    requires SplitTimecode(t) == (m, s, Some(f))
    requires m != [] && s != [] && AllDigits(m) && AllDigits(s)
    ensures ParseTime(t) == Ok(Value(m) * 60000 + Value(s) * 1000 + f)
  {
    DigitFieldsValue(m, s, f);
  }

  lemma DigitFieldsValue(m: string, s: string, f: nat)
    requires m != [] && s != [] && AllDigits(m) && AllDigits(s)
    ensures FieldsValue((m, s, Some(f))) == Some(Value(m) * 60000 + Value(s) * 1000 + f)
  {
    assert ParseNat(m) == Some(Value(m));
    assert ParseNat(s) == Some(Value(s));
  }

  lemma SplitOfDigits(m: string, s: string, f: string)
    requires AllDigits(m) && AllDigits(s)
    ensures ':' in m + ":" + s + "." + f
    ensures SplitTimecode(m + ":" + s + "." + f) == (m, s, FractionMillis(f))
  {
    var rest := s + "." + f;
    NoSeparatorInDigits(m, ':');
    FirstIndexAfter(m, ':', rest);
    assert m + ":" + s + "." + f == m + [':'] + rest;
    assert (m + [':'] + rest)[..|m|] == m;
    assert (m + [':'] + rest)[|m| + 1..] == rest;
    NoSeparatorInDigits(s, '.');
    FirstIndexAfter(s, '.', f);
    assert rest == s + ['.'] + f;
    assert rest[..|s|] == s;
    assert rest[|s| + 1..] == f;
  }

  lemma FractionOfDigits(f: string)
    requires f != [] && AllDigits(f)
    ensures FractionMillis(f) == Some(FractionValue(f))
  {
    assert AllDigits(FirstThree(f));
  }

  /** The milliseconds a digit-only fraction contributes. */
  function FractionValue(f: string): nat
    requires AllDigits(f)
  {
    if |f| == 2 then Value(f) * 10
    else Value(FirstThree(f))
  }

  /** What the fraction digits mean: always fewer than a thousand
      milliseconds; one digit is read as it stands, two are hundredths, and
      from three on the digits after the third are cut off. */
  lemma FractionValueMeaning(f: string)
    requires AllDigits(f)
    ensures FractionValue(f) < 1000
    ensures |f| <= 1 ==> FractionValue(f) == Value(f)
    ensures |f| == 2 ==> FractionValue(f) == 10 * Value(f)
    ensures |f| >= 3 ==> FractionValue(f) == Value(f) / Pow10(|f| - 3)
  {
    assert Pow10(1) == 10;
    assert Pow10(2) == 100;
    assert Pow10(3) == 1000;
    if |f| >= 3 {
      PrefixValue(f, 3);
      ValueBound(FirstThree(f));
    } else {
      assert f[..|f|] == f;
      ValueBound(f);
    }
  }

  /** A timecode without a fraction (`m:s`) has no milliseconds. The proof
      is direct; `{:induction false}` keeps Dafny from adding an unused
      induction hypothesis over the two strings. */
  lemma {:induction false} ParseTimeWithoutFraction(m: string, s: string)
    requires m != [] && s != []
    requires AllDigits(m) && AllDigits(s)
    ensures ParseTime(m + ":" + s) == Ok(Value(m) * 60000 + Value(s) * 1000)
  {
    var t := m + ":" + s;
    NoSeparatorInDigits(m, ':');
    FirstIndexAfter(m, ':', s);
    assert t == m + [':'] + s;
    assert t[..|m|] == m;
    assert t[|m| + 1..] == s;
    NoSeparatorInDigits(s, '.');
    assert SplitTimecode(t) == (m, s, Some(0));
    assert t[0] == m[0] && t[|t| - 1] == s[|s| - 1];
    StripKeepsDigitEnds(t);
    ParseTimeOfFields(t, m, s, 0);
  }

  /** Round trip: every formatted timecode parses back to the same number
      of milliseconds. */
  lemma ParseFormatRoundTrip(ms: nat)
    ensures ParseTime(FormatTime(ms)) == Ok(ms)
  {
    ParseFormattedBody(ms);
    var body := FormattedBody(ms);
    FormattedBodyEnds(ms);
    BracketsAroundBody(body);
  }

  /** The proof is direct; `{:induction false}` keeps Dafny from adding an
      unused induction hypothesis over `ms`. */
  lemma {:induction false} ParseFormattedBody(ms: nat)
    ensures ParseTime(FormattedBody(ms)) == Ok(ms)
  {
    MinutesFieldDigits(ms);
    SecondsFieldShape(ms);
    MillisFieldShape(ms);
    MillisDecomposition(ms);
    var m, s, f := MinutesField(ms), SecondsField(ms), MillisField(ms);
    assert f[..3] == f;
    assert FractionValue(f) == ms % 1000;
    assert Value(m) * 60000 + Value(s) * 1000 + FractionValue(f) == ms;
    ParseDigitFields(FormattedBody(ms), m, s, f);
  }

  lemma FormattedBodyEnds(ms: nat)
    ensures FormattedBody(ms) != []
    ensures IsDigit(FormattedBody(ms)[0]) && IsDigit(FormattedBody(ms)[|FormattedBody(ms)| - 1])
  {
    MinutesFieldDigits(ms);
    MillisFieldShape(ms);
    var body := FormattedBody(ms);
    assert body[0] == MinutesField(ms)[0];
    assert body[|body| - 1] == MillisField(ms)[2];
  }

  /** Enclosing brackets are stripped before a body that starts and ends
      with a digit is read. */
  lemma BracketsAroundBody(body: string)
    requires body != [] && IsDigit(body[0]) && IsDigit(body[|body| - 1])
    ensures ParseTime("[" + body + "]") == ParseTime(body)
  {
    BracketedStrip(body);
    StripKeepsDigitEnds(body);
  }

  lemma BracketedStrip(body: string)
    requires body != [] && body[0] !in Brackets && body[|body| - 1] !in Brackets
    ensures Strip("[" + body + "]", Brackets) == body
  {
    var t := "[" + body + "]";
    BracketedLead(body);
    BracketedTrail(body);
    assert t[1..|t| - 1] == body;
  }

  lemma BracketedLead(body: string)
    requires body != [] && body[0] !in Brackets
    ensures LeadCount("[" + body + "]", Brackets) == 1
  {
    var t := "[" + body + "]";
    assert t[1..] == body + "]";
  }

  lemma BracketedTrail(body: string)
    requires body != [] && body[|body| - 1] !in Brackets
    ensures TrailCount("[" + body + "]", Brackets) == 1
  {
    var t := "[" + body + "]";
    assert t[..|t| - 1] == "[" + body;
  }

  lemma StripKeepsDigitEnds(t: string)
    requires t != [] && IsDigit(t[0]) && IsDigit(t[|t| - 1])
    ensures Strip(t, Brackets) == t
  {
    assert LeadCount(t, Brackets) == 0;
    assert TrailCount(t, Brackets) == 0;
  }

  lemma NoSeparatorInDigits(s: string, c: char)
    requires AllDigits(s) && !IsDigit(c)
    ensures c !in s
  {
  }

  lemma FirstIndexAfter(a: string, c: char, b: string)
    requires c !in a
    ensures c in a + [c] + b
    ensures IndexOf(a + [c] + b, c) == |a|
  {
    var t := a + [c] + b;
    assert t[|a|] == c;

  }

  /** Two fraction digits are hundredths and three are thousandths, so both
      spellings of ninety and a half seconds denote 90500 ms. */
  lemma HundredthsExample()
    ensures ParseTime("01:30.50") == Ok(90500)
  {
    var t := "01:30.50";
    TwoDigits("01", '0', '1');
    TwoDigits("30", '3', '0');
    TwoDigits("50", '5', '0');
    ParseSample(t, "01", "30", "50", 90500);
  }

  lemma ThousandthsExample()
    ensures ParseTime("01:30.500") == Ok(90500)
  {
    var t := "01:30.500";
    TwoDigits("01", '0', '1');
    TwoDigits("30", '3', '0');
    ThreeDigits("500", '5', '0', '0');
    assert "500"[..3] == "500";
    ParseSample(t, "01", "30", "500", 90500);
  }

  /** Brackets around a timecode are optional: the self-test's
      `[01:30.500]` is read as 90500 ms too. */
  lemma BracketedExample()
    ensures ParseTime("[01:30.500]") == Ok(90500)
  {
    var t := "[01:30.500]";
    var body := "01:30.500";
    assert t == "[" + body + "]";
    BracketsAroundBody(body);
    ThousandthsExample();
  }

  /** A fraction of any other length is read verbatim from its first three
      digits, without scaling: one digit `5` is 5 ms ... */
  lemma OneDigitFractionExample()
    ensures ParseTime("00:00.5") == Ok(5)
  {
    var t := "00:00.5";
    TwoDigits("00", '0', '0');
    OneDigit("5", '5');
    assert "5"[..1] == "5";
    ParseSample(t, "00", "00", "5", 5);
  }

  /** ... and four digits `5009` give 500 ms. */
  lemma FourDigitFractionExample()
    ensures ParseTime("00:00.5009") == Ok(500)
  {
    var t := "00:00.5009";
    var h, f := "500", "5009";
    TwoDigits("00", '0', '0');
    ThreeDigits(h, '5', '0', '0');
    assert f == h + "9" && f[..3] == h;
    assert AllDigits(f) by {
      forall i | 0 <= i < |f| ensures IsDigit(f[i]) {
        if i < 3 {
          assert f[i] == h[i];
        }
      }
    }
    ParseSample(t, "00", "00", f, 500);
  }

  /** Only the first three fraction characters are read, so text after
      them is ignored: `00:00.500x` is 500 ms. */
  lemma TrailingTextExample()
    ensures ParseTime("00:00.500x") == Ok(500)
  {
    var t := "00:00.500x";
    var h, f := "500", "500x";
    TwoDigits("00", '0', '0');
    ThreeDigits(h, '5', '0', '0');
    assert FirstThree(f) == h && FirstThree(h) == h;
    ParseTimeOfFraction(t, "00", "00", f, 500);
  }

  /** A sample timecode `m:s.f` whose fields are known to read `a`, `b`
      and `c`. */
  lemma ParseSample(t: string, m: string, s: string, f: string, v: nat)
    requires t == m + ":" + s + "." + f
    requires m != [] && s != [] && f != []
    requires AllDigits(m) && AllDigits(s) && AllDigits(f)
    requires Value(m) * 60000 + Value(s) * 1000 + FractionValue(f) == v
    ensures ParseTime(t) == Ok(v)
  {
    DigitFieldsStripped(t, m, s, f);
    DigitFieldsSplit(t, m, s, f);
    ParseOfSplitSample(t, m, s, FractionValue(f), v);
  }

  lemma ParseOfSplitSample(t: string, m: string, s: string, f: nat, v: nat)
    requires Strip(t, Brackets) == t && ':' in t
    requires SplitTimecode(t) == (m, s, Some(f))
    requires m != [] && s != [] && AllDigits(m) && AllDigits(s)
    requires Value(m) * 60000 + Value(s) * 1000 + f == v
    ensures ParseTime(t) == Ok(v)
  {
    ParseTimeOfFields(t, m, s, f);
  }

  /** The value of a one-digit numeral. */
  lemma OneDigit(s: string, a: char)
    requires s == [a] && IsDigit(a)
    ensures AllDigits(s) && Value(s) == DigitValue(a)
  {
    assert s[..0] == [];
  }

  /** The value of a two-digit numeral. */
  lemma TwoDigits(s: string, a: char, b: char)
    requires s == [a, b] && IsDigit(a) && IsDigit(b)
    ensures AllDigits(s) && Value(s) == DigitValue(a) * 10 + DigitValue(b)
  {
    var p := s[..1];
    OneDigit(p, a);
    assert Value(s) == Value(p) * 10 + DigitValue(b);
  }

  /** The value of a three-digit numeral. */
  lemma ThreeDigits(s: string, a: char, b: char, c: char)
    requires s == [a, b, c] && IsDigit(a) && IsDigit(b) && IsDigit(c)
    ensures AllDigits(s) && Value(s) == DigitValue(a) * 100 + DigitValue(b) * 10 + DigitValue(c)
  {
    var p := s[..2];
    TwoDigits(p, a, b);
    assert Value(s) == Value(p) * 10 + DigitValue(c);
  }

  /** Text without a colon is rejected, and the error carries the text with
      its enclosing brackets stripped. */
  lemma MissingColonExample()
    ensures ParseTime("[bad]") == Err(InvalidFormat("bad"))
  {
    var t := "[bad]";
    assert t[1..] == "bad]";
    assert LeadCount("bad]", Brackets) == 0;
    assert LeadCount(t, Brackets) == 1;
    assert t[..|t| - 1] == "[bad";
    assert TrailCount("[bad", Brackets) == 0;
    assert TrailCount(t, Brackets) == 1;
    assert Strip(t, Brackets) == "bad";
  }
}
