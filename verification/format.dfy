/** The overlay's emotion text: `${emotion} (${Math.round(score * 100)}%)`, with the
    integer rendered in plain decimal, as JavaScript's number-to-string does for
    integers of magnitude below 10^21 (larger ones print in exponent form, which
    no percentage of a score in [0, 1] reaches). */
module Format {
  import opened Optional

  /** JavaScript `Math.round` on an exact real: the nearest integer, with a value
      exactly halfway between two integers rounded towards +infinity. */
  function Round(x: real): (n: int)
    ensures n as real - 0.5 <= x < n as real + 0.5
  {
    (x + 0.5).Floor
  }

  /** Only one integer lies in the half-open window `[x - 1/2, x + 1/2)`, so the
      contract of `Round` pins its result down. */
  lemma RoundUnique(x: real, n: int)
    requires n as real - 0.5 <= x < n as real + 0.5
    ensures Round(x) == n
  {
    var m := Round(x);
    assert m as real - n as real < 1.0 && n as real - m as real < 1.0;
  }

  /** The printed percentage of a score. */
  function Percent(score: real): (p: int)
    ensures 0.0 <= score <= 1.0 ==> 0 <= p <= 100
    ensures p as real - 0.5 <= score * 100.0 < p as real + 0.5
  {
    Round(score * 100.0)
  }

  predicate IsDigit(c: char)
  {
    '0' <= c <= '9'
  }

  function DigitValue(c: char): (d: nat)
    requires IsDigit(c)
    ensures d < 10 && DigitChar(d) == c
  {
    c as int - '0' as int
  }

  function DigitChar(d: nat): (c: char)
    requires d < 10
    ensures IsDigit(c) && c as int - '0' as int == d
  {
    (d + '0' as int) as char
  }

  /** Decimal rendering of a natural number: non-empty, digits only, and no
      leading zero unless the number is zero itself. */
  function NatToString(n: nat): (s: string)
    ensures |s| > 0
    ensures forall i :: 0 <= i < |s| ==> IsDigit(s[i])
    ensures |s| > 1 ==> s[0] != '0'
    decreases n
  {
    if n < 10 then [DigitChar(n)] else NatToString(n / 10) + [DigitChar(n % 10)]
  }

  /** Decimal rendering of an integer, with a leading '-' for negatives. */
  function IntToString(n: int): (s: string)
    ensures |s| > 0
    ensures forall i :: 0 <= i < |s| ==> IsDigit(s[i]) || (i == 0 && s[i] == '-')
    ensures s[0] == '-' <==> n < 0
  {
    if n < 0 then "-" + NatToString(-n) else NatToString(n)
  }

  /** The value of a non-empty run of decimal digits, most significant first. */
  function DigitsValue(s: string): nat
    requires forall i :: 0 <= i < |s| ==> IsDigit(s[i])
  {
    if |s| == 0 then 0
    else DigitsValue(s[..|s| - 1]) * 10 + DigitValue(s[|s| - 1])
  }

  /** Reads back a decimal natural number; rejects the empty string and any
      non-digit. */
  function ParseNat(s: string): (r: Option<nat>)
    ensures r.Some? <==> |s| > 0 && forall i :: 0 <= i < |s| ==> IsDigit(s[i])
  {
    if |s| > 0 && forall i :: 0 <= i < |s| ==> IsDigit(s[i]) then Some(DigitsValue(s)) else None
  }

  /** Reads back a decimal integer with an optional leading '-'. */
  function ParseInt(s: string): Option<int>
  {
    if |s| > 0 && s[0] == '-' then
      match ParseNat(s[1..])
      case None => None
      case Some(v) => Some(0 - v as int)
    else
      match ParseNat(s)
      case None => None
      case Some(v) => Some(v as int)
  }

  lemma {:induction false} NatRoundTrip(n: nat)
    ensures DigitsValue(NatToString(n)) == n
    decreases n
  {
    if n >= 10 {
      var s := NatToString(n);
      assert s[..|s| - 1] == NatToString(n / 10);
      NatRoundTrip(n / 10);
    }
  }

  /** Reading back the rendering of any integer gives the integer. */
  lemma IntRoundTrip(n: int)
    ensures ParseInt(IntToString(n)) == Some(n)
  {
    if n < 0 {
      assert IntToString(n)[1..] == NatToString(-n);
      NatRoundTrip(-n);
    } else {
      NatRoundTrip(n);
    }
  }

  /** The overlay text of one face: the emotion, a space, and the percentage in
      parentheses followed by a percent sign. */
  function LabelText(emotion: string, percent: int): string
  {
    emotion + " (" + IntToString(percent) + "%)"
  }

  /** The last position of `c` in `s`, if any. */
  function LastIndexOf(s: string, c: char): (r: Option<nat>)
    ensures r.Some? ==> r.value < |s| && s[r.value] == c
    ensures r.Some? ==> forall k :: r.value < k < |s| ==> s[k] != c
    ensures r.None? ==> forall k :: 0 <= k < |s| ==> s[k] != c
  {
    if |s| == 0 then None
    else if s[|s| - 1] == c then Some(|s| - 1)
    else LastIndexOf(s[..|s| - 1], c)
  }

  /** Splits an overlay text back into emotion and percentage, reading the
      percentage from the last '(' so that labels may contain parentheses. */
  function ParseLabelText(t: string): Option<(string, int)>
  {
    if |t| < 2 || t[|t| - 2..] != "%)" then None
    else
      var body := t[..|t| - 2];
      match LastIndexOf(body, '(')
      case None => None
      case Some(j) =>
        if j == 0 || body[j - 1] != ' ' then None
        else
          match ParseInt(body[j + 1..])
          case None => None
          case Some(n) => Some((body[..j - 1], n))
  }

  /** The last `c` is found past any prefix when the suffix after it holds none. */
  lemma {:induction false} LastIndexOfSplit(a: string, c: char, b: string)
    requires forall k :: 0 <= k < |b| ==> b[k] != c
    ensures LastIndexOf(a + [c] + b, c) == Some(|a|)
    decreases |b|
  {
    var s := a + [c] + b;
    if |b| > 0 {
      assert s[|s| - 1] == b[|b| - 1];
      assert s[..|s| - 1] == a + [c] + b[..|b| - 1];
      LastIndexOfSplit(a, c, b[..|b| - 1]);
    }
  }

  /** Every emotion text reads back as the emotion and percentage it was built
      from, whatever characters the emotion holds. */
  lemma LabelTextRoundTrip(emotion: string, percent: int)
    ensures ParseLabelText(LabelText(emotion, percent)) == Some((emotion, percent))
  {
    var digits := IntToString(percent);
    var t := LabelText(emotion, percent);
    var body := emotion + " (" + digits;
    assert t == body + "%)";
    assert t[..|t| - 2] == body;
    assert body == (emotion + " ") + ['('] + digits;
    LastIndexOfSplit(emotion + " ", '(', digits);
    assert body[|emotion| + 2..] == digits;
    assert body[..|emotion|] == emotion;
    IntRoundTrip(percent);
  }
}
