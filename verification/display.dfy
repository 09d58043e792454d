/**
 The running display: each field of the remaining time rendered as its
 decimal string, left-padded with '0' to at least two characters, joined
 by ':'. Padding never cuts a field, so whole minutes of 100 or more keep
 all their digits. JavaScript switches `String(n)` to exponent notation
 from 1e21 on; numbers that large are outside this model.
 */
module Display {

  import opened Options
  import opened Countdown

  predicate IsDigit(c: char) {
    '0' <= c <= '9'
  }

  predicate AllDigits(s: string) {
    forall i :: 0 <= i < |s| ==> IsDigit(s[i])
  }

  function DigitValue(c: char): int
    requires IsDigit(c)
  {
    c as int - '0' as int
  }

  function DigitChar(d: int): (c: char)
    requires 0 <= d <= 9
    ensures IsDigit(c) && DigitValue(c) == d
  {
    ('0' as int + d) as char
  }

  /** `String(n)` for a whole number `n >= 0`: its decimal digits, with no leading zero. */
  function NatToString(n: nat): (s: string)
    ensures |s| >= 1 && AllDigits(s)
    ensures s[0] == '0' ==> n == 0
    ensures |s| == 1 <==> n < 10
    decreases n
  {
    if n < 10 then [DigitChar(n)] else NatToString(n / 10) + [DigitChar(n % 10)]
  }

  /** `String(n)` for any whole number: a minus sign before the digits of a negative one. */
  function NumberToString(n: int): string {
    if n < 0 then "-" + NatToString(-n) else NatToString(n)
  }

  /**
   `s.padStart(len, fill)` with a one-character fill: `fill` repeated in
   front of `s` up to length `len`; a string already that long is returned
   unchanged, never cut.
   */
  function PadStart(s: string, len: nat, fill: char): (r: string)
    ensures |r| == if |s| >= len then |s| else len
    ensures r[|r| - |s|..] == s
    ensures forall i :: 0 <= i < |r| - |s| ==> r[i] == fill
  {
    if |s| >= len then s else seq(len - |s|, _ => fill) + s
  }

  /** One field of the display. */
  function Field(n: int): string {
    PadStart(NumberToString(n), 2, '0')
  }

  /**
   The `MM:SS` text shown while the timer runs. For a valid remaining time
   it is the padded minutes followed by ':' and exactly the two digits of
   the seconds, tens first.
   */
  function FormatTimeLeft(r: Remaining): (s: string)
    ensures r.Valid() ==>
              && |s| == |Field(r.minutes)| + 3
              && s[..|s| - 3] == Field(r.minutes)
              && s[|s| - 3..] == [':', DigitChar(r.seconds / 10), DigitChar(r.seconds % 10)]
  {
    var text := Field(r.minutes) + ":" + Field(r.seconds);
    if r.Valid() then
      TwoDigitField(r.seconds);
      JoinedShape(Field(r.minutes), Field(r.seconds));
      text
    else
      text
  }

  /** Joining `a` and a two-character `b` with ':' keeps `a` in front and ends with ':' and `b`. */
  lemma JoinedShape(a: string, b: string)
    requires |b| == 2
    ensures |a + ":" + b| == |a| + 3
    ensures (a + ":" + b)[..|a|] == a
    ensures (a + ":" + b)[|a|..] == [':', b[0], b[1]]
  {
    var s := a + ":" + b;
    assert s[|a|..] == ":" + b;
  }

  /** A number below 100 fills its field with exactly its tens digit and its units digit. */
  lemma TwoDigitField(n: int)
    requires 0 <= n < 100
    ensures Field(n) == [DigitChar(n / 10), DigitChar(n % 10)]
  {
    if n >= 10 {
      assert NatToString(n / 10) == [DigitChar(n / 10)];
    }
  }

  // ----- Reading the display back -----

  /** The number a string of decimal digits denotes; leading zeros count for nothing. */
  function DigitsValue(s: string): int
    requires AllDigits(s)
    decreases |s|
  {
    if |s| == 0 then 0 else DigitsValue(s[..|s| - 1]) * 10 + DigitValue(s[|s| - 1])
  }

  /** The position of the first ':' in `s`, if any. */
  function ColonIndex(s: string): (r: Option<nat>)
    ensures r.Some? ==> r.value < |s| && s[r.value] == ':' && forall j :: 0 <= j < r.value ==> s[j] != ':'
    ensures r.None? ==> forall j :: 0 <= j < |s| ==> s[j] != ':'
    decreases |s|
  {
    if |s| == 0 then None
    else if s[0] == ':' then Some(0)
    else match ColonIndex(s[1..])
      case None => None
      case Some(i) => Some(i + 1)
  }

  /** Reads an `MM:SS` text of two non-empty digit strings back into minutes and seconds. */
  function ParseTimeLeft(s: string): Option<Remaining> {
    match ColonIndex(s)
    case None => None
    case Some(i) =>
      var mm := s[..i];
      var ss := s[i + 1..];
      if |mm| > 0 && |ss| > 0 && AllDigits(mm) && AllDigits(ss) then
        Some(Remaining(DigitsValue(mm), DigitsValue(ss)))
      else
        None
  }

  lemma {:induction false} NatToStringValue(n: nat)
    ensures DigitsValue(NatToString(n)) == n
    decreases n
  {
    if n >= 10 {
      var s := NatToString(n);
      assert s[..|s| - 1] == NatToString(n / 10);
      NatToStringValue(n / 10);
    }
  }

  lemma {:induction false} ZerosValue(z: string)
    requires forall i :: 0 <= i < |z| ==> z[i] == '0'
    ensures AllDigits(z) && DigitsValue(z) == 0
    decreases |z|
  {
    if |z| > 0 {
      ZerosValue(z[..|z| - 1]);
    }
  }

  lemma {:induction false} LeadingZerosValue(z: string, s: string)
    requires forall i :: 0 <= i < |z| ==> z[i] == '0'
    requires AllDigits(s)
    ensures AllDigits(z + s) && DigitsValue(z + s) == DigitsValue(s)
    decreases |s|
  {
    if |s| == 0 {
      assert z + s == z;
      ZerosValue(z);
    } else {
      assert (z + s)[..|z + s| - 1] == z + s[..|s| - 1];
      LeadingZerosValue(z, s[..|s| - 1]);
    }
  }

  /**
   A padded field of a whole number reads back as that number, and it is
   exactly as long as the longer of two characters and the number's digits.
   */
  lemma FieldRoundTrip(n: nat)
    ensures AllDigits(Field(n)) && DigitsValue(Field(n)) == n
    ensures |Field(n)| == if n < 10 then 2 else |NatToString(n)|
  {
    var s := NatToString(n);
    var p := Field(n);
    var z := p[..|p| - |s|];
    assert p == z + s;
    LeadingZerosValue(z, s);
    NatToStringValue(n);
  }

  lemma {:induction false} ThreeDigitsFromHundred(n: nat)
    ensures |NatToString(n)| <= 2 <==> n < 100
  {
    if n >= 10 {
      assert |NatToString(n)| == |NatToString(n / 10)| + 1;
    }
  }

  /** Two non-empty digit strings joined by ':' read back as the numbers they denote. */
  lemma ParseJoined(a: string, b: string)
    requires |a| > 0 && |b| > 0 && AllDigits(a) && AllDigits(b)
    ensures ParseTimeLeft(a + ":" + b) == Some(Remaining(DigitsValue(a), DigitsValue(b)))
  {
    var s := a + ":" + b;
    assert s[|a|] == ':';
    assert forall j :: 0 <= j < |a| ==> s[j] == a[j];
    assert ColonIndex(s) == Some(|a|);
    assert s[..|a|] == a;
    assert s[|a| + 1..] == b;
  }

  /**
   The display of a remaining time with non-negative fields reads back as
   that remaining time: no digit of either field is lost, whatever the
   whole number of minutes.
   */
  lemma FormatRoundTrip(r: Remaining)
    requires r.minutes >= 0 && r.seconds >= 0
    ensures ParseTimeLeft(FormatTimeLeft(r)) == Some(r)
  {
    FieldRoundTrip(r.minutes);
    FieldRoundTrip(r.seconds);
    ParseJoined(Field(r.minutes), Field(r.seconds));
  }

  /**
   For a valid remaining time the display is exactly five characters
   (`MM:SS`) while the minutes are below 100, and longer from 100 minutes on.
   */
  lemma ClockFaceWidth(r: Remaining)
    requires r.Valid()
    ensures |FormatTimeLeft(r)| == 5 <==> r.minutes < 100
    ensures |FormatTimeLeft(r)| >= 5
  {
    FieldRoundTrip(r.minutes);
    FieldRoundTrip(r.seconds);
    ThreeDigitsFromHundred(r.minutes);
    ThreeDigitsFromHundred(r.seconds);
  }
}
