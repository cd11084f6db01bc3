/**
 * The `Since` field of a Resource: Go's time.Time, reduced to an instant on
 * a discrete time line, with a text codec in place of the RFC 3339 text of
 * time.Time.MarshalText. The codec writes the instant as a signed decimal;
 * what the rest of the system relies on is that it round-trips, never
 * writes an empty text and never writes a space.
 */
module Since {
  import opened Base
  import opened Texts

  /** An instant; comparison of instants is time.Time.After and Equal. */
  type Instant = int

  /** time.Time{}: the instant a zero-value Resource carries. */
  const ZeroInstant: Instant := 0

  /** t.After(u) */
  predicate After(t: Instant, u: Instant) {
    t > u
  }

  /** The text of an instant: never empty, and made of digits and a minus sign only (so no space). */
  function MarshalText(t: Instant): (s: string)
    ensures s != [] && ' ' !in s
    ensures forall i :: 0 <= i < |s| ==> s[i] == '-' || '0' <= s[i] <= '9'
  {
    if t < 0 then "-" + FormatDecimal(-t) else FormatDecimal(t)
  }

  /** Reads the text of an instant back; None is time.Time.UnmarshalText's parse error. */
  function UnmarshalText(s: string): (r: Option<Instant>)
    ensures r.Some? ==> s != [] && ' ' !in s
  {
    if s == [] then None
    else if s[0] == '-' then
      if |s| > 1 && AllDecimal(s[1..]) then Some(-(DecimalNumber(s[1..]) as int)) else None
    else if AllDecimal(s) then Some(DecimalNumber(s))
    else None
  }

  /** The first words of time.ParseError's message; the rest of it is not modelled. */
  function ParseErrorText(s: string): string
  {
    "parsing time " + Quote(s)
  }

  /** Every instant reads back from its text. */
  lemma TextRoundTrip(t: Instant)
    ensures UnmarshalText(MarshalText(t)) == Some(t)
  {
    if t < 0 {
      NegativeRoundTrip(-t, MarshalText(t));
    } else {
      DecimalNumberOfFormat(t);
    }
  }

  lemma NegativeRoundTrip(n: nat, s: string)
    requires s == "-" + FormatDecimal(n)
    ensures UnmarshalText(s) == Some(-(n as int))
  {
    DecimalNumberOfFormat(n);
    assert s[1..] == FormatDecimal(n);
    var k := DecimalNumber(s[1..]);
    assert k == n;
  }
}
