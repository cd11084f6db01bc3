/**
 * Character-level helpers shared by the codecs: hexadecimal digits (Go's
 * encoding/hex and strconv base 16), decimal digits (strconv base 10 and the
 * `%d` verb of fmt), left padding, and splitting/joining on a separator
 * (Go's bytes.Split / strings.Split and bytes.Join).
 */
module Texts {
  import opened Base

  // ---------------------------------------------------------------- hex digits

  /** The digits encoding/hex and strconv accept in base 16, either case. */
  predicate IsHexDigit(c: char) {
    '0' <= c <= '9' || 'a' <= c <= 'f' || 'A' <= c <= 'F'
  }

  predicate AllHex(s: string) {
    forall i :: 0 <= i < |s| ==> IsHexDigit(s[i])
  }

  /** The digits that encoding/hex and strconv produce (lower case). */
  predicate IsLowerHexDigit(c: char) {
    '0' <= c <= '9' || 'a' <= c <= 'f'
  }

  function HexValue(c: char): (v: nat)
    requires IsHexDigit(c)
    ensures v < 16
  {
    if '0' <= c <= '9' then c as int - '0' as int
    else if 'a' <= c <= 'f' then c as int - 'a' as int + 10
    else c as int - 'A' as int + 10
  }

  function LowerHexDigit(n: nat): (c: char)
    requires n < 16
    ensures IsLowerHexDigit(c) && IsHexDigit(c) && HexValue(c) == n
  {
    if n < 10 then ('0' as int + n) as char else ('a' as int + n - 10) as char
  }

  function UpperHexDigit(n: nat): (c: char)
    requires n < 16
    ensures IsHexDigit(c) && HexValue(c) == n && (IsLowerHexDigit(c) <==> n < 10)
  {
    if n < 10 then ('0' as int + n) as char else ('A' as int + n - 10) as char
  }

  // ------------------------------------------------------ encoding/hex on bytes

  /** hex.Encode: two lower-case digits per byte, high nibble first. */
  function EncodeHex(b: seq<byte>): (s: string)
    ensures |s| == 2 * |b|
    ensures forall i :: 0 <= i < |s| ==> IsLowerHexDigit(s[i])
  {
    if b == [] then []
    else [LowerHexDigit(b[0] / 16), LowerHexDigit(b[0] % 16)] + EncodeHex(b[1..])
  }

  /**
   * hex.Decode on valid digits: one byte per pair, high nibble first. Every
   * caller passes an even number of digits; a lone last digit would be
   * dropped here, where hex.Decode reports ErrLength.
   */
  function DecodeHex(s: string): (b: seq<byte>)
    requires AllHex(s)
    ensures |s| == 2 * |b| || |s| == 2 * |b| + 1
  {
    if |s| < 2 then []
    else [HexValue(s[0]) * 16 + HexValue(s[1])] + DecodeHex(s[2..])
  }

  /** 2m digits decode to m bytes. */
  lemma {:induction false} DecodeHexLength(s: string, m: nat)
    requires AllHex(s) && |s| == 2 * m
    ensures |DecodeHex(s)| == m
  {
    if m > 0 {
      assert AllHex(s[2..]) by {
        forall i | 0 <= i < |s| - 2
          ensures IsHexDigit(s[2..][i])
        {
          assert s[2..][i] == s[i + 2];
        }
      }
      DecodeHexLength(s[2..], m - 1);
    }
  }

  /** The slices of valid digits are valid digits. */
  lemma HexSlices(s: string, n: nat)
    requires AllHex(s) && n <= |s|
    ensures AllHex(s[..n]) && AllHex(s[n..]) && s == s[..n] + s[n..]
  {
    assert forall i :: 0 <= i < n ==> s[..n][i] == s[i];
    assert forall i :: 0 <= i < |s| - n ==> s[n..][i] == s[n + i];
  }

  /** Decoding what hex.Encode wrote gives the bytes back. */
  lemma {:induction false} DecodeEncodeHex(b: seq<byte>)
    ensures AllHex(EncodeHex(b)) && DecodeHex(EncodeHex(b)) == b
  {
    if b != [] {
      DecodeEncodeHex(b[1..]);
      var s := EncodeHex(b);
      assert s[2..] == EncodeHex(b[1..]);
    }
  }

  /** Decoding is per pair, so an even-length prefix decodes on its own. */
  lemma {:induction false} DecodeHexAppend(s: string, t: string)
    requires AllHex(s) && AllHex(t) && |s| == 2 * |DecodeHex(s)|
    ensures AllHex(s + t) && DecodeHex(s + t) == DecodeHex(s) + DecodeHex(t)
  {
    assert AllHex(s + t) by {
      forall i | 0 <= i < |s + t|
        ensures IsHexDigit((s + t)[i])
      {
        if i < |s| {
          assert (s + t)[i] == s[i];
        } else {
          assert (s + t)[i] == t[i - |s|];
        }
      }
    }
    if s == [] {
      assert s + t == t;
    } else {
      var r := s[2..];
      assert AllHex(r) by {
        forall i | 0 <= i < |r|
          ensures IsHexDigit(r[i])
        {
          assert r[i] == s[i + 2];
        }
      }
      DecodeHexAppend(r, t);
      assert (s + t)[2..] == r + t;
    }
  }

  lemma {:induction false} EncodeHexAppend(a: seq<byte>, b: seq<byte>)
    ensures EncodeHex(a + b) == EncodeHex(a) + EncodeHex(b)
  {
    if a == [] {
      EmptyConcat(b);
    } else {
      EncodeHexAppend(a[1..], b);
      HeadOfAppend(a, b);
    }
  }

  // ------------------------------------------------ strconv on unsigned numbers

  /** strconv.FormatUint(n, 16) (lower case) or fmt's %X (upper case): no leading zeros. */
  function FormatHex(n: nat, upper: bool): (s: string)
    ensures 1 <= |s| && AllHex(s)
    decreases n
  {
    var d := if upper then UpperHexDigit(n % 16) else LowerHexDigit(n % 16);
    if n < 16 then [d] else FormatHex(n / 16, upper) + [d]
  }

  /** The number that a string of hex digits denotes. */
  function HexNumber(s: string): nat
    requires AllHex(s)
  {
    if s == [] then 0 else HexNumber(s[..|s| - 1]) * 16 + HexValue(s[|s| - 1])
  }

  lemma {:induction false} HexNumberOfFormat(n: nat, upper: bool)
    ensures HexNumber(FormatHex(n, upper)) == n
    decreases n
  {
    var s := FormatHex(n, upper);
    if n >= 16 {
      HexNumberOfFormat(n / 16, upper);
      assert s[..|s| - 1] == FormatHex(n / 16, upper);
    }
  }

  /** Leading zeros do not change the value of a hex number. */
  lemma {:induction false} HexNumberLeadingZeros(k: nat, s: string)
    requires AllHex(s)
    ensures AllHex(Repeat('0', k) + s) && HexNumber(Repeat('0', k) + s) == HexNumber(s)
    decreases |s|
  {
    var z := Repeat('0', k);
    if s == [] {
      assert z + s == z;
      ZerosAreZero(k);
    } else {
      HexNumberLeadingZeros(k, s[..|s| - 1]);
      assert (z + s)[..|z + s| - 1] == z + s[..|s| - 1];
    }
  }

  lemma {:induction false} ZerosAreZero(k: nat)
    ensures AllHex(Repeat('0', k)) && HexNumber(Repeat('0', k)) == 0
  {
    if k > 0 {
      ZerosAreZero(k - 1);
      PrefixOfSnoc(Repeat('0', k - 1), '0');
    }
  }

  /** 2^64: one more than the largest uint64. */
  const Uint64Limit: nat := 0x1_0000_0000_0000_0000

  /**
   * strconv.ParseUint(s, 16, 64): at least one hex digit, nothing else (no sign,
   * no prefix, no underscore in base 16), and a value that fits 64 bits.
   */
  function ParseUint64Hex(s: string): (r: Option<nat>)
    ensures r.Some? <==> s != [] && AllHex(s) && HexNumber(s) < Uint64Limit
    ensures r.Some? ==> r.value == HexNumber(s)
  {
    if s != [] && AllHex(s) && HexNumber(s) < Uint64Limit then Some(HexNumber(s)) else None
  }

  /** strconv.FormatUint(n, 16) writes lower-case digits only. */
  lemma {:induction false} FormatHexLower(n: nat)
    ensures forall i :: 0 <= i < |FormatHex(n, false)| ==> IsLowerHexDigit(FormatHex(n, false)[i])
    decreases n
  {
    if n >= 16 {
      FormatHexLower(n / 16);
    }
  }

  function Pow16(k: nat): (p: nat)
    ensures p >= 1
  {
    if k == 0 then 1 else 16 * Pow16(k - 1)
  }

  /** A number below 16^k needs at most k hex digits. */
  lemma {:induction false} FormatHexWidth(n: nat, k: nat, upper: bool)
    requires 1 <= k && n < Pow16(k)
    ensures |FormatHex(n, upper)| <= k
    decreases k
  {
    if n >= 16 {
      FormatHexWidth(n / 16, k - 1, upper);
    }
  }

  /** A uint64 needs at most 16 hex digits. */
  lemma FormatUint64Width(n: nat, upper: bool)
    requires n < Uint64Limit
    ensures |FormatHex(n, upper)| <= 16
  {
    assert Pow16(4) == 0x1_0000;
    assert Pow16(8) == 0x1_0000_0000;
    assert Pow16(12) == 0x1_0000_0000_0000;
    assert Pow16(16) == Uint64Limit;
    FormatHexWidth(n, 16, upper);
  }

  /** The value of a prefix of hex digits never exceeds the value of the whole. */
  lemma {:induction false} HexNumberPrefix(s: string, i: nat)
    requires AllHex(s) && i <= |s|
    ensures AllHex(s[..i]) && HexNumber(s[..i]) <= HexNumber(s)
    decreases |s|
  {
    if i < |s| {
      var front := s[..|s| - 1];
      HexNumberPrefix(front, i);
      assert front[..i] == s[..i];
    } else {
      assert s[..i] == s;
    }
  }

  /** Which error strconv.ParseUint(s, 16, 64) reports, if any. */
  datatype NumFault = NoFault | SyntaxFault | RangeFault

  /**
   * The digit loop of strconv.ParseUint from position `i`, with `n` the
   * value read so far: a character that is not a digit is a syntax error,
   * a digit that takes the value to 2^64 or more is a range error, and the
   * first of these decides.
   */
  function ScanHex(s: string, i: nat, n: nat): NumFault
    requires i <= |s|
    decreases |s| - i
  {
    if i == |s| then NoFault
    else if !IsHexDigit(s[i]) then SyntaxFault
    else if n * 16 + HexValue(s[i]) >= Uint64Limit then RangeFault
    else ScanHex(s, i + 1, n * 16 + HexValue(s[i]))
  }

  /** The error of strconv.ParseUint(s, 16, 64): the empty text is a syntax error, then the digit loop decides. */
  function HexFault(s: string): NumFault
  {
    if s == [] then SyntaxFault else ScanHex(s, 0, 0)
  }

  /** From position `i` on, the loop finds no fault exactly when the whole text is a uint64 in hex. */
  lemma {:induction false} ScanHexAgrees(s: string, i: nat, n: nat)
    requires i <= |s| && AllHex(s[..i]) && n == HexNumber(s[..i]) && n < Uint64Limit
    ensures ScanHex(s, i, n) == NoFault <==> AllHex(s) && HexNumber(s) < Uint64Limit
    ensures ScanHex(s, i, n) == SyntaxFault ==> !AllHex(s)
    decreases |s| - i
  {
    if i == |s| {
      assert s[..i] == s;
    } else if IsHexDigit(s[i]) {
      ScanStep(s, i, n);
      if n * 16 + HexValue(s[i]) >= Uint64Limit {
        if AllHex(s) {
          HexNumberPrefix(s, i + 1);
        }
      } else {
        ScanHexAgrees(s, i + 1, n * 16 + HexValue(s[i]));
      }
    }
  }

  /** One more digit: the prefix grows by it and its value by one place. */
  lemma ScanStep(s: string, i: nat, n: nat)
    requires i < |s| && IsHexDigit(s[i]) && AllHex(s[..i]) && n == HexNumber(s[..i])
    ensures AllHex(s[..i + 1]) && HexNumber(s[..i + 1]) == n * 16 + HexValue(s[i])
  {
    var p := s[..i + 1];
    assert p[..i] == s[..i] && p[i] == s[i];
  }

  /**
   * The fault agrees with ParseUint64Hex: none exactly when it parses, a
   * syntax error only for a text that is not all digits, a range error for
   * all digits and too large a value.
   */
  lemma HexFaultAgrees(s: string)
    ensures HexFault(s) == NoFault <==> ParseUint64Hex(s).Some?
    ensures HexFault(s) == SyntaxFault ==> s == [] || !AllHex(s)
    ensures s != [] && AllHex(s) && HexNumber(s) >= Uint64Limit ==> HexFault(s) == RangeFault
  {
    if s != [] {
      assert s[..0] == [];
      ScanHexAgrees(s, 0, 0);
    }
  }

  /** The message of the *strconv.NumError that ParseUint(s, 16, 64) returns. */
  function NumErrorText(s: string): string
  {
    "strconv.ParseUint: parsing " + Quote(s) + ": "
    + (if HexFault(s) == RangeFault then "value out of range" else "invalid syntax")
  }

  /** strconv.FormatUint and %X both read back with ParseUint(s, 16, 64). */
  lemma FormatHexParses(n: nat, upper: bool)
    requires n < Uint64Limit
    ensures ParseUint64Hex(FormatHex(n, upper)) == Some(n)
  {
    HexNumberOfFormat(n, upper);
  }

  // ------------------------------------------------------------ decimal digits

  function DecimalDigit(n: nat): (c: char)
    requires n < 10
    ensures '0' <= c <= '9'
  {
    ('0' as int + n) as char
  }

  predicate AllDecimal(s: string) {
    forall i :: 0 <= i < |s| ==> '0' <= s[i] <= '9'
  }

  /** strconv.Itoa / the %d verb of fmt on a non-negative number. */
  function FormatDecimal(n: nat): (s: string)
    ensures 1 <= |s| && AllDecimal(s)
    decreases n
  {
    if n < 10 then [DecimalDigit(n)] else FormatDecimal(n / 10) + [DecimalDigit(n % 10)]
  }

  function DecimalNumber(s: string): nat
    requires AllDecimal(s)
  {
    if s == [] then 0 else DecimalNumber(s[..|s| - 1]) * 10 + (s[|s| - 1] as int - '0' as int)
  }

  lemma {:induction false} DecimalNumberOfFormat(n: nat)
    ensures DecimalNumber(FormatDecimal(n)) == n
    decreases n
  {
    var s := FormatDecimal(n);
    if n >= 10 {
      DecimalNumberOfFormat(n / 10);
      assert s[..|s| - 1] == FormatDecimal(n / 10);
    }
  }

  // ------------------------------------------------------------------- padding

  function Repeat(c: char, k: nat): (s: string)
    ensures |s| == k && forall i :: 0 <= i < k ==> s[i] == c
  {
    if k == 0 then [] else Repeat(c, k - 1) + [c]
  }

  /** Left-pads `s` with `c` to at least `width` characters, as a fmt width with the 0 flag does. */
  function PadLeft(s: string, width: nat, c: char): (r: string)
    ensures |r| == if |s| < width then width else |s|
    ensures r == Repeat(c, |r| - |s|) + s
  {
    if |s| < width then Repeat(c, width - |s|) + s else Repeat(c, 0) + s
  }

  /** fmt's %03d: width three, zero padding placed after any minus sign. */
  function FormatCode(n: int): (s: string)
  {
    if n < 0 then "-" + PadLeft(FormatDecimal(-n), 2, '0') else PadLeft(FormatDecimal(n), 3, '0')
  }

  lemma {:induction false} DecimalZeros(k: nat)
    ensures AllDecimal(Repeat('0', k)) && DecimalNumber(Repeat('0', k)) == 0
  {
    if k > 0 {
      DecimalZeros(k - 1);
      PrefixOfSnoc(Repeat('0', k - 1), '0');
    }
  }

  /** Leading zeros do not change the value of a decimal number. */
  lemma {:induction false} DecimalLeadingZeros(k: nat, s: string)
    requires AllDecimal(s)
    ensures AllDecimal(Repeat('0', k) + s) && DecimalNumber(Repeat('0', k) + s) == DecimalNumber(s)
    decreases |s|
  {
    var z := Repeat('0', k);
    if s == [] {
      EmptyConcat(z);
      DecimalZeros(k);
    } else {
      DecimalLeadingZeros(k, s[..|s| - 1]);
      assert (z + s)[..|z + s| - 1] == z + s[..|s| - 1];
    }
  }

  /** %03d of a non-negative number: at least three decimal digits that read back as the number. */
  lemma FormatCodeDigits(n: nat)
    ensures |FormatCode(n)| >= 3 && AllDecimal(FormatCode(n)) && DecimalNumber(FormatCode(n)) == n
  {
    var d := FormatDecimal(n);
    var c := PadLeft(d, 3, '0');
    assert FormatCode(n) == c;
    DecimalNumberOfFormat(n);
    DecimalLeadingZeros(|c| - |d|, d);
  }

  // ------------------------------------------------------------------- quoting

  /** strconv.Quote for text without control or non-printable characters. */
  function Quote(s: string): string
  {
    "\"" + QuoteBody(s) + "\""
  }

  function QuoteBody(s: string): string
  {
    if s == [] then []
    else (if s[0] == '"' || s[0] == '\\' then ['\\', s[0]] else [s[0]]) + QuoteBody(s[1..])
  }

  // ------------------------------------------------------ splitting and joining

  /**
   * bytes.Split / strings.Split with a one-character separator: the pieces
   * between separators, empty pieces included; never an empty list.
   */
  function Split(s: string, sep: char): (parts: seq<string>)
    ensures |parts| >= 1
  {
    if s == [] then [[]]
    else if s[0] == sep then [[]] + Split(s[1..], sep)
    else var rest := Split(s[1..], sep); [[s[0]] + rest[0]] + rest[1..]
  }

  /** bytes.Join with a one-character separator. */
  function Join(parts: seq<string>, sep: char): string
  {
    if parts == [] then []
    else if |parts| == 1 then parts[0]
    else parts[0] + [sep] + Join(parts[1..], sep)
  }

  /** Joining the pieces of a split restores the text: no information is lost. */
  lemma {:induction false} JoinSplit(s: string, sep: char)
    ensures Join(Split(s, sep), sep) == s
  {
    if s != [] {
      JoinSplit(s[1..], sep);
      var rest := Split(s[1..], sep);
      HeadTail(s);
      if s[0] != sep && |rest| > 1 {
        var parts := [[s[0]] + rest[0]] + rest[1..];
        HeadOfAppend([[s[0]] + rest[0]], rest[1..]);
        ConcatAssoc([s[0]], rest[0], [sep]);
        ConcatAssoc([s[0]], rest[0] + [sep], Join(rest[1..], sep));
      }
    }
  }

  /** A piece without the separator splits into itself. */
  lemma {:induction false} SplitNoSeparator(s: string, sep: char)
    requires sep !in s
    ensures Split(s, sep) == [s]
  {
    if s != [] {
      SplitNoSeparator(s[1..], sep);
      assert s == [s[0]] + s[1..];
    }
  }

  /** One step of Split: how a leading character joins the first piece. */
  lemma SplitCons(c: char, s: string, sep: char)
    ensures Split([c] + s, sep) ==
      if c == sep then [[]] + Split(s, sep)
      else [[c] + Split(s, sep)[0]] + Split(s, sep)[1..]
  {
    assert ([c] + s)[1..] == s;
  }

  /** Splitting at a separator splits the two sides independently. */
  lemma {:induction false} SplitAppend(a: string, b: string, sep: char)
    ensures Split(a + [sep] + b, sep) == Split(a, sep) + Split(b, sep)
    decreases |a|
  {
    if a == [] {
      EmptyConcat([sep] + b);
      SplitCons(sep, b, sep);
    } else {
      var tail := a[1..] + [sep] + b;
      HeadTail(a);
      ConcatAssoc([a[0]] + a[1..], [sep], b);
      ConcatAssoc([a[0]], a[1..], [sep]);
      ConcatAssoc([a[0]], a[1..] + [sep], b);
      SplitAppend(a[1..], b, sep);
      SplitCons(a[0], tail, sep);
      SplitCons(a[0], a[1..], sep);
      var p, q := Split(a[1..], sep), Split(b, sep);
      HeadOfAppend(p, q);
      if a[0] == sep {
        ConcatAssoc([[]], p, q);
      } else {
        ConcatAssoc([[a[0]] + p[0]], p[1..], q);
      }
    }
  }
}
