/**
 * The 16-byte resource identifier of resource/id.go: a version-4 UUID in the
 * sense of RFC 4122, with a raw binary form and the 36-character hyphenated
 * hexadecimal text form of section 3 of RFC 4122.
 */
module Ids {
  import opened Base
  import opened Texts
  import opened Errors

  type ID = s: seq<byte> | |s| == 16 witness [0, 0, 0, 0, 0, 0, 0, 0, 0, 0, 0, 0, 0, 0, 0, 0]

  /** The all-zero ID, Go's `ID{}`: the sentinel for "no identifier". */
  const Zero: ID := [0, 0, 0, 0, 0, 0, 0, 0, 0, 0, 0, 0, 0, 0, 0, 0]

  /**
   * NewID over the 16 bytes read from the random source: the version field
   * (high nibble of byte 6, section 4.1.3 of RFC 4122) becomes 4 and the
   * variant (top two bits of byte 8, section 4.1.1) becomes binary 10; every
   * other bit is the random input's.
   */
  function NewID(random: ID): (id: ID)
    ensures id[6] / 16 == 4 && id[6] % 16 == random[6] % 16
    ensures id[8] / 64 == 2 && id[8] % 64 == random[8] % 64
    ensures forall i :: 0 <= i < 16 && i != 6 && i != 8 ==> id[i] == random[i]
  {
    random[6 := random[6] % 16 + 0x40][8 := random[8] % 64 + 0x80]
  }

  /** NewID's masks on byte 6, `(b & 0x0f) | (4 << 4)`, in the arithmetic form NewID uses. */
  lemma VersionMask(b: bv8)
    ensures ((b & 0x0f) | (4 << 4)) as int == b as int % 16 + 0x40
  {
  }

  /** NewID's masks on byte 8, `(b & 0xbf) | 0x80`, in the arithmetic form NewID uses. */
  lemma VariantMask(b: bv8)
    ensures ((b & 0xbf) | 0x80) as int == b as int % 64 + 0x80
  {
  }

  // -------------------------------------------------------------- binary form

  /** MarshalBinary: the raw 16 bytes; never fails, and UnmarshalBinary reads them back. */
  function MarshalBinary(id: ID): (b: seq<byte>)
    ensures |b| == 16
    ensures UnmarshalBinary(b) == Ok(id)
  {
    id
  }

  /** UnmarshalBinary: any 16 bytes are an ID; any other length is an error. */
  function UnmarshalBinary(b: seq<byte>): (r: Result<ID>)
    ensures r.Ok? <==> |b| == 16
    ensures r.Ok? ==> r.value == b
  {
    if |b| != 16 then Err(Message("id must be 16 bytes long")) else Ok(b)
  }

  // ---------------------------------------------------------------- text form

  /** MarshalText: the canonical xxxxxxxx-xxxx-xxxx-xxxx-xxxxxxxxxxxx form; never fails. */
  function MarshalText(id: ID): (t: string)
    ensures |t| == 36
  {
    EncodeHex(id[0..4]) + "-" + EncodeHex(id[4..6]) + "-" + EncodeHex(id[6..8]) + "-"
      + EncodeHex(id[8..10]) + "-" + EncodeHex(id[10..])
  }

  /** The text form is 36 lower-case hex digits and hyphens, with '-' exactly at 8, 13, 18 and 23. */
  lemma MarshalTextForm(id: ID)
    ensures forall i :: 0 <= i < 36 ==>
      (MarshalText(id)[i] == '-' <==> i == 8 || i == 13 || i == 18 || i == 23)
    ensures forall i :: 0 <= i < 36 && MarshalText(id)[i] != '-' ==> IsLowerHexDigit(MarshalText(id)[i])
  {
    var t := MarshalText(id);
    var e0, e1, e2, e3, e4 := EncodeHex(id[0..4]), EncodeHex(id[4..6]), EncodeHex(id[6..8]),
      EncodeHex(id[8..10]), EncodeHex(id[10..]);
    LowerHexAt(t, 0, e0);
    LowerHexAt(t, 9, e1);
    LowerHexAt(t, 14, e2);
    LowerHexAt(t, 19, e3);
    LowerHexAt(t, 24, e4);
  }

  /** Where `t` holds `e` from `at` on, and `e` is hex.Encode output, those characters are lower-case digits. */
  lemma LowerHexAt(t: string, at: nat, e: string)
    requires at + |e| <= |t| && t[at..at + |e|] == e
    requires forall i :: 0 <= i < |e| ==> IsLowerHexDigit(e[i])
    ensures forall i :: at <= i < at + |e| ==> IsLowerHexDigit(t[i]) && t[i] != '-'
  {
    forall i | at <= i < at + |e|
      ensures IsLowerHexDigit(t[i]) && t[i] != '-'
    {
      assert t[i] == e[i - at];
    }
  }

  /**
   * The size, in bytes, of group `k` of the text form: 4, 2, 2, 2, 6. The
   * source loops over the digit counts 8, 4, 4, 4, 12 and decodes n/2 bytes;
   * here `n` is 2 * GroupBytes(k).
   */
  function GroupBytes(k: nat): nat
    requires k < 5
  {
    if k == 0 then 4 else if k == 4 then 6 else 2
  }

  /** Where group `k` starts among the 16 bytes. */
  function ByteOffset(k: nat): nat
    requires k <= 5
  {
    if k == 0 then 0 else if k == 1 then 4 else if k == 2 then 6
    else if k == 3 then 8 else if k == 4 then 10 else 16
  }

  lemma OffsetStep(k: nat)
    requires k < 5
    ensures ByteOffset(k + 1) == ByteOffset(k) + GroupBytes(k)
    ensures 2 * ByteOffset(k) + k <= 24 && ByteOffset(k) + GroupBytes(k) <= 16
  {
  }

  const ErrTooShort := Message("UUID text must be longer than 32 characters")
  const ErrBadHex := Message("decoding hex into uuid")
  const ErrTooLong := Message("too long for uuid")

  /** Where UnmarshalText's loop stands: the text not yet read and the bytes decoded so far. */
  datatype Scan = Scan(rest: string, bytes: seq<byte>)

  /**
   * One turn of the loop, group `k`: one '-' is skipped if present, then the
   * group's 2 * GroupBytes(k) characters must be there and be hex; they are
   * decoded onto the bytes read so far.
   */
  function ScanGroup(s: Scan, k: nat): Result<Scan>
    requires k < 5
  {
    var t := Undash(s.rest);
    var n := 2 * GroupBytes(k);
    if |t| < n || !AllHex(t[..n]) then Err(ErrBadHex)
    else Ok(Scan(t[n..], s.bytes + DecodeHex(t[..n])))
  }

  /** The text with one leading '-' dropped, if it has one. */
  function Undash(s: string): (t: string)
    ensures s != [] && s[0] == '-' ==> s == "-" + t
    ensures (s == [] || s[0] != '-') ==> t == s
  {
    if |s| > 0 && s[0] == '-' then s[1..] else s
  }

  /** "-" or nothing. */
  function Dash(present: bool): string
  {
    if present then "-" else ""
  }

  /** Groups `k` to 4, read in order; the first group that fails stops the loop. */
  function ScanFrom(s: Scan, k: nat): Result<Scan>
    requires k <= 5
    decreases 5 - k
  {
    if k == 5 then Ok(s)
    else match ScanGroup(s, k)
      case Err(e) => Err(e)
      case Ok(next) => ScanFrom(next, k + 1)
  }

  /** The five groups of `txt`; after the last one nothing may remain. */
  function ParseGroups(txt: string): Result<seq<byte>>
  {
    match ScanFrom(Scan(txt, []), 0)
    case Err(e) => Err(e)
    case Ok(s) => if s.rest == [] then Ok(s.bytes) else Err(ErrTooLong)
  }

  /** What UnmarshalText decodes: at least 32 characters, then the five groups. */
  function ParseText(txt: string): (r: Result<ID>)
    ensures |txt| < 32 <==> r == Err(ErrTooShort)
    ensures r.Ok? ==> ParseGroups(txt) == Ok(r.value)
  {
    if |txt| < 32 then Err(ErrTooShort)
    else
      var g := ParseGroups(txt);
      GroupErrors(txt);
      if g.Err? then Err(g.error) else UnmarshalBinary(g.value)
  }

  /** The group scan fails only with the bad-hex or the too-long error. */
  lemma GroupErrors(txt: string)
    ensures ParseGroups(txt).Err? ==> ParseGroups(txt).error in {ErrBadHex, ErrTooLong}
  {
    if ScanFrom(Scan(txt, []), 0).Err? {
      ScanFromFails(Scan(txt, []), 0);
    }
  }

  // ------------------------------------------------- which texts are accepted

  /**
   * Groups `k` to 4 of an accepted text: `digits` holds the remaining hex
   * digits (2 * (16 - ByteOffset(k)) of them) and `hyphens[j]` says whether
   * a '-' precedes the j-th of the remaining groups.
   */
  function LayoutFrom(digits: string, hyphens: seq<bool>, k: nat): (t: string)
    requires k <= 5 && |digits| == 2 * (16 - ByteOffset(k)) && |hyphens| == 5 - k
    ensures |t| >= |digits|
    decreases 5 - k
  {
    if k == 5 then []
    else
      OffsetStep(k);
      var n := 2 * GroupBytes(k);
      Dash(hyphens[0]) + (digits[..n] + LayoutFrom(digits[n..], hyphens[1..], k + 1))
  }

  /** 32 hex digits in groups of 8, 4, 4, 4 and 12, each group preceded by a '-' or not. */
  function Layout(digits: string, hyphens: seq<bool>): string
    requires |digits| == 32 && |hyphens| == 5
  {
    LayoutFrom(digits, hyphens, 0)
  }

  /** Scanning a layout reads exactly its groups and leaves whatever follows it. */
  lemma {:induction false} ScanLayout(digits: string, hyphens: seq<bool>, k: nat, tail: string, acc: seq<byte>)
    requires k <= 5 && |digits| == 2 * (16 - ByteOffset(k)) && |hyphens| == 5 - k && AllHex(digits)
    ensures ScanFrom(Scan(LayoutFrom(digits, hyphens, k) + tail, acc), k) == Ok(Scan(tail, acc + DecodeHex(digits)))
    decreases 5 - k
  {
    if k == 5 {
      EmptyConcat(tail);
      EmptyConcat(acc);
    } else {
      var g, rest := ScanLayoutGroup(digits, hyphens, k, tail, acc);
      ScanLayout(rest, hyphens[1..], k + 1, tail, acc + DecodeHex(g));
      DecodeHexAppend(g, rest);
      assert acc + DecodeHex(g) + DecodeHex(rest) == acc + DecodeHex(digits);
    }
  }

  /** The first group of a layout is read in one turn: its digits `g`, then the layout of the rest. */
  lemma ScanLayoutGroup(digits: string, hyphens: seq<bool>, k: nat, tail: string, acc: seq<byte>)
      returns (g: string, rest: string)
    requires k < 5 && |digits| == 2 * (16 - ByteOffset(k)) && |hyphens| == 5 - k && AllHex(digits)
    ensures ByteOffset(k + 1) == ByteOffset(k) + GroupBytes(k)
    ensures AllHex(g) && AllHex(rest)
    ensures digits == g + rest && |g| == 2 * |DecodeHex(g)| && |rest| == 2 * (16 - ByteOffset(k + 1))
    ensures ScanFrom(Scan(LayoutFrom(digits, hyphens, k) + tail, acc), k)
      == ScanFrom(Scan(LayoutFrom(rest, hyphens[1..], k + 1) + tail, acc + DecodeHex(g)), k + 1)
  {
    g, rest := LayoutHead(digits, hyphens, k, tail);
    var after := LayoutFrom(rest, hyphens[1..], k + 1) + tail;
    UndashDash(hyphens[0], g + after);
    ScanOneGroup(LayoutFrom(digits, hyphens, k) + tail, g, after, acc, k);
  }

  /** A layout followed by `tail` is its first group's optional '-', the group's digits, then the rest. */
  lemma LayoutHead(digits: string, hyphens: seq<bool>, k: nat, tail: string) returns (g: string, rest: string)
    requires k < 5 && |digits| == 2 * (16 - ByteOffset(k)) && |hyphens| == 5 - k && AllHex(digits)
    ensures ByteOffset(k + 1) == ByteOffset(k) + GroupBytes(k)
    ensures AllHex(g) && AllHex(rest) && |g| == 2 * GroupBytes(k) && g[0] != '-'
    ensures digits == g + rest && |g| == 2 * |DecodeHex(g)| && |rest| == 2 * (16 - ByteOffset(k + 1))
    ensures LayoutFrom(digits, hyphens, k) + tail
      == Dash(hyphens[0]) + (g + (LayoutFrom(rest, hyphens[1..], k + 1) + tail))
  {
    OffsetStep(k);
    var n := 2 * GroupBytes(k);
    g, rest := digits[..n], digits[n..];
    HexSlices(digits, n);
    DecodeHexLength(g, GroupBytes(k));
    assert [hyphens[0]] + hyphens[1..] == hyphens;
    LayoutCons(g, rest, hyphens[0], hyphens[1..], k);
    var l := LayoutFrom(rest, hyphens[1..], k + 1);
    ConcatAssoc(Dash(hyphens[0]), g + l, tail);
    ConcatAssoc(g, l, tail);
  }

  lemma UndashDash(present: bool, s: string)
    requires s != [] && s[0] != '-'
    ensures Undash(Dash(present) + s) == s
  {
    if !present {
      assert Dash(present) + s == s;
    }
  }

  /** A group of hex digits at the head of the text, once any '-' is dropped, is read in one turn of the loop. */
  lemma ScanOneGroup(txt: string, g: string, after: string, acc: seq<byte>, k: nat)
    requires k < 5 && |g| == 2 * GroupBytes(k) && AllHex(g) && Undash(txt) == g + after
    ensures ScanGroup(Scan(txt, acc), k) == Ok(Scan(after, acc + DecodeHex(g)))
  {
    var t := g + after;
    assert t[..|g|] == g && t[|g|..] == after;
  }

  /**
   * Hyphens are optional: every layout parses to its digits, and anything
   * after the 32nd digit is rejected as too long.
   */
  lemma LayoutAccepted(digits: string, hyphens: seq<bool>, tail: string)
    requires |digits| == 32 && |hyphens| == 5 && AllHex(digits)
    ensures tail == [] ==> ParseText(Layout(digits, hyphens) + tail) == Ok(DecodeHex(digits))
    ensures tail != [] ==> ParseText(Layout(digits, hyphens) + tail) == Err(ErrTooLong)
  {
    LayoutGroups(digits, hyphens, tail);
    DecodeHexLength(digits, 16);
  }

  /** The group loop over a layout followed by `tail` yields the digits decoded, if nothing follows. */
  lemma LayoutGroups(digits: string, hyphens: seq<bool>, tail: string)
    requires |digits| == 32 && |hyphens| == 5 && AllHex(digits)
    ensures ParseGroups(Layout(digits, hyphens) + tail)
      == if tail == [] then Ok(DecodeHex(digits)) else Err(ErrTooLong)
  {
    ScanWholeLayout(digits, hyphens, tail);
    GroupsOfScan(Layout(digits, hyphens) + tail, tail, DecodeHex(digits));
  }

  lemma ScanWholeLayout(digits: string, hyphens: seq<bool>, tail: string)
    requires |digits| == 32 && |hyphens| == 5 && AllHex(digits)
    ensures ScanFrom(Scan(Layout(digits, hyphens) + tail, []), 0) == Ok(Scan(tail, DecodeHex(digits)))
  {
    ScanLayout(digits, hyphens, 0, tail, []);
    EmptyConcat(DecodeHex(digits));
  }

  /** ParseGroups accepts what the group loop read exactly when nothing is left after it. */
  lemma GroupsOfScan(txt: string, tail: string, bytes: seq<byte>)
    requires ScanFrom(Scan(txt, []), 0) == Ok(Scan(tail, bytes))
    ensures ParseGroups(txt) == if tail == [] then Ok(bytes) else Err(ErrTooLong)
  {
  }

  /** What a successful scan read is a layout of hex digits, and the bytes are those digits decoded. */
  lemma {:induction false} ScanIsLayout(txt: string, k: nat, acc: seq<byte>, out: seq<byte>)
      returns (digits: string, hyphens: seq<bool>)
    requires k <= 5 && ScanFrom(Scan(txt, acc), k) == Ok(Scan([], out))
    ensures |digits| == 2 * (16 - ByteOffset(k)) && |hyphens| == 5 - k && AllHex(digits)
    ensures txt == LayoutFrom(digits, hyphens, k) && out == acc + DecodeHex(digits)
    decreases 5 - k
  {
    if k == 5 {
      digits, hyphens := [], [];
      EmptyConcat(acc);
    } else {
      var dash, g, next := PeelGroup(txt, k, acc);
      var rest, restHyphens := ScanIsLayout(next.rest, k + 1, next.bytes, out);
      digits, hyphens := g + rest, [dash] + restHyphens;
      LayoutCons(g, rest, dash, restHyphens, k);
      DecodeHexAppend(g, rest);
      ConcatAssoc(acc, DecodeHex(g), DecodeHex(rest));
    }
  }

  /** A scan that succeeds from group `k` read that group: an optional '-', then hex digits `g`. */
  lemma PeelGroup(txt: string, k: nat, acc: seq<byte>) returns (dash: bool, g: string, next: Scan)
    requires k < 5 && ScanFrom(Scan(txt, acc), k).Ok?
    ensures ByteOffset(k + 1) == ByteOffset(k) + GroupBytes(k)
    ensures ScanFrom(next, k + 1) == ScanFrom(Scan(txt, acc), k)
    ensures AllHex(g) && |g| == 2 * GroupBytes(k) && |g| == 2 * |DecodeHex(g)|
    ensures txt == Dash(dash) + (g + next.rest) && next.bytes == acc + DecodeHex(g)
  {
    OffsetStep(k);
    var n := 2 * GroupBytes(k);
    next := ScanGroup(Scan(txt, acc), k).value;
    dash := |txt| > 0 && txt[0] == '-';
    var t := Undash(txt);
    g := t[..n];
    DecodeHexLength(g, GroupBytes(k));
    TakeDrop(t, n);
    EmptyConcat(t);
  }

  /** A layout starts with its first group, preceded by '-' if its first flag says so. */
  lemma LayoutCons(g: string, rest: string, dash: bool, hyphens: seq<bool>, k: nat)
    requires k < 5 && |g| == 2 * GroupBytes(k) && |rest| == 2 * (16 - ByteOffset(k + 1)) && |hyphens| == 4 - k
    requires ByteOffset(k + 1) == ByteOffset(k) + GroupBytes(k)
    ensures LayoutFrom(g + rest, [dash] + hyphens, k) == Dash(dash) + (g + LayoutFrom(rest, hyphens, k + 1))
  {
    var d := g + rest;
    assert d[..|g|] == g && d[|g|..] == rest && ([dash] + hyphens)[1..] == hyphens;
  }

  /** Only layouts are accepted: an accepted text is 32 hex digits with optional hyphens before the groups. */
  lemma AcceptedIsLayout(txt: string)
    requires ParseText(txt).Ok?
    ensures exists digits, hyphens ::
              |digits| == 32 && |hyphens| == 5 && AllHex(digits)
              && txt == Layout(digits, hyphens) && ParseText(txt).value == DecodeHex(digits)
  {
    var s := ScanFrom(Scan(txt, []), 0).value;
    assert s == Scan([], s.bytes);
    assert ParseText(txt).value == s.bytes;
    var digits, hyphens := ScanIsLayout(txt, 0, [], s.bytes);
    EmptyConcat(DecodeHex(digits));
    assert |digits| == 32 && |hyphens| == 5 && AllHex(digits)
      && txt == Layout(digits, hyphens) && ParseText(txt).value == DecodeHex(digits);
  }

  /**
   * The three ways UnmarshalText fails: fewer than 32 characters, a group
   * that is cut short or not hex, and text left after the last group. Five
   * groups read to the end always make 16 bytes, so the final
   * UnmarshalBinary never fails.
   */
  lemma ParseTextErrors(txt: string)
    ensures |txt| < 32 ==> ParseText(txt) == Err(ErrTooShort)
    ensures |txt| >= 32 && ParseText(txt).Err? ==> ParseText(txt).error == ErrBadHex || ParseText(txt).error == ErrTooLong
  {
    if |txt| >= 32 {
      var scan := ScanFrom(Scan(txt, []), 0);
      if scan.Err? {
        ScanFromFails(Scan(txt, []), 0);
      } else if scan.value.rest == [] {
        var s := scan.value;
        assert s == Scan([], s.bytes);
        var digits, hyphens := ScanIsLayout(txt, 0, [], s.bytes);
        EmptyConcat(DecodeHex(digits));
        DecodeHexLength(digits, 16);
      }
    }
  }

  /** A scan that stops early stops on a group that is cut short or not hex. */
  lemma {:induction false} ScanFromFails(s: Scan, k: nat)
    requires k <= 5 && ScanFrom(s, k).Err?
    ensures ScanFrom(s, k).error == ErrBadHex
    decreases 5 - k
  {
    if ScanGroup(s, k).Ok? {
      ScanFromFails(ScanGroup(s, k).value, k + 1);
    }
  }

  /** The text form is the layout with no hyphen before the first group and one before each other group. */
  lemma MarshalTextLayout(id: ID)
    ensures MarshalText(id) == Layout(EncodeHex(id), [false, true, true, true, true])
  {
    var e0, e1, e2, e3, e4 := EncodeHex(id[0..4]), EncodeHex(id[4..6]), EncodeHex(id[6..8]),
      EncodeHex(id[8..10]), EncodeHex(id[10..]);
    EncodeHexSplit(id, 8, 10, e3, e4);
    EncodeHexSplit(id, 6, 8, e2, e3 + e4);
    EncodeHexSplit(id, 4, 6, e1, e2 + (e3 + e4));
    EncodeHexSplit(id, 0, 4, e0, e1 + (e2 + (e3 + e4)));
    assert id[0..] == id;
    LayoutOfGroups(e0, e1, e2, e3, e4);
  }

  /** Five digit groups of the right sizes, laid out with the canonical hyphens, are the groups joined by '-'. */
  lemma LayoutOfGroups(e0: string, e1: string, e2: string, e3: string, e4: string)
    requires |e0| == 8 && |e1| == 4 && |e2| == 4 && |e3| == 4 && |e4| == 12
    ensures Layout(e0 + (e1 + (e2 + (e3 + e4))), [false, true, true, true, true])
         == e0 + "-" + e1 + "-" + e2 + "-" + e3 + "-" + e4
  {
    var d3, d2, d1 := e3 + e4, e2 + (e3 + e4), e1 + (e2 + (e3 + e4));
    OffsetStep(0);
    OffsetStep(1);
    OffsetStep(2);
    OffsetStep(3);
    OffsetStep(4);
    var l4 := LayoutFrom(e4, [true], 4);
    LayoutCons(e4, [], true, [], 4);
    EmptyConcat(e4);
    var l3 := LayoutFrom(d3, [true, true], 3);
    LayoutCons(e3, e4, true, [true], 3);
    var l2 := LayoutFrom(d2, [true, true, true], 2);
    LayoutCons(e2, d3, true, [true, true], 2);
    var l1 := LayoutFrom(d1, [true, true, true, true], 1);
    LayoutCons(e1, d2, true, [true, true, true], 1);
    LayoutCons(e0, d1, false, [true, true, true, true], 0);
    assert l4 == "-" + e4;
    assert l3 == "-" + (e3 + l4);
    assert l2 == "-" + (e2 + l3);
    assert l1 == "-" + (e1 + l2);
    JoinAssoc(e0, e1, e2, e3, e4);
  }

  lemma JoinAssoc(e0: string, e1: string, e2: string, e3: string, e4: string)
    ensures e0 + "-" + e1 + "-" + e2 + "-" + e3 + "-" + e4
         == [] + (e0 + ("-" + (e1 + ("-" + (e2 + ("-" + (e3 + ("-" + e4))))))))
  {
  }

  /** hex.Encode of id[from:] is the encoding of id[from:at], then of id[at:]. */
  lemma EncodeHexSplit(id: ID, from: nat, at: nat, group: string, rest: string)
    requires from <= at <= 16
    requires group == EncodeHex(id[from..at]) && rest == EncodeHex(id[at..])
    ensures EncodeHex(id[from..]) == group + rest
  {
    assert id[from..] == id[from..at] + id[at..];
    EncodeHexAppend(id[from..at], id[at..]);
  }

  /** UnmarshalText reads back what MarshalText writes. */
  lemma TextRoundTrip(id: ID)
    ensures ParseText(MarshalText(id)) == Ok(id)
  {
    MarshalTextLayout(id);
    DecodeEncodeHex(id);
    LayoutAccepted(EncodeHex(id), [false, true, true, true, true], []);
    EmptyConcat(MarshalText(id));
  }

  /**
   * UnmarshalText as the source runs it: the length check, the group loop of
   * DecodeGroups, then UnmarshalBinary on the 16 decoded bytes. The receiver
   * gets a new value only at the end; on error it keeps `id`.
   */
  method UnmarshalText(id: ID, txt: string) returns (out: ID, err: Option<Error>)
    ensures ParseText(txt).Ok? ==> err.None? && out == ParseText(txt).value
    ensures ParseText(txt).Err? ==> err == Some(ParseText(txt).error) && out == id
  {
    if |txt| < 32 {
      return id, Some(ErrTooShort);
    }
    var g := DecodeGroups(txt);
    if g.Err? {
      return id, Some(g.error);
    }
    out, err := g.value, None;
  }

  /**
   * UnmarshalText's loop over the group sizes: drop an optional '-', hex-decode
   * the group into `buf` and advance; after the last group nothing may remain.
   */
  method DecodeGroups(txt: string) returns (r: Result<seq<byte>>)
    requires |txt| >= 32
    ensures r == ParseGroups(txt)
    ensures r.Ok? ==> |r.value| == 16
  {
    var buf := new byte[16];
    var cur := txt;
    var i := 0;
    ghost var whole := ScanFrom(Scan(txt, []), 0);
    assert buf[..0] == [];
    for k := 0 to 5
      invariant i == ByteOffset(k)
      invariant |cur| + 2 * i + k >= |txt|
      invariant whole == ScanFrom(Scan(cur, buf[..i]), k)
    {
      OffsetStep(k);
      var rest, ok := ReadGroup(buf, i, cur, k);
      if !ok {
        return Err(ErrBadHex);
      }
      cur := rest;
      i := i + GroupBytes(k);
    }
    if |cur| > 0 {
      return Err(ErrTooLong);
    }
    return Ok(buf[..i]);
  }

  /**
   * One turn of UnmarshalText's loop, for group `k`: skip one '-' if present,
   * then hex-decode the group's 2 * GroupBytes(k) characters into buf[at:];
   * report whether they were there and were hex, and what text is left.
   */
  method ReadGroup(buf: array<byte>, at: nat, cur: string, k: nat) returns (rest: string, ok: bool)
    requires k < 5 && |cur| > 0 && at + GroupBytes(k) <= buf.Length
    modifies buf
    ensures !ok ==> ScanGroup(Scan(cur, old(buf[..at])), k) == Err(ErrBadHex)
    ensures ok ==> ScanGroup(Scan(cur, old(buf[..at])), k) == Ok(Scan(rest, buf[..at + GroupBytes(k)]))
    ensures ok ==> |rest| + 2 * GroupBytes(k) + 1 >= |cur|
  {
    var n := 2 * GroupBytes(k);
    var t := cur;
    if t[0] == '-' {
      t := t[1..];
    }
    if |t| < n || !AllHex(t[..n]) {
      return t, false;
    }
    CopyInto(buf, at, DecodeHex(t[..n]));
    SliceSplit(buf[..], at, n / 2);
    rest, ok := t[n..], true;
  }

  /** hex.Decode's writes into the destination slice buf[at:at+len(d)]. */
  method CopyInto(buf: array<byte>, at: nat, d: seq<byte>)
    requires at + |d| <= buf.Length
    modifies buf
    ensures buf[..at] == old(buf[..at]) && buf[at..at + |d|] == d
  {
    forall j | 0 <= j < |d| {
      buf[at + j] := d[j];
    }
  }

  lemma SliceSplit(s: seq<byte>, a: nat, b: nat)
    requires a + b <= |s|
    ensures s[..a + b] == s[..a] + s[a..a + b]
  {
  }
}
