/**
 * The Resource of package resource (resource/resource.go), the form the
 * server package serves: a uint64 ID, written as sixteen lower-case hex
 * digits in the text form and as upper-case hex without padding in JSON.
 */
module Legacy {
  import opened Base
  import opened Texts
  import opened Errors
  import Statuses
  import Since
  import Resources

  /** Go's uint64. */
  type Uint64 = n: nat | n < Uint64Limit

  /** resource.Resource; its Status is a uint of which 0, 1 and 2 are valid. */
  datatype Resource = Resource(id: Uint64, friendlyName: string, status: nat, since: Since.Instant)

  /** The ID field: strconv.FormatUint(id, 16) behind as many '0's as make sixteen characters. */
  function IdText(id: Uint64): (t: string)
    ensures |t| == 16 && AllHex(t) && HexNumber(t) == id
    ensures forall i :: 0 <= i < 16 ==> IsLowerHexDigit(t[i])
  {
    var d := FormatHex(id, false);
    FormatUint64Width(id, false);
    FormatHexLower(id);
    HexNumberOfFormat(id, false);
    HexNumberLeadingZeros(16 - |d|, d);
    PadLeft(d, 16, '0')
  }

  /** The text of the Status: the word of status.go for 0, 1 and 2, an out-of-range error otherwise. */
  function StatusText(s: nat): (r: Result<string>)
    ensures r.Ok? <==> s < 3
    ensures r.Ok? ==> r.value == Statuses.Words[s]
  {
    if s < 3 then Statuses.MarshalText(s as Statuses.Status) else Err(Statuses.ErrOutOfRange)
  }

  /**
   * The text form: the ID field, the Status word and the Since text, each
   * followed by one space, then the name; the space after Since is written
   * even when the name is empty.
   */
  function TextOf(r: Resource): (t: Result<string>)
    ensures t.Ok? <==> r.status < 3
    ensures t.Ok? ==> |t.value| > 17 + |r.friendlyName| && t.value[..16] == IdText(r.id) && t.value[16] == ' '
    ensures t.Ok? ==> t.value[|t.value| - |r.friendlyName| - 1..] == " " + r.friendlyName
  {
    var status := StatusText(r.status);
    if status.Err? then Err(Message("marshaling Status to text: " + Text(status.error)))
    else
      var line := IdText(r.id) + " " + status.value + " " + Since.MarshalText(r.since) + " " + r.friendlyName;
      assert line == (IdText(r.id) + " " + status.value + " " + Since.MarshalText(r.since)) + (" " + r.friendlyName);
      Ok(line)
  }

  /**
   * MarshalText as the source runs it, writing field by field into a
   * buffer; a Status out of range aborts with no bytes.
   */
  method MarshalText(r: Resource) returns (txt: string, err: Option<Error>)
    ensures err.None? <==> TextOf(r).Ok?
    ensures err.None? ==> txt == TextOf(r).value
    ensures err.Some? ==> txt == [] && err.value == TextOf(r).error
  {
    var b: string := [];
    b := b + IdText(r.id);
    b := b + " ";
    var status := StatusText(r.status);
    if status.Err? {
      return [], Some(Message("marshaling Status to text: " + Text(status.error)));
    }
    b := b + status.value;
    b := b + " ";
    b := b + Since.MarshalText(r.since);
    b := b + " ";
    b := b + r.friendlyName;
    EmptyConcat(IdText(r.id));
    txt, err := b, None;
  }

  /** String: the text form, or "" when MarshalText fails. */
  function String(r: Resource): (s: string)
    ensures s == "" <==> r.status >= 3
    ensures s != "" ==> TextOf(r) == Ok(s)
  {
    var t := TextOf(r);
    if t.Err? then "" else t.value
  }

  /**
   * The text form reads back field by field: the ID field as hex, the
   * Status word, the Since text, and the name as everything after the third
   * space.
   */
  lemma TextFields(r: Resource)
    requires r.status < 3
    ensures var f := Split(TextOf(r).value, ' ');
      |f| >= 4
      && ParseUint64Hex(f[0]) == Some(r.id)
      && Statuses.ParseText(f[1]) == Ok(r.status as Statuses.Status)
      && Since.UnmarshalText(f[2]) == Some(r.since)
      && Join(f[3..], ' ') == r.friendlyName
  {
    var a, b, c := IdText(r.id), Statuses.Words[r.status], Since.MarshalText(r.since);
    var name := r.friendlyName;
    assert ' ' !in a by {
      forall i | 0 <= i < |a|
        ensures a[i] != ' '
      {
        assert IsLowerHexDigit(a[i]);
      }
    }
    Statuses.WordIsLower(r.status as Statuses.Status);
    Statuses.TextRoundTrip(r.status as Statuses.Status);
    Since.TextRoundTrip(r.since);
    LineSplit(a, b, c, name);
    var f := [a, b, c] + Split(name, ' ');
    assert f[0] == a && f[1] == b && f[2] == c && f[3..] == Split(name, ' ');
    JoinSplit(name, ' ');
    FormatHexParsesPadded(r.id);
  }

  /** The three fields without spaces split off first, and the name splits on its own. */
  lemma LineSplit(a: string, b: string, c: string, name: string)
    requires ' ' !in a && ' ' !in b && ' ' !in c
    ensures Split(a + " " + b + " " + c + " " + name, ' ') == [a, b, c] + Split(name, ' ')
  {
    LineShape(a, b, c, name);
    Resources.SplitLine(a, b, c + " " + name);
    SplitNoSeparator(c, ' ');
    SplitAppend(c, name, ' ');
    ConcatAssoc([a, b], [c], Split(name, ' '));
  }

  /** The line associated to the right around its first two spaces. */
  lemma LineShape(a: string, b: string, c: string, name: string)
    ensures a + " " + b + " " + c + " " + name == a + [' '] + (b + [' '] + (c + " " + name))
  {
    ConcatAssoc(a + " " + b + " " + c, " ", name);
    ConcatAssoc(a + " " + b + " ", c, " " + name);
    ConcatAssoc(a + " ", b + " ", c + " " + name);
    ConcatAssoc(a, " ", b + " " + (c + " " + name));
    ConcatAssoc(b, " ", c + " " + name);
    ConcatAssoc(a + " ", b, " ");
  }

  /** The padded ID field parses back to the ID. */
  lemma FormatHexParsesPadded(id: Uint64)
    ensures ParseUint64Hex(IdText(id)) == Some(id)
  {
  }

  /** An empty name still ends the text with the space after Since. */
  lemma TrailingSpace(r: Resource)
    requires r.status < 3 && r.friendlyName == ""
    ensures TextOf(r).value[|TextOf(r).value| - 1] == ' '
  {
    var t := TextOf(r).value;
    assert t[|t| - 1..] == " ";
  }

  // --------------------------------------------------------------------- JSON

  /** The id member of MarshalJSON: fmt's %X, upper-case hex with no padding. */
  function JsonId(id: Uint64): (j: string)
    ensures 1 <= |j| <= 16 && ParseUint64Hex(j) == Some(id)
  {
    FormatUint64Width(id, true);
    FormatHexParses(id, true);
    FormatHex(id, true)
  }

  /**
   * The fields UnmarshalJSON assigns once json.Unmarshal has filled its
   * temporary struct: an empty id stands for "0", the id must then be a
   * uint64 in hex, and a failure is strconv's error.
   */
  function DecodeJson(idText: string, name: string, status: nat, since: Since.Instant): (r: Result<Resource>)
    ensures r.Ok? <==> idText == [] || ParseUint64Hex(idText).Some?
    ensures r.Ok? ==> r.value.friendlyName == name && r.value.status == status && r.value.since == since
    ensures r.Ok? && idText == [] ==> r.value.id == 0
    ensures r.Ok? && idText != [] ==> ParseUint64Hex(idText) == Some(r.value.id)
    ensures r.Err? ==> r.error == Message(NumErrorText(idText))
  {
    var t := if idText == [] then "0" else idText;
    var id := ParseUint64Hex(t);
    if id.None? then Err(Message(NumErrorText(t))) else Ok(Resource(id.value, name, status, since))
  }

  /**
   * UnmarshalJSON after the JSON decoding itself: the receiver keeps all
   * its fields when the id does not parse, and takes all four otherwise.
   */
  method UnmarshalJSON(r: Resource, idText: string, name: string, status: nat, since: Since.Instant)
    returns (out: Resource, err: Option<Error>)
    ensures DecodeJson(idText, name, status, since).Ok? ==> err.None? && out == DecodeJson(idText, name, status, since).value
    ensures DecodeJson(idText, name, status, since).Err? ==> err == Some(DecodeJson(idText, name, status, since).error) && out == r
  {
    var t := idText;
    if |t| == 0 {
      t := "0";
    }
    var id := ParseUint64Hex(t);
    if id.None? {
      return r, Some(Message(NumErrorText(t)));
    }
    out := r.(id := id.value);
    out := out.(friendlyName := name, status := status, since := since);
    err := None;
  }

  /** Every Resource reads back from the members MarshalJSON writes for it. */
  lemma JsonRoundTrip(r: Resource)
    ensures DecodeJson(JsonId(r.id), r.friendlyName, r.status, r.since) == Ok(r)
  {
  }

  /** The two ID forms differ in case and padding but denote the same number. */
  lemma IdFormsAgree(id: Uint64)
    ensures ParseUint64Hex(IdText(id)) == ParseUint64Hex(JsonId(id)) == Some(id)
    ensures id >= 0x1000_0000_0000_0000 || JsonId(id) != IdText(id)
  {
    if id < 0x1000_0000_0000_0000 {
      assert Pow16(4) == 0x1_0000;
      assert Pow16(8) == 0x1_0000_0000;
      assert Pow16(12) == 0x1_0000_0000_0000;
      assert Pow16(15) == 0x1000_0000_0000_0000;
      FormatHexWidth(id, 15, true);
    }
  }
}
