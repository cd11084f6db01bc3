/**
 * A Resource (resource.go): an ID, a Status, the instant it has had that
 * status Since, and an optional FriendlyName, with its one-line text form
 * "ID Status Since[ FriendlyName]".
 */
module Resources {
  import opened Base
  import opened Texts
  import opened Errors
  import Ids
  import Statuses
  import Since

  datatype Resource = Resource(id: Ids.ID, status: Statuses.Status, since: Since.Instant, friendlyName: string)

  /** Go's `Resource{}`: zero ID, Free, time.Time{} and no name. */
  const ZeroResource: Resource := Resource(Ids.Zero, Statuses.Free, Since.ZeroInstant, "")

  const ErrFewFields: Error := Message("invalid resource text")

  /** The error MarshalText reports for a Status out of range. */
  const ErrStatusText: Error := Message("marshaling Status to text: " + Text(Statuses.ErrOutOfRange))

  /**
   * The text form: the ID's text, a space, the Status word, a space, the
   * Since text and, only for a non-empty name, a space and the name. A
   * Status out of range is an error.
   */
  function TextOf(r: Resource): (t: Result<string>)
    ensures t.Ok? <==> Statuses.InRange(r.status)
    ensures t.Ok? ==> |t.value| > 36 && t.value[36] == ' '
    ensures t.Ok? ==> t.value[..36] == Ids.MarshalText(r.id)
  {
    var status := Statuses.MarshalText(r.status);
    if status.Err? then Err(ErrStatusText)
    else
      var line := Ids.MarshalText(r.id) + " " + status.value + " " + Since.MarshalText(r.since);
      Ok(if r.friendlyName != "" then line + " " + r.friendlyName else line)
  }

  /**
   * MarshalText as the source runs it, appending piece by piece to a buffer.
   * On error it returns no bytes.
   */
  method MarshalText(r: Resource) returns (txt: string, err: Option<Error>)
    ensures err.None? <==> TextOf(r).Ok?
    ensures err.None? ==> txt == TextOf(r).value
    ensures err.Some? ==> txt == [] && err.value == TextOf(r).error
  {
    txt := [];
    txt := txt + Ids.MarshalText(r.id);
    txt := txt + " ";
    var status := Statuses.MarshalText(r.status);
    if status.Err? {
      return [], Some(ErrStatusText);
    }
    txt := txt + status.value;
    txt := txt + " ";
    txt := txt + Since.MarshalText(r.since);
    if r.friendlyName != "" {
      txt := txt + " ";
      txt := txt + r.friendlyName;
    }
    EmptyConcat(Ids.MarshalText(r.id));
    err := None;
  }

  /** String: the text form, or "" when MarshalText fails; the text form itself is never empty. */
  function String(r: Resource): (s: string)
    ensures s == "" <==> !Statuses.InRange(r.status)
    ensures s != "" ==> TextOf(r) == Ok(s)
  {
    var t := TextOf(r);
    if t.Err? then "" else t.value
  }

  /**
   * What UnmarshalText decides: split on single spaces; fewer than three
   * fields is an error; the first three fields must read as an ID, a Status
   * and an instant; the name is every further field joined by single
   * spaces.
   */
  function ParseText(txt: string): (r: Result<Resource>)
    ensures |Split(txt, ' ')| < 3 ==> r == Err(ErrFewFields)
    ensures r.Ok? ==> Statuses.InRange(r.value.status) && Ids.ParseText(Split(txt, ' ')[0]) == Ok(r.value.id)
    ensures r.Ok? && |Split(txt, ' ')| == 3 ==> r.value.friendlyName == ""
    ensures var f := Split(txt, ' ');
      r.Ok? <==> |f| >= 3 && Ids.ParseText(f[0]).Ok? && Statuses.ParseText(f[1]).Ok? && Since.UnmarshalText(f[2]).Some?
    ensures var f := Split(txt, ' ');
      r.Ok? ==> (r.value.status == Statuses.ParseText(f[1]).value && Since.UnmarshalText(f[2]) == Some(r.value.since)
                 && r.value.friendlyName == Join(f[3..], ' '))
  {
    var elements := Split(txt, ' ');
    if |elements| < 3 then Err(ErrFewFields)
    else
      var id := Ids.ParseText(elements[0]);
      var status := Statuses.ParseText(elements[1]);
      var since := Since.UnmarshalText(elements[2]);
      if id.Err? then Err(Message("parsing ID from text: " + Text(id.error)))
      else if status.Err? then Err(Message("parsing Status from text: " + Text(status.error)))
      else if since.None? then Err(Message("parsing Since from text: " + Since.ParseErrorText(elements[2])))
      else
        Ok(Resource(id.value, status.value, since.value, Join(elements[3..], ' ')))
  }

  /**
   * UnmarshalText as the source runs it: the fields are read into a
   * temporary Resource, which replaces the receiver only when all of them
   * decoded; on error the receiver keeps `r`.
   */
  method UnmarshalText(r: Resource, txt: string) returns (out: Resource, err: Option<Error>)
    ensures ParseText(txt).Ok? ==> err.None? && out == ParseText(txt).value
    ensures ParseText(txt).Err? ==> err == Some(ParseText(txt).error) && out == r
  {
    var elements := Split(txt, ' ');
    if |elements| < 3 {
      return r, Some(ErrFewFields);
    }
    var tmp := ZeroResource;
    var id, e := Ids.UnmarshalText(tmp.id, elements[0]);
    if e.Some? {
      return r, Some(Message("parsing ID from text: " + Text(e.value)));
    }
    tmp := tmp.(id := id);
    var status, e2 := Statuses.UnmarshalText(tmp.status, elements[1]);
    if e2.Some? {
      return r, Some(Message("parsing Status from text: " + Text(e2.value)));
    }
    tmp := tmp.(status := status);
    var since := Since.UnmarshalText(elements[2]);
    if since.None? {
      return r, Some(Message("parsing Since from text: " + Since.ParseErrorText(elements[2])));
    }
    tmp := tmp.(since := since.value);
    tmp := tmp.(friendlyName := Join(elements[3..], ' '));
    out, err := tmp, None;
  }

  // ------------------------------------------------------------------- lemmas

  /** No field of the text form but the name holds a space. */
  lemma IdTextHasNoSpace(id: Ids.ID)
    ensures ' ' !in Ids.MarshalText(id)
  {
    Ids.MarshalTextForm(id);
    var t := Ids.MarshalText(id);
    forall i | 0 <= i < |t|
      ensures t[i] != ' '
    {
      if t[i] != '-' {
        assert IsLowerHexDigit(t[i]);
      }
    }
  }

  /**
   * Every Resource with a Status in range reads back from its text form,
   * whatever its name holds, spaces included.
   */
  lemma TextRoundTrip(r: Resource)
    requires Statuses.InRange(r.status)
    ensures TextOf(r).Ok? && ParseText(TextOf(r).value) == Ok(r)
  {
    var fields := TextFields(r);
    Ids.TextRoundTrip(r.id);
    Statuses.TextRoundTrip(r.status);
    Since.TextRoundTrip(r.since);
    if r.friendlyName != "" {
      JoinSplit(r.friendlyName, ' ');
    }
  }

  /** The fields of the text form: the ID, Status and Since texts, then the pieces of the name, if it has any. */
  lemma TextFields(r: Resource) returns (fields: seq<string>)
    requires Statuses.InRange(r.status)
    ensures fields == Split(TextOf(r).value, ' ') && |fields| >= 3
    ensures fields[0] == Ids.MarshalText(r.id) && fields[1] == Statuses.MarshalText(r.status).value
    ensures fields[2] == Since.MarshalText(r.since)
    ensures fields[3..] == if r.friendlyName == "" then [] else Split(r.friendlyName, ' ')
  {
    var a, b, c := Ids.MarshalText(r.id), Statuses.MarshalText(r.status).value, Since.MarshalText(r.since);
    IdTextHasNoSpace(r.id);
    Statuses.WordIsLower(r.status);
    var rest := if r.friendlyName != "" then c + " " + r.friendlyName else c;
    var tail := if r.friendlyName != "" then [c] + Split(r.friendlyName, ' ') else [c];
    SplitNoSeparator(c, ' ');
    if r.friendlyName != "" {
      SplitAppend(c, r.friendlyName, ' ');
    }
    LineShape(a, b, c, r.friendlyName);
    SplitLine(a, b, rest);
    fields := [a, b] + tail;
    DropFields(a, b, tail);
    if r.friendlyName != "" {
      HeadOfAppend([c], Split(r.friendlyName, ' '));
      EmptyConcat(Split(r.friendlyName, ' '));
    }
  }

  lemma DropFields(a: string, b: string, tail: seq<string>)
    requires tail != []
    ensures ([a, b] + tail)[2] == tail[0] && ([a, b] + tail)[3..] == tail[1..]
  {
  }

  /** The text form, associated to the right: the ID text, a space, then the rest. */
  lemma LineShape(a: string, b: string, c: string, name: string)
    ensures (if name != "" then a + " " + b + " " + c + " " + name else a + " " + b + " " + c)
      == a + [' '] + (b + [' '] + (if name != "" then c + " " + name else c))
  {
    var rest := if name != "" then c + " " + name else c;
    ConcatAssoc(a + " ", b, " ");
    ConcatAssoc(a + " ", b + " ", rest);
    ConcatAssoc(a, " ", b + " " + rest);
    if name != "" {
      ConcatAssoc(a + " " + b + " ", c, " " + name);
      ConcatAssoc(a + " " + b + " " + c, " ", name);
      ConcatAssoc(c, " ", name);
    }
  }

  /** Two leading fields without spaces split off first. */
  lemma SplitLine(a: string, b: string, rest: string)
    requires ' ' !in a && ' ' !in b
    ensures Split(a + [' '] + (b + [' '] + rest), ' ') == [a, b] + Split(rest, ' ')
  {
    SplitNoSeparator(a, ' ');
    SplitNoSeparator(b, ' ');
    SplitAppend(a, b + [' '] + rest, ' ');
    SplitAppend(b, rest, ' ');
  }
}
