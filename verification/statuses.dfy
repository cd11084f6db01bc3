/**
 * The Status of a Resource (status.go): a uint8 of which 0, 1 and 2 (Free,
 * Busy, Occupied) are valid. The binary form is total, the text form is one
 * of three words and fails out of range, String is total, and the text
 * parser takes a digit or a case-insensitive word.
 */
module Statuses {
  import opened Base
  import opened Texts
  import opened Errors

  /** Go's `Status uint8`: every byte is a Status, only 0..2 are in range. */
  type Status = byte

  const Free: Status := 0
  const Busy: Status := 1
  const Occupied: Status := 2

  /** The three words packed into one string, and where each one starts. */
  const StatusText: string := "freebusyoccupied"
  const StatusNumbers: string := "012"
  const StatusTextIdx: seq<nat> := [0, 4, 8, 16]

  /** The words of the text form, one per valid Status, as the documentation lists them. */
  const Words: seq<string> := ["free", "busy", "occupied"]

  const ErrOutOfRange: Error := StatusError(Message("Status not in valid range"), true)
  const ErrNotOneByte: Error := Message("status must be one byte")
  const ErrEmptyText: Error := Message("status must be non-empty byte slice")
  const ErrNotStatus: Error := Message("not a valid status value")

  /** `s < Status(len(statusTextIdx)-1)`; a uint8 is never negative. */
  predicate InRange(s: Status) {
    s < |StatusTextIdx| - 1
  }

  /** IsOutOfRange: the error has an OutOfRange method (only *statusError does) and it answers true; no unwrapping. */
  predicate IsOutOfRange(e: Option<Error>) {
    e.Some? && e.value.StatusError? && e.value.outOfRange
  }

  /** The word of an in-range Status, cut out of the packed text. */
  function Word(s: Status): (w: string)
    requires InRange(s)
    ensures w == Words[s]
  {
    WordsPacked(s);
    StatusText[StatusTextIdx[s]..StatusTextIdx[s + 1]]
  }

  lemma WordsPacked(s: Status)
    requires InRange(s)
    ensures StatusText[StatusTextIdx[s]..StatusTextIdx[s + 1]] == Words[s]
  {
    if s == Free {
      assert StatusText[0..4] == "free";
    } else if s == Busy {
      assert StatusText[4..8] == "busy";
    } else {
      assert StatusText[8..16] == "occupied";
    }
  }

  // -------------------------------------------------------------- binary form

  /**
   * MarshalBinary: the raw byte, for every value, in range or not; it reads
   * back exactly for the values in range.
   */
  function MarshalBinary(s: Status): (b: seq<byte>)
    ensures |b| == 1 && b[0] == s
    ensures InRange(s) ==> UnmarshalBinary(b) == Ok(s)
    ensures !InRange(s) ==> UnmarshalBinary(b) == Err(ErrOutOfRange)
  {
    [s]
  }

  /** UnmarshalBinary: exactly one byte, and it must be in range. */
  function UnmarshalBinary(b: seq<byte>): (r: Result<Status>)
    ensures r.Ok? <==> |b| == 1 && InRange(b[0])
    ensures r.Ok? ==> r.value == b[0]
    ensures |b| == 1 && r.Err? ==> IsOutOfRange(Some(r.error))
    ensures |b| != 1 ==> !IsOutOfRange(Some(r.error))
  {
    if |b| != 1 then Err(ErrNotOneByte)
    else if b[0] > Occupied then Err(ErrOutOfRange)
    else Ok(b[0])
  }

  /**
   * IsOutOfRange answers true for the out-of-range error itself, false for
   * nil, for a statusError whose flag is off and for a wrapped out-of-range
   * error, which it does not unwrap.
   */
  lemma OutOfRangeCases(inner: Error, context: string)
    ensures IsOutOfRange(Some(ErrOutOfRange))
    ensures !IsOutOfRange(None) && !IsOutOfRange(Some(StatusError(inner, false)))
    ensures !IsOutOfRange(Some(Wrapped(ErrOutOfRange, context)))
  {
  }

  // ---------------------------------------------------------------- text form

  /** MarshalText: the word of an in-range Status; anything else is out of range. */
  function MarshalText(s: Status): (r: Result<string>)
    ensures r.Ok? <==> s <= Occupied
    ensures r.Ok? ==> r.value == Words[s]
    ensures r.Err? ==> IsOutOfRange(Some(r.error))
  {
    if !InRange(s) then Err(ErrOutOfRange) else Ok(Word(s))
  }

  /** String: never fails; a value out of range prints as Free does. */
  function String(s: Status): (t: string)
    ensures s <= Occupied ==> MarshalText(s) == Ok(t)
    ensures s > Occupied ==> t == "free"
  {
    var v := if !InRange(s) then Free else s;
    MarshalText(v).value
  }

  /**
   * unicode.SimpleFold equivalence of a rune `c` with a lower-case ASCII
   * letter `w`, as bytes.EqualFold decides it: the letter itself, its upper
   * case, and the two non-ASCII runes that fold to ASCII letters, U+017F
   * (long s) for 's' and U+212A (Kelvin sign) for 'k'.
   */
  predicate FoldsTo(c: char, w: char)
    requires 'a' <= w <= 'z'
  {
    c == w || c as int == w as int - 32 || (w == 's' && c == 'ſ') || (w == 'k' && c == 'K')
  }

  /** bytes.EqualFold(txt, w) for a word `w` of lower-case ASCII letters. */
  predicate EqualFold(txt: string, w: string)
    requires forall i :: 0 <= i < |w| ==> 'a' <= w[i] <= 'z'
  {
    |txt| == |w| && forall i :: 0 <= i < |w| ==> FoldsTo(txt[i], w[i])
  }

  /**
   * What UnmarshalText decides: the empty text is refused; a single digit
   * 0, 1 or 2 is that Status; otherwise the first word the text equals up
   * to case; otherwise the text is not a Status.
   */
  function ParseText(txt: string): (r: Result<Status>)
    ensures r.Ok? ==> InRange(r.value) && (txt == [StatusNumbers[r.value]] || EqualFold(txt, Words[r.value]))
    ensures r.Err? ==> r.error == if txt == [] then ErrEmptyText else ErrNotStatus
  {
    if |txt| == 0 then Err(ErrEmptyText)
    else if |txt| == 1 && '0' <= txt[0] <= '2' then Ok((txt[0] as int - '0' as int) as Status)
    else if EqualFold(txt, Word(Free)) then Ok(Free)
    else if EqualFold(txt, Word(Busy)) then Ok(Busy)
    else if EqualFold(txt, Word(Occupied)) then Ok(Occupied)
    else Err(ErrNotStatus)
  }

  /**
   * UnmarshalText as the source runs it: a one-character text is looked up
   * among the digits, then every text is compared with each word in turn.
   * The receiver takes the new value only on success.
   */
  method UnmarshalText(s: Status, txt: string) returns (out: Status, err: Option<Error>)
    ensures ParseText(txt).Ok? ==> err.None? && out == ParseText(txt).value
    ensures ParseText(txt).Err? ==> err == Some(ParseText(txt).error) && out == s
  {
    if |txt| == 0 {
      return s, Some(ErrEmptyText);
    }
    if |txt| == 1 {
      for i := 0 to |StatusNumbers|
        invariant forall j :: 0 <= j < i ==> txt[0] != StatusNumbers[j]
      {
        if txt[0] == StatusNumbers[i] {
          return i as Status, None;
        }
      }
    }
    for i := 0 to |StatusTextIdx| - 1
      invariant forall j: Status :: j < i ==> !EqualFold(txt, Word(j))
    {
      var w := StatusText[StatusTextIdx[i]..StatusTextIdx[i + 1]];
      assert w == Word(i as Status);
      if EqualFold(txt, w) {
        return i as Status, None;
      }
    }
    return s, Some(ErrNotStatus);
  }

  // ------------------------------------------------------------------- lemmas

  /** The words are lower-case ASCII letters, so none holds a space. */
  lemma WordIsLower(s: Status)
    requires InRange(s)
    ensures forall i :: 0 <= i < |Words[s]| ==> 'a' <= Words[s][i] <= 'z'
    ensures ' ' !in Words[s]
  {
  }

  /** Every in-range Status reads back from its text form. */
  lemma TextRoundTrip(s: Status)
    requires InRange(s)
    ensures MarshalText(s).Ok? && ParseText(MarshalText(s).value) == Ok(s)
  {
    var w := Words[s];
    assert EqualFold(w, w);
    if s != Free {
      assert !FoldsTo(w[0], 'f');
    }
    if s == Occupied {
      assert !FoldsTo(w[0], 'b');
    }
  }

  /** The digits 0, 1 and 2 are Free, Busy and Occupied. */
  lemma DigitsAccepted(s: Status)
    requires InRange(s)
    ensures ParseText([StatusNumbers[s]]) == Ok(s)
  {
  }

  /**
   * Any mix of upper and lower case of a word reads as that word's Status,
   * and so does the word with its 's' written as U+017F.
   */
  lemma CaseInsensitive(s: Status, txt: string)
    requires InRange(s) && EqualFold(txt, Words[s])
    ensures ParseText(txt) == Ok(s)
  {
    assert FoldsTo(txt[0], Words[s][0]);
    if s != Free {
      assert !FoldsTo(txt[0], 'f');
    }
    if s == Occupied {
      assert !FoldsTo(txt[0], 'b');
    }
  }

  /** A word followed by anything more, such as "freedom", is not a Status. */
  lemma ExtensionRejected(s: Status, more: string)
    requires InRange(s) && more != []
    ensures ParseText(Words[s] + more) == Err(ErrNotStatus)
  {
    var txt := Words[s] + more;
    assert txt[0] == Words[s][0];
    if |txt| == 8 {
      assert !FoldsTo(txt[0], 'o');
    }
  }
}
