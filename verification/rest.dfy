/**
 * Content negotiation of the rest package (rest/codex.go) and the status
 * code of its errors (rest/error.go).
 *
 * A Decoder first decides from the content type whether it handles the
 * request at all; only then does it read the body. A content-type error
 * (errorContentType) is the one error that lets MultiDecoder go on to the
 * next Decoder. Reading and decoding the body are not modelled: each
 * Decoder value carries the outcome its body step would have.
 */
module Rest {
  import opened Base
  import opened Texts
  import opened Errors

  // ------------------------------------------------------- mime.ParseMediaType

  /** unicode.IsSpace: the Latin-1 spaces and the other White_Space runes. */
  predicate IsSpace(c: char) {
    c == ' ' || c == '\t' || c == '\n' || c == '\U{000B}' || c == '\U{000C}' || c == '\r'
    || c == '\U{0085}' || c == '\U{00A0}' || c == '\U{1680}' || '\U{2000}' <= c <= '\U{200A}'
    || c == '\U{2028}' || c == '\U{2029}' || c == '\U{202F}' || c == '\U{205F}' || c == '\U{3000}'
  }

  /** strings.TrimSpace */
  function TrimSpace(s: string): (t: string)
    ensures |t| <= |s|
    ensures t != [] ==> !IsSpace(t[0]) && !IsSpace(t[|t| - 1])
    decreases |s|
  {
    if s == [] then s
    else if IsSpace(s[0]) then TrimSpace(s[1..])
    else if IsSpace(s[|s| - 1]) then TrimSpace(s[..|s| - 1])
    else s
  }

  /**
   * strings.TrimSpace cuts a run of white space off each end and nothing
   * else: the result is the input between two cut points with only white
   * space outside them.
   */
  lemma {:induction false} TrimSpaceCuts(s: string) returns (i: nat, j: nat)
    ensures i <= j <= |s| && TrimSpace(s) == s[i..j]
    ensures forall k :: 0 <= k < i ==> IsSpace(s[k])
    ensures forall k :: j <= k < |s| ==> IsSpace(s[k])
    decreases |s|
  {
    if s == [] {
      return 0, 0;
    } else if IsSpace(s[0]) {
      var i', j' := TrimSpaceCuts(s[1..]);
      i, j := CutsAfterLeading(s, s[1..], i', j');
    } else if IsSpace(s[|s| - 1]) {
      i, j := TrimSpaceCuts(s[..|s| - 1]);
      CutsBeforeTrailing(s, s[..|s| - 1], i, j);
    } else {
      return 0, |s|;
    }
  }

  /** Cut points in s[1..] move one place right in s when s[0] is white space. */
  lemma CutsAfterLeading(s: string, tail: string, i': nat, j': nat) returns (i: nat, j: nat)
    requires s != [] && IsSpace(s[0]) && tail == s[1..]
    requires i' <= j' <= |tail|
    requires forall k :: 0 <= k < i' ==> IsSpace(tail[k])
    requires forall k :: j' <= k < |tail| ==> IsSpace(tail[k])
    ensures i == i' + 1 && j == j' + 1 && tail[i'..j'] == s[i..j]
    ensures forall k :: 0 <= k < i ==> IsSpace(s[k])
    ensures forall k :: j <= k < |s| ==> IsSpace(s[k])
  {
    i, j := i' + 1, j' + 1;
    forall k | 0 < k < |s|
      ensures s[k] == tail[k - 1]
    {
    }
  }

  /** Cut points in s[..|s| - 1] stay put in s when its last character is white space. */
  lemma CutsBeforeTrailing(s: string, front: string, i: nat, j: nat)
    requires s != [] && IsSpace(s[|s| - 1]) && front == s[..|s| - 1]
    requires i <= j <= |front|
    requires forall k :: 0 <= k < i ==> IsSpace(front[k])
    requires forall k :: j <= k < |front| ==> IsSpace(front[k])
    ensures front[i..j] == s[i..j]
    ensures forall k :: 0 <= k < i ==> IsSpace(s[k])
    ensures forall k :: j <= k < |s| ==> IsSpace(s[k])
  {
    forall k | 0 <= k < |s| - 1
      ensures s[k] == front[k]
    {
    }
  }

  /** strings.ToLower on the ASCII letters. */
  function ToLower(s: string): (t: string)
    ensures |t| == |s|
    ensures forall i :: 0 <= i < |s| ==> t[i] == if 'A' <= s[i] <= 'Z' then (s[i] as int + 32) as char else s[i]
  {
    if s == [] then [] else
      [if 'A' <= s[0] <= 'Z' then (s[0] as int + 32) as char else s[0]] + ToLower(s[1..])
  }

  /** The part of a Content-Type before its first ';' (strings.Cut). */
  function BeforeSemicolon(s: string): (b: string)
    ensures ';' !in b && |b| <= |s|
    ensures |b| < |s| ==> s[|b|] == ';' && s[..|b|] == b
    ensures |b| == |s| ==> b == s
    decreases |s|
  {
    if s == [] then s
    else if s[0] == ';' then []
    else [s[0]] + BeforeSemicolon(s[1..])
  }

  /** The tspecials of RFC 2045, section 5.1. */
  predicate IsTSpecial(c: char) {
    c in "()<>@,;:\\\"/[]?="
  }

  /** isTokenChar: printable ASCII other than space and the tspecials. */
  predicate IsTokenChar(c: char) {
    ' ' < c < '\U{007F}' && !IsTSpecial(c)
  }

  /** consumeToken: the longest prefix of token characters. */
  function TokenLength(s: string): (n: nat)
    ensures n <= |s|
    ensures forall i :: 0 <= i < n ==> IsTokenChar(s[i])
    ensures n < |s| ==> !IsTokenChar(s[n])
    decreases |s|
  {
    if s == [] || !IsTokenChar(s[0]) then 0 else 1 + TokenLength(s[1..])
  }

  const ErrNoMediaType: Error := Message("mime: no media type")
  const ErrExpectedSlash: Error := Message("mime: expected slash after first token")
  const ErrExpectedToken: Error := Message("mime: expected token after slash")
  const ErrUnexpectedContent: Error := Message("mime: unexpected content after media subtype")

  /**
   * checkMediaTypeDisposition: a token, and optionally a '/' and a second
   * token; nothing else.
   */
  function CheckMediaType(s: string): (r: Option<Error>)
    ensures r.None? <==> var n := TokenLength(s);
      n > 0 && (n == |s| || (s[n] == '/' && TokenLength(s[n + 1..]) > 0 && n + 1 + TokenLength(s[n + 1..]) == |s|))
  {
    var n := TokenLength(s);
    if n == 0 then Some(ErrNoMediaType)
    else if n == |s| then None
    else if s[n] != '/' then Some(ErrExpectedSlash)
    else
      var m := TokenLength(s[n + 1..]);
      if m == 0 then Some(ErrExpectedToken)
      else if n + 1 + m != |s| then Some(ErrUnexpectedContent)
      else None
  }

  /**
   * mime.ParseMediaType, its media type only: the part before the first
   * ';', lower-cased and trimmed, which must be a type or a type/subtype.
   */
  function MediaType(contentType: string): (r: Result<string>)
    ensures r.Ok? ==> r.value == TrimSpace(ToLower(BeforeSemicolon(contentType)))
    ensures r.Err? <==> CheckMediaType(TrimSpace(ToLower(BeforeSemicolon(contentType)))).Some?
  {
    var t := TrimSpace(ToLower(BeforeSemicolon(contentType)));
    var e := CheckMediaType(t);
    if e.Some? then Err(e.value) else Ok(t)
  }

  /** TokenLength is the length of the run of token characters. */
  lemma {:induction false} TokenPrefix(s: string, n: nat)
    requires n <= |s| && (forall i :: 0 <= i < n ==> IsTokenChar(s[i])) && (n < |s| ==> !IsTokenChar(s[n]))
    ensures TokenLength(s) == n
    decreases n
  {
    if n > 0 {
      TokenPrefix(s[1..], n - 1);
    }
  }

  predicate LowerWord(s: string) {
    s != [] && forall i :: 0 <= i < |s| ==> 'a' <= s[i] <= 'z'
  }

  /** A type and a subtype of lower-case letters are a media type that reads as itself. */
  lemma TypeSlashSubtype(a: string, b: string)
    requires LowerWord(a) && LowerWord(b)
    ensures MediaType(a + "/" + b) == Ok(a + "/" + b)
  {
    var s := a + "/" + b;
    TypeSlashTokens(a, b);
    TypeSlashLetters(a, b);
    Untouched(s);
    TypeSlashChecks(s, |a|);
  }

  lemma TypeSlashTokens(a: string, b: string)
    requires LowerWord(a) && LowerWord(b)
    ensures var s := a + "/" + b;
      s[|a|] == '/' && TokenLength(s) == |a| && TokenLength(s[|a| + 1..]) == |b| && s[|a| + 1..] == b
  {
    var s := a + "/" + b;
    assert s[|a|] == '/' && s[|a| + 1..] == b;
    WordTokens(a);
    WordTokens(b);
    assert forall i :: 0 <= i < |a| ==> s[i] == a[i];
    TokenPrefix(s, |a|);
    TokenPrefix(b, |b|);
  }

  lemma TypeSlashLetters(a: string, b: string)
    requires LowerWord(a) && LowerWord(b)
    ensures var s := a + "/" + b; forall i :: 0 <= i < |s| ==> s[i] == '/' || 'a' <= s[i] <= 'z'
  {
    var s := a + "/" + b;
    forall i | 0 <= i < |s|
      ensures s[i] == '/' || 'a' <= s[i] <= 'z'
    {
      if i > |a| {
        assert s[i] == b[i - |a| - 1];
      }
    }
  }

  /** A token, a slash and a token that runs to the end pass checkMediaTypeDisposition. */
  lemma TypeSlashChecks(s: string, n: nat)
    requires 0 < n < |s| - 1 && TokenLength(s) == n && s[n] == '/' && TokenLength(s[n + 1..]) == |s| - n - 1
    ensures CheckMediaType(s) == None
  {
  }

  lemma WordTokens(a: string)
    requires LowerWord(a)
    ensures forall i :: 0 <= i < |a| ==> IsTokenChar(a[i])
  {
  }

  /** Lower-case letters and slashes pass through the cut, ToLower and TrimSpace unchanged. */
  lemma Untouched(s: string)
    requires s != [] && forall i :: 0 <= i < |s| ==> s[i] == '/' || 'a' <= s[i] <= 'z'
    ensures TrimSpace(ToLower(BeforeSemicolon(s))) == s
  {
    NoSemicolon(s);
    LowerUnchanged(s);
    NotSpace(s[0]);
    NotSpace(s[|s| - 1]);
  }

  lemma NotSpace(c: char)
    requires c == '/' || 'a' <= c <= 'z'
    ensures !IsSpace(c)
  {
  }

  lemma NoSemicolon(s: string)
    requires ';' !in s
    ensures BeforeSemicolon(s) == s
  {
  }

  lemma LowerUnchanged(s: string)
    requires forall i :: 0 <= i < |s| ==> !('A' <= s[i] <= 'Z')
    ensures ToLower(s) == s
  {
  }

  /** Parameters after a ';' never change the media type. */
  lemma IgnoresParameters(contentType: string, params: string)
    requires ';' !in contentType
    ensures MediaType(contentType + ";" + params) == MediaType(contentType)
  {
    var s := contentType + ";" + params;
    var b := BeforeSemicolon(s);
    assert s[..|contentType|] == contentType && s[|contentType|] == ';';
    assert forall i :: 0 <= i < |contentType| ==> s[i] == contentType[i];
    assert b == contentType;
    NoSemicolon(contentType);
  }

  /** An empty or blank content type has no media type. */
  lemma BlankContentType(contentType: string)
    requires forall i :: 0 <= i < |contentType| ==> contentType[i] == ' '
    ensures MediaType(contentType) == Err(ErrNoMediaType)
  {
    assert BeforeSemicolon(contentType) == contentType;
    assert ToLower(contentType) == contentType;
    assert TrimSpace(contentType) == [] by {
      BlankTrims(contentType);
    }
  }

  lemma {:induction false} BlankTrims(s: string)
    requires forall i :: 0 <= i < |s| ==> s[i] == ' '
    ensures TrimSpace(s) == []
  {
    if s != [] {
      BlankTrims(s[1..]);
    }
  }

  // ----------------------------------------------------------------- decoders

  /**
   * The Decoders of rest/codex.go. The JSON and text decoders carry the
   * outcome of the step after the content-type gate (json.Decoder.Decode;
   * ioutil.ReadAll and then the target's UnmarshalText); any other Decoder
   * is only its outcome.
   */
  datatype Decoder =
    | JSONDecoder(body: Option<Error>)
    | TextDecoder(read: Option<Error>, unmarshal: Option<Error>)
    | OtherDecoder(result: Option<Error>)

  const JSONType: string := "application" + "/" + "json"
  const TextType: string := "text" + "/" + "plain"
  const ErrNotTextUnmarshaler: Error := Message("value does not unmarshal from text")

  /** ErrorContentType(t) */
  function ErrorContentType(t: string): (e: Error)
    ensures ContentTypeError(Some(e))
  {
    UnsupportedContentType(t)
  }

  /** ContentTypeError: the root cause is an errorContentType; nil is not. */
  predicate ContentTypeError(e: Option<Error>)
    ensures ContentTypeError(e) ==> e.Some? && (e.value.UnsupportedContentType? || e.value.Wrapped?)
  {
    e.Some? && Cause(e.value).UnsupportedContentType?
  }

  /**
   * The media-type gate both decoders open with: an unparsable content type
   * is wrapped as "parsing content type", another media type than `want` is
   * a content-type error carrying the parsed type, and `want` lets the body
   * step decide.
   */
  function Gate(contentType: string, want: string, body: Option<Error>): (e: Option<Error>)
    ensures MediaType(contentType).Err? ==> e.Some? && !ContentTypeError(e)
    ensures MediaType(contentType).Ok? && MediaType(contentType).value != want ==>
      e == Some(ErrorContentType(MediaType(contentType).value))
    ensures MediaType(contentType).Ok? && MediaType(contentType).value == want ==> e == body
  {
    var t := MediaType(contentType);
    if t.Err? then Some(Wrapped(t.error, "parsing content type"))
    else if t.value != want then Some(ErrorContentType(t.value))
    else body
  }

  /** What Decode returns; `textTarget` says whether v is an encoding.TextUnmarshaler. */
  function Decode(d: Decoder, contentType: string, textTarget: bool): (r: Option<Error>)
    ensures d.TextDecoder? && !textTarget ==> r == Some(ErrNotTextUnmarshaler) && !ContentTypeError(r)
    ensures r.None? && d.JSONDecoder? ==> MediaType(contentType) == Ok(JSONType)
    ensures r.None? && d.TextDecoder? ==> textTarget && MediaType(contentType) == Ok(TextType)
    ensures (d.JSONDecoder? || (d.TextDecoder? && textTarget)) && MediaType(contentType).Ok?
      && MediaType(contentType).value != (if d.JSONDecoder? then JSONType else TextType)
      ==> r == Some(ErrorContentType(MediaType(contentType).value))
  {
    match d
    case JSONDecoder(body) => Gate(contentType, JSONType, body)
    case TextDecoder(read, unmarshal) =>
      if !textTarget then Some(ErrNotTextUnmarshaler)
      else Gate(contentType, TextType, if read.Some? then Wrap(read, "reading all") else Wrap(unmarshal, "unmarshaling text"))
    case OtherDecoder(result) => result
  }

  /** The two media types the decoders accept parse as themselves. */
  lemma KnownTypes()
    ensures MediaType(JSONType) == Ok(JSONType) && MediaType(TextType) == Ok(TextType)
  {
    JSONTypeKnown();
    TextTypeKnown();
  }

  lemma JSONTypeKnown()
    ensures MediaType(JSONType) == Ok(JSONType)
  {
    TypeSlashSubtype("application", "json");
  }

  lemma TextTypeKnown()
    ensures MediaType(TextType) == Ok(TextType)
  {
    TypeSlashSubtype("text", "plain");
  }

  // ------------------------------------------------------------- MultiDecoder

  /**
   * The position of the first Decoder whose outcome is not a content-type
   * error (a success or any other error), or the number of Decoders if there
   * is none.
   */
  function FirstDecisive(ds: seq<Decoder>, contentType: string, textTarget: bool): (k: nat)
    ensures k <= |ds|
    ensures forall j :: 0 <= j < k ==> ContentTypeError(Decode(ds[j], contentType, textTarget))
    ensures k < |ds| ==> !ContentTypeError(Decode(ds[k], contentType, textTarget))
  {
    if ds == [] then 0
    else if !ContentTypeError(Decode(ds[0], contentType, textTarget)) then 0
    else 1 + FirstDecisive(ds[1..], contentType, textTarget)
  }

  /**
   * MultiDecoder.Decode: tries the Decoders in order and returns the first
   * outcome that is not a content-type error; when every one of them (or
   * none at all) reports a content-type error, the result is a content-type
   * error for the requested type. `calls` counts the Decoders asked.
   */
  method MultiDecode(ds: seq<Decoder>, contentType: string, textTarget: bool) returns (err: Option<Error>, calls: nat)
    ensures var k := FirstDecisive(ds, contentType, textTarget);
      calls == (if k < |ds| then k + 1 else |ds|)
      && err == (if k < |ds| then Decode(ds[k], contentType, textTarget) else Some(ErrorContentType(contentType)))
  {
    calls := 0;
    for i := 0 to |ds|
      invariant calls == i
      invariant forall j :: 0 <= j < i ==> ContentTypeError(Decode(ds[j], contentType, textTarget))
    {
      err := Decode(ds[i], contentType, textTarget);
      calls := calls + 1;
      if err.None? || !ContentTypeError(err) {
        FirstDecisiveAt(ds, contentType, textTarget, i);
        return;
      }
    }
    FirstDecisiveAt(ds, contentType, textTarget, |ds|);
    err := Some(ErrorContentType(contentType));
  }

  /** The first decisive Decoder is at `i` exactly when all before it report content-type errors and it does not. */
  lemma {:induction false} FirstDecisiveAt(ds: seq<Decoder>, contentType: string, textTarget: bool, i: nat)
    requires i <= |ds|
    ensures FirstDecisive(ds, contentType, textTarget) == i <==>
      (forall j :: 0 <= j < i ==> ContentTypeError(Decode(ds[j], contentType, textTarget)))
      && (i < |ds| ==> !ContentTypeError(Decode(ds[i], contentType, textTarget)))
  {
    if i > 0 && (forall j :: 0 <= j < i ==> ContentTypeError(Decode(ds[j], contentType, textTarget))) {
      assert ContentTypeError(Decode(ds[0], contentType, textTarget));
      FirstDecisiveAt(ds[1..], contentType, textTarget, i - 1);
      assert forall j :: 0 <= j < i - 1 ==> ds[1..][j] == ds[j + 1];
    }
  }

  /**
   * MultiDecoder stops at the first success: when the Decoders before `i`
   * all report content-type errors and Decoder `i` succeeds, the result is
   * nil after `i + 1` calls.
   */
  lemma FirstSuccessWins(ds: seq<Decoder>, contentType: string, textTarget: bool, i: nat)
    requires i < |ds| && Decode(ds[i], contentType, textTarget).None?
    requires forall j :: 0 <= j < i ==> ContentTypeError(Decode(ds[j], contentType, textTarget))
    ensures FirstDecisive(ds, contentType, textTarget) == i
  {
    FirstDecisiveAt(ds, contentType, textTarget, i);
  }

  /**
   * A JSON decoder ahead of a text decoder hands a text/plain request over
   * to it: the result is the text decoder's after two calls.
   */
  lemma JSONThenText(read: Option<Error>, unmarshal: Option<Error>, body: Option<Error>)
    requires !ContentTypeError(read) && !ContentTypeError(unmarshal)
    ensures var ds := [JSONDecoder(body), TextDecoder(read, unmarshal)];
      FirstDecisive(ds, TextType, true) == 1
      && Decode(ds[1], TextType, true) == (if read.Some? then Wrap(read, "reading all") else Wrap(unmarshal, "unmarshaling text"))
  {
    KnownTypes();
    var ds := [JSONDecoder(body), TextDecoder(read, unmarshal)];
    assert ContentTypeError(Decode(ds[0], TextType, true));
    if read.Some? {
      assert Cause(Wrapped(read.value, "reading all")) == Cause(read.value);
    } else if unmarshal.Some? {
      assert Cause(Wrapped(unmarshal.value, "unmarshaling text")) == Cause(unmarshal.value);
    }
    FirstDecisiveAt(ds, TextType, true, 1);
  }

  /** A content-type error stays one however many times it is wrapped. */
  lemma ContentTypeThroughWraps(e: Error, contexts: seq<string>)
    ensures ContentTypeError(Some(WrapAll(e, contexts))) == ContentTypeError(Some(e))
  {
    CauseOfWrapAll(e, contexts);
  }

  // ---------------------------------------------------------- rest/error.go

  /** The status code used when an error carries none: http.StatusInternalServerError. */
  const InternalServerError: int := 500

  /** errorCode: the code of the root cause if it is a restError, else 500 (nil included). */
  function ErrorCode(e: Option<Error>): (c: int)
    ensures e.Some? && Cause(e.value).RestError? ==> c == Cause(e.value).code
    ensures c != InternalServerError ==> e.Some? && Cause(e.value).RestError?
  {
    if e.None? then InternalServerError
    else match Cause(e.value)
      case RestError(_, code) => code
      case _ => InternalServerError
  }

  /**
   * A restError keeps its code through any number of errors.Wrap, and an
   * error whose root cause is not a restError gets 500.
   */
  lemma ErrorCodeThroughWraps(e: Error, contexts: seq<string>)
    ensures ErrorCode(Some(WrapAll(e, contexts))) == ErrorCode(Some(e))
    ensures ErrorCode(Some(WrapAll(RestError(None, 404), contexts))) == 404
    ensures !Cause(e).RestError? ==> ErrorCode(Some(WrapAll(e, contexts))) == InternalServerError
  {
    CauseOfWrapAll(e, contexts);
    CauseOfWrapAll(RestError(None, 404), contexts);
  }

  /**
   * restError.Error: the code in at least three decimal digits whose value
   * is the code, then a space, then the inner error.
   */
  lemma RestErrorText(inner: Error, code: nat)
    ensures var t := Text(RestError(Some(inner), code)); var c := FormatCode(code);
      |c| >= 3 && AllDecimal(c) && DecimalNumber(c) == code
      && t == c + " " + Text(inner)
  {
    FormatCodeDigits(code);
  }
}
