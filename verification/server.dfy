/**
 * The helpers of the server package: reading resource IDs from a URL path
 * and choosing and running the response encoder (server/current.go), and the
 * server's error type with its status code (server/error.go).
 */
module Server {
  import opened Base
  import opened Texts
  import opened Errors
  import Legacy

  // --------------------------------------------------------- server/error.go

  /** The status code of an error that does not carry one: http.StatusInternalServerError. */
  const InternalServerError: int := 500

  /** errf: a srvError with the cause, the code and the message already formatted. */
  function Errf(cause: Option<Error>, code: int, message: string): (e: Error)
    ensures ErrorCode(Some(e)) == code
    ensures cause.None? ==> Text(e) == FormatCode(code) + ": " + message
    ensures cause.Some? ==> Text(e) == FormatCode(code) + ": " + message + ": " + Text(cause.value)
  {
    ServerError(cause, code, message)
  }

  /**
   * ErrorCode: the code of an error that has an ErrorCode method, which
   * only srvError has; 500 for nil and for every other error. The error is
   * not unwrapped.
   */
  function ErrorCode(e: Option<Error>): (c: int)
    ensures e.Some? && e.value.ServerError? ==> c == e.value.code
    ensures c != InternalServerError ==> e.Some? && e.value.ServerError?
  {
    if e.Some? && e.value.ServerError? then e.value.code else InternalServerError
  }

  /** A srvError wrapped by errors.Wrap no longer reports its code. */
  lemma WrappedCodeIsLost(cause: Option<Error>, code: int, message: string, context: string)
    ensures ErrorCode(Some(Wrapped(Errf(cause, code, message), context))) == InternalServerError
  {
  }

  /**
   * srvError.Error starts with the code in at least three decimal digits
   * that read back as the code, then ": "; so code 0 is written "000".
   */
  lemma ServerErrorText(cause: Option<Error>, code: nat, message: string)
    ensures var c := FormatCode(code);
      |c| >= 3 && AllDecimal(c) && DecimalNumber(c) == code
      && Text(Errf(cause, code, message))[..|c| + 2] == c + ": "
  {
    FormatCodeDigits(code);
    var p := FormatCode(code) + ": ";
    TakePrefix(p, message);
    if cause.Some? {
      PrefixOfLonger(p + message, ": ", p);
      PrefixOfLonger(p + message + ": ", Text(cause.value), p);
    }
  }

  /** Code 0 is written "000". */
  lemma ZeroCodeText(cause: Option<Error>, message: string)
    ensures Text(Errf(cause, 0, message))[..5] == "000: "
  {
    assert FormatDecimal(0) == "0";
    assert FormatCode(0) == "000";
    ServerErrorText(cause, 0, message);
  }

  /** A srvError caused by another srvError renders both, outer first, in the same format. */
  lemma NestedServerErrorText(innerCode: int, innerMessage: string, code: int, message: string)
    ensures Text(Errf(Some(Errf(None, innerCode, innerMessage)), code, message))
      == FormatCode(code) + ": " + message + ": " + FormatCode(innerCode) + ": " + innerMessage
  {
    var outer := FormatCode(code) + ": " + message + ": ";
    ConcatAssoc(outer, FormatCode(innerCode) + ": ", innerMessage);
    ConcatAssoc(outer, FormatCode(innerCode), ": ");
  }

  // ------------------------------------------------------------- idsFromPath

  /** The pieces of a path that are not empty, in order. */
  function NonEmpty(segments: seq<string>): (r: seq<string>)
    ensures |r| <= |segments|
    ensures forall i :: 0 <= i < |r| ==> r[i] != []
  {
    if segments == [] then []
    else (if segments[0] == [] then [] else [segments[0]]) + NonEmpty(segments[1..])
  }

  lemma {:induction false} NonEmptyAppend(a: seq<string>, b: seq<string>)
    ensures NonEmpty(a + b) == NonEmpty(a) + NonEmpty(b)
  {
    if a == [] {
      EmptyConcat(b);
      EmptyConcat(NonEmpty(b));
    } else {
      NonEmptyAppend(a[1..], b);
      HeadOfAppend(a, b);
      ConcatAssoc(if a[0] == [] then [] else [a[0]], NonEmpty(a[1..]), NonEmpty(b));
    }
  }

  /** One more piece: an empty one adds nothing, another one adds itself. */
  lemma NonEmptyStep(raw: seq<string>, i: nat)
    requires i < |raw|
    ensures NonEmpty(raw[..i + 1]) == NonEmpty(raw[..i]) + (if raw[i] == [] then [] else [raw[i]])
  {
    TakeSnoc(raw, i);
    NonEmptyAppend(raw[..i], [raw[i]]);
    assert [raw[i]][1..] == [];
  }

  /** A non-empty piece at `i` is the non-empty piece that follows those before `i`. */
  lemma NonEmptyAt(raw: seq<string>, i: nat)
    requires i < |raw| && raw[i] != []
    ensures var before := NonEmpty(raw[..i]);
      |before| < |NonEmpty(raw)| && NonEmpty(raw)[|before|] == raw[i]
      && forall j :: 0 <= j < |before| ==> NonEmpty(raw)[j] == before[j]
  {
    NonEmptyStep(raw, i);
    TakeDrop(raw, i + 1);
    NonEmptyAppend(raw[..i + 1], raw[i + 1..]);
    var before := NonEmpty(raw[..i]);
    PrefixOfAppend(before + [raw[i]], NonEmpty(raw[i + 1..]));
    PrefixOfAppend(before, [raw[i]]);
  }

  /** The error message idsFromPath builds around strconv's. */
  function PathError(path: string, segment: string): (e: Error)
    ensures var t, n := Text(e), NumErrorText(segment);
      |t| > 19 + |n| && t[..19] == "Error parsing ids, " && t[|t| - |n|..] == n
  {
    var p := "Error parsing ids, " + Quote(path) + ": ";
    var n := NumErrorText(segment);
    assert (p + n)[..19] == "Error parsing ids, ";
    assert (p + n)[|p|..] == n;
    Message(p + n)
  }

  /**
   * idsFromPath: splits the path on '/', skips the empty pieces and reads
   * each other piece as a uint64 in hex. The first piece that does not read
   * ends the loop with an error, and the IDs read before it are returned
   * with it.
   */
  method IdsFromPath(path: string) returns (ids: seq<Legacy.Uint64>, err: Option<Error>)
    ensures var segments := NonEmpty(Split(path, '/'));
      |ids| <= |segments|
      && (forall i :: 0 <= i < |ids| ==> ParseUint64Hex(segments[i]) == Some(ids[i]))
      && (err.None? <==> |ids| == |segments|)
      && (err.Some? ==> ParseUint64Hex(segments[|ids|]).None? && err.value == PathError(path, segments[|ids|]))
  {
    ids := [];
    var raw := Split(path, '/');
    for i := 0 to |raw|
      invariant |ids| == |NonEmpty(raw[..i])|
      invariant forall j :: 0 <= j < |ids| ==> ParseUint64Hex(NonEmpty(raw[..i])[j]) == Some(ids[j])
    {
      NonEmptyStep(raw, i);
      if raw[i] == [] {
        continue;
      }
      var id := ParseUint64Hex(raw[i]);
      if id.None? {
        NonEmptyAt(raw, i);
        return ids, Some(PathError(path, raw[i]));
      }
      ids := ids + [id.value];
    }
    assert raw[..|raw|] == raw;
    err := None;
  }

  /** The root path "/" holds no IDs and no error. */
  lemma RootPath()
    ensures NonEmpty(Split("/", '/')) == []
  {
    assert Split("/", '/') == [[]] + Split([], '/');
  }

  /** A trailing slash changes nothing about which IDs a path holds. */
  lemma TrailingSlash(path: string)
    ensures NonEmpty(Split(path + "/", '/')) == NonEmpty(Split(path, '/'))
  {
    SplitAppend(path, [], '/');
    EmptyConcat(path + "/");
    NonEmptyAppend(Split(path, '/'), [[]]);
    EmptyConcat(NonEmpty(Split(path, '/')));
  }

  /** "/" then an ID in hex, either case, holds exactly that ID: "/a" is 10. */
  lemma OneIdPath(id: Legacy.Uint64, upper: bool)
    ensures NonEmpty(Split("/" + FormatHex(id, upper), '/')) == [FormatHex(id, upper)]
    ensures ParseUint64Hex(FormatHex(id, upper)) == Some(id)
  {
    var h := FormatHex(id, upper);
    assert '/' !in h by {
      forall i | 0 <= i < |h|
        ensures h[i] != '/'
      {
        assert IsHexDigit(h[i]);
      }
    }
    SplitNoSeparator(h, '/');
    SplitAppend([], h, '/');
    EmptyConcat([ '/' ] + h);
    assert NonEmpty([[], h]) == [h] by {
      assert [[], h][1..] == [h];
    }
    FormatHexParses(id, upper);
  }

  // --------------------------------------------------------------- encoders

  /** The two response encodings. */
  datatype Encoding = JSONEncoding | TextEncoding

  /** encoder: JSON for exactly "application/json", text for anything else ("" and "text/plain" included). */
  function Encoder(accept: string): (e: Encoding)
    ensures e == JSONEncoding <==> accept == "application/json"
  {
    if accept == "application/json" then JSONEncoding else TextEncoding
  }

  /** What encode_text writes: each Resource's String and a newline, in order. */
  function Lines(rs: seq<Legacy.Resource>): (l: string)
    ensures |l| >= |rs|
    ensures rs == [] <==> l == []
    ensures rs != [] ==> l[|l| - 1] == '\n'
  {
    if rs == [] then [] else Legacy.String(rs[0]) + "\n" + Lines(rs[1..])
  }

  lemma {:induction false} LinesSnoc(rs: seq<Legacy.Resource>, r: Legacy.Resource)
    ensures Lines(rs + [r]) == Lines(rs) + Legacy.String(r) + "\n"
  {
    if rs == [] {
      assert [] + [r] == [r];
      assert Lines([r]) == Legacy.String(r) + "\n" + [];
      EmptyConcat(Legacy.String(r) + "\n");
    } else {
      LinesSnoc(rs[1..], r);
      HeadOfAppend(rs, [r]);
      var head := Legacy.String(rs[0]) + "\n";
      ConcatAssoc(head, Lines(rs[1..]), Legacy.String(r) + "\n");
      ConcatAssoc(Lines(rs[1..]), Legacy.String(r), "\n");
      ConcatAssoc(head + Lines(rs[1..]), Legacy.String(r), "\n");
    }
  }

  /**
   * encode_text over a writer that accepts everything: one Fprintln per
   * Resource, in input order.
   */
  method EncodeText(rs: seq<Legacy.Resource>) returns (out: string)
    ensures out == Lines(rs)
  {
    out := [];
    for i := 0 to |rs|
      invariant out == Lines(rs[..i])
    {
      LinesSnoc(rs[..i], rs[i]);
      TakeSnoc(rs, i);
      out := out + Legacy.String(rs[i]) + "\n";
    }
    assert rs[..|rs|] == rs;
  }

  /** The Strings of the Resources, in order. */
  function Strings(rs: seq<Legacy.Resource>): (ss: seq<string>)
    ensures |ss| == |rs| && forall i :: 0 <= i < |rs| ==> ss[i] == Legacy.String(rs[i])
  {
    if rs == [] then [] else [Legacy.String(rs[0])] + Strings(rs[1..])
  }

  /**
   * The text response reads back line by line: when no name holds a
   * newline, splitting it on newlines gives each Resource's String in order,
   * then the empty piece after the last newline.
   */
  lemma {:induction false} LinesSplit(rs: seq<Legacy.Resource>)
    requires forall i :: 0 <= i < |rs| ==> '\n' !in rs[i].friendlyName
    ensures Split(Lines(rs), '\n') == Strings(rs) + [[]]
  {
    if rs != [] {
      LinesSplit(rs[1..]);
      StringHasNoNewline(rs[0]);
      SplitAppend(Legacy.String(rs[0]), Lines(rs[1..]), '\n');
      SplitNoSeparator(Legacy.String(rs[0]), '\n');
      ConcatAssoc([Legacy.String(rs[0])], Strings(rs[1..]), [[]]);
    } else {
      assert Lines(rs) == [];
    }
  }

  /** A Resource's String has a newline only if its name has one. */
  lemma StringHasNoNewline(r: Legacy.Resource)
    requires '\n' !in r.friendlyName
    ensures '\n' !in Legacy.String(r)
  {
    if r.status < 3 {
      var a := Legacy.IdText(r.id);
      assert '\n' !in a by {
        forall i | 0 <= i < |a|
          ensures a[i] != '\n'
        {
          assert IsLowerHexDigit(a[i]);
        }
      }
      var w := Legacy.StatusText(r.status).value;
      assert '\n' !in w;
    }
  }
}
