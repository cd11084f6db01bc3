# faststatus in Dafny

A model of the value logic of faststatus, a small service that tracks how
busy shared resources are. The model covers:

- **Resource IDs** (`Ids`, resource/id.go). An ID is a version-4 UUID.
  - NewID sets the version and variant bits of 16 given bytes.
  - The binary form is the raw 16 bytes.
  - The text form is 36 hyphenated hex characters. The text parser skips at
    most one '-' before each of the five groups. The parser is an imperative
    loop over a 16-byte array, proved equal to a recursive specification.
- **Status** (`Statuses`, status.go). A three-valued enum with these codecs:
  - a total one-byte binary codec;
  - a strict text codec, whose parser takes a digit or a case-insensitive
    word;
  - a lenient `String`.
- **The one-line Resource text form** (`Resources`, resource.go). The line is
  `ID Status Since[ FriendlyName]`. The name may contain spaces: decoding
  splits on spaces and rejoins every field from the fourth on.
- **The Since instant** (`Since`). A stand-in for time.Time with a text codec
  that round-trips and never writes a space.
- **The conflict-aware store** (`Store`, store/store.go and store/error.go).
  It is a class whose field is a map from the ID's 16 bytes to the latest
  Resource.
  - Save rejects the zero ID and stale writes, and otherwise overwrites.
  - Get returns the zero Resource for a missing key.
  - A lemma shows that over any sequence of Saves the stored record is the
    latest one offered.
- **Error classification through cause chains** (`Errors`, `Store`, `Rest`,
  `Server`). This covers ConflictError, ZeroValueError, ContentTypeError and
  the two ErrorCode functions. Of these, rest's errorCode unwraps the error
  and server's ErrorCode does not.
- **The rest package's decoders** (`Rest`, rest/codex.go).
  - The media-type gate of the JSON and text decoders, over a model of
    mime.ParseMediaType's media-type part.
  - MultiDecoder's ordered fallback, as a loop proved against the position of
    the first decisive decoder.
- **The legacy resource package** (`Legacy`, resource/resource.go).
  - A uint64 ID written as 16 lower-case hex digits in the text form and as
    unpadded upper-case hex in JSON.
  - The ID handling of UnmarshalJSON.
- **The server helpers** (`Server`, server/current.go and server/error.go).
  - idsFromPath, as a loop over the path's segments.
  - The Accept-header encoder choice and the line-per-resource text encoder.
  - The srvError type, its text and its code.

`Texts` holds the library behaviour these files rely on:
- encoding/hex;
- strconv.FormatUint and ParseUint in base 16, including its syntax and
  range errors;
- zero-padded decimal codes (`%03d`);
- bytes.Split and bytes.Join;
- %q quoting for printable text.

`Base` holds a byte type, `Option`, and small sequence lemmas.

## Model

| member | source | states |
|---|---|---|
| Errors.Wrap | store/store.go:61 | errors.Wrap of nil is nil and of an error is an error, so a successful Save returns nil |
| Errors.Cause | errors.go:23 | the root cause is never itself a wrapper |
| Errors.CauseOfWrapAll | errors.go:23-25 | wrapping any number of times keeps the root cause |
| Errors.ConflictError | errors.go:16-27 | nil is not a conflict; otherwise the answer is true iff the root cause is a dataError with `old` set; when the outer error has Conflict() it is that dataError |
| Errors.ConflictThroughWraps | errors.go:23-25 | a conflict, or its absence, is still detected through any number of errors.Wrap |
| Ids.NewID | resource/id.go:18-26 | byte 6 gets high nibble 4 and keeps its low nibble; byte 8 gets top bits 10 and keeps its low six bits; every other byte is the random input's |
| Ids.VersionMask | resource/id.go:23 | the mask expression on byte 6 equals the arithmetic form NewID is written in |
| Ids.VariantMask | resource/id.go:24 | the mask expression on byte 8 equals the arithmetic form NewID is written in |
| Ids.UnmarshalBinary | resource/id.go:35-41 | succeeds iff the input has 16 bytes, and then the ID is exactly the input |
| Ids.MarshalBinary | resource/id.go:29-41 | the binary form has 16 bytes and UnmarshalBinary reads it back as the same ID |
| Ids.MarshalText | resource/id.go:45-59 | the text form is always 36 characters long |
| Ids.MarshalTextForm | resource/id.go:45-59 | the text has '-' exactly at offsets 8, 13, 18 and 23 and lower-case hex everywhere else |
| Ids.MarshalTextLayout | resource/id.go:45-59 | the text is the 32 hex digits of the ID in groups of 8-4-4-4-12, with a hyphen before every group but the first |
| Ids.TextRoundTrip | resource/id.go:45-88 | UnmarshalText of MarshalText gives back the same ID |
| Ids.AcceptedIsLayout | resource/id.go:61-88 | every accepted text is 32 hex digits in the five groups, with at most one '-' before each group, and decodes to those digits |
| Ids.LayoutAccepted | resource/id.go:73-85 | every such layout is accepted, and any text left after it is rejected as too long |
| Ids.ParseText | resource/id.go:65-88 | the too-short error is returned exactly for texts under 32 characters; an accepted text is one the group scan decodes in full with nothing left over |
| Ids.ParseTextErrors | resource/id.go:65-88 | a text shorter than 32 is too short; any other rejection is a bad hex group or trailing text, never a wrong byte count |
| Ids.UnmarshalText | resource/id.go:65-88 | on success the receiver becomes the decoded ID; on any error the receiver is unchanged and the error is the decoder's |
| Ids.DecodeGroups | resource/id.go:70-85 | the loop over the group sizes, filling a 16-byte buffer, gives exactly the five-group decoding, and 16 bytes on success |
| Ids.ReadGroup | resource/id.go:74-81 | one turn of the loop skips one '-', decodes the group into the buffer at the current offset, and matches one group of the decoding |
| Statuses.Word | status.go:25-28 | the slice of the packed word text between consecutive offsets is the Status's word |
| Statuses.UnmarshalBinary | status.go:36-46 | succeeds iff there is exactly one byte and it is at most 2, and then the Status is that byte; one byte out of range is an out-of-range error, any other length is not |
| Statuses.MarshalBinary | status.go:31-46 | the binary form is the single raw byte for every Status, in range or not; UnmarshalBinary reads it back for in-range values and gives the out-of-range error otherwise |
| Statuses.OutOfRangeCases | status.go:104-112 | IsOutOfRange holds for the out-of-range error, not for nil or a statusError with the flag off, and not for a wrapped out-of-range error, since it does not unwrap |
| Statuses.MarshalText | status.go:50-55 | succeeds iff the Status is at most Occupied and gives its word; the error is one for which IsOutOfRange holds |
| Statuses.String | status.go:83-89 | the text form for an in-range Status and "free" for every other |
| Statuses.ParseText | status.go:60-79 | an accepted text is the Status's digit or an EqualFold match of its word; the error is the empty-text one for "" and "not a valid status" otherwise |
| Statuses.UnmarshalText | status.go:60-79 | the loop over digits and words gives the parse result, and leaves the receiver unchanged on error |
| Statuses.WordIsLower | status.go:25 | the words are lower-case letters without spaces |
| Statuses.TextRoundTrip | status.go:50-79 | every in-range Status reads back from its text |
| Statuses.DigitsAccepted | status.go:64-71 | "0", "1" and "2" read as Free, Busy and Occupied |
| Statuses.CaseInsensitive | status.go:72-77 | any case-folding of a word reads as its Status |
| Statuses.ExtensionRejected | status.go:72-78 | a word with anything appended, such as "freedom", is rejected |
| Since.MarshalText | resource.go:58-62 | the text of an instant is non-empty and holds only digits and '-', hence no space |
| Since.UnmarshalText | resource.go:92-94 | an accepted text is non-empty and has no space |
| Since.TextRoundTrip | resource.go:58-62 | every instant reads back from its text |
| Resources.TextOf | resource.go:41-70 | succeeds iff the Status is in range; the 36-character text of the ID comes first, then a space |
| Resources.MarshalText | resource.go:41-70 | the append-by-append buffer equals the text form, and an error yields no bytes |
| Resources.String | resource.go:27-33 | the text form, or "" exactly when the Status is out of range |
| Resources.ParseText | resource.go:75-101 | fewer than three fields is an error; it succeeds iff the first three fields read as an ID, a Status and an instant; a success holds exactly those, an in-range Status, and the further fields joined by single spaces as its name (empty for three fields) |
| Ids.GroupErrors | resource/id.go:73-85 | the group scan fails only with the bad-hex or the too-long error |
| Resources.UnmarshalText | resource.go:75-101 | on success all four fields are replaced together; on error the receiver is untouched |
| Resources.IdTextHasNoSpace | resource.go:44-48 | the ID text has no space, so it stays one field |
| Resources.TextFields | resource.go:41-70 | splitting the line on spaces gives the ID text, the Status word, the Since text and the name's own pieces |
| Resources.TextRoundTrip | resource.go:41-101 | for an in-range Status the text form reads back as the same Resource, including names with spaces |
| Store.Key | store/store.go:31 | the key is the ID's 16 bytes and reads back as the ID |
| Store.ZeroValueError | store/error.go:46-57 | nil gives false; otherwise true iff the root cause is a dataError with `noID` set |
| Store.SaveStep | store/store.go:21-62 | Save succeeds iff there is a database, the ID is not zero and the stored record is not strictly newer; failures leave the table as it was; success stores the Resource under its key |
| Store.GetStep | store/store.go:66-100 | an error comes with the zero Resource; it happens iff there is no database or the ID is zero; the zero ID gives a zero-value error that is not a conflict; success returns the record under the ID's key, or the zero Resource when the key is absent |
| Store.Store.Save | store/store.go:21-62 | the method's new table and error are SaveStep's, and every record stays under its own ID's key |
| Store.Store.Get | store/store.go:66-100 | returns what GetStep gives: the stored Resource, or the zero Resource when the key is absent; on a valid Store a record it finds carries the requested ID |
| Store.GetReturnsLatest | store/store.go:42-99 | after any sequence of Saves offering a non-zero ID, Get succeeds, returns a Resource with that ID, and it is at least as recent as every one offered |
| Store.SaveAllKeyed | store/store.go:31-56 | any sequence of Saves keeps every record under its own ID's key |
| Store.SaveZeroID | store/store.go:28-30 | the zero ID is a zero-value error, not a conflict, and nothing is written |
| Store.SaveStale | store/store.go:42-51 | a stored record with a strictly later Since makes Save a conflict, not a zero-value error, and the table is unchanged |
| Store.SaveTouchesOnlyItsKey | store/store.go:36-60 | Save changes no key but its Resource's own |
| Store.SaveIdempotent | store/store.go:42-58 | saving the same Resource again succeeds and changes nothing, and Get returns it |
| Store.SaveKeepsKeyed | store/store.go:31-56 | Save keeps every record under the key of its own ID |
| Store.LatestWins | store/store.go:42-58 | after any sequence of Saves, the record for an ID is at least as recent as every Resource offered for it and as the one stored before, and is one of those |
| Store.LastSave | store/store.go:42-58 | one more Save keeps the ID's key and never makes its record older |
| Store.Untouched | store/store.go:56 | Saves of other IDs leave an ID's record as it was |
| Store.KeyInjective | store/store.go:31 | different IDs have different keys |
| Store.DataErrorFlags | store/error.go:28-34 | ConflictError of a dataError is its `old` flag and ZeroValueError is its `noID` flag |
| Errors.DataErrorText | store/error.go:17-26 | the text starts "bad data", and is exactly "bad data" iff neither reason is set |
| Errors.Text | rest/codex.go:112-114 | a wrapped error reads as its context, ": ", then its cause's text; a statusError starts "status error: " and a content-type error "unsupported content type: "; the same function renders dataError (store/error.go:17-26), restError (rest/error.go:18-20) and srvError (server/error.go:25-30) |
| Store.DataErrorTextsDistinct | store/error.go:17-26 | the text starts "bad data", and the four flag combinations give four different texts |
| Rest.TrimSpace | rest/codex.go:32 | the result is no longer than its input and starts and ends with no space |
| Rest.TrimSpaceCuts | rest/codex.go:32 | the result is a slice of the input with only white space before it and only white space after it |
| Rest.ToLower | rest/codex.go:32 | same length, with exactly the ASCII capitals lowered |
| Rest.BeforeSemicolon | rest/codex.go:32 | the text up to the first ';', or all of it when there is none |
| Rest.TokenLength | rest/codex.go:32 | the longest prefix of token characters |
| Rest.CheckMediaType | rest/codex.go:32 | a media type is accepted iff it is a token, optionally followed by '/' and another token that runs to the end |
| Rest.MediaType | rest/codex.go:32 | the parsed type is the trimmed, lower-cased text before ';', and it is an error iff that fails the media-type check |
| Rest.TypeSlashSubtype | rest/codex.go:34 | a lower-case type and subtype joined by '/' parse as themselves |
| Rest.KnownTypes | rest/codex.go:34-59 | "application/json" and "text/plain" parse as themselves |
| Rest.IgnoresParameters | rest/codex.go:32 | in the model's parser, which reads only the part before the first ';', anything after a ';' does not change the media type or the error |
| Rest.BlankContentType | rest/codex.go:32-33 | an empty or blank content type is the no-media-type error |
| Rest.ErrorContentType | rest/codex.go:103-105 | the error it builds is a content-type error |
| Rest.Gate | rest/codex.go:32-36 | an unparsable content type is an ordinary error; another media type is a content-type error for the parsed type; the decoder's own type hands over to the body step |
| Rest.ContentTypeError | rest/codex.go:92-99 | only an errorContentType or a wrapper of one can be a content-type error; nil is not |
| Rest.Decode | rest/codex.go:31-72 | a target that is not a TextUnmarshaler fails before the content type is read, and not with a content-type error; a JSON or text decoder succeeds only when the content type parses as its own media type; any other parsed type is a content-type error for that type |
| Rest.FirstDecisive | rest/codex.go:82-87 | every decoder before the returned position reported a content-type error, and the one at it did not |
| Rest.MultiDecode | rest/codex.go:81-89 | the loop returns the first outcome that is not a content-type error, after calling exactly that many decoders; when there is none it returns a content-type error for the requested type |
| Rest.FirstDecisiveAt | rest/codex.go:82-87 | a position is the first decisive one iff all before it are content-type errors and it is not |
| Rest.FirstSuccessWins | rest/codex.go:84-85 | a success after only content-type errors is where the loop stops |
| Rest.JSONThenText | rest/codex.go:57-72 | for a text/plain body a JSON decoder hands over to the text decoder, whose read or unmarshal error, wrapped, is the result |
| Rest.ContentTypeThroughWraps | rest/codex.go:92-99 | ContentTypeError looks through any number of errors.Wrap |
| Rest.ErrorCode | rest/error.go:26-34 | the code of a root-cause restError, and 500 whenever the root cause is not a restError, nil included |
| Rest.ErrorCodeThroughWraps | rest/error.go:26-34 | errorCode looks through any number of wraps; a wrapped restError keeps its code; any other root cause gives 500 |
| Rest.RestErrorText | rest/error.go:18-20 | the text is the code in at least three digits that read back as the code, a space, then the inner error |
| Legacy.IdText | resource/resource.go:46-48 | the ID field is 16 lower-case hex digits whose value is the ID |
| Legacy.StatusText | resource/resource.go:58-61 | the Status word for 0, 1 and 2, an out-of-range error otherwise |
| Legacy.TextOf | resource/resource.go:42-90 | succeeds iff the Status is valid; the ID field and a space come first, and a space and the name come last |
| Legacy.MarshalText | resource/resource.go:42-90 | the buffer writes give the text form, and a Status error yields no bytes |
| Legacy.String | resource/resource.go:28-34 | the text form, or "" exactly when MarshalText fails |
| Legacy.TextFields | resource/resource.go:45-87 | the fields split back in order: the ID as hex, the Status word, the Since text and the name |
| Legacy.TrailingSpace | resource/resource.go:78-86 | an empty name still leaves the space after Since at the end |
| Legacy.JsonId | resource/resource.go:102 | the JSON id has 1 to 16 hex digits and parses back as the ID |
| Legacy.DecodeJson | resource/resource.go:125-136 | an empty id stands for 0; otherwise the id must parse as base-16 uint64; a failure is strconv's error; success sets all four fields |
| Legacy.UnmarshalJSON | resource/resource.go:125-136 | on a parse failure the receiver keeps all its fields; otherwise it takes the decoded ones |
| Legacy.JsonRoundTrip | resource/resource.go:102-132 | every Resource reads back from the id MarshalJSON writes for it |
| Legacy.IdFormsAgree | resource/resource.go:46-102 | the padded text ID and the unpadded JSON ID denote the same number and differ below 16^15 |
| Server.Errf | server/error.go:17-30 | the error's code is the given one, and its text is code, message and cause in the "%03d: %s: %v" shape, or without the cause when there is none |
| Server.ErrorCode | server/error.go:40-46 | the code of a srvError itself, and 500 for nil and every other error |
| Server.WrappedCodeIsLost | server/error.go:40-46 | ErrorCode does not unwrap, so a wrapped srvError reports 500 |
| Server.ServerErrorText | server/error.go:25-30 | the text starts with the code in at least three digits that read back as the code, then ": " |
| Server.ZeroCodeText | server/error.go:27-29 | code 0 is written "000" |
| Server.NestedServerErrorText | server/error.go:25-28 | a srvError caused by another one renders both, outer first, in the same format |
| Server.NonEmpty | server/current.go:69-72 | the kept segments are all non-empty and no more than the segments |
| Server.PathError | server/current.go:75 | the text starts "Error parsing ids, " and ends with strconv's error text for the segment |
| Server.IdsFromPath | server/current.go:66-80 | one ID per non-empty segment in path order, each the segment's base-16 value; the first segment that does not parse ends the loop with the path error, returned with the IDs before it |
| Server.RootPath | server/current.go:68-72 | "/" holds no IDs |
| Server.TrailingSlash | server/current.go:68-72 | a trailing slash changes nothing |
| Server.OneIdPath | server/current.go:73 | a single hex segment, in either case, gives exactly its value |
| Server.Encoder | server/current.go:96-105 | JSON iff the Accept value is exactly "application/json" |
| Server.Lines | server/current.go:86-94 | no output for no Resources; otherwise at least one character per Resource, ending in a newline |
| Server.EncodeText | server/current.go:86-94 | the output is each Resource's String and a newline, in input order |
| Server.LinesSplit | server/current.go:86-94 | when no name holds a newline, splitting the output on newlines gives back each String in order |
| Server.StringHasNoNewline | resource/resource.go:42-90 | a Resource's String has a newline only if its name has one |
| Texts.DecodeEncodeHex | resource/id.go:48-56 | hex decoding undoes hex encoding |
| Texts.ParseUint64Hex | server/current.go:73 | defined iff the text is non-empty, all hex and below 2^64, and then it is the text's value |
| Texts.HexFaultAgrees | resource/resource.go:128 | strconv's digit loop fails iff the parse is undefined; a syntax fault means empty or not hex, and a value too large is a range fault |
| Texts.ScanHexAgrees | resource/resource.go:128 | the left-to-right digit loop succeeds iff the rest is hex and the value stays below 2^64 |
| Texts.FormatHexParses | resource/resource.go:47 | FormatUint in base 16 parses back to the number |
| Texts.FormatCodeDigits | rest/error.go:19 | %03d gives at least three decimal digits whose value is the number |
| Texts.JoinSplit | resource.go:76-96 | joining the pieces of a split with the separator gives back the text |
| Texts.SplitAppend | resource.go:76 | splitting a text with a separator between two parts gives the pieces of each part |

## Left out

- A nil `*Store` receiver. The model's Store always exists; a Store without a database is modelled, and both Save and Get then fail without a change.
- Bolt, its transactions and bucket creation, and concurrency. One method call is one transaction. The table stores the Resource itself, because the Resource's binary form (MarshalBinary and UnmarshalBinary of resource.go) is not part of this model.
- RFC 3339 time text and time zones. `Since` is an integer instant, and its text is a signed decimal that round-trips and has no space. time.Time's parse errors are reduced to a `None`.
- JSON encoding and decoding themselves, and encode_json. Of MarshalJSON and UnmarshalJSON only the ID handling is modelled, and the decoded members are parameters.
- The `%+v` rendering of pkg/errors stack traces. An error's text is its `%v` text.
- mime.ParseMediaType's parameter parsing and its errors. Only the media type before ';' is modelled, and its case mapping covers ASCII only.
- Rest.MediaType, Rest.IgnoresParameters: Go's mime.ParseMediaType also fails on a malformed or duplicate parameter, such as `JSONType + "; =x"`; the decoder then returns a "parsing content type" error, which is not a content-type error, so MultiDecoder stops there. The model accepts such a content type by its media type alone, so neither member promises Go's result for parameters.
- Ids.ParseText: the length test counts characters, while Go counts the bytes of the UTF-8 text; a text of 16 'é' is too short in the model but 32 bytes long in Go (which then rejects it as bad hex). Texts that are not valid UTF-8 cannot be written as a Dafny string and are not modelled.
- Ids.ParseTextErrors: the bad-hex and too-long errors keep only their fixed messages ("decoding hex into uuid", "too long for uuid"); the `%+v` detail Go appends at resource/id.go:78 and resource/id.go:84 is dropped.
- Reading the request body, io.LimitReader, and writer errors in encode_text. These are I/O; a read or unmarshal outcome is a parameter of the text decoder.
- Rest.Decode: the JSON and text body steps are outcomes given as parameters, not json.Decoder or the target's UnmarshalText.
- Texts.Quote: does not escape control or non-printable characters.
- Ids.ParseGroups: when fewer characters remain than a group needs, Go's `txt[0:n]` at resource/id.go:77 reads past the slice's length into its capacity, and panics once it passes the capacity (for example "-" followed by 31 hex digits); `txt = txt[n:]` at resource/id.go:82 can panic the same way. The model does not model panics or the spare capacity and treats that case as a bad hex group.
- Server.Errf: the message is taken already formatted; fmt's verbs are not modelled.
- HTTP routing and handlers (ServeHTTP, getResource, rest.go and codec.go's content sniffing).
- The legacy resource/status.go declares only the Status constants. Its MarshalText is not part of this model; the legacy text form uses the word table of status.go.
- crypto/rand in NewID. The 16 random bytes are its input, and the read error is left out.
- Resource equality: Since is an integer instant, so two Resources are equal exactly when their fields are.
- The ID text parser accepts one optional '-' before every group, the first included. This follows the code; the documentation shows hyphens only between groups.
