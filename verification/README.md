# motan-go CGI provider, modelled in Dafny

The motan-go CGI provider (`provider/cgi.go`) answers a motan RPC call by
running a FastCGI script. This project models the part of it that turns one
protocol into the other. That part has four pieces:

- **The argument encoder** `buildQueryStr`. Under "simple" serialization it
  writes the first call argument as `application/x-www-form-urlencoded`
  text: a string is escaped whole, and a `map[string]string` becomes
  `k=QueryEscape(v)` pieces joined by `&` in map iteration order. It always
  appends `&requestIdFromClient=<id>`.
- **The request built inside `CgiProvider.Call`.** This is the CGI
  environment of section 4.1 of RFC 3875:
  - `SERVER_SOFTWARE`;
  - the `REQUEST_METHOD`, `SCRIPT_FILENAME` and `DOCUMENT_ROOT` meta-variables,
    each copied from its `CGI_`-prefixed URL parameter;
  - the attachments, each under a `MOTAN_` prefix.

  Then come the method-dependent variables and body: `QUERY_STRING` for GET;
  `CONTENT_TYPE`, `CONTENT_LENGTH` and the body for POST. Last, the FastCGI
  host and port, with defaults `127.0.0.1` and `9000`.
- **`ParseFastCgiResponse`.** It cuts the script's output at the first blank
  line (`\r\n\r\n`). It reads an optional leading `Status:` line (section
  6.3.3 of RFC 3875) and collects the remaining header lines into a map with
  trimmed values.
- **The response mapping** at the end of `Call`. The request id is copied.
  A parse error becomes an exception carrying the parser's status. A parsed
  output becomes the value (the body) and the attachments (the headers).

Strings are Go strings: sequences of bytes (`GoStrings.Str`). A Go panic is
an explicit outcome (`Wrappers.GoOutcome.Panics`). `Call` recovers from every
panic and then returns nil, so a `Panics` result of `CgiProvider.Call` means
"Call returned nil". Go map iteration order is unspecified, so every loop
over a map takes an explicit key order (`QueryEncoder.IsEnumeration`), and
the properties hold for every order.

The project has these modules:

- `Wrappers`: `Option` and `GoOutcome`.
- `GoStrings`: the `strings` and `strconv` routines the provider calls
  (`SplitN`, `Split`, `HasPrefix`, `TrimSpace`, `Atoi` and `Itoa`), plus
  `Index`, at which `SplitN` cuts, and `Join`, which the provider never calls
  and which serves only to state the other routines' contracts.
- `UrlEscape`: `url.QueryEscape`, plus the form decoding a CGI script
  applies to what it receives.
- `QueryEncoder`: `buildQueryStr`.
- `FastCgiResponse`: `ParseFastCgiResponse`.
- `CgiProvider`: the environment, payload, target, response mapping and
  `Call` itself.

Each operation is tied to a partner property:

- The encoder's output is read back with form decoding and gives the
  argument and request id.
- The parser is characterised without reference to its loop: the header
  map is described by the last line declaring each name.
- The parser undoes the rendering of any well-formed script output.
- The environment is described as a map independent of the copying loops.

## Model

| member | source | states |
|---|---|---|
| GoStrings.SplitN | provider/cgi.go:156 | at most n pieces, joined by the separator they give back the input; every piece but the last is free of the separator, and so is the last when fewer than n pieces came out; every cut is at the leftmost separator of the text still to split |
| GoStrings.Split | provider/cgi.go:162 | at least one piece; joined by the separator the pieces give back the input; no piece contains the separator |
| GoStrings.SplitJoin | provider/cgi.go:162 | splitting lines joined by a separator whose first byte none of them contains gives the lines back |
| GoStrings.SplitNHead | provider/cgi.go:168 | with room for two pieces or more, SplitN's first piece is the text before the first separator |
| GoStrings.Index | provider/cgi.go:156 | the result is -1 or a position where the separator occurs, and no earlier position holds it |
| GoStrings.IndexFindsContained | provider/cgi.go:156-158 | Index finds a position exactly when the separator occurs somewhere |
| GoStrings.TrimSpace | provider/cgi.go:179 | the result starts and ends with no white space, and it is the input with only white space removed before and after it |
| GoStrings.TrimSpacePadded | provider/cgi.go:179 | trimming a trimmed text padded with white space on both sides gives the text back |
| GoStrings.Itoa | provider/cgi.go:116 | the text is a canonical decimal (digits, no leading zero, a minus only before a non-zero magnitude) and Atoi reads it back as the same integer |
| GoStrings.ItoaAtoi | provider/cgi.go:125 | every canonical decimal parses, and printing the parsed integer gives the same text back |
| GoStrings.Atoi | provider/cgi.go:169 | a value comes out exactly for a non-empty run of digits, optionally after one sign byte; the value is the digits read positionally in base ten, negated after a minus |
| UrlEscape.QueryEscape | provider/cgi.go:68 | every byte written is unreserved, `+` or `%`, and the output is one to three times as long as the input |
| UrlEscape.EscapeConcat | provider/cgi.go:61 | escaping works byte by byte: the escape of a concatenation is the concatenation of the escapes |
| UrlEscape.EscapeOneByte | provider/cgi.go:65 | one byte escapes to itself when unreserved, to `+` when a space, and otherwise to `%` and two upper-case hex digits whose value is the byte |
| UrlEscape.UnescapeEscape | provider/cgi.go:68 | form unescaping undoes QueryEscape for every byte string |
| QueryEncoder.EncodingEndsWithRequestId | provider/cgi.go:46-76 | every returned encoding ends with `&requestIdFromClient=<id>`, and its error flag is the deserialization outcome, also when deserialization fails |
| QueryEncoder.EncoderPanicsOnNil | provider/cgi.go:51-55 | the encoder panics exactly when deserialization succeeded, there is an argument, serialization is "simple" and the first argument is nil |
| QueryEncoder.OnlyFirstArgument | provider/cgi.go:52-53 | dropping every argument after the first changes nothing |
| QueryEncoder.BareEncoding | provider/cgi.go:47-75 | the encoding is exactly the request-id field, if and only if deserialization failed, there are no arguments, serialization is not "simple", or the first argument is of another type, an empty map or the empty string |
| QueryEncoder.RangeEncodeJoins | provider/cgi.go:58-66 | the range loop writes the `key=escaped value` pieces joined by single `&`s in iteration order; an empty map writes nothing |
| QueryEncoder.StringArgumentEncoding | provider/cgi.go:67-68 | a string argument is written as its escaped form followed by the request-id field, and the escaped form unescapes to the string |
| QueryEncoder.MapArgumentEncoding | provider/cgi.go:56-66 | a map argument is written as its pieces in iteration order joined by `&`, then the request-id field |
| QueryEncoder.MapArgumentDecodes | provider/cgi.go:56-66 | for every iteration order, and for keys that form decoding reads back unchanged, decoding the encoding of a map gives every entry of the map in that order, then the request id |
| QueryEncoder.PairsAreEntries | provider/cgi.go:59 | whatever the iteration order, the pairs the loop visits are exactly the entries of the map |
| QueryEncoder.StringArgumentDecodes | provider/cgi.go:67-68 | decoding the encoding of a string gives the string as a lone field name (nothing for the empty string), then the request id |
| FastCgiResponse.UnparsableWithoutBlankLine | provider/cgi.go:156-160 | the result is the 502 "Cannot parse FastCGI Response" error if and only if the output holds no blank line; with one, it is never that error |
| FastCgiResponse.ParseFastCgiResponseContents | provider/cgi.go:153-189 | with a blank line: the header block is the text before the first one and holds none; the body is everything after it, verbatim; the parse panics exactly when the first line starts with `Status:` and has no space; the status and header map are as the two rows below describe |
| FastCgiResponse.StatusOfLine | provider/cgi.go:165-170 | the status is 200 unless the first line starts with `Status:`; then it is the decimal value of the field after the first space, up to the next space, 0 when that is not a decimal; a `Status:` line without a space panics |
| FastCgiResponse.HeaderMapContents | provider/cgi.go:172-186 | a name is in the header map exactly when it is not `Status` and some line declares it before its first colon; its value is the trimmed text after the first colon of the last line declaring it |
| FastCgiResponse.StatusWithoutSpacePanics | provider/cgi.go:167-169 | output whose first line is `Status:` followed by space-free text (such as `Status:404`) panics |
| FastCgiResponse.UnparsableStatusIsZero | provider/cgi.go:167-169 | a `Status:` line whose status field is not a decimal (the empty field of `Status: ` or of `Status:  404`) gives status 0, and the line adds no header |
| FastCgiResponse.LaterDuplicateWins | provider/cgi.go:172-186 | of two lines declaring the same name, the value of the later one is kept, and the status stays 200 |
| FastCgiResponse.FirstBlankLineAfterBlock | provider/cgi.go:156 | non-empty lines without carriage returns, joined by line breaks, hold no blank line, so the first blank line is the one after the block |
| FastCgiResponse.RenderedHeaders | provider/cgi.go:172-186 | the header loop over a rendered header block gives the map of its fields; the status line adds nothing |
| FastCgiResponse.ParseRender | provider/cgi.go:153-189 | well-formed script output (optional status line, distinct trimmed fields, body) parses back to its status (200 without a status line), the map of its fields and its body |
| CgiProvider.EnvironmentContents | provider/cgi.go:87-105 | the environment holds `SERVER_SOFTWARE="Motan / CGI"`, each needed meta-variable exactly when its `CGI_` parameter is present and with its value, `MOTAN_k` with value v exactly for every attachment k ↦ v, and nothing else |
| CgiProvider.AttachmentsKeepFixedKeys | provider/cgi.go:103-105 | whatever the attachments, every key the provider sets itself has the same presence and value as without attachments |
| CgiProvider.MethodKeysAbsent | provider/cgi.go:87-107 | before the method is looked at, `QUERY_STRING`, `CONTENT_TYPE` and `CONTENT_LENGTH` are unset, and the method read is the `CGI_REQUEST_METHOD` parameter, "" when it is missing |
| CgiProvider.GetPayload | provider/cgi.go:107-110 | for GET, QUERY_STRING becomes the encoding when the encoder reports no error, otherwise the environment is unchanged; the body is empty; no other key changes |
| CgiProvider.PostPayload | provider/cgi.go:111-117 | for POST, the body is the encoding (empty on encoder error), CONTENT_TYPE is the form type, CONTENT_LENGTH is the canonical decimal `strconv.Itoa` writes for the body's byte length, which Atoi reads back as that length, and no other key changes |
| CgiProvider.OtherMethodPayload | provider/cgi.go:107-117 | any other or absent method leaves the environment as it is, with an empty body |
| CgiProvider.PayloadPanics | provider/cgi.go:107-117 | building the payload panics exactly when the method is GET or POST and the encoder panics |
| CgiProvider.TargetResolution | provider/cgi.go:119-126 | the host is CGI_HOST or 127.0.0.1; the port is 9000 without CGI_PORT, its decimal value when it reads as one, and 0 when it does not |
| CgiProvider.PortRoundTrip | provider/cgi.go:124-126 | a port written in decimal as CGI_PORT is the port used |
| CgiProvider.ResponseMapping | provider/cgi.go:136-149 | the request id is copied; exactly one of value and exception is set; an error carries the parser's status as code and type, with its message and no attachment; a success carries the body and every header |
| CgiProvider.PreparePanics | provider/cgi.go:87-117 | preparing the request panics exactly when the method is GET or POST and the encoder panics on a nil first argument |
| CgiProvider.PreparedDispatch | provider/cgi.go:87-126 | the prepared request goes to the resolved target; only the method-dependent keys differ from the environment; under GET, QUERY_STRING is present exactly when deserialization succeeded and then holds the encoder's text, with an empty body; under POST, the body is the encoder's text, or empty when it reported an error, and CONTENT_LENGTH is Itoa of the body's length; the query or body ends with the request-id field |
| CgiProvider.GetCarriesMapArgument | provider/cgi.go:107-110 | for GET with a map argument and keys that decode unchanged, form-decoding QUERY_STRING gives the map's entries in iteration order, then the request id |
| CgiProvider.PostCarriesMapArgument | provider/cgi.go:111-117 | for POST with a map argument and keys that decode unchanged, form-decoding the body gives the map's entries in iteration order, then the request id |
| CgiProvider.CallResponseShape | provider/cgi.go:136-150 | any response Call returns carries the request id and exactly one of value and exception |
| CgiProvider.CallReturnsScriptOutput | provider/cgi.go:131-150 | when the script writes well-formed output, Call's response holds the request id, the body as value, no exception, and the fields as attachments |
| CgiProvider.CallReportsUnparsableOutput | provider/cgi.go:136-144 | when the script's output holds no blank line, Call's response is the 502 exception with no value and no attachment |

## Left out

- The FastCGI transport, `cgi.New` and `ccgi.Request` (provider/cgi.go:127-134). It is a network client. `Call` takes it as the `exchange` parameter: a function from the prepared request to the script's output or a panic. The errors it logs are not modelled, because `Call` ignores them.
- The `recover` barrier (provider/cgi.go:80-85). Every panic is a `Panics` outcome, which stands for `Call` returning nil.
- `ProcessTime` and `time.Now` (provider/cgi.go:86, 139). They read the wall clock; the response has no processing-time field.
- Logging through `vlog`. It has no effect on results.
- `ProcessDeserializable` (provider/cgi.go:48). It is a foreign call, and its outcome is the `deserializeOk` input.
- The reflection-based type switch (provider/cgi.go:53-55). It is replaced by the `Argument` variant. A nil first argument is its own case, `NilArg`: `reflect.ValueOf(nil).Type()` panics on the zero Value.
- The serialize package is not part of this model. `motanSer.Simple` is taken to be the name "simple".
- `core.MotanResponse` is not part of this model. `SetAttachment` is taken to store the pair in the attachment map, replacing an earlier value.
- The lifecycle and accessor methods (provider/cgi.go:36-44, 191-213). They hold no logic.
- A provider whose `url` is nil. `Call` reads `c.url.Parameters` (provider/cgi.go:96), so it panics and returns nil; the model takes the parameters as a plain map and cannot represent a missing URL.
- GoStrings.Atoi: does not model `strconv.Atoi`'s clamping. For a decimal beyond the 64-bit range Go returns the nearest 64-bit bound with a range error, and the source keeps that bound. The model returns the decimal's exact value.
- GoStrings.TrimSpace: trims only the ASCII white-space bytes. Go also trims Unicode white space such as U+0085 and U+00A0 written in UTF-8; the model does not.
- GoStrings.SplitN: defined only for n >= 1 and a non-empty separator, the only ways the source calls it.
- QueryEncoder.MapArgumentDecodes: holds only for keys without `&`, `=`, `%` or `+`. The encoder writes map keys unescaped, so any other key does not read back as itself.
