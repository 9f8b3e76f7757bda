/** CgiProvider.Call: how the provider turns a motan request into a FastCGI
    request (the CGI meta-variables of section 4.1 of RFC 3875 and a body),
    where it sends it, and how the responder's output becomes the motan
    response. */
module CgiProvider {
  import opened Wrappers
  import opened GoStrings
  import opened UrlEscape
  import opened QueryEncoder
  import opened FastCgiResponse

  const CGIKeyPrefix: Str := "CGI_"
  const DefaultCGIHost: Str := "127.0.0.1"
  const DefaultCGIPort: int := 9000
  const HTTPMethodPOST: Str := "POST"
  const HTTPMethodGET: Str := "GET"

  const ServerSoftware: Str := "SERVER_SOFTWARE"
  const RequestMethod: Str := "REQUEST_METHOD"
  const ScriptFilename: Str := "SCRIPT_FILENAME"
  const DocumentRoot: Str := "DOCUMENT_ROOT"
  const QueryString: Str := "QUERY_STRING"
  const ContentType: Str := "CONTENT_TYPE"
  const ContentLength: Str := "CONTENT_LENGTH"
  const FormContentType: Str := "application/x-www-form-urlencoded"
  const AttachmentPrefix: Str := "MOTAN_"
  const HostKey: Str := "CGI_HOST"
  const PortKey: Str := "CGI_PORT"

  /** The fixed part of every environment. */
  const ServerEnvironment: map<Str, Str> := map[ServerSoftware := "Motan / CGI"]

  /** The meta-variables copied from `CGI_`-prefixed URL parameters. */
  const NeededCGIEnv: seq<Str> := [RequestMethod, ScriptFilename, DocumentRoot]

  /** What the provider reads of a motan request. */
  datatype Request = Request(
    requestId: RequestId,
    arguments: seq<Argument>,
    deserializeOk: bool,         // ProcessDeserializable returned nil
    attachments: map<Str, Str>)

  /** Where the FastCGI request goes. */
  datatype Target = Target(host: Str, port: int)

  /** The environment and body handed to the FastCGI client. */
  datatype Payload = Payload(env: map<Str, Str>, body: Str)

  /** One FastCGI request: destination, environment and body. */
  datatype Dispatch = Dispatch(target: Target, env: map<Str, Str>, body: Str)

  datatype Exception = Exception(errCode: int, errMsg: Str, errType: int)

  /** The motan response: `value` and `exception` are nil when None. */
  datatype Response = Response(
    requestId: RequestId,
    value: Option<Str>,
    exception: Option<Exception>,
    attachment: map<Str, Str>)

  // ---------------------------------------------------------------------
  // Environment

  /** The loop over NeededCGIEnv: each name whose `CGI_` parameter is
      present is set to that parameter's value. */
  function CopyNeeded(params: map<Str, Str>, env: map<Str, Str>, names: seq<Str>): map<Str, Str>
    decreases |names|
  {
    if |names| == 0 then env
    else
      var cgiKey := CGIKeyPrefix + names[0];
      CopyNeeded(params, if cgiKey in params then env[names[0] := params[cgiKey]] else env, names[1..])
  }

  /** The loop over the attachments, visiting their keys in `order`: each
      is stored under its `MOTAN_`-prefixed name. */
  function CopyAttachments(env: map<Str, Str>, attachments: map<Str, Str>, order: seq<Str>): map<Str, Str>
    requires forall i :: 0 <= i < |order| ==> order[i] in attachments
    decreases |order|
  {
    if |order| == 0 then env
    else CopyAttachments(env[AttachmentPrefix + order[0] := attachments[order[0]]], attachments, order[1..])
  }

  /** The environment before the method-dependent variables are added. */
  function BuildEnvironment(params: map<Str, Str>, attachments: map<Str, Str>, order: seq<Str>): map<Str, Str>
    requires IsEnumeration(attachments, order)
  {
    CopyAttachments(CopyNeeded(params, ServerEnvironment, NeededCGIEnv), attachments, order)
  }

  /** The copied meta-variables, described as a map. */
  function NeededEntries(params: map<Str, Str>, names: seq<Str>): map<Str, Str> {
    map name | name in names && CGIKeyPrefix + name in params :: params[CGIKeyPrefix + name]
  }

  lemma PrefixInjective(p: Str, a: Str, b: Str)
    ensures p + a == p + b ==> a == b
  {
    if p + a == p + b {
      assert a == (p + a)[|p|..];
      assert b == (p + b)[|p|..];
    }
  }

  /** The attachments of the keys in `keys`, under their prefixed names. */
  function PrefixedOf(attachments: map<Str, Str>, keys: set<Str>): map<Str, Str>
    requires keys <= attachments.Keys
  {
    assert forall a, b :: AttachmentPrefix + a == AttachmentPrefix + b ==> a == b by {
      forall a, b ensures AttachmentPrefix + a == AttachmentPrefix + b ==> a == b {
        PrefixInjective(AttachmentPrefix, a, b);
      }
    }
    map k | k in keys :: AttachmentPrefix + k := attachments[k]
  }

  /** The copied meta-variables of a list, from those of its tail. */
  lemma NeededEntriesCons(params: map<Str, Str>, names: seq<Str>)
    requires |names| > 0
    ensures var name := names[0];
            var rest := NeededEntries(params, names[1..]);
            && (name in rest ==> rest[name] == params[CGIKeyPrefix + name])
            && NeededEntries(params, names) ==
               if CGIKeyPrefix + name in params then rest[name := params[CGIKeyPrefix + name]] else rest
  {
    assert forall n :: n in names <==> n == names[0] || n in names[1..];
  }

  /** The NeededCGIEnv loop adds exactly the copied meta-variables. */
  lemma {:induction false} CopyNeededAdds(params: map<Str, Str>, env: map<Str, Str>, names: seq<Str>)
    ensures CopyNeeded(params, env, names) == env + NeededEntries(params, names)
    decreases |names|
  {
    if |names| > 0 {
      var name := names[0];
      var cgiKey := CGIKeyPrefix + name;
      var next := if cgiKey in params then env[name := params[cgiKey]] else env;
      CopyNeededAdds(params, next, names[1..]);
      NeededEntriesCons(params, names);
      if cgiKey in params {
        UpdateBeforeUnion(env, name, params[cgiKey], NeededEntries(params, names[1..]));
      }
    } else {
      assert NeededEntries(params, names) == map[];
    }
  }

  /** Writing a key before an override that already agrees on it is the
      same as writing it into the override. */
  lemma UpdateBeforeUnion<K, V>(env: map<K, V>, key: K, v: V, over: map<K, V>)
    requires key in over ==> over[key] == v
    ensures env[key := v] + over == env + over[key := v]
  { }

  /** Adding one key to the visited set adds its prefixed attachment. */
  lemma PrefixedOfInsert(attachments: map<Str, Str>, keys: set<Str>, k0: Str)
    requires keys <= attachments.Keys && k0 in attachments
    ensures var before := PrefixedOf(attachments, keys);
            && (AttachmentPrefix + k0 in before ==> before[AttachmentPrefix + k0] == attachments[k0])
            && PrefixedOf(attachments, keys + {k0}) == before[AttachmentPrefix + k0 := attachments[k0]]
  {
    forall a, b ensures AttachmentPrefix + a == AttachmentPrefix + b ==> a == b {
      PrefixInjective(AttachmentPrefix, a, b);
    }
  }

  /** The attachment loop adds every visited attachment under its prefixed
      name, whatever the order of the visit. */
  lemma {:induction false} CopyAttachmentsAdds(env: map<Str, Str>, attachments: map<Str, Str>, order: seq<Str>)
    requires forall i :: 0 <= i < |order| ==> order[i] in attachments
    ensures CopyAttachments(env, attachments, order) == env + PrefixedOf(attachments, set k | k in order)
    decreases |order|
  {
    if |order| > 0 {
      var k0 := order[0];
      var key := AttachmentPrefix + k0;
      CopyAttachmentsAdds(env[key := attachments[k0]], attachments, order[1..]);
      var rest := set k | k in order[1..];
      assert (set k | k in order) == rest + {k0};
      PrefixedOfInsert(attachments, rest, k0);
      UpdateBeforeUnion(env, key, attachments[k0], PrefixedOf(attachments, rest));
    } else {
      assert (set k | k in order) == {};
    }
  }

  /** The keys the provider itself sets. */
  predicate IsFixedKey(key: Str) {
    key in {ServerSoftware, RequestMethod, ScriptFilename, DocumentRoot, QueryString, ContentType, ContentLength}
  }

  /** No prefixed attachment name is one of the provider's own keys: they
      all start with a letter other than `M`. */
  lemma PrefixedKeyIsNotFixed(k: Str)
    ensures !IsFixedKey(AttachmentPrefix + k)
  {
    var key := AttachmentPrefix + k;
    assert key[0] == 'M';
  }

  lemma ServerSoftwareIsNotNeeded()
    ensures ServerSoftware !in NeededCGIEnv
    ensures forall key :: key in NeededCGIEnv || key == ServerSoftware ==> IsFixedKey(key)
  {
    assert ServerSoftware[0] == 'S';
  }

  /** The environment is the fixed part, then the copied meta-variables,
      then the prefixed attachments. */
  lemma EnvironmentUnion(params: map<Str, Str>, attachments: map<Str, Str>, order: seq<Str>)
    requires IsEnumeration(attachments, order)
    ensures BuildEnvironment(params, attachments, order) ==
            ServerEnvironment + NeededEntries(params, NeededCGIEnv) + PrefixedOf(attachments, attachments.Keys)
  {
    assert (set k | k in order) == attachments.Keys;
    AttachmentsAfter(params, ServerEnvironment, NeededCGIEnv, attachments, order);
  }

  lemma AttachmentsAfter(params: map<Str, Str>, env: map<Str, Str>, names: seq<Str>,
                         attachments: map<Str, Str>, order: seq<Str>)
    requires forall i :: 0 <= i < |order| ==> order[i] in attachments
    ensures CopyAttachments(CopyNeeded(params, env, names), attachments, order) ==
            env + NeededEntries(params, names) + PrefixedOf(attachments, set k | k in order)
  {
    CopyNeededAdds(params, env, names);
    CopyAttachmentsAdds(env + NeededEntries(params, names), attachments, order);
  }

  /** The fixed part and the copied meta-variables. */
  lemma BaseEnvironment(params: map<Str, Str>)
    ensures var base := ServerEnvironment + NeededEntries(params, NeededCGIEnv);
            && ServerSoftware in base && base[ServerSoftware] == "Motan / CGI"
            && (forall name :: name in NeededCGIEnv ==>
                  (name in base <==> CGIKeyPrefix + name in params)
                  && (name in base ==> base[name] == params[CGIKeyPrefix + name]))
            && (forall key :: key in base ==> key == ServerSoftware || key in NeededCGIEnv)
  {
    ServerSoftwareIsNotNeeded();
  }

  /** The prefixed attachments sit beside the provider's own keys. */
  lemma PrefixedBeside(base: map<Str, Str>, attachments: map<Str, Str>)
    requires forall key :: key in base ==> IsFixedKey(key)
    ensures var env := base + PrefixedOf(attachments, attachments.Keys);
            && (forall key :: key in base ==> key in env && env[key] == base[key])
            && (forall k :: AttachmentPrefix + k in env <==> k in attachments)
            && (forall k :: k in attachments ==> env[AttachmentPrefix + k] == attachments[k])
            && (forall key :: key in env ==> key in base || exists k :: k in attachments && key == AttachmentPrefix + k)
  {
    forall a, b ensures AttachmentPrefix + a == AttachmentPrefix + b ==> a == b {
      PrefixInjective(AttachmentPrefix, a, b);
    }
    forall k ensures AttachmentPrefix + k !in base {
      PrefixedKeyIsNotFixed(k);
    }
  }

  /** The environment before the method is looked at: SERVER_SOFTWARE, each
      needed meta-variable whose `CGI_` parameter is present, and every
      attachment under its `MOTAN_` name, whatever order the attachments
      are visited in; nothing else. */
  lemma EnvironmentContents(params: map<Str, Str>, attachments: map<Str, Str>, order: seq<Str>)
    requires IsEnumeration(attachments, order)
    ensures var env := BuildEnvironment(params, attachments, order);
            && ServerSoftware in env && env[ServerSoftware] == "Motan / CGI"
            && (forall name :: name in NeededCGIEnv ==>
                  (name in env <==> CGIKeyPrefix + name in params)
                  && (name in env ==> env[name] == params[CGIKeyPrefix + name]))
            && (forall k :: AttachmentPrefix + k in env <==> k in attachments)
            && (forall k :: k in attachments ==> env[AttachmentPrefix + k] == attachments[k])
            && (forall key :: key in env ==>
                  key == ServerSoftware || key in NeededCGIEnv
                  || exists k :: k in attachments && key == AttachmentPrefix + k)
  {
    var base := ServerEnvironment + NeededEntries(params, NeededCGIEnv);
    EnvironmentUnion(params, attachments, order);
    BaseEnvironment(params);
    ServerSoftwareIsNotNeeded();
    PrefixedBeside(base, attachments);
    forall name | name in NeededCGIEnv ensures name !in base ==> name !in BuildEnvironment(params, attachments, order) {
      if k :| k in attachments && name == AttachmentPrefix + k {
        PrefixedKeyIsNotFixed(k);
      }
    }
  }

  /** Attachments never overwrite the provider's own keys: those hold what
      they would hold with no attachments at all. */
  lemma AttachmentsKeepFixedKeys(params: map<Str, Str>, attachments: map<Str, Str>, order: seq<Str>, key: Str)
    requires IsEnumeration(attachments, order) && IsFixedKey(key)
    ensures var env := BuildEnvironment(params, attachments, order);
            var bare := BuildEnvironment(params, map[], []);
            (key in env <==> key in bare) && (key in env ==> env[key] == bare[key])
  {
    EnvironmentContents(params, attachments, order);
    EnvironmentContents(params, map[], []);
    if k :| k in attachments && key == AttachmentPrefix + k {
      PrefixedKeyIsNotFixed(k);
    }
  }

  // ---------------------------------------------------------------------
  // Method-dependent payload

  /** The REQUEST_METHOD branch.  `enc` is what buildQueryStr would yield;
      it is only consulted, and so can only panic, under GET and POST.
      `env["REQUEST_METHOD"]` reads as "" when the key is missing. */
  function ApplyMethod(env: map<Str, Str>, enc: GoOutcome<Encoding>): GoOutcome<Payload> {
    var requestMethod := Param(env, RequestMethod);
    if requestMethod == HTTPMethodGET then
      match enc
      case Panics => Panics
      case Returns(e) => Returns(Payload(if e.ok then env[QueryString := e.text] else env, []))
    else if requestMethod == HTTPMethodPOST then
      match enc
      case Panics => Panics
      case Returns(e) =>
        var body := if e.ok then e.text else [];
        Returns(Payload(env[ContentType := FormContentType][ContentLength := Itoa(|body|)], body))
    else Returns(Payload(env, []))
  }

  /** `after` agrees with `before` on every key other than those in `changed`. */
  ghost predicate AgreeExcept(before: map<Str, Str>, after: map<Str, Str>, changed: set<Str>) {
    forall key :: key !in changed ==>
      (key in after <==> key in before) && (key in before ==> after[key] == before[key])
  }

  /** GET: the encoding becomes QUERY_STRING when the encoder reports no
      error, the body stays empty, nothing else changes. */
  lemma GetPayload(env: map<Str, Str>, e: Encoding)
    requires Param(env, RequestMethod) == HTTPMethodGET
    ensures ApplyMethod(env, Returns(e)).Returns?
    ensures var p := ApplyMethod(env, Returns(e)).value;
            && p.body == []
            && (e.ok ==> QueryString in p.env && p.env[QueryString] == e.text)
            && (!e.ok ==> p.env == env)
            && AgreeExcept(env, p.env, {QueryString})
  { }

  /** POST: the body is the encoding, or empty when the encoder reports an
      error; CONTENT_TYPE is the form type and CONTENT_LENGTH reads back as
      the body's byte length; nothing else changes. */
  lemma PostPayload(env: map<Str, Str>, e: Encoding)
    requires Param(env, RequestMethod) == HTTPMethodPOST
    ensures ApplyMethod(env, Returns(e)).Returns?
    ensures var p := ApplyMethod(env, Returns(e)).value;
            && p.body == (if e.ok then e.text else [])
            && ContentType in p.env && p.env[ContentType] == FormContentType
            && ContentLength in p.env && p.env[ContentLength] == Itoa(|p.body|)
            && Atoi(p.env[ContentLength]) == Some(|p.body|)
            && AgreeExcept(env, p.env, {ContentType, ContentLength})
  {
    var body := if e.ok then e.text else [];
  }

  /** Any other method, or none, leaves the environment as it is, with an
      empty body, and never runs the encoder. */
  lemma OtherMethodPayload(env: map<Str, Str>, enc: GoOutcome<Encoding>)
    requires Param(env, RequestMethod) != HTTPMethodGET && Param(env, RequestMethod) != HTTPMethodPOST
    ensures ApplyMethod(env, enc) == Returns(Payload(env, []))
  { }

  /** The payload panics exactly when GET or POST runs an encoder that panics. */
  lemma PayloadPanics(env: map<Str, Str>, enc: GoOutcome<Encoding>)
    ensures ApplyMethod(env, enc).Panics? <==>
            (Param(env, RequestMethod) == HTTPMethodGET || Param(env, RequestMethod) == HTTPMethodPOST) && enc.Panics?
  { }

  // ---------------------------------------------------------------------
  // Target

  /** CGI_HOST and CGI_PORT, with their defaults; a present CGI_PORT is
      read with Atoi and its error dropped, so an unreadable one gives 0. */
  function ResolveTarget(params: map<Str, Str>): Target {
    Target(if HostKey in params then params[HostKey] else DefaultCGIHost,
           if PortKey in params then AtoiOrZero(params[PortKey]) else DefaultCGIPort)
  }

  lemma TargetResolution(params: map<Str, Str>)
    ensures HostKey !in params ==> ResolveTarget(params).host == DefaultCGIHost
    ensures HostKey in params ==> ResolveTarget(params).host == params[HostKey]
    ensures PortKey !in params ==> ResolveTarget(params).port == DefaultCGIPort
    ensures PortKey in params && Atoi(params[PortKey]).Some? ==> ResolveTarget(params).port == Atoi(params[PortKey]).value
    ensures PortKey in params && Atoi(params[PortKey]).None? ==> ResolveTarget(params).port == 0
  { }

  /** A port written in decimal is the port used. */
  lemma PortRoundTrip(params: map<Str, Str>, port: int)
    ensures ResolveTarget(params[PortKey := Itoa(port)]).port == port
  {
  }

  // ---------------------------------------------------------------------
  // Response mapping

  /** The parser's result as a motan response. */
  function MapResponse(requestId: RequestId, parsed: ParseResult): Response {
    match parsed
    case Unparsable(status, message) => Response(requestId, None, Some(Exception(status, message, status)), map[])
    case Parsed(r) => Response(requestId, Some(r.body), None, r.headers)
  }

  /** The request id is always copied; exactly one of exception and value
      is set; an error carries the parser's status as both code and type
      and no attachment; a success carries the body and every header. */
  lemma ResponseMapping(requestId: RequestId, parsed: ParseResult)
    ensures var r := MapResponse(requestId, parsed);
            && r.requestId == requestId
            && (r.value.Some? <==> r.exception.None?)
            && (parsed.Unparsable? ==>
                  r.exception == Some(Exception(parsed.status, parsed.message, parsed.status)) && r.attachment == map[])
            && (parsed.Parsed? ==> r.value == Some(parsed.response.body) && r.attachment == parsed.response.headers)
  { }

  // ---------------------------------------------------------------------
  // Call

  /** The payload and destination Call prepares before the FastCGI exchange.
      `argumentOrder` is the iteration order of a map argument and
      `attachmentOrder` that of the attachments. */
  function Prepare(params: map<Str, Str>, req: Request, argumentOrder: seq<Str>, attachmentOrder: seq<Str>): GoOutcome<Dispatch>
    requires IsEnumeration(req.attachments, attachmentOrder)
    requires |req.arguments| > 0 && req.arguments[0].StringMapArg? ==> IsEnumeration(req.arguments[0].m, argumentOrder)
  {
    var env := BuildEnvironment(params, req.attachments, attachmentOrder);
    var enc := BuildQueryStr(req.deserializeOk, req.arguments, params, req.requestId, argumentOrder);
    match ApplyMethod(env, enc)
    case Panics => Panics
    case Returns(p) => Returns(Dispatch(ResolveTarget(params), p.env, p.body))
  }

  /** CgiProvider.Call.  `exchange` is the FastCGI client (cgi.New and
      Request), which returns the responder's output or panics.  A panic
      anywhere is caught by Call's recover and Call returns nil: Panics. */
  function Call(params: map<Str, Str>, req: Request, argumentOrder: seq<Str>, attachmentOrder: seq<Str>,
                exchange: Dispatch -> GoOutcome<Str>): GoOutcome<Response>
    requires IsEnumeration(req.attachments, attachmentOrder)
    requires |req.arguments| > 0 && req.arguments[0].StringMapArg? ==> IsEnumeration(req.arguments[0].m, argumentOrder)
  {
    match Prepare(params, req, argumentOrder, attachmentOrder)
    case Panics => Panics
    case Returns(d) =>
      match exchange(d)
      case Panics => Panics
      case Returns(content) =>
        match ParseFastCgiResponse(content)
        case Panics => Panics
        case Returns(parsed) => Returns(MapResponse(req.requestId, parsed))
  }

  /** The request method a call uses: the `CGI_REQUEST_METHOD` parameter,
      "" when it is missing. */
  function MethodOf(params: map<Str, Str>): Str {
    Param(params, CGIKeyPrefix + RequestMethod)
  }

  /** The method-dependent keys are never set before the method is looked at. */
  lemma MethodKeysAbsent(params: map<Str, Str>, attachments: map<Str, Str>, order: seq<Str>)
    requires IsEnumeration(attachments, order)
    ensures var env := BuildEnvironment(params, attachments, order);
            QueryString !in env && ContentType !in env && ContentLength !in env
            && Param(env, RequestMethod) == MethodOf(params)
  {
    EnvironmentContents(params, attachments, order);
    assert QueryString[0] == 'Q' && ContentType[0] == 'C' && ContentLength[0] == 'C';
    assert ServerSoftware[0] == 'S' && RequestMethod[0] == 'R' && ScriptFilename[0] == 'S' && DocumentRoot[0] == 'D';
    forall k ensures AttachmentPrefix + k != QueryString && AttachmentPrefix + k != ContentType
                     && AttachmentPrefix + k != ContentLength
    {
      PrefixedKeyIsNotFixed(k);
    }
    assert RequestMethod in NeededCGIEnv;
  }

  /** Preparing a call panics exactly when the method is GET or POST and the
      encoder meets a nil first argument under simple serialization. */
  lemma PreparePanics(params: map<Str, Str>, req: Request, argumentOrder: seq<Str>, attachmentOrder: seq<Str>)
    requires IsEnumeration(req.attachments, attachmentOrder)
    requires |req.arguments| > 0 && req.arguments[0].StringMapArg? ==> IsEnumeration(req.arguments[0].m, argumentOrder)
    ensures Prepare(params, req, argumentOrder, attachmentOrder).Panics? <==>
            (MethodOf(params) == HTTPMethodGET || MethodOf(params) == HTTPMethodPOST)
            && req.deserializeOk && |req.arguments| > 0
            && Param(params, SerializationKey) == Simple && req.arguments[0].NilArg?
  {
    var env := BuildEnvironment(params, req.attachments, attachmentOrder);
    var enc := BuildQueryStr(req.deserializeOk, req.arguments, params, req.requestId, argumentOrder);
    MethodKeysAbsent(params, req.attachments, attachmentOrder);
    PayloadPanics(env, enc);
    EncoderPanicsOnNil(req.deserializeOk, req.arguments, params, req.requestId, argumentOrder);
  }

  /** What a prepared call sends, by method.  GET: no body, and
      QUERY_STRING exactly when deserialization succeeded.  POST: the
      encoding as body, or nothing when deserialization failed, with
      CONTENT_LENGTH reading back as the body's length.  Otherwise the bare
      environment and no body.  Always to the resolved target; every other
      key is as the environment was built. */
  lemma PreparedDispatch(params: map<Str, Str>, req: Request, argumentOrder: seq<Str>, attachmentOrder: seq<Str>)
    requires IsEnumeration(req.attachments, attachmentOrder)
    requires |req.arguments| > 0 && req.arguments[0].StringMapArg? ==> IsEnumeration(req.arguments[0].m, argumentOrder)
    ensures var env := BuildEnvironment(params, req.attachments, attachmentOrder);
            var suffix := RequestIdSuffix(req.requestId);
            var enc := BuildQueryStr(req.deserializeOk, req.arguments, params, req.requestId, argumentOrder);
            Prepare(params, req, argumentOrder, attachmentOrder).Returns? ==>
              var d := Prepare(params, req, argumentOrder, attachmentOrder).value;
              && d.target == ResolveTarget(params)
              && AgreeExcept(env, d.env, {QueryString, ContentType, ContentLength})
              && (MethodOf(params) == HTTPMethodGET ==>
                    && enc.Returns?
                    && d.body == []
                    && (QueryString in d.env <==> req.deserializeOk)
                    && (QueryString in d.env ==> d.env[QueryString] == enc.value.text)
                    && (QueryString in d.env ==> EndsWith(d.env[QueryString], suffix))
                    && ContentType !in d.env && ContentLength !in d.env)
              && (MethodOf(params) == HTTPMethodPOST ==>
                    && enc.Returns?
                    && d.body == (if enc.value.ok then enc.value.text else [])
                    && (req.deserializeOk ==> EndsWith(d.body, suffix))
                    && (!req.deserializeOk ==> d.body == [])
                    && QueryString !in d.env
                    && ContentType in d.env && d.env[ContentType] == FormContentType
                    && ContentLength in d.env && d.env[ContentLength] == Itoa(|d.body|)
                    && Atoi(d.env[ContentLength]) == Some(|d.body|))
              && (MethodOf(params) != HTTPMethodGET && MethodOf(params) != HTTPMethodPOST ==>
                    d.env == env && d.body == [])
  {
    var env := BuildEnvironment(params, req.attachments, attachmentOrder);
    var enc := BuildQueryStr(req.deserializeOk, req.arguments, params, req.requestId, argumentOrder);
    MethodKeysAbsent(params, req.attachments, attachmentOrder);
    EncodingEndsWithRequestId(req.deserializeOk, req.arguments, params, req.requestId, argumentOrder);
    if enc.Returns? {
      if MethodOf(params) == HTTPMethodGET {
        GetPayload(env, enc.value);
      } else if MethodOf(params) == HTTPMethodPOST {
        PostPayload(env, enc.value);
      }
    }
  }

  /** Under GET, a map argument with plain keys reaches the script intact:
      QUERY_STRING decodes to its entries, in the order visited, followed by
      the request id. */
  lemma GetCarriesMapArgument(params: map<Str, Str>, req: Request, argumentOrder: seq<Str>, attachmentOrder: seq<Str>)
    requires IsEnumeration(req.attachments, attachmentOrder)
    requires |req.arguments| > 0 && req.arguments[0].StringMapArg?
    requires IsEnumeration(req.arguments[0].m, argumentOrder)
    requires forall k :: k in req.arguments[0].m ==> IsPlainKey(k)
    requires req.deserializeOk && Param(params, SerializationKey) == Simple && MethodOf(params) == HTTPMethodGET
    ensures Prepare(params, req, argumentOrder, attachmentOrder).Returns?
    ensures var d := Prepare(params, req, argumentOrder, attachmentOrder).value;
            QueryString in d.env
            && DecodeForm(d.env[QueryString]) == Some(Pairs(req.arguments[0].m, argumentOrder) + [RequestIdPair(req.requestId)])
  {
    var env := BuildEnvironment(params, req.attachments, attachmentOrder);
    MapArgumentDecodes(req.arguments, params, req.requestId, argumentOrder);
    MethodKeysAbsent(params, req.attachments, attachmentOrder);
    GetPayload(env, BuildQueryStr(true, req.arguments, params, req.requestId, argumentOrder).value);
  }

  /** Under POST, the body decodes to the map argument's entries followed by
      the request id. */
  lemma PostCarriesMapArgument(params: map<Str, Str>, req: Request, argumentOrder: seq<Str>, attachmentOrder: seq<Str>)
    requires IsEnumeration(req.attachments, attachmentOrder)
    requires |req.arguments| > 0 && req.arguments[0].StringMapArg?
    requires IsEnumeration(req.arguments[0].m, argumentOrder)
    requires forall k :: k in req.arguments[0].m ==> IsPlainKey(k)
    requires req.deserializeOk && Param(params, SerializationKey) == Simple && MethodOf(params) == HTTPMethodPOST
    ensures Prepare(params, req, argumentOrder, attachmentOrder).Returns?
    ensures var d := Prepare(params, req, argumentOrder, attachmentOrder).value;
            DecodeForm(d.body) == Some(Pairs(req.arguments[0].m, argumentOrder) + [RequestIdPair(req.requestId)])
  {
    var env := BuildEnvironment(params, req.attachments, attachmentOrder);
    MapArgumentDecodes(req.arguments, params, req.requestId, argumentOrder);
    MethodKeysAbsent(params, req.attachments, attachmentOrder);
    PostPayload(env, BuildQueryStr(true, req.arguments, params, req.requestId, argumentOrder).value);
  }

  /** Whenever Call returns, the response carries the request's id and
      exactly one of a value and an exception. */
  lemma CallResponseShape(params: map<Str, Str>, req: Request, argumentOrder: seq<Str>, attachmentOrder: seq<Str>,
                          exchange: Dispatch -> GoOutcome<Str>)
    requires IsEnumeration(req.attachments, attachmentOrder)
    requires |req.arguments| > 0 && req.arguments[0].StringMapArg? ==> IsEnumeration(req.arguments[0].m, argumentOrder)
    ensures Call(params, req, argumentOrder, attachmentOrder, exchange).Returns? ==>
              var r := Call(params, req, argumentOrder, attachmentOrder, exchange).value;
              r.requestId == req.requestId && (r.value.Some? <==> r.exception.None?)
  {
    var call := Call(params, req, argumentOrder, attachmentOrder, exchange);
    if call.Returns? {
      var d := Prepare(params, req, argumentOrder, attachmentOrder).value;
      var content := exchange(d).value;
      ResponseMapping(req.requestId, ParseFastCgiResponse(content).value);
    }
  }

  /** When the responder writes well-formed output, Call answers with its
      body as value and its header fields as attachments. */
  lemma CallReturnsScriptOutput(params: map<Str, Str>, req: Request, argumentOrder: seq<Str>, attachmentOrder: seq<Str>,
                                exchange: Dispatch -> GoOutcome<Str>, o: CgiOutput)
    requires IsEnumeration(req.attachments, attachmentOrder)
    requires |req.arguments| > 0 && req.arguments[0].StringMapArg? ==> IsEnumeration(req.arguments[0].m, argumentOrder)
    requires Prepare(params, req, argumentOrder, attachmentOrder).Returns?
    requires exchange(Prepare(params, req, argumentOrder, attachmentOrder).value) == Returns(Render(o))
    requires WellFormed(o)
    ensures Call(params, req, argumentOrder, attachmentOrder, exchange) ==
            Returns(Response(req.requestId, Some(o.body), None, FieldsMap(o.fields)))
  {
    ParseRender(o);
  }

  /** When the responder's output has no blank line (an empty answer from a
      failed exchange included), Call answers with exception 502. */
  lemma CallReportsUnparsableOutput(params: map<Str, Str>, req: Request, argumentOrder: seq<Str>, attachmentOrder: seq<Str>,
                                    exchange: Dispatch -> GoOutcome<Str>, content: Str)
    requires IsEnumeration(req.attachments, attachmentOrder)
    requires |req.arguments| > 0 && req.arguments[0].StringMapArg? ==> IsEnumeration(req.arguments[0].m, argumentOrder)
    requires Prepare(params, req, argumentOrder, attachmentOrder).Returns?
    requires exchange(Prepare(params, req, argumentOrder, attachmentOrder).value) == Returns(content)
    requires !Contains(content, HeaderBodySeparator)
    ensures Call(params, req, argumentOrder, attachmentOrder, exchange) ==
            Returns(Response(req.requestId, None,
                             Some(Exception(UnparsableStatus, UnparsableMessage, UnparsableStatus)), map[]))
  {
    UnparsableWithoutBlankLine(content);
  }
}
