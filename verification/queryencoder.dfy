/** buildQueryStr: how the CGI provider serializes the call's arguments into
    an application/x-www-form-urlencoded text, always followed by the
    `requestIdFromClient` field. */
module QueryEncoder {
  import opened Wrappers
  import opened GoStrings
  import opened UrlEscape

  /** A request id is a Go uint64. */
  type RequestId = n: nat | n < 0x1_0000_0000_0000_0000

  /** The value of motan's "simple" serialization name. */
  const Simple: Str := "simple"
  const SerializationKey: Str := "serialization"
  const RequestIdName: Str := "requestIdFromClient"

  /** The dynamic shape of the first call argument, as the type switch sees it. */
  datatype Argument =
    | StringArg(s: Str)                   // a Go `string`
    | StringMapArg(m: map<Str, Str>)      // a Go `map[string]string`
    | OtherArg                            // any other non-nil value
    | NilArg                              // a nil interface value

  /** buildQueryStr's two results: the text, and whether `err` is nil. */
  datatype Encoding = Encoding(text: Str, ok: bool)

  /** `order` lists every key of `m` exactly once: one possible iteration
      order of a Go `range` over the map. */
  predicate IsEnumeration(m: map<Str, Str>, order: seq<Str>) {
    && (forall i :: 0 <= i < |order| ==> order[i] in m)
    && (forall k :: k in m ==> k in order)
    && (forall i, j :: 0 <= i < j < |order| ==> order[i] != order[j])
  }

  /** `url.Parameters[key]`: a missing key reads as the empty string. */
  function Param(params: map<Str, Str>, key: Str): Str {
    if key in params then params[key] else []
  }

  /** The trailing field every encoding carries. */
  function RequestIdSuffix(requestId: RequestId): Str {
    "&" + RequestIdName + "=" + Itoa(requestId)
  }

  /** The `key=escaped value` piece written for one map entry; the key is
      written as it is, only the value is escaped. */
  function Field(m: map<Str, Str>, k: Str): Str
    requires k in m
  {
    k + "=" + QueryEscape(m[k])
  }

  /** The pieces written for the entries of `m`, in the order `order`. */
  function Fields(m: map<Str, Str>, order: seq<Str>): (fs: seq<Str>)
    requires forall i :: 0 <= i < |order| ==> order[i] in m
    ensures |fs| == |order|
    ensures forall i :: 0 <= i < |order| ==> fs[i] == Field(m, order[i])
  {
    seq(|order|, i requires 0 <= i < |order| => Field(m, order[i]))
  }

  /** The `for k, v := range params` loop, visiting keys in `order`; `first`
      is the loop's `start == 1` flag: the first piece replaces `res`, every
      later one is appended after a `&`. */
  function RangeEncode(m: map<Str, Str>, order: seq<Str>, res: Str, first: bool): Str
    requires forall i :: 0 <= i < |order| ==> order[i] in m
    decreases |order|
  {
    if |order| == 0 then res
    else
      var piece := Field(m, order[0]);
      RangeEncode(m, order[1..], if first then piece else res + "&" + piece, false)
  }

  /** buildQueryStr.  `deserializeOk` stands for ProcessDeserializable
      returning nil; `order` is the iteration order of a map argument. */
  function BuildQueryStr(deserializeOk: bool, arguments: seq<Argument>, params: map<Str, Str>,
                         requestId: RequestId, order: seq<Str>): GoOutcome<Encoding>
    requires |arguments| > 0 && arguments[0].StringMapArg? ==> IsEnumeration(arguments[0].m, order)
  {
    var suffix := RequestIdSuffix(requestId);
    if !deserializeOk then Returns(Encoding(suffix, false))
    else if |arguments| == 0 then Returns(Encoding(suffix, true))
    else if Param(params, SerializationKey) != Simple then Returns(Encoding(suffix, true))
    else
      match arguments[0]
      case NilArg => Panics
      case StringMapArg(m) => Returns(Encoding(RangeEncode(m, order, [], true) + suffix, true))
      case StringArg(s) => Returns(Encoding(QueryEscape(s) + suffix, true))
      case OtherArg => Returns(Encoding(suffix, true))
  }

  // ---------------------------------------------------------------------
  // Properties

  /** Whatever happens, a returned encoding ends with the request-id field,
      and its error flag is exactly the deserialization outcome. */
  lemma EncodingEndsWithRequestId(deserializeOk: bool, arguments: seq<Argument>, params: map<Str, Str>,
                                  requestId: RequestId, order: seq<Str>)
    requires |arguments| > 0 && arguments[0].StringMapArg? ==> IsEnumeration(arguments[0].m, order)
    ensures match BuildQueryStr(deserializeOk, arguments, params, requestId, order)
      case Returns(e) =>
        && EndsWith(e.text, RequestIdSuffix(requestId))
        && e.ok == deserializeOk
      case Panics => true
  { }

  /** The encoder panics exactly when the simple path meets a nil first argument. */
  lemma EncoderPanicsOnNil(deserializeOk: bool, arguments: seq<Argument>, params: map<Str, Str>,
                           requestId: RequestId, order: seq<Str>)
    requires |arguments| > 0 && arguments[0].StringMapArg? ==> IsEnumeration(arguments[0].m, order)
    ensures BuildQueryStr(deserializeOk, arguments, params, requestId, order).Panics? <==>
      deserializeOk && |arguments| > 0 && Param(params, SerializationKey) == Simple && arguments[0].NilArg?
  { }

  /** Only the first argument is read. */
  lemma OnlyFirstArgument(deserializeOk: bool, arguments: seq<Argument>, params: map<Str, Str>,
                          requestId: RequestId, order: seq<Str>)
    requires |arguments| > 0 && arguments[0].StringMapArg? ==> IsEnumeration(arguments[0].m, order)
    ensures BuildQueryStr(deserializeOk, arguments, params, requestId, order) ==
            BuildQueryStr(deserializeOk, arguments[..if |arguments| == 0 then 0 else 1], params, requestId, order)
  { }

  /** The encoding is the bare request-id field exactly when nothing else can
      be written: deserialization failed, there are no arguments, the
      serialization is not simple, or the first argument is of another type,
      an empty map or the empty string. */
  lemma BareEncoding(deserializeOk: bool, arguments: seq<Argument>, params: map<Str, Str>,
                     requestId: RequestId, order: seq<Str>)
    requires |arguments| > 0 && arguments[0].StringMapArg? ==> IsEnumeration(arguments[0].m, order)
    ensures BuildQueryStr(deserializeOk, arguments, params, requestId, order) == Returns(Encoding(RequestIdSuffix(requestId), deserializeOk))
      <==> || !deserializeOk
           || |arguments| == 0
           || Param(params, SerializationKey) != Simple
           || arguments[0].OtherArg?
           || arguments[0] == StringMapArg(map[])
           || arguments[0] == StringArg([])
  {
    if deserializeOk && |arguments| > 0 && Param(params, SerializationKey) == Simple {
      match arguments[0]
      case StringMapArg(m) =>
        if |order| > 0 {
          RangeEncodeJoins(m, order);
          assert |Field(m, order[0])| > 0;
          JoinNonEmpty(Fields(m, order), "&");
        } else {
          assert m.Keys == {};
          assert RangeEncode(m, order, [], true) + RequestIdSuffix(requestId) == RequestIdSuffix(requestId);
        }
      case StringArg(s) =>
        var suffix := RequestIdSuffix(requestId);
        if s == [] {
          assert QueryEscape(s) + suffix == suffix;
        } else {
          assert |QueryEscape(s) + suffix| > |suffix|;
        }
      case _ =>
    }
  }

  lemma JoinNonEmpty(parts: seq<Str>, sep: Str)
    requires |parts| > 0 && |parts[0]| > 0
    ensures |Join(parts, sep)| > 0
  { }

  /** Continuing the range loop after at least one piece appends the
      remaining pieces, each after a `&`. */
  lemma {:induction false} RangeEncodeAppends(m: map<Str, Str>, order: seq<Str>, res: Str)
    requires forall i :: 0 <= i < |order| ==> order[i] in m
    ensures RangeEncode(m, order, res, false) ==
            if |order| == 0 then res else res + "&" + Join(Fields(m, order), "&")
    decreases |order|
  {
    if |order| > 0 {
      var piece := Field(m, order[0]);
      RangeEncodeAppends(m, order[1..], res + "&" + piece);
      assert Fields(m, order)[1..] == Fields(m, order[1..]);
      if |order| > 1 {
        assert res + "&" + piece + "&" + Join(Fields(m, order[1..]), "&")
            == res + "&" + (piece + "&" + Join(Fields(m, order[1..]), "&"));
      }
    }
  }

  /** A map argument is written as its pieces joined by single `&`s, in
      iteration order; an empty map writes nothing. */
  lemma RangeEncodeJoins(m: map<Str, Str>, order: seq<Str>)
    requires forall i :: 0 <= i < |order| ==> order[i] in m
    ensures RangeEncode(m, order, [], true) == Join(Fields(m, order), "&")
  {
    if |order| > 0 {
      RangeEncodeAppends(m, order[1..], Field(m, order[0]));
      assert Fields(m, order)[1..] == Fields(m, order[1..]);
    }
  }

  /** Under simple serialization a string argument is written as its
      escaped form, which unescapes back to the string. */
  lemma StringArgumentEncoding(arguments: seq<Argument>, params: map<Str, Str>, requestId: RequestId, order: seq<Str>)
    requires |arguments| > 0 && arguments[0].StringArg?
    requires Param(params, SerializationKey) == Simple
    ensures BuildQueryStr(true, arguments, params, requestId, order) ==
            Returns(Encoding(QueryEscape(arguments[0].s) + RequestIdSuffix(requestId), true))
    ensures QueryUnescape(QueryEscape(arguments[0].s)) == Some(arguments[0].s)
  {
    UnescapeEscape(arguments[0].s);
  }

  /** Under simple serialization a map argument is written as its pieces
      joined by `&` in iteration order, then the request-id field. */
  lemma MapArgumentEncoding(arguments: seq<Argument>, params: map<Str, Str>, requestId: RequestId, order: seq<Str>)
    requires |arguments| > 0 && arguments[0].StringMapArg?
    requires IsEnumeration(arguments[0].m, order)
    requires Param(params, SerializationKey) == Simple
    ensures BuildQueryStr(true, arguments, params, requestId, order) ==
            Returns(Encoding(Join(Fields(arguments[0].m, order), "&") + RequestIdSuffix(requestId), true))
  {
    RangeEncodeJoins(arguments[0].m, order);
  }

  // ---------------------------------------------------------------------
  // Reading the encoding back with form decoding

  /** A key that form decoding reads back unchanged and as a single field:
      since buildQueryStr does not escape keys, only such keys survive. */
  predicate IsPlainKey(k: Str) {
    forall i :: 0 <= i < |k| ==> k[i] != '&' && k[i] != '=' && k[i] != '%' && k[i] != '+'
  }

  /** The entries of `m` as pairs, in the order `order`. */
  function Pairs(m: map<Str, Str>, order: seq<Str>): (ps: seq<(Str, Str)>)
    requires forall i :: 0 <= i < |order| ==> order[i] in m
    ensures |ps| == |order|
    ensures forall i :: 0 <= i < |order| ==> ps[i] == (order[i], m[order[i]])
  {
    seq(|order|, i requires 0 <= i < |order| => (order[i], m[order[i]]))
  }

  /** Whatever the iteration order, the pairs are exactly the entries of the map. */
  lemma PairsAreEntries(m: map<Str, Str>, order: seq<Str>)
    requires IsEnumeration(m, order)
    ensures forall p: (Str, Str) :: p in Pairs(m, order) <==> p.0 in m && m[p.0] == p.1
  {
    var ps := Pairs(m, order);
    forall p: (Str, Str) | p.0 in m && m[p.0] == p.1 ensures p in ps {
      var i :| 0 <= i < |order| && order[i] == p.0;
      assert ps[i] == p;
    }
  }

  /** The request-id field as written and as read back. */
  function RequestIdField(requestId: RequestId): Str {
    RequestIdName + "=" + Itoa(requestId)
  }

  lemma SuffixIsField(requestId: RequestId)
    ensures RequestIdSuffix(requestId) == "&" + RequestIdField(requestId)
  { }

  function RequestIdPair(requestId: RequestId): (Str, Str) {
    (RequestIdName, Itoa(requestId))
  }

  lemma PlainKeyHasNoEquals(k: Str)
    requires IsPlainKey(k)
    ensures !Contains(k, "=") && IsPlain(k)
  {
    forall i | 0 <= i <= |k| ensures !OccursAt(k, "=", i) {
      OccurrenceStartsWithSep(k, "=", i);
    }
  }

  /** A field `name=value` holds no `&` when neither part does. */
  lemma NoAmpersand(name: Str, value: Str)
    requires forall j :: 0 <= j < |name| ==> name[j] != '&'
    requires forall j :: 0 <= j < |value| ==> value[j] != '&'
    ensures forall j :: 0 <= j < |name + "=" + value| ==> (name + "=" + value)[j] != '&'
  {
    var f := name + "=" + value;
    forall j | 0 <= j < |f| ensures f[j] != '&' {
      if j < |name| {
        assert f[j] == name[j];
      } else if j > |name| {
        assert f[j] == value[j - |name| - 1];
      }
    }
  }

  lemma RequestIdNameIsPlain()
    ensures IsPlainKey(RequestIdName)
  { }

  /** A field made of a plain key and a value without `%`, `+` or `&`
      decodes to that key and value and holds no `&`. */
  lemma DecodePlainField(name: Str, value: Str)
    requires IsPlainKey(name) && IsPlain(value)
    requires forall j :: 0 <= j < |value| ==> value[j] != '&'
    ensures DecodeField(name + "=" + value) == Some((name, value))
    ensures forall j :: 0 <= j < |name + "=" + value| ==> (name + "=" + value)[j] != '&'
  {
    PlainKeyHasNoEquals(name);
    UnescapePlain(name);
    UnescapePlain(value);
    DecodeNamedField(name, value, value);
    NoAmpersand(name, value);
  }

  lemma DecodeRequestIdField(requestId: RequestId)
    ensures DecodeField(RequestIdField(requestId)) == Some(RequestIdPair(requestId))
    ensures forall j :: 0 <= j < |RequestIdField(requestId)| ==> RequestIdField(requestId)[j] != '&'
  {
    RequestIdNameIsPlain();
    DecodePlainField(RequestIdName, Itoa(requestId));
  }

  lemma DecodeMapField(m: map<Str, Str>, k: Str)
    requires k in m && IsPlainKey(k)
    ensures DecodeField(Field(m, k)) == Some((k, m[k]))
    ensures forall j :: 0 <= j < |Field(m, k)| ==> Field(m, k)[j] != '&'
  {
    DecodeEscapedField(k, m[k]);
  }

  /** A plain key, `=`, and an escaped value decode to the key and the value,
      and hold no `&`. */
  lemma DecodeEscapedField(k: Str, v: Str)
    requires IsPlainKey(k)
    ensures DecodeField(k + "=" + QueryEscape(v)) == Some((k, v))
    ensures forall j :: 0 <= j < |k + "=" + QueryEscape(v)| ==> (k + "=" + QueryEscape(v))[j] != '&'
  {
    var e := QueryEscape(v);
    PlainKeyHasNoEquals(k);
    UnescapePlain(k);
    UnescapeEscape(v);
    assert !Contains(k, "=") && QueryUnescape(k) == Some(k) && QueryUnescape(e) == Some(v);
    DecodeNamedField(k, e, v);
    EscapedHasNoAmpersand(v);
    NoAmpersand(k, e);
  }

  lemma EscapedHasNoAmpersand(v: Str)
    ensures forall j :: 0 <= j < |QueryEscape(v)| ==> QueryEscape(v)[j] != '&'
  {
    var e := QueryEscape(v);
    forall j | 0 <= j < |e| ensures e[j] != '&' {
      assert IsEscapedByte(e[j]);
    }
  }

  lemma {:induction false} DecodeNonEmptyFields(fs: seq<Str>, ps: seq<(Str, Str)>)
    requires |fs| == |ps|
    requires forall i :: 0 <= i < |fs| ==> |fs[i]| > 0 && DecodeField(fs[i]) == Some(ps[i])
    ensures DecodeFields(fs) == Some(ps)
    decreases |fs|
  {
    if |fs| > 0 {
      DecodeNonEmptyFields(fs[1..], ps[1..]);
      assert [ps[0]] + ps[1..] == ps;
    }
  }

  lemma JoinSnoc(parts: seq<Str>, x: Str, sep: Str)
    requires |parts| > 0
    ensures Join(parts + [x], sep) == Join(parts, sep) + sep + x
    decreases |parts|
  {
    if |parts| > 1 {
      assert (parts + [x])[1..] == parts[1..] + [x];
      JoinSnoc(parts[1..], x, sep);
    } else {
      assert (parts + [x])[1..] == [x];
    }
  }

  /** Joining fields that hold no `&` and decoding the result decodes the fields. */
  lemma DecodeJoined(parts: seq<Str>, ps: seq<(Str, Str)>)
    requires |parts| >= 1
    requires forall i, j :: 0 <= i < |parts| && 0 <= j < |parts[i]| ==> parts[i][j] != '&'
    requires DecodeFields(parts) == Some(ps)
    ensures DecodeForm(Join(parts, "&")) == Some(ps)
  {
    SplitJoin(parts, "&");
  }

  /** Under simple serialization, with keys form decoding reads back
      unchanged, decoding the encoding of a map argument gives back every
      entry of the map, in iteration order, then the request id; this holds
      for every iteration order. */
  lemma MapArgumentDecodes(arguments: seq<Argument>, params: map<Str, Str>, requestId: RequestId, order: seq<Str>)
    requires |arguments| > 0 && arguments[0].StringMapArg?
    requires IsEnumeration(arguments[0].m, order)
    requires forall k :: k in arguments[0].m ==> IsPlainKey(k)
    requires Param(params, SerializationKey) == Simple
    ensures BuildQueryStr(true, arguments, params, requestId, order).Returns?
    ensures DecodeForm(BuildQueryStr(true, arguments, params, requestId, order).value.text) ==
            Some(Pairs(arguments[0].m, order) + [RequestIdPair(requestId)])
  {
    var m := arguments[0].m;
    MapArgumentEncoding(arguments, params, requestId, order);
    var text := BuildQueryStr(true, arguments, params, requestId, order).value.text;
    var fs := Join(Fields(m, order), "&");
    assert text == fs + RequestIdSuffix(requestId);
    DecodeRequestIdField(requestId);
    var idf := RequestIdField(requestId);
    SuffixIsField(requestId);
    var all := MapFieldsDecode(m, order, idf, RequestIdPair(requestId));
    assert text == Join(all, "&");
    DecodeJoined(all, Pairs(m, order) + [RequestIdPair(requestId)]);
  }

  /** Every piece written for a plain-keyed map is non-empty, holds no `&`
      and decodes to its entry. */
  lemma FieldsDecodeEach(m: map<Str, Str>, order: seq<Str>)
    requires forall i :: 0 <= i < |order| ==> order[i] in m
    requires forall k :: k in m ==> IsPlainKey(k)
    ensures forall i :: 0 <= i < |order| ==>
      && |Fields(m, order)[i]| > 0
      && DecodeField(Fields(m, order)[i]) == Some(Pairs(m, order)[i])
      && (forall j :: 0 <= j < |Fields(m, order)[i]| ==> Fields(m, order)[i][j] != '&')
  {
    forall i | 0 <= i < |order|
      ensures |Fields(m, order)[i]| > 0
      ensures DecodeField(Fields(m, order)[i]) == Some(Pairs(m, order)[i])
      ensures forall j :: 0 <= j < |Fields(m, order)[i]| ==> Fields(m, order)[i][j] != '&'
    {
      DecodeMapField(m, order[i]);
    }
  }

  /** The fields written for a map followed by one more field `last`, and
      the pairs they decode to. */
  lemma MapFieldsDecode(m: map<Str, Str>, order: seq<Str>, last: Str, lastPair: (Str, Str)) returns (all: seq<Str>)
    requires forall i :: 0 <= i < |order| ==> order[i] in m
    requires forall k :: k in m ==> IsPlainKey(k)
    requires |last| > 0 && DecodeField(last) == Some(lastPair)
    requires forall j :: 0 <= j < |last| ==> last[j] != '&'
    ensures |all| >= 1
    ensures Join(all, "&") == Join(Fields(m, order), "&") + ("&" + last)
    ensures forall i, j :: 0 <= i < |all| && 0 <= j < |all[i]| ==> all[i][j] != '&'
    ensures DecodeFields(all) == Some(Pairs(m, order) + [lastPair])
  {
    if |order| == 0 {
      all := ["", last];
      assert Join(all, "&") == "&" + last;
      DecodeNonEmptyFields([last], [lastPair]);
      assert all[1..] == [last];
      assert Pairs(m, order) + [lastPair] == [lastPair];
    } else {
      all := NonEmptyMapFieldsDecode(m, order, last, lastPair);
    }
  }

  lemma NonEmptyMapFieldsDecode(m: map<Str, Str>, order: seq<Str>, last: Str, lastPair: (Str, Str)) returns (all: seq<Str>)
    requires |order| > 0
    requires forall i :: 0 <= i < |order| ==> order[i] in m
    requires forall k :: k in m ==> IsPlainKey(k)
    requires |last| > 0 && DecodeField(last) == Some(lastPair)
    requires forall j :: 0 <= j < |last| ==> last[j] != '&'
    ensures |all| >= 1
    ensures Join(all, "&") == Join(Fields(m, order), "&") + ("&" + last)
    ensures forall i, j :: 0 <= i < |all| && 0 <= j < |all[i]| ==> all[i][j] != '&'
    ensures DecodeFields(all) == Some(Pairs(m, order) + [lastPair])
  {
    var fs := Fields(m, order);
    var ps := Pairs(m, order) + [lastPair];
    all := fs + [last];
    JoinSnoc(fs, last, "&");
    assert Join(fs, "&") + "&" + last == Join(fs, "&") + ("&" + last);
    FieldsDecodeEach(m, order);
    forall i | 0 <= i < |all|
      ensures |all[i]| > 0 && DecodeField(all[i]) == Some(ps[i])
      ensures forall j :: 0 <= j < |all[i]| ==> all[i][j] != '&'
    {
      if i < |fs| {
        assert all[i] == fs[i] && ps[i] == Pairs(m, order)[i];
      } else {
        assert all[i] == last && ps[i] == lastPair;
      }
    }
    DecodeNonEmptyFields(all, ps);
  }

  /** Under simple serialization, decoding the encoding of a string argument
      gives the string back as a lone field name (nothing for the empty
      string), then the request id. */
  lemma StringArgumentDecodes(arguments: seq<Argument>, params: map<Str, Str>, requestId: RequestId, order: seq<Str>)
    requires |arguments| > 0 && arguments[0].StringArg?
    requires Param(params, SerializationKey) == Simple
    ensures BuildQueryStr(true, arguments, params, requestId, order).Returns?
    ensures DecodeForm(BuildQueryStr(true, arguments, params, requestId, order).value.text) ==
            Some(LoneName(arguments[0].s) + [RequestIdPair(requestId)])
  {
    StringArgumentEncoding(arguments, params, requestId, order);
    EscapedStringDecodes(arguments[0].s, requestId);
  }

  /** An escaped string followed by the request-id suffix decodes to the
      string as a lone field name, then the request id. */
  lemma EscapedStringDecodes(s: Str, requestId: RequestId)
    ensures DecodeForm(QueryEscape(s) + RequestIdSuffix(requestId)) == Some(LoneName(s) + [RequestIdPair(requestId)])
  {
    DecodeRequestIdField(requestId);
    SuffixIsField(requestId);
    EscapedThenFieldDecodes(s, RequestIdField(requestId), RequestIdPair(requestId));
  }

  /** An escaped string, `&`, then a field without `&` decode to the string as
      a lone field name, then the field. */
  lemma EscapedThenFieldDecodes(s: Str, next: Str, p: (Str, Str))
    requires |next| > 0 && DecodeField(next) == Some(p)
    requires forall j :: 0 <= j < |next| ==> next[j] != '&'
    ensures DecodeForm(QueryEscape(s) + ("&" + next)) == Some(LoneName(s) + [p])
  {
    var e := QueryEscape(s);
    EscapedHasNoAmpersand(s);
    EscapedFieldDecodes(s, next, p);
    assert DecodeFields([e, next]) == Some(LoneName(s) + [p]);
    TwoFieldsDecode(e, next, LoneName(s) + [p]);
  }

  /** Two fields without `&` joined by one decode as the two fields. */
  lemma TwoFieldsDecode(a: Str, b: Str, ps: seq<(Str, Str)>)
    requires forall j :: 0 <= j < |a| ==> a[j] != '&'
    requires forall j :: 0 <= j < |b| ==> b[j] != '&'
    requires DecodeFields([a, b]) == Some(ps)
    ensures DecodeForm(a + ("&" + b)) == Some(ps)
  {
    var two: seq<Str> := [a, b];
    assert a + ("&" + b) == Join(two, "&");
    forall i, j | 0 <= i < 2 && 0 <= j < |two[i]| ensures two[i][j] != '&' {
      if i == 0 { assert two[i][j] == a[j]; } else { assert two[i][j] == b[j]; }
    }
    DecodeJoined(two, ps);
  }

  /** How form decoding reads a lone escaped string: as one field name
      with an empty value, or as nothing when the string is empty. */
  function LoneName(s: Str): seq<(Str, Str)> {
    if s == [] then [] else [(s, [])]
  }

  lemma EscapedFieldDecodes(s: Str, next: Str, p: (Str, Str))
    requires |next| > 0 && DecodeField(next) == Some(p)
    ensures DecodeFields([QueryEscape(s), next]) == Some(LoneName(s) + [p])
  {
    var e := QueryEscape(s);
    if s == [] {
      DecodeNonEmptyFields([next], [p]);
      var fs: seq<Str> := [e, next];
      assert e == [];
      assert fs[1..] == [next];
      assert DecodeFields(fs) == Some([p]);
      assert LoneName(s) == [];
      assert LoneName(s) + [p] == [p];
      assert [QueryEscape(s), next] == fs;
    } else {
      forall i | 0 <= i <= |e| ensures !OccursAt(e, "=", i) {
        OccurrenceStartsWithSep(e, "=", i);
        if i < |e| { assert IsEscapedByte(e[i]); }
      }
      UnescapeEscape(s);
      DecodeBareField(e, s);
      assert DecodeField(e) == Some((s, []));
      assert |e| > 0;
      var fs: seq<Str> := [e, next];
      var ps: seq<(Str, Str)> := [(s, []), p];
      assert fs[0] == e && fs[1] == next;
      DecodeNonEmptyFields(fs, ps);
      assert DecodeFields(fs) == Some(ps);
      assert [(s, [])] + [p] == ps;
      assert [QueryEscape(s), next] == fs;
    }
  }
}
