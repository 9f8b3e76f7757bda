/** url.QueryEscape / url.QueryUnescape, and the application/x-www-form-urlencoded
    reading a CGI script applies to QUERY_STRING or to the request body. */
module UrlEscape {
  import opened Wrappers
  import opened GoStrings

  /** The unreserved characters of section 2.3 of RFC 3986; QueryEscape keeps them. */
  predicate IsUnreserved(c: Byte) {
    ('a' <= c <= 'z') || ('A' <= c <= 'Z') || ('0' <= c <= '9') || c == '-' || c == '_' || c == '.' || c == '~'
  }

  /** The bytes QueryEscape can produce. */
  predicate IsEscapedByte(c: Byte) {
    IsUnreserved(c) || c == '+' || c == '%'
  }

  /** Go's "0123456789ABCDEF" table. */
  function UpperHexDigit(d: nat): Byte
    requires d < 16
  {
    if d < 10 then ('0' as int + d) as char else ('A' as int + d - 10) as char
  }

  predicate IsHex(c: Byte) {
    ('0' <= c <= '9') || ('a' <= c <= 'f') || ('A' <= c <= 'F')
  }

  function HexValue(c: Byte): (v: nat)
    requires IsHex(c)
    ensures v < 16
  {
    if '0' <= c <= '9' then c as int - '0' as int
    else if 'a' <= c <= 'f' then c as int - 'a' as int + 10
    else c as int - 'A' as int + 10
  }

  lemma HexDigitValue(d: nat)
    requires d < 16
    ensures IsHex(UpperHexDigit(d)) && HexValue(UpperHexDigit(d)) == d
  { }

  /** How QueryEscape writes one byte: unreserved bytes as they are, space as
      `+`, every other byte as `%` and two upper-case hex digits. */
  function EscapeByte(c: Byte): Str {
    if IsUnreserved(c) then [c]
    else if c == ' ' then "+"
    else ['%', UpperHexDigit(c as int / 16), UpperHexDigit(c as int % 16)]
  }

  /** url.QueryEscape: escape every byte of `s`, left to right. */
  function QueryEscape(s: Str): (r: Str)
    ensures forall i :: 0 <= i < |r| ==> IsEscapedByte(r[i])
    ensures |s| <= |r| <= 3 * |s|
    decreases |s|
  {
    if |s| == 0 then []
    else
      var r := EscapeByte(s[0]) + QueryEscape(s[1..]);
      assert forall i :: 0 <= i < |EscapeByte(s[0])| ==> IsEscapedByte(EscapeByte(s[0])[i]);
      r
  }

  /** url.QueryUnescape: `%XY` with two hex digits (either case) is the byte
      0xXY, `+` is a space, other bytes stand for themselves; a `%` without two
      hex digits after it is an error. */
  function QueryUnescape(s: Str): Option<Str>
    decreases |s|
  {
    if |s| == 0 then Some([])
    else if s[0] == '%' then
      if |s| < 3 || !IsHex(s[1]) || !IsHex(s[2]) then None
      else
        match QueryUnescape(s[3..])
        case None => None
        case Some(t) => Some([(HexValue(s[1]) * 16 + HexValue(s[2])) as char] + t)
    else
      match QueryUnescape(s[1..])
      case None => None
      case Some(t) => Some([if s[0] == '+' then ' ' else s[0]] + t)
  }

  lemma UnescapeEscapedByte(c: Byte, rest: Str)
    ensures QueryUnescape(EscapeByte(c) + rest) ==
      match QueryUnescape(rest)
      case None => None
      case Some(t) => Some([c] + t)
  {
    var e := EscapeByte(c) + rest;
    if IsUnreserved(c) {
      assert e[1..] == rest;
    } else if c == ' ' {
      assert e[1..] == rest;
    } else {
      HexDigitValue(c as int / 16);
      HexDigitValue(c as int % 16);
      assert e[3..] == rest;
    }
  }

  /** QueryUnescape undoes QueryEscape. */
  lemma {:induction false} UnescapeEscape(s: Str)
    ensures QueryUnescape(QueryEscape(s)) == Some(s)
    decreases |s|
  {
    if |s| > 0 {
      UnescapeEscapedByte(s[0], QueryEscape(s[1..]));
      UnescapeEscape(s[1..]);
      assert [s[0]] + s[1..] == s;
    }
  }

  /** A digit of Go's upper-case hex table. */
  predicate IsUpperHex(c: Byte) {
    ('0' <= c <= '9') || ('A' <= c <= 'F')
  }

  /** QueryEscape works byte by byte: escaping a concatenation escapes each part. */
  lemma {:induction false} EscapeConcat(a: Str, b: Str)
    ensures QueryEscape(a + b) == QueryEscape(a) + QueryEscape(b)
    decreases |a|
  {
    if |a| > 0 {
      assert (a + b)[0] == a[0];
      assert (a + b)[1..] == a[1..] + b;
      EscapeConcat(a[1..], b);
    } else {
      assert a + b == b;
    }
  }

  /** What QueryEscape writes for one byte `c`: `c` itself when unreserved, `+`
      for a space, and otherwise `%` followed by two upper-case hex digits whose
      value is `c`. */
  lemma EscapeOneByte(c: Byte)
    ensures IsUnreserved(c) ==> QueryEscape([c]) == [c]
    ensures c == ' ' ==> QueryEscape([c]) == "+"
    ensures !IsUnreserved(c) && c != ' ' ==>
      var e := QueryEscape([c]);
      |e| == 3 && e[0] == '%' && IsUpperHex(e[1]) && IsUpperHex(e[2]) &&
      HexValue(e[1]) * 16 + HexValue(e[2]) == c as int
  {
    assert [c][1..] == [];
    assert QueryEscape([c]) == EscapeByte(c) + QueryEscape([]);
    if !IsUnreserved(c) && c != ' ' {
      HexDigitValue(c as int / 16);
      HexDigitValue(c as int % 16);
    }
  }

  /** Bytes that form decoding reads as themselves. */
  predicate IsPlain(s: Str) {
    forall i :: 0 <= i < |s| ==> s[i] != '%' && s[i] != '+'
  }

  /** Text without `%` or `+` unescapes to itself. */
  lemma {:induction false} UnescapePlain(s: Str)
    requires IsPlain(s)
    ensures QueryUnescape(s) == Some(s)
    decreases |s|
  {
    if |s| > 0 {
      assert IsPlain(s[1..]) by {
        forall i | 0 <= i < |s[1..]| ensures s[1..][i] != '%' && s[1..][i] != '+' {
          assert s[1..][i] == s[i + 1];
        }
      }
      UnescapePlain(s[1..]);
      assert [s[0]] + s[1..] == s;
    }
  }

  /** One `name=value` field, split at its first `=` (a field without `=`
      is a name with an empty value) and unescaped. */
  function DecodeField(field: Str): Option<(Str, Str)> {
    var kv := SplitN(field, "=", 2);
    var value := if |kv| == 2 then kv[1] else [];
    match (QueryUnescape(kv[0]), QueryUnescape(value))
    case (Some(k), Some(v)) => Some((k, v))
    case _ => None
  }

  /** Decode the fields in order, skipping empty ones. */
  function DecodeFields(fields: seq<Str>): Option<seq<(Str, Str)>>
    decreases |fields|
  {
    if |fields| == 0 then Some([])
    else
      match DecodeFields(fields[1..])
      case None => None
      case Some(rest) =>
        if |fields[0]| == 0 then Some(rest)
        else
          match DecodeField(fields[0])
          case None => None
          case Some(p) => Some([p] + rest)
  }

  /** application/x-www-form-urlencoded decoding: `&`-separated fields. */
  function DecodeForm(q: Str): Option<seq<(Str, Str)>> {
    DecodeFields(Split(q, "&"))
  }

  /** A field whose name has no `=` and whose name and value decode to
      themselves reads back as that pair. */
  lemma DecodeNamedField(name: Str, raw: Str, value: Str)
    requires !Contains(name, "=")
    requires QueryUnescape(name) == Some(name) && QueryUnescape(raw) == Some(value)
    ensures DecodeField(name + "=" + raw) == Some((name, value))
  {
    var f := name + "=" + raw;
    assert OccursAt(f, "=", |name|);
    var m := Index(f, "=");
    if m != |name| {
      assert m < |name|;
      assert f[m..m + 1] == name[m..m + 1];
      assert OccursAt(name, "=", m);
      assert false;
    }
    assert f[..m] == name;
    assert f[m + 1..] == raw;
    assert SplitN(f[m + 1..], "=", 1) == [raw];
    assert SplitN(f, "=", 2) == [name, raw];
  }

  /** A field without `=` reads back as a name with an empty value. */
  lemma DecodeBareField(raw: Str, name: Str)
    requires !Contains(raw, "=") && QueryUnescape(raw) == Some(name)
    ensures DecodeField(raw) == Some((name, []))
  {
    if Index(raw, "=") != -1 {
      assert Contains(raw, "=");
    }
  }
}
