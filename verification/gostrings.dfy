/** Byte strings and the Go standard-library routines on them that the CGI
    provider uses: strings.Index, strings.SplitN, strings.Split,
    strings.HasPrefix, strings.TrimSpace, strconv.Atoi and strconv.Itoa. */
module GoStrings {
  import opened Wrappers

  /** A Go string is a sequence of bytes; a byte is written as a char below 256. */
  type Byte = c: char | c as int < 256
  type Str = seq<Byte>

  /** `sep` occurs in `s` starting at position `i`. */
  predicate OccursAt(s: Str, sep: Str, i: int) {
    0 <= i && i + |sep| <= |s| && s[i..i + |sep|] == sep
  }

  lemma OccurrenceStartsWithSep(s: Str, sep: Str, i: int)
    requires |sep| > 0
    ensures OccursAt(s, sep, i) ==> s[i] == sep[0]
  {
    if OccursAt(s, sep, i) {
      assert s[i..i + |sep|][0] == s[i];
    }
  }

  predicate Contains(s: Str, sep: Str) {
    exists i | 0 <= i <= |s| :: OccursAt(s, sep, i)
  }

  lemma ShiftOccurrence(s: Str, sep: Str)
    requires |s| > 0
    ensures forall i :: 1 <= i ==> (OccursAt(s, sep, i) <==> OccursAt(s[1..], sep, i - 1))
  {
    forall i | 1 <= i
      ensures OccursAt(s, sep, i) <==> OccursAt(s[1..], sep, i - 1)
    {
      if i + |sep| <= |s| {
        assert s[1..][i - 1..i - 1 + |sep|] == s[i..i + |sep|];
      }
    }
  }

  /** strings.Index: the first position at which `sep` occurs in `s`, or -1. */
  function Index(s: Str, sep: Str): (r: int)
    requires |sep| > 0
    ensures r == -1 || OccursAt(s, sep, r)
    ensures forall i :: 0 <= i && (r == -1 || i < r) ==> !OccursAt(s, sep, i)
    decreases |s|
  {
    if |s| < |sep| then -1
    else if s[..|sep|] == sep then 0
    else
      var r := Index(s[1..], sep);
      ShiftOccurrence(s, sep);
      if r == -1 then -1 else r + 1
  }

  /** Index finds an occurrence exactly when there is one. */
  lemma IndexFindsContained(s: Str, sep: Str)
    requires |sep| > 0
    ensures Index(s, sep) != -1 <==> Contains(s, sep)
  {
    if Contains(s, sep) {
      var i :| 0 <= i <= |s| && OccursAt(s, sep, i);
    }
  }

  /** strings.Join. */
  function Join(parts: seq<Str>, sep: Str): Str {
    if |parts| == 0 then []
    else if |parts| == 1 then parts[0]
    else parts[0] + sep + Join(parts[1..], sep)
  }

  /** An occurrence inside a prefix of `s` is an occurrence in `s`. */
  lemma OccursInPrefix(s: Str, sep: Str, m: nat, i: int)
    requires m <= |s| && OccursAt(s[..m], sep, i)
    ensures OccursAt(s, sep, i)
  {
    assert s[..m][i..i + |sep|] == s[i..i + |sep|];
  }

  /** The text before the first occurrence of `sep` does not contain `sep`. */
  lemma PrefixBeforeIndex(s: Str, sep: Str)
    requires |sep| > 0 && Index(s, sep) >= 0
    ensures !Contains(s[..Index(s, sep)], sep)
  {
    var m := Index(s, sep);
    if Contains(s[..m], sep) {
      var i :| OccursAt(s[..m], sep, i);
      OccursInPrefix(s, sep, m, i);
    }
  }

  lemma SplitAtIndex(s: Str, sep: Str, m: nat)
    requires m + |sep| <= |s| && OccursAt(s, sep, m)
    ensures s == s[..m] + sep + s[m + |sep|..]
  {
    assert s[m..m + |sep|] == sep;
    assert s == s[..m] + s[m..m + |sep|] + s[m + |sep|..];
  }

  /** strings.SplitN(s, sep, n) for n >= 1 and a non-empty separator: at most
      n pieces, cut at the leftmost occurrences of `sep`.  (Go first lowers n
      to len(s)+1, which never changes the result for a non-empty separator.) */
  function SplitN(s: Str, sep: Str, n: nat): (parts: seq<Str>)
    requires |sep| > 0 && n >= 1
    ensures 1 <= |parts| <= n
    ensures Join(parts, sep) == s
    ensures forall i :: 0 <= i < |parts| - 1 ==> !Contains(parts[i], sep)
    ensures |parts| < n ==> !Contains(parts[|parts| - 1], sep)
    ensures forall i :: 0 <= i < |parts| - 1 ==> Index(Join(parts[i..], sep), sep) == |parts[i]|
    decreases n
  {
    var m := Index(s, sep);
    if n == 1 || m == -1 then [s]
    else
      PrefixBeforeIndex(s, sep);
      SplitAtIndex(s, sep, m);
      var rest := SplitN(s[m + |sep|..], sep, n - 1);
      var parts := [s[..m]] + rest;
      assert Join(parts, sep) == s;
      forall i | 0 <= i < |parts| - 1
        ensures Index(Join(parts[i..], sep), sep) == |parts[i]|
      {
        if i == 0 {
          assert parts[i..] == parts;
        } else {
          assert parts[i..] == rest[i - 1..];
        }
      }
      parts
  }

  /** strings.Split(s, sep) for a non-empty separator: cut at every
      occurrence of `sep`, scanning left to right. */
  function Split(s: Str, sep: Str): (parts: seq<Str>)
    requires |sep| > 0
    ensures |parts| >= 1
    ensures Join(parts, sep) == s
    ensures forall i :: 0 <= i < |parts| ==> !Contains(parts[i], sep)
    decreases |s|
  {
    var m := Index(s, sep);
    if m == -1 then [s]
    else
      PrefixBeforeIndex(s, sep);
      SplitAtIndex(s, sep, m);
      [s[..m]] + Split(s[m + |sep|..], sep)
  }

  /** The text of `s` before the first occurrence of `sep`, or all of `s`
      when there is none. */
  function Before(s: Str, sep: Str): (r: Str)
    requires |sep| > 0
    ensures !Contains(r, sep)
  {
    var m := Index(s, sep);
    if m == -1 then s
    else
      PrefixBeforeIndex(s, sep);
      s[..m]
  }

  /** With room for two pieces or more, SplitN's first piece is the text
      before the first separator. */
  lemma SplitNHead(s: Str, sep: Str, n: nat)
    requires |sep| > 0 && n >= 2
    ensures SplitN(s, sep, n)[0] == Before(s, sep)
  {
  }

  /** Split's first piece is the text before the first separator. */
  lemma SplitHead(s: Str, sep: Str)
    requires |sep| > 0
    ensures Split(s, sep)[0] == Before(s, sep)
  {
  }

  /** `s` ends with `suffix`. */
  predicate EndsWith(s: Str, suffix: Str) {
    |suffix| <= |s| && s[|s| - |suffix|..] == suffix
  }

  /** strings.HasPrefix. */
  predicate HasPrefix(s: Str, prefix: Str) {
    |prefix| <= |s| && s[..|prefix|] == prefix
  }

  /** The ASCII white-space bytes strings.TrimSpace removes. */
  predicate IsSpace(c: Byte) {
    c == ' ' || c == '\t' || c == '\n' || c == '\U{000B}' || c == '\U{000C}' || c == '\r'
  }

  predicate AllSpace(s: Str) {
    forall i :: 0 <= i < |s| ==> IsSpace(s[i])
  }

  /** `s` has no white space at either end. */
  predicate IsTrimmed(s: Str) {
    |s| == 0 || (!IsSpace(s[0]) && !IsSpace(s[|s| - 1]))
  }

  /** `s` is `r` with only white space added before and after it, the
      white-space run before `r` being `s[..i]`. */
  predicate PaddedAt(s: Str, r: Str, i: int) {
    0 <= i && i + |r| <= |s| && s[i..i + |r|] == r && AllSpace(s[..i]) && AllSpace(s[i + |r|..])
  }

  function TrimLeftSpace(s: Str): (r: Str)
    ensures |r| <= |s| && r == s[|s| - |r|..]
    ensures AllSpace(s[..|s| - |r|])
    ensures |r| == 0 || !IsSpace(r[0])
    decreases |s|
  {
    if |s| > 0 && IsSpace(s[0]) then TrimLeftSpace(s[1..]) else s
  }

  function TrimRightSpace(s: Str): (r: Str)
    ensures |r| <= |s| && r == s[..|r|]
    ensures AllSpace(s[|r|..])
    ensures |r| == 0 || !IsSpace(r[|r| - 1])
    decreases |s|
  {
    if |s| > 0 && IsSpace(s[|s| - 1]) then TrimRightSpace(s[..|s| - 1]) else s
  }

  /** strings.TrimSpace over ASCII white space: the longest infix of `s`
      that neither starts nor ends with white space, all that is cut away
      being white space. */
  function TrimSpace(s: Str): (r: Str)
    ensures IsTrimmed(r)
    ensures PaddedAt(s, r, |s| - |TrimLeftSpace(s)|)
  {
    TrimBothPadded(s);
    TrimRightSpace(TrimLeftSpace(s))
  }

  lemma TrimBothPadded(s: Str)
    ensures PaddedAt(s, TrimRightSpace(TrimLeftSpace(s)), |s| - |TrimLeftSpace(s)|)
  {
    var l := TrimLeftSpace(s);
    var r := TrimRightSpace(l);
    assert |l| <= |s| && l == s[|s| - |l|..] && AllSpace(s[..|s| - |l|]);
    assert |r| <= |l| && r == l[..|r|] && AllSpace(l[|r|..]);
    PaddedInside(s, l, r);
  }

  /** `r` cut from the front of the tail `l` of `s`, with only white space
      before `l` and after `r`, is `s` padded. */
  lemma PaddedInside(s: Str, l: Str, r: Str)
    requires |l| <= |s| && l == s[|s| - |l|..] && AllSpace(s[..|s| - |l|])
    requires |r| <= |l| && r == l[..|r|] && AllSpace(l[|r|..])
    ensures PaddedAt(s, r, |s| - |l|)
  {
    var k := |s| - |l|;
    assert s[k..k + |r|] == l[..|r|];
    assert s[k + |r|..] == l[|r|..];
  }

  lemma {:induction false} TrimLeftSpacePrefix(pre: Str, x: Str)
    requires AllSpace(pre)
    ensures TrimLeftSpace(pre + x) == TrimLeftSpace(x)
    decreases |pre|
  {
    if |pre| > 0 {
      var s := pre + x;
      assert s[0] == pre[0] && IsSpace(s[0]);
      assert TrimLeftSpace(s) == TrimLeftSpace(s[1..]);
      assert s[1..] == pre[1..] + x;
      assert AllSpace(pre[1..]) by {
        forall i | 0 <= i < |pre[1..]| ensures IsSpace(pre[1..][i]) {
          assert pre[1..][i] == pre[i + 1];
        }
      }
      TrimLeftSpacePrefix(pre[1..], x);
    } else {
      assert pre + x == x;
    }
  }

  lemma {:induction false} TrimRightSpaceSuffix(x: Str, post: Str)
    requires AllSpace(post)
    ensures TrimRightSpace(x + post) == TrimRightSpace(x)
    decreases |post|
  {
    if |post| > 0 {
      var s := x + post;
      var front := post[..|post| - 1];
      assert s[|s| - 1] == post[|post| - 1] && IsSpace(s[|s| - 1]);
      assert TrimRightSpace(s) == TrimRightSpace(s[..|s| - 1]);
      assert s[..|s| - 1] == x + front;
      assert AllSpace(front) by {
        forall i | 0 <= i < |front| ensures IsSpace(front[i]) {
          assert front[i] == post[i];
        }
      }
      TrimRightSpaceSuffix(x, front);
    } else {
      assert x + post == x;
    }
  }

  /** Trimming removes exactly the padding: a trimmed string with white
      space added on both sides trims back to itself. */
  lemma TrimSpacePadded(pre: Str, r: Str, post: Str)
    requires AllSpace(pre) && AllSpace(post) && IsTrimmed(r)
    ensures TrimSpace(pre + r + post) == r
  {
    assert pre + r + post == pre + (r + post);
    TrimLeftSpacePrefix(pre, r + post);
    if |r| == 0 {
      assert r + post == post;
      assert TrimLeftSpace(post) == [];
    } else {
      assert TrimLeftSpace(r + post) == r + post;
      TrimRightSpaceSuffix(r, post);
    }
  }

  predicate IsDigit(c: Byte) {
    '0' <= c <= '9'
  }

  predicate AllDigits(s: Str) {
    forall i :: 0 <= i < |s| ==> IsDigit(s[i])
  }

  /** The number a run of decimal digits denotes, most significant first. */
  function DigitsValue(ds: Str): nat
    requires AllDigits(ds)
    decreases |ds|
  {
    if |ds| == 0 then 0
    else DigitsValue(ds[..|ds| - 1]) * 10 + (ds[|ds| - 1] as int - '0' as int)
  }

  /** strconv.Atoi: an optional sign followed by at least one decimal digit,
      read as the positional value of the digits, or a syntax error.  Go's
      clamping of out-of-range values is not modelled. */
  function Atoi(s: Str): (r: Option<int>)
    ensures r.Some? <==> (|s| > 0 && AllDigits(s)) || (|s| > 1 && (s[0] == '+' || s[0] == '-') && AllDigits(s[1..]))
    ensures |s| > 0 && AllDigits(s) ==> r == Some(DigitsValue(s))
    ensures |s| > 1 && s[0] == '+' && AllDigits(s[1..]) ==> r == Some(DigitsValue(s[1..]))
    ensures |s| > 1 && s[0] == '-' && AllDigits(s[1..]) ==> r.Some? && r.value == -(DigitsValue(s[1..]) as int)
  {
    if |s| > 0 && (s[0] == '+' || s[0] == '-') then
      if |s| > 1 && AllDigits(s[1..]) then
        var v: int := DigitsValue(s[1..]);
        Some(if s[0] == '-' then -v else v)
      else None
    else if |s| > 0 && AllDigits(s) then Some(DigitsValue(s))
    else None
  }

  /** `v, _ := strconv.Atoi(s)`: a syntax error yields 0. */
  function AtoiOrZero(s: Str): int {
    match Atoi(s)
    case Some(v) => v
    case None => 0
  }

  function DigitChar(d: nat): (c: Byte)
    requires d < 10
    ensures IsDigit(c) && c as int - '0' as int == d
  {
    ('0' as int + d) as char
  }

  /** The canonical decimal digits of `n`: no leading zero except for 0 itself. */
  function NatToDecimal(n: nat): (s: Str)
    ensures |s| > 0 && AllDigits(s) && DigitsValue(s) == n
    ensures s[0] == '0' ==> n == 0
    decreases n
  {
    if n < 10 then [DigitChar(n)]
    else
      var s := NatToDecimal(n / 10) + [DigitChar(n % 10)];
      assert s[..|s| - 1] == NatToDecimal(n / 10);
      s
  }

  /** Digits without a leading zero, or the single digit 0. */
  predicate IsCanonicalDigits(ds: Str) {
    |ds| > 0 && AllDigits(ds) && (ds[0] == '0' ==> |ds| == 1)
  }

  /** The decimal text strconv.Itoa writes: canonical digits, or a minus
      sign followed by canonical digits other than 0. */
  predicate IsCanonicalDecimal(s: Str) {
    IsCanonicalDigits(s) || (|s| > 1 && s[0] == '-' && IsCanonicalDigits(s[1..]) && s[1] != '0')
  }

  /** strconv.Itoa, and fmt's `%d` verb: the canonical decimal text that
      Atoi reads back as `n`. */
  function Itoa(n: int): (s: Str)
    ensures IsCanonicalDecimal(s)
    ensures Atoi(s) == Some(n)
  {
    if n < 0 then
      var s := "-" + NatToDecimal(-n);
      assert s[1..] == NatToDecimal(-n);
      s
    else NatToDecimal(n)
  }

  /** Digits with a leading digit other than 0 denote a positive number. */
  lemma {:induction false} LeadingDigitPositive(ds: Str)
    requires |ds| > 0 && AllDigits(ds) && ds[0] != '0'
    ensures DigitsValue(ds) >= 1
    decreases |ds|
  {
    if |ds| > 1 {
      var init := ds[..|ds| - 1];
      assert init[0] == ds[0];
      LeadingDigitPositive(init);
    }
  }

  /** Canonical digits are the decimal text of the number they denote. */
  lemma {:induction false} CanonicalDigitsRoundTrip(ds: Str)
    requires IsCanonicalDigits(ds)
    ensures NatToDecimal(DigitsValue(ds)) == ds
    decreases |ds|
  {
    var v := DigitsValue(ds);
    var last := ds[|ds| - 1];
    var d := last as int - '0' as int;
    if |ds| == 1 {
      assert ds[..0] == [];
      assert DigitChar(d) == last;
    } else {
      var init := ds[..|ds| - 1];
      assert init[0] == ds[0] != '0';
      LeadingDigitPositive(init);
      CanonicalDigitsRoundTrip(init);
      assert v / 10 == DigitsValue(init) && v % 10 == d;
      assert DigitChar(d) == last;
      assert ds == init + [last];
    }
  }

  /** Itoa writes a canonical decimal text back exactly: with Itoa's own
      contract, Atoi and Itoa are inverse on canonical decimals. */
  lemma ItoaAtoi(s: Str)
    requires IsCanonicalDecimal(s)
    ensures Atoi(s).Some? && Itoa(Atoi(s).value) == s
  {
    if IsCanonicalDigits(s) {
      assert Atoi(s) == Some(DigitsValue(s));
      CanonicalDigitsRoundTrip(s);
    } else {
      var ds := s[1..];
      var v := DigitsValue(ds);
      assert Atoi(s) == Some(-(v as int));
      LeadingDigitPositive(ds);
      CanonicalDigitsRoundTrip(ds);
      assert Itoa(-(v as int)) == "-" + NatToDecimal(v);
      assert s == "-" + ds;
    }
  }

  /** When `p` holds no byte that starts `sep`, the first occurrence of `sep`
      in `p + rest` can start no earlier than the end of `p`. */
  lemma IndexAfterFreePrefix(p: Str, rest: Str, sep: Str)
    requires |sep| > 0 && OccursAt(p + rest, sep, |p|)
    requires forall j :: 0 <= j < |p| ==> p[j] != sep[0]
    ensures Index(p + rest, sep) == |p|
  {
    var s := p + rest;
    forall i | 0 <= i < |p| ensures !OccursAt(s, sep, i) {
      OccurrenceStartsWithSep(s, sep, i);
      assert s[i] == p[i];
    }
  }

  /** If no part contains the first byte of `sep`, splitting the joined text
      at `sep` gives the parts back. */
  lemma {:induction false} SplitJoin(parts: seq<Str>, sep: Str)
    requires |parts| >= 1 && |sep| > 0
    requires forall i, j :: 0 <= i < |parts| && 0 <= j < |parts[i]| ==> parts[i][j] != sep[0]
    ensures Split(Join(parts, sep), sep) == parts
    decreases |parts|
  {
    var s := Join(parts, sep);
    var p := parts[0];
    if |parts| == 1 {
      forall i | 0 <= i <= |s| ensures !OccursAt(s, sep, i) {
        OccurrenceStartsWithSep(s, sep, i);
      }
    } else {
      var rest := Join(parts[1..], sep);
      assert s == p + sep + rest;
      assert OccursAt(s, sep, |p|) by {
        assert s[|p|..|p| + |sep|] == sep;
      }
      assert s == p + (sep + rest);
      IndexAfterFreePrefix(p, sep + rest, sep);
      var m := Index(s, sep);
      assert s[..m] == p;
      assert s[m + |sep|..] == rest;
      SplitJoin(parts[1..], sep);
    }
  }

  /** An occurrence in `x` is one in `p + x`, shifted by the length of `p`. */
  lemma ShiftedOccurrence(p: Str, x: Str, sep: Str, j: int)
    requires 0 <= j
    ensures OccursAt(p + x, sep, |p| + j) <==> OccursAt(x, sep, j)
  {
    if j + |sep| <= |x| {
      assert (p + x)[|p| + j..|p| + j + |sep|] == x[j..j + |sep|];
    }
  }

  /** When nothing occurs inside `p`, searching `p + x` is searching `x`,
      shifted by the length of `p`. */
  lemma IndexShift(p: Str, x: Str, sep: Str)
    requires |sep| > 0
    requires forall i :: 0 <= i < |p| ==> !OccursAt(p + x, sep, i)
    ensures Index(p + x, sep) == if Index(x, sep) == -1 then -1 else |p| + Index(x, sep)
  {
    var r := Index(p + x, sep);
    var rx := Index(x, sep);
    if r != -1 {
      assert r >= |p|;
      ShiftedOccurrence(p, x, sep, r - |p|);
      assert rx != -1 && rx <= r - |p|;
    }
    if rx != -1 {
      ShiftedOccurrence(p, x, sep, rx);
      assert r != -1 && r <= |p| + rx;
    }
  }

  /** A joined text starts with its first part. */
  lemma JoinStart(parts: seq<Str>, sep: Str)
    requires |parts| >= 1
    ensures |parts[0]| <= |Join(parts, sep)| && Join(parts, sep)[..|parts[0]|] == parts[0]
  {
  }
}
