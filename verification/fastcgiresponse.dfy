/** ParseFastCgiResponse: how the CGI provider reads the raw output of the
    FastCGI responder, a header block and a body separated by the first blank
    line, with an optional leading Status line (section 6.3.3 of RFC 3875). */
module FastCgiResponse {
  import opened Wrappers
  import opened GoStrings

  const HeaderBodySeparator: Str := "\r\n\r\n"
  const LineSeparator: Str := "\r\n"
  const StatusPrefix: Str := "Status:"
  const StatusName: Str := "Status"
  const DefaultStatus: int := 200
  const UnparsableStatus: int := 502
  const UnparsableMessage: Str := "Cannot parse FastCGI Response"

  /** The parsed output: status code, header map and body. */
  datatype Fcgi = Fcgi(status: int, headers: map<Str, Str>, body: Str)

  /** ParseFastCgiResponse's results when it does not panic: a parsed
      output, or the error return carrying status 502 and no headers or body. */
  datatype ParseResult = Parsed(response: Fcgi) | Unparsable(status: int, message: Str)

  /** The status a header block's first line announces.  A `Status:` line
      is split at single spaces and its second piece read with Atoi; a
      `Status:` line with no space at all has no second piece, and indexing
      it panics. */
  function StatusOf(first: Str): GoOutcome<int> {
    if HasPrefix(first, StatusPrefix) then
      var lineParts := SplitN(first, " ", 3);
      if |lineParts| < 2 then Panics else Returns(AtoiOrZero(lineParts[1]))
    else Returns(DefaultStatus)
  }

  /** One turn of the header loop: a line is cut at its first colon; a line
      without one, or one named `Status`, is skipped; otherwise its trimmed
      value is stored under its name, replacing any earlier value. */
  function AddHeaderLine(headers: map<Str, Str>, line: Str): map<Str, Str> {
    var lineParts := SplitN(line, ":", 2);
    if |lineParts| < 2 || lineParts[0] == StatusName then headers
    else headers[lineParts[0] := TrimSpace(lineParts[1])]
  }

  /** The header loop over every line of the header block, in order. */
  function CollectHeaders(lines: seq<Str>, headers: map<Str, Str>): map<Str, Str>
    decreases |lines|
  {
    if |lines| == 0 then headers
    else CollectHeaders(lines[1..], AddHeaderLine(headers, lines[0]))
  }

  /** ParseFastCgiResponse. */
  function ParseFastCgiResponse(content: Str): GoOutcome<ParseResult> {
    var parts := SplitN(content, HeaderBodySeparator, 2);
    if |parts| < 2 then Returns(Unparsable(UnparsableStatus, UnparsableMessage))
    else
      var headerParts := Split(parts[0], LineSeparator);
      var body := parts[1];
      match StatusOf(headerParts[0])
      case Panics => Panics
      case Returns(status) => Returns(Parsed(Fcgi(status, CollectHeaders(headerParts, map[]), body)))
  }

  // ---------------------------------------------------------------------
  // Header lines, described independently of the loop

  /** A header line carries a field when it contains a colon. */
  predicate IsField(line: Str) {
    Contains(line, ":")
  }

  /** The field name: everything before the first colon, untrimmed. */
  function FieldName(line: Str): Str
    requires IsField(line)
  {
    line[..Index(line, ":")]
  }

  /** The field value: everything after the first colon, trimmed. */
  function FieldValue(line: Str): Str
    requires IsField(line)
  {
    TrimSpace(line[Index(line, ":") + 1..])
  }

  /** What one header line contributes: its name and trimmed value when it
      has a colon, nothing otherwise. */
  function Entry(line: Str): Option<(Str, Str)> {
    if IsField(line) then Some((FieldName(line), FieldValue(line))) else None
  }

  /** The entries of a header block, line by line. */
  function Entries(lines: seq<Str>): (es: seq<Option<(Str, Str)>>)
    ensures |es| == |lines|
    ensures forall i :: 0 <= i < |lines| ==> es[i] == Entry(lines[i])
  {
    seq(|lines|, i requires 0 <= i < |lines| => Entry(lines[i]))
  }

  /** Entry `i` names `k`. */
  predicate Declares<K(==), V>(es: seq<Option<(K, V)>>, i: int, k: K) {
    0 <= i < |es| && es[i].Some? && es[i].value.0 == k
  }

  /** Entry `i` is the last entry that names `k`. */
  predicate IsLastDeclaration<K(==), V>(es: seq<Option<(K, V)>>, i: int, k: K) {
    Declares(es, i, k) && forall j :: i < j < |es| ==> !Declares(es, j, k)
  }

  /** The value the last entry naming `k` gives it, if any entry does. */
  function LastValue<K(==), V>(es: seq<Option<(K, V)>>, k: K): Option<V>
    decreases |es|
  {
    if |es| == 0 then None
    else
      var last := es[|es| - 1];
      if last.Some? && last.value.0 == k then Some(last.value.1)
      else LastValue(es[..|es| - 1], k)
  }

  /** Storing one entry unless it is missing or named `skip`. */
  function Put<K(==), V>(acc: map<K, V>, e: Option<(K, V)>, skip: K): map<K, V> {
    if e.Some? && e.value.0 != skip then acc[e.value.0 := e.value.1] else acc
  }

  /** Storing entries in order, skipping those named `skip`. */
  function Store<K(==), V>(es: seq<Option<(K, V)>>, skip: K, acc: map<K, V>): map<K, V>
    decreases |es|
  {
    if |es| == 0 then acc else Store(es[1..], skip, Put(acc, es[0], skip))
  }

  /** Cutting a line at its first colon gives its raw name and value. */
  lemma SplitAtColon(line: Str)
    ensures IsField(line) ==> SplitN(line, ":", 2) == [FieldName(line), line[Index(line, ":") + 1..]]
    ensures !IsField(line) ==> SplitN(line, ":", 2) == [line]
  {
    IndexFindsContained(line, ":");
    if IsField(line) {
      var m := Index(line, ":");
      assert SplitN(line[m + 1..], ":", 1) == [line[m + 1..]];
    }
  }

  /** One turn of the header loop stores the line's entry unless it is
      named `Status`. */
  lemma AddHeaderLinePuts(acc: map<Str, Str>, line: Str)
    ensures AddHeaderLine(acc, line) == Put(acc, Entry(line), StatusName)
  {
    if IsField(line) {
      AddFieldLine(acc, line);
    } else {
      AddPlainLine(acc, line);
    }
  }

  lemma AddFieldLine(acc: map<Str, Str>, line: Str)
    requires IsField(line)
    ensures AddHeaderLine(acc, line)
            == if FieldName(line) == StatusName then acc else acc[FieldName(line) := FieldValue(line)]
  {
    SplitAtColon(line);
  }

  lemma AddPlainLine(acc: map<Str, Str>, line: Str)
    requires !IsField(line)
    ensures AddHeaderLine(acc, line) == acc
  {
    SplitAtColon(line);
  }

  /** The header loop stores the entries of the lines, skipping `Status`. */
  lemma {:induction false} CollectHeadersStores(lines: seq<Str>, acc: map<Str, Str>)
    ensures CollectHeaders(lines, acc) == Store(Entries(lines), StatusName, acc)
    decreases |lines|
  {
    if |lines| > 0 {
      var es := Entries(lines);
      AddHeaderLinePuts(acc, lines[0]);
      assert es[1..] == Entries(lines[1..]);
      CollectHeadersStores(lines[1..], AddHeaderLine(acc, lines[0]));
    }
  }

  /** Storing one more entry is one more update at the end. */
  lemma {:induction false} StoreSnoc<K, V>(es: seq<Option<(K, V)>>, e: Option<(K, V)>, skip: K, acc: map<K, V>)
    ensures Store(es + [e], skip, acc) == Put(Store(es, skip, acc), e, skip)
    decreases |es|
  {
    if |es| == 0 {
      assert (es + [e])[1..] == [];
    } else {
      assert (es + [e])[1..] == es[1..] + [e];
      StoreSnoc(es[1..], e, skip, Put(acc, es[0], skip));
    }
  }

  /** Storing from nothing keeps, for every name but `skip`, the value of
      the last entry naming it. */
  lemma {:induction false} StoreLastValue<K, V>(es: seq<Option<(K, V)>>, skip: K)
    ensures forall k :: k in Store(es, skip, map[]) <==> k != skip && LastValue(es, k).Some?
    ensures forall k :: k in Store(es, skip, map[]) ==> Store(es, skip, map[])[k] == LastValue(es, k).value
    decreases |es|
  {
    if |es| > 0 {
      var init := es[..|es| - 1];
      assert init + [es[|es| - 1]] == es;
      StoreLastValue(init, skip);
      StoreSnoc(init, es[|es| - 1], skip, map[]);
    }
  }

  /** Some entry names `k` exactly when the scan from the end finds one. */
  lemma {:induction false} LastValueFindsDeclaration<K, V>(es: seq<Option<(K, V)>>, k: K)
    ensures LastValue(es, k).Some? <==> exists i :: Declares(es, i, k)
    decreases |es|
  {
    if |es| > 0 {
      var n := |es| - 1;
      var init := es[..n];
      LastValueFindsDeclaration(init, k);
      if es[n].Some? && es[n].value.0 == k {
        assert Declares(es, n, k);
      } else {
        if i :| Declares(es, i, k) {
          assert Declares(init, i, k);
        }
        if i :| Declares(init, i, k) {
          assert Declares(es, i, k);
        }
      }
    }
  }

  /** The scan from the end yields the value of the last entry naming `k`. */
  lemma {:induction false} LastValueOfLastDeclaration<K, V>(es: seq<Option<(K, V)>>, k: K, i: int)
    requires IsLastDeclaration(es, i, k)
    ensures LastValue(es, k) == Some(es[i].value.1)
    decreases |es|
  {
    var n := |es| - 1;
    if i < n {
      var init := es[..n];
      assert !Declares(es, n, k);
      forall j | i < j < |init| ensures !Declares(init, j, k) {
        assert !Declares(es, j, k);
      }
      LastValueOfLastDeclaration(init, k, i);
    }
  }

  /** Storing from nothing keeps one entry per name but `skip` that some
      entry names, holding the value of the last entry naming it. */
  lemma StoreContents<K, V>(es: seq<Option<(K, V)>>, skip: K)
    ensures forall k :: k in Store(es, skip, map[]) <==> k != skip && exists i :: Declares(es, i, k)
    ensures forall i, k :: IsLastDeclaration(es, i, k) && k != skip ==>
              k in Store(es, skip, map[]) && Store(es, skip, map[])[k] == es[i].value.1
  {
    StoreLastValue(es, skip);
    forall k ensures LastValue(es, k).Some? <==> exists i :: Declares(es, i, k) {
      LastValueFindsDeclaration(es, k);
    }
    forall i, k | IsLastDeclaration(es, i, k) && k != skip
      ensures k in Store(es, skip, map[]) && Store(es, skip, map[])[k] == es[i].value.1
    {
      LastValueOfLastDeclaration(es, k, i);
    }
  }

  /** The header map of a header block: one entry per name some line
      declares (the text before its first colon), except `Status`, holding
      the trimmed value of the LAST line declaring it; colon-less lines add
      nothing. */
  lemma HeaderMapContents(lines: seq<Str>)
    ensures forall k :: k in CollectHeaders(lines, map[]) <==> k != StatusName && exists i :: Declares(Entries(lines), i, k)
    ensures forall i, k :: IsLastDeclaration(Entries(lines), i, k) && k != StatusName ==>
              k in CollectHeaders(lines, map[]) && CollectHeaders(lines, map[])[k] == FieldValue(lines[i])
  {
    var es := Entries(lines);
    CollectHeadersStores(lines, map[]);
    StoreContents(es, StatusName);
    forall i, k | IsLastDeclaration(es, i, k) && k != StatusName
      ensures es[i].value.1 == FieldValue(lines[i])
    {
      assert es[i] == Entry(lines[i]);
    }
  }

  // ---------------------------------------------------------------------
  // The status line and the cut between header block and body

  /** The first line of a header block. */
  function FirstLine(block: Str): Str {
    Before(block, LineSeparator)
  }

  /** The status field of a line: the text after its first space, up to the
      next space or the end of the line. */
  function StatusField(line: Str): Str
    requires Contains(line, " ")
  {
    IndexFindsContained(line, " ");
    Before(line[Index(line, " ") + 1..], " ")
  }

  /** The status a first line announces: 200 when it does not start with
      `Status:`; otherwise its status field read as a decimal, 0 when that
      is not one; and a panic when a `Status:` line holds no space. */
  lemma StatusOfLine(first: Str)
    ensures !HasPrefix(first, StatusPrefix) ==> StatusOf(first) == Returns(DefaultStatus)
    ensures HasPrefix(first, StatusPrefix) && !Contains(first, " ") ==> StatusOf(first) == Panics
    ensures HasPrefix(first, StatusPrefix) && Contains(first, " ") ==>
              StatusOf(first) == Returns(AtoiOrZero(StatusField(first)))
  {
    IndexFindsContained(first, " ");
    if Contains(first, " ") {
      var m := Index(first, " ");
      SplitNHead(first[m + 1..], " ", 2);
    }
  }

  /** Without a blank line the output is unparsable (status 502); with one,
      it is never reported unparsable. */
  lemma UnparsableWithoutBlankLine(content: Str)
    ensures !Contains(content, HeaderBodySeparator) <==>
              ParseFastCgiResponse(content) == Returns(Unparsable(UnparsableStatus, UnparsableMessage))
    ensures forall r :: ParseFastCgiResponse(content) == Returns(r) ==> (r.Unparsable? <==> !Contains(content, HeaderBodySeparator))
  {
    IndexFindsContained(content, HeaderBodySeparator);
  }

  /** What a response with a blank line parses to: the header block is the
      text before the FIRST blank line and the body everything after it; the
      status comes from the block's first line, a `Status:` first line
      without a space panics; the headers are those the block's lines
      declare, as HeaderMapContents describes. */
  lemma ParseFastCgiResponseContents(content: Str)
    requires Contains(content, HeaderBodySeparator)
    ensures var i := Index(content, HeaderBodySeparator);
            0 <= i && i + |HeaderBodySeparator| <= |content|
            && content == content[..i] + HeaderBodySeparator + content[i + |HeaderBodySeparator|..]
            && !Contains(content[..i], HeaderBodySeparator)
    ensures var i := Index(content, HeaderBodySeparator);
            var first := FirstLine(content[..i]);
            ParseFastCgiResponse(content).Panics? <==> HasPrefix(first, StatusPrefix) && !Contains(first, " ")
    ensures var i := Index(content, HeaderBodySeparator);
            var first := FirstLine(content[..i]);
            var lines := Split(content[..i], LineSeparator);
            ParseFastCgiResponse(content).Returns? ==>
              var r := ParseFastCgiResponse(content).value;
              r.Parsed?
              && r.response.body == content[i + |HeaderBodySeparator|..]
              && r.response.status == (if HasPrefix(first, StatusPrefix) then AtoiOrZero(StatusField(first)) else DefaultStatus)
              && (forall k :: k in r.response.headers <==> k != StatusName && exists j :: Declares(Entries(lines), j, k))
              && (forall j, k :: IsLastDeclaration(Entries(lines), j, k) && k != StatusName ==>
                    k in r.response.headers && r.response.headers[k] == FieldValue(lines[j]))
  {
    IndexFindsContained(content, HeaderBodySeparator);
    var i := Index(content, HeaderBodySeparator);
    PrefixBeforeIndex(content, HeaderBodySeparator);
    SplitAtIndex(content, HeaderBodySeparator, i);
    var block := content[..i];
    assert SplitN(content[i + |HeaderBodySeparator|..], HeaderBodySeparator, 1) == [content[i + |HeaderBodySeparator|..]];
    assert SplitN(content, HeaderBodySeparator, 2) == [block, content[i + |HeaderBodySeparator|..]];
    var lines := Split(block, LineSeparator);
    SplitHead(block, LineSeparator);
    StatusOfLine(FirstLine(block));
    HeaderMapContents(lines);
  }

  // ---------------------------------------------------------------------
  // Output as a well-behaved script writes it (section 6 of RFC 3875)

  /** A script's output: an optional status (code and reason phrase),
      header fields in the order written, and a body. */
  datatype CgiOutput = CgiOutput(status: Option<(int, Str)>, fields: seq<(Str, Str)>, body: Str)

  predicate NoLineBreak(s: Str) {
    forall j :: 0 <= j < |s| ==> s[j] != '\r' && s[j] != '\n'
  }

  predicate NoColon(s: Str) {
    forall j :: 0 <= j < |s| ==> s[j] != ':'
  }

  /** A field name: no colon, no line break, and not the `Status` field. */
  predicate IsFieldName(name: Str) {
    NoColon(name) && NoLineBreak(name) && name != StatusName
  }

  /** Field names are pairwise distinct. */
  predicate DistinctNames<K(==), V>(fields: seq<(K, V)>) {
    forall i, j :: 0 <= i < j < |fields| ==> fields[i].0 != fields[j].0
  }

  predicate WellFormed(o: CgiOutput) {
    (o.status.Some? ==> NoLineBreak(o.status.value.1))
    && (forall i :: 0 <= i < |o.fields| ==>
          IsFieldName(o.fields[i].0) && NoLineBreak(o.fields[i].1) && IsTrimmed(o.fields[i].1))
    && DistinctNames(o.fields)
  }

  /** The map a list of distinctly named fields stands for. */
  function FieldsMap<K(==), V>(fields: seq<(K, V)>): (m: map<K, V>)
    requires DistinctNames(fields)
  {
    map i | 0 <= i < |fields| :: fields[i].0 := fields[i].1
  }

  function StatusLineText(code: int, reason: Str): Str {
    StatusPrefix + " " + Itoa(code) + " " + reason
  }

  function FieldLine(field: (Str, Str)): Str {
    field.0 + ": " + field.1
  }

  function FieldLines(fields: seq<(Str, Str)>): (lines: seq<Str>)
    ensures |lines| == |fields|
    ensures forall i :: 0 <= i < |fields| ==> lines[i] == FieldLine(fields[i])
  {
    seq(|fields|, i requires 0 <= i < |fields| => FieldLine(fields[i]))
  }

  function StatusLines(status: Option<(int, Str)>): seq<Str> {
    if status.Some? then [StatusLineText(status.value.0, status.value.1)] else []
  }

  function HeaderLines(o: CgiOutput): seq<Str> {
    StatusLines(o.status) + FieldLines(o.fields)
  }

  /** The output as bytes: header lines joined by CRLF, a blank line, the body. */
  function Render(o: CgiOutput): Str {
    Join(HeaderLines(o), LineSeparator) + HeaderBodySeparator + o.body
  }

  predicate NoCarriageReturn(s: Str) {
    forall j :: 0 <= j < |s| ==> s[j] != '\r'
  }

  lemma NoCarriageReturnConcat(a: Str, b: Str)
    requires NoCarriageReturn(a) && NoCarriageReturn(b)
    ensures NoCarriageReturn(a + b)
  {
    forall j | 0 <= j < |a + b| ensures (a + b)[j] != '\r' {
      if j >= |a| {
        assert (a + b)[j] == b[j - |a|];
      }
    }
  }

  /** A line that is non-empty and holds no CR, so cannot begin a blank line. */
  predicate IsNonBlankLine(line: Str) {
    |line| > 0 && NoCarriageReturn(line)
  }

  /** Joining plain lines never produces a blank line: the first blank line
      of the output is the one written after the header block. */
  lemma {:induction false} FirstBlankLineAfterBlock(lines: seq<Str>, rest: Str)
    requires |lines| >= 1
    requires forall i :: 0 <= i < |lines| ==> IsNonBlankLine(lines[i])
    ensures Index(Join(lines, LineSeparator) + HeaderBodySeparator + rest, HeaderBodySeparator)
            == |Join(lines, LineSeparator)|
    decreases |lines|
  {
    var sep := HeaderBodySeparator;
    var l0 := lines[0];
    if |lines| == 1 {
      assert Join(lines, LineSeparator) + sep + rest == l0 + (sep + rest);
      assert (l0 + (sep + rest))[|l0|..|l0| + 4] == sep;
      IndexAfterFreePrefix(l0, sep + rest, sep);
    } else {
      var tail := Join(lines[1..], LineSeparator);
      var x := tail + sep + rest;
      FirstBlankLineAfterBlock(lines[1..], rest);
      var p := l0 + LineSeparator;
      assert Join(lines, LineSeparator) + sep + rest == p + x;
      JoinStart(lines[1..], LineSeparator);
      assert x[0] == lines[1][0] by {
        assert x[0] == tail[0];
        assert tail[..|lines[1]|][0] == tail[0];
      }
      NoBlankLineAtBreak(l0, x);
      IndexShift(p, x, sep);
    }
  }

  /** A line break between a line without carriage returns and text that
      does not start with one opens no blank line. */
  lemma NoBlankLineAtBreak(l0: Str, x: Str)
    requires NoCarriageReturn(l0) && |x| > 0 && x[0] != '\r'
    ensures forall i :: 0 <= i < |l0 + LineSeparator| ==> !OccursAt(l0 + LineSeparator + x, HeaderBodySeparator, i)
  {
    var sep := HeaderBodySeparator;
    var p := l0 + LineSeparator;
    var s := p + x;
    assert s[|l0| + 2] == x[0];
    forall i | 0 <= i < |p| ensures !OccursAt(s, sep, i) {
      OccurrenceStartsWithSep(s, sep, i);
      if i < |l0| {
        assert s[i] == l0[i];
      } else if i + 4 <= |s| {
        assert s[i..i + 4][2] == s[i + 2];
      }
    }
  }

  /** The first colon of a field line ends its name. */
  lemma FieldLineEntry(field: (Str, Str))
    requires NoColon(field.0) && IsTrimmed(field.1)
    ensures Entry(FieldLine(field)) == Some(field)
  {
    var line := FieldLine(field);
    FieldLineColon(field);
    assert line[..|field.0|] == field.0;
    assert line[|field.0| + 1..] == " " + field.1;
    TrimLeadingBlank(field.1);
  }

  lemma FieldLineColon(field: (Str, Str))
    requires NoColon(field.0)
    ensures IsField(FieldLine(field)) && Index(FieldLine(field), ":") == |field.0|
  {
    var line := FieldLine(field);
    var name := field.0;
    assert line == name + (": " + field.1);
    assert (name + (": " + field.1))[|name|..|name| + 1] == ":";
    IndexAfterFreePrefix(name, ": " + field.1, ":");
    IndexFindsContained(line, ":");
  }

  lemma TrimLeadingBlank(v: Str)
    requires IsTrimmed(v)
    ensures TrimSpace(" " + v) == v
  {
    assert " " + v == " " + v + [];
    TrimSpacePadded(" ", v, []);
  }

  /** A line that starts like a `Status:` line and whose first colon ends its
      name is the `Status` field. */
  lemma StatusPrefixNamesStatus(name: Str, rest: Str)
    requires NoColon(name)
    ensures HasPrefix(name + ":" + rest, StatusPrefix) ==> name == StatusName
  {
    var line := name + ":" + rest;
    if HasPrefix(line, StatusPrefix) {
      assert forall j :: 0 <= j < 6 ==> line[j] == StatusPrefix[j];
      assert line[|name|] == ':' && line[6] == ':';
      assert |name| == 6;
      assert name == line[..6];
    }
  }

  predicate NoSpace(s: Str) {
    forall j :: 0 <= j < |s| ==> s[j] != ' '
  }

  lemma NoSpaceNotContained(s: Str)
    requires NoSpace(s)
    ensures !Contains(s, " ")
  {
    forall i | 0 <= i <= |s| ensures !OccursAt(s, " ", i) {
      OccurrenceStartsWithSep(s, " ", i);
    }
  }

  /** A `Status: ` line whose status field is `field`; `tail` is empty or
      starts the next space-separated piece.  Its entry is named `Status`. */
  lemma StatusLineFields(field: Str, tail: Str)
    requires NoSpace(field) && (|tail| == 0 || tail[0] == ' ')
    ensures var line := StatusPrefix + " " + field + tail;
            HasPrefix(line, StatusPrefix) && Contains(line, " ") && StatusField(line) == field
            && Entry(line).Some? && Entry(line).value.0 == StatusName
  {
    StatusLineSpace(field, tail);
    StatusLineColon(field, tail);
  }

  /** The first space of a status line follows the prefix. */
  lemma StatusLineSpace(field: Str, tail: Str)
    requires NoSpace(field) && (|tail| == 0 || tail[0] == ' ')
    ensures var line := StatusPrefix + " " + field + tail;
            HasPrefix(line, StatusPrefix) && Contains(line, " ") && StatusField(line) == field
  {
    var line := StatusPrefix + " " + field + tail;
    assert line == StatusPrefix + (" " + field + tail);
    assert (StatusPrefix + (" " + field + tail))[7..8] == " ";
    IndexAfterFreePrefix(StatusPrefix, " " + field + tail, " ");
    IndexFindsContained(line, " ");
    assert line[8..] == field + tail;
    SpacedFieldBefore(field, tail);
  }

  /** A space-free field followed by nothing or by a space is the text
      before the first space. */
  lemma SpacedFieldBefore(field: Str, tail: Str)
    requires NoSpace(field) && (|tail| == 0 || tail[0] == ' ')
    ensures Before(field + tail, " ") == field
  {
    if |tail| == 0 {
      assert field + tail == field;
      NoSpaceNotContained(field);
      IndexFindsContained(field, " ");
    } else {
      assert (field + tail)[|field|..|field| + 1] == " ";
      IndexAfterFreePrefix(field, tail, " ");
    }
  }

  /** The first colon of a status line ends the name `Status`. */
  lemma StatusLineColon(field: Str, tail: Str)
    ensures var line := StatusPrefix + " " + field + tail;
            Entry(line).Some? && Entry(line).value.0 == StatusName
  {
    var rest := " " + field + tail;
    var line := StatusPrefix + " " + field + tail;
    assert line == StatusName + (":" + rest);
    assert (StatusName + (":" + rest))[6..7] == ":";
    IndexAfterFreePrefix(StatusName, ":" + rest, ":");
    IndexFindsContained(line, ":");
  }

  /** The status line announces its own code, and its entry is named `Status`. */
  lemma StatusLineParts(code: int, reason: Str)
    ensures var line := StatusLineText(code, reason);
            HasPrefix(line, StatusPrefix) && Contains(line, " ") && StatusField(line) == Itoa(code)
            && Entry(line).Some? && Entry(line).value.0 == StatusName
  {
    assert StatusLineText(code, reason) == StatusPrefix + " " + Itoa(code) + (" " + reason);
    StatusLineFields(Itoa(code), " " + reason);
  }

  /** A field line is plain when its name and value hold no line break. */
  lemma FieldLinePlain(field: (Str, Str))
    requires NoLineBreak(field.0) && NoLineBreak(field.1)
    ensures IsNonBlankLine(FieldLine(field))
  {
    NoCarriageReturnConcat(field.0, ": ");
    NoCarriageReturnConcat(field.0 + ": ", field.1);
    assert (field.0 + ": " + field.1)[|field.0|] == ':';
  }

  /** Header lines of well-formed output are plain. */
  lemma HeaderLinesArePlain(o: CgiOutput)
    requires WellFormed(o)
    ensures forall i :: 0 <= i < |HeaderLines(o)| ==> IsNonBlankLine(HeaderLines(o)[i])
  {
    var lines := HeaderLines(o);
    forall i | 0 <= i < |lines| ensures IsNonBlankLine(lines[i]) {
      if o.status.Some? && i == 0 {
        var (code, reason) := o.status.value;
        NoCarriageReturnConcat(StatusPrefix + " ", Itoa(code));
        NoCarriageReturnConcat(StatusPrefix + " " + Itoa(code), " ");
        NoCarriageReturnConcat(StatusPrefix + " " + Itoa(code) + " ", reason);
      } else {
        FieldLinePlain(o.fields[i - |StatusLines(o.status)|]);
      }
    }
  }

  /** The entries that a list of fields stands for. */
  function FieldEntries<K, V>(fields: seq<(K, V)>): (es: seq<Option<(K, V)>>)
    ensures |es| == |fields|
    ensures forall i :: 0 <= i < |fields| ==> es[i] == Some(fields[i])
  {
    seq(|fields|, i requires 0 <= i < |fields| => Some(fields[i]))
  }

  /** Storing the entries of two runs of lines, one after the other. */
  lemma {:induction false} StoreAppend<K, V>(es1: seq<Option<(K, V)>>, es2: seq<Option<(K, V)>>, skip: K, acc: map<K, V>)
    ensures Store(es1 + es2, skip, acc) == Store(es2, skip, Store(es1, skip, acc))
    decreases |es1|
  {
    if |es1| > 0 {
      assert (es1 + es2)[1..] == es1[1..] + es2;
      StoreAppend(es1[1..], es2, skip, Put(acc, es1[0], skip));
    } else {
      assert es1 + es2 == es2;
    }
  }

  /** The entries of distinctly named fields, none named `skip`, store
      exactly the map the fields stand for. */
  lemma {:induction false} StoreFields<K, V>(fields: seq<(K, V)>, skip: K)
    requires DistinctNames(fields)
    requires forall i :: 0 <= i < |fields| ==> fields[i].0 != skip
    ensures Store(FieldEntries(fields), skip, map[]) == FieldsMap(fields)
    decreases |fields|
  {
    var es := FieldEntries(fields);
    if |fields| > 0 {
      var n := |fields| - 1;
      var init := fields[..n];
      var initEs := FieldEntries(init);
      assert es == initEs + [Some(fields[n])];
      StoreFields(init, skip);
      StoreSnoc(initEs, Some(fields[n]), skip, map[]);
      var m := FieldsMap(init)[fields[n].0 := fields[n].1];
      forall k ensures k in m <==> k in FieldsMap(fields) {
        if k in FieldsMap(fields) {
          var i :| 0 <= i < |fields| && fields[i].0 == k;
          if i < n {
            assert init[i].0 == k;
          }
        }
      }
      forall k | k in m ensures m[k] == FieldsMap(fields)[k] {
        if k != fields[n].0 {
          var i :| 0 <= i < |init| && init[i].0 == k;
          assert fields[i] == init[i];
        }
      }
    }
  }

  /** The entries of a run of lines followed by another. */
  lemma EntriesAppend(a: seq<Str>, b: seq<Str>)
    ensures Entries(a + b) == Entries(a) + Entries(b)
  {
    assert forall i :: 0 <= i < |b| ==> (a + b)[|a| + i] == b[i];
  }

  /** Each field line stands for its own field. */
  lemma FieldLinesEntries(fields: seq<(Str, Str)>)
    requires forall i :: 0 <= i < |fields| ==> NoColon(fields[i].0) && IsTrimmed(fields[i].1)
    ensures Entries(FieldLines(fields)) == FieldEntries(fields)
  {
    forall i | 0 <= i < |fields| ensures Entries(FieldLines(fields))[i] == FieldEntries(fields)[i] {
      FieldLineEntry(fields[i]);
    }
  }

  /** A status line stores nothing. */
  lemma StatusLinesStoreNothing(status: Option<(int, Str)>)
    ensures Store(Entries(StatusLines(status)), StatusName, map[]) == map[]
  {
    if status.Some? {
      StatusLineParts(status.value.0, status.value.1);
    }
  }

  /** The header map of well-formed output is the map of its fields. */
  lemma RenderedHeaders(o: CgiOutput)
    requires WellFormed(o)
    ensures CollectHeaders(HeaderLines(o), map[]) == FieldsMap(o.fields)
  {
    var statusLines := StatusLines(o.status);
    EntriesAppend(statusLines, FieldLines(o.fields));
    FieldLinesEntries(o.fields);
    CollectHeadersStores(HeaderLines(o), map[]);
    StoreAppend(Entries(statusLines), FieldEntries(o.fields), StatusName, map[]);
    StatusLinesStoreNothing(o.status);
    StoreFields(o.fields, StatusName);
  }

  /** A status line announces its own code. */
  lemma StatusLineAnnounces(code: int, reason: Str)
    ensures StatusOf(StatusLineText(code, reason)) == Returns(code)
  {
    StatusLineParts(code, reason);
    StatusOfLine(StatusLineText(code, reason));
  }

  /** A field line never reads as a status line. */
  lemma FieldLineAnnouncesDefault(field: (Str, Str))
    requires IsFieldName(field.0)
    ensures StatusOf(FieldLine(field)) == Returns(DefaultStatus)
  {
    assert FieldLine(field) == field.0 + ":" + (" " + field.1);
    StatusPrefixNamesStatus(field.0, " " + field.1);
  }

  /** The status well-formed output announces: its own code, or 200. */
  lemma RenderedStatus(o: CgiOutput)
    requires WellFormed(o) && |HeaderLines(o)| > 0
    ensures StatusOf(HeaderLines(o)[0]) == Returns(if o.status.Some? then o.status.value.0 else DefaultStatus)
  {
    if o.status.Some? {
      StatusLineAnnounces(o.status.value.0, o.status.value.1);
    } else {
      assert HeaderLines(o)[0] == FieldLine(o.fields[0]);
      FieldLineAnnouncesDefault(o.fields[0]);
    }
  }

  /** Cutting output whose header block is plain lines gives back the
      block, the body and the lines. */
  lemma PlainLinesCut(lines: seq<Str>, body: Str)
    requires |lines| >= 1
    requires forall i :: 0 <= i < |lines| ==> IsNonBlankLine(lines[i])
    ensures var block := Join(lines, LineSeparator);
            SplitN(block + HeaderBodySeparator + body, HeaderBodySeparator, 2) == [block, body]
            && Split(block, LineSeparator) == lines
  {
    var block := Join(lines, LineSeparator);
    var content := block + HeaderBodySeparator + body;
    FirstBlankLineAfterBlock(lines, body);
    assert content[..|block|] == block;
    assert content[|block| + 4..] == body;
    assert SplitN(content[|block| + 4..], HeaderBodySeparator, 1) == [body];
    SplitJoin(lines, LineSeparator);
  }

  /** Round trip: parsing what a well-behaved script writes gives back its
      status (200 when it writes none), its fields as the header map, and its
      body byte for byte, whatever the body holds. */
  lemma ParseRender(o: CgiOutput)
    requires WellFormed(o)
    ensures ParseFastCgiResponse(Render(o)) ==
      Returns(Parsed(Fcgi(if o.status.Some? then o.status.value.0 else DefaultStatus, FieldsMap(o.fields), o.body)))
  {
    var lines := HeaderLines(o);
    RenderedHeaders(o);
    if |lines| == 0 {
      assert Render(o) == HeaderBodySeparator + o.body;
      NoHeaderLinesParse(o.body);
    } else {
      HeaderLinesArePlain(o);
      PlainLinesParse(lines, o.body);
      RenderedStatus(o);
    }
  }

  /** Output that starts with the blank line has status 200 and no headers. */
  lemma NoHeaderLinesParse(body: Str)
    ensures ParseFastCgiResponse(HeaderBodySeparator + body) == Returns(Parsed(Fcgi(DefaultStatus, map[], body)))
  {
    var content := HeaderBodySeparator + body;
    assert content[..4] == HeaderBodySeparator;
    assert Index(content, HeaderBodySeparator) == 0;
    assert SplitN(content, HeaderBodySeparator, 2) == [[], body];
    assert Split([], LineSeparator) == [[]];
    assert CollectHeaders([[]], map[]) == map[];
  }

  // ---------------------------------------------------------------------
  // Edge cases

  /** Output whose header block is plain lines: the first line decides the
      status, every line goes through the header loop, and the body is what
      follows the blank line. */
  lemma PlainLinesParse(lines: seq<Str>, body: Str)
    requires |lines| >= 1
    requires forall i :: 0 <= i < |lines| ==> IsNonBlankLine(lines[i])
    ensures var r := ParseFastCgiResponse(Join(lines, LineSeparator) + HeaderBodySeparator + body);
            (r.Panics? <==> StatusOf(lines[0]).Panics?)
            && (r.Returns? ==> r.value == Parsed(Fcgi(StatusOf(lines[0]).value, CollectHeaders(lines, map[]), body)))
  {
    PlainLinesCut(lines, body);
  }

  lemma StatusPrefixBytes()
    ensures NoSpace(StatusPrefix) && NoCarriageReturn(StatusPrefix)
  {
  }

  /** A `Status:` line with no space at all panics, whatever follows. */
  lemma StatusWithoutSpacePanics(code: Str, body: Str)
    requires NoSpace(code) && NoCarriageReturn(code)
    ensures ParseFastCgiResponse(StatusPrefix + code + HeaderBodySeparator + body) == Panics
  {
    var line := StatusPrefix + code;
    StatusPrefixBytes();
    NoCarriageReturnConcat(StatusPrefix, code);
    assert forall j :: 0 <= j < |line| ==> line[j] != ' ';
    NoSpaceNotContained(line);
    assert Join([line], LineSeparator) == line;
    PlainLinesParse([line], body);
    StatusOfLine(line);
  }

  /** A status field that is not a decimal, such as the empty field of
      `Status: ` or of `Status:  404`, reads as status 0. */
  lemma UnparsableStatusIsZero(field: Str, tail: Str, body: Str)
    requires NoSpace(field) && NoCarriageReturn(field) && Atoi(field).None?
    requires (|tail| == 0 || tail[0] == ' ') && NoCarriageReturn(tail)
    ensures ParseFastCgiResponse(StatusPrefix + " " + field + tail + HeaderBodySeparator + body)
            == Returns(Parsed(Fcgi(0, map[], body)))
  {
    var line := StatusPrefix + " " + field + tail;
    StatusPrefixBytes();
    NoCarriageReturnConcat(StatusPrefix, " ");
    NoCarriageReturnConcat(StatusPrefix + " ", field);
    NoCarriageReturnConcat(StatusPrefix + " " + field, tail);
    assert Join([line], LineSeparator) == line;
    PlainLinesParse([line], body);
    StatusLineFields(field, tail);
    StatusOfLine(line);
    AddHeaderLinePuts(map[], line);
    assert CollectHeaders([line], map[]) == CollectHeaders([], AddHeaderLine(map[], line));
  }

  /** Of two lines with the same name, the later one's value is kept. */
  lemma LaterDuplicateWins(name: Str, first: Str, second: Str, body: Str)
    requires IsFieldName(name)
    requires NoLineBreak(first) && IsTrimmed(first) && NoLineBreak(second) && IsTrimmed(second)
    ensures ParseFastCgiResponse(FieldLine((name, first)) + LineSeparator + FieldLine((name, second))
                                 + HeaderBodySeparator + body)
            == Returns(Parsed(Fcgi(DefaultStatus, map[name := second], body)))
  {
    var l1 := FieldLine((name, first));
    var l2 := FieldLine((name, second));
    var lines := [l1, l2];
    assert Join(lines, LineSeparator) == l1 + LineSeparator + l2;
    FieldLinePlain((name, first));
    FieldLinePlain((name, second));
    PlainLinesParse(lines, body);
    FieldLineAnnouncesDefault((name, first));
    DuplicateLinesStoreLast(name, first, second);
  }

  lemma DuplicateLinesStoreLast(name: Str, first: Str, second: Str)
    requires IsFieldName(name) && IsTrimmed(first) && IsTrimmed(second)
    ensures CollectHeaders([FieldLine((name, first)), FieldLine((name, second))], map[]) == map[name := second]
  {
    var lines := [FieldLine((name, first)), FieldLine((name, second))];
    FieldLineEntry((name, first));
    FieldLineEntry((name, second));
    var h := AddHeaderLine(map[], lines[0]);
    AddHeaderLinePuts(map[], lines[0]);
    AddHeaderLinePuts(h, lines[1]);
    OneLineLeft(lines[1..], h);
    PutTwice(name, first, second, StatusName);
  }

  /** The header loop over a single line is one turn of it. */
  lemma OneLineLeft(lines: seq<Str>, acc: map<Str, Str>)
    requires |lines| == 1
    ensures CollectHeaders(lines, acc) == AddHeaderLine(acc, lines[0])
  {
    assert lines[1..] == [];
  }

  lemma PutTwice<K, V>(k: K, first: V, second: V, skip: K)
    requires k != skip
    ensures Put(Put(map[], Some((k, first)), skip), Some((k, second)), skip) == map[k := second]
  {
    assert map[k := first][k := second] == map[k := second];
  }
}
