/**
  The response side of internal/response: the status line, the header block
  and chunked transfer coding, written to an output that may fail.

  `Sink` stands for the `io.Writer` behind a connection: it appends what it
  is given or fails without writing anything. `Writer` is the struct of
  writer.go, whose only state is that sink.
*/
module Response {
  import opened Text
  import Headers

  // ---------------------------------------------------------------------------
  // The status line (status_line.go)

  /** `StatusCode` is a Go `int`. */
  type StatusCode = Int64

  const StatusOk: StatusCode := 200
  const StatusBadRequest: StatusCode := 400
  const StatusInternalServerError: StatusCode := 500

  /** The reason phrase of the three known codes; every other code gets none. */
  function Reason(code: StatusCode): (r: Bytes)
    ensures code != StatusOk && code != StatusBadRequest && code != StatusInternalServerError ==> r == []
  {
    if code == StatusOk then "OK"
    else if code == StatusBadRequest then "BAD REQUEST"
    else if code == StatusInternalServerError then "INTERNAL SERVER ERROR"
    else []
  }

  /** `GetStatusLine`: `HTTP/1.1 <code> <reason>` and CRLF (section 4 of RFC 9112). */
  function GetStatusLine(code: StatusCode): (r: Bytes)
    ensures |r| >= 12 && r[..9] == "HTTP/1.1 " && r[|r| - 2..] == CRLF
  {
    var middle := Decimal(code) + " " + Reason(code);
    Framed("HTTP/1.1 ", middle, CRLF);
    "HTTP/1.1 " + middle + CRLF
  }

  /** The two ends of `front + middle + back`, and what lies between them. */
  lemma Framed(front: Bytes, middle: Bytes, back: Bytes)
    ensures var s := front + middle + back;
      s[..|front|] == front && s[|s| - |back|..] == back && s[|front|..|s| - |back|] == middle
  {
  }

  /** A status line taken apart again: the code and the reason phrase. */
  datatype StatusLine = StatusLine(code: Int64, reason: Bytes)

  /** Reads a status line: the prefix, a decimal code up to the first space, a reason, CRLF. */
  function ParseStatusLine(s: Bytes): Option<StatusLine> {
    if |s| < 11 || s[..9] != "HTTP/1.1 " || s[|s| - 2..] != CRLF then None
    else
      var rest := s[9..|s| - 2];
      var i := Index(rest, " ");
      if i < 0 then None
      else
        match Atoi(rest[..i])
        case None => None
        case Some(code) => Some(StatusLine(code, rest[i + 1..]))
  }

  /** Formatted codes hold no space. */
  lemma DecimalNoSpace(n: int)
    ensures ' ' !in Decimal(n)
  {
    var d := DigitsOf(if n < 0 then -n else n);
    assert forall i :: 0 <= i < |d| ==> d[i] != ' ';
  }

  /** Every status line reads back as its code and reason: the code between the spaces is the input. */
  lemma StatusLineRoundTrip(code: StatusCode)
    ensures ParseStatusLine(GetStatusLine(code)) == Some(StatusLine(code, Reason(code)))
  {
    var s := GetStatusLine(code);
    var rest := Decimal(code) + " " + Reason(code);
    StatusLineMiddle(code, s);
    DecimalNoSpace(code);
    CodeThenReason(Decimal(code), Reason(code), rest);
    AtoiDecimal(code);
  }

  /** Between the prefix and the CRLF a status line holds the code, a space and the reason. */
  lemma StatusLineMiddle(code: StatusCode, s: Bytes)
    requires s == GetStatusLine(code)
    ensures s[9..|s| - 2] == Decimal(code) + " " + Reason(code)
  {
    Framed("HTTP/1.1 ", Decimal(code) + " " + Reason(code), CRLF);
  }

  /** The first space after a space-free code separates it from the reason. */
  lemma CodeThenReason(digits: Bytes, reason: Bytes, rest: Bytes)
    requires ' ' !in digits && rest == digits + " " + reason
    ensures Index(rest, " ") == |digits| && rest[..|digits|] == digits && rest[|digits| + 1..] == reason
  {
    OccursSingle(rest, ' ');
    IndexIs(rest, " ", |digits|);
  }

  lemma DecimalOf(n: nat, text: Bytes)
    requires 100 <= n < 1000 && |text| == 3
    requires text[0] as int == '0' as int + n / 100
    requires text[1] as int == '0' as int + n / 10 % 10
    requires text[2] as int == '0' as int + n % 10
    ensures Decimal(n) == text
  {
    assert DigitsOf(n / 100) == text[..1];
    assert DigitsOf(n / 10) == text[..2];
  }

  lemma StatusLineOk()
    ensures GetStatusLine(StatusOk) == "HTTP/1.1 200 OK\r\n"
  {
    DecimalOf(200, "200");
  }

  lemma StatusLineBadRequest()
    ensures GetStatusLine(StatusBadRequest) == "HTTP/1.1 400 " + "BAD REQUEST" + "\r\n"
  {
    DecimalOf(400, "400");
  }

  lemma StatusLineInternalServerError()
    ensures GetStatusLine(StatusInternalServerError) == "HTTP/1.1 500 " + "INTERNAL SERVER ERROR" + "\r\n"
  {
    DecimalOf(500, "500");
  }

  /** A code without a reason phrase still gets its line, with nothing between the second space and CRLF. */
  lemma UnknownStatusLine(code: StatusCode)
    requires code != StatusOk && code != StatusBadRequest && code != StatusInternalServerError
    ensures GetStatusLine(code) == "HTTP/1.1 " + Decimal(code) + " \r\n"
    ensures ParseStatusLine(GetStatusLine(code)) == Some(StatusLine(code, []))
  {
    StatusLineRoundTrip(code);
  }

  // ---------------------------------------------------------------------------
  // The output

  /** What a failed write reports. */
  datatype WriteError = WriteError

  /** An `io.Writer`: each write appends all of its bytes, or fails and appends nothing. */
  class Sink {
    var output: Bytes
    /** The result of the latest write, so callers can be seen to pass it on unchanged. */
    ghost var lastError: Option<WriteError>

    constructor ()
      ensures output == [] && lastError == None
    {
      output := [];
      lastError := None;
    }

    method Write(p: Bytes) returns (n: nat, err: Option<WriteError>)
      modifies this
      ensures err.None? ==> n == |p| && output == old(output) + p
      ensures err.Some? ==> n == 0 && output == old(output)
      ensures lastError == err
    {
      var fails: bool := *;
      if fails {
        n, err := 0, Some(WriteError);
      } else {
        output := output + p;
        n, err := |p|, None;
      }
      lastError := err;
    }
  }

  /** `WriteStatusLine`: one write of the status line; its error is returned as it came. */
  method WriteStatusLine(w: Sink, code: StatusCode) returns (err: Option<WriteError>)
    modifies w
    ensures err.None? ==> w.output == old(w.output) + GetStatusLine(code)
    ensures err.Some? ==> w.output == old(w.output)
    ensures err == w.lastError
  {
    var n;
    n, err := w.Write(GetStatusLine(code));
  }

  // ---------------------------------------------------------------------------
  // The header block (headers.go)

  predicate Distinct(order: seq<Bytes>) {
    forall i, j :: 0 <= i < j < |order| ==> order[i] != order[j]
  }

  /** `order` lists keys of `h`, each at most once. */
  predicate Lists(order: seq<Bytes>, h: Headers.Fields) {
    Distinct(order) && forall i :: 0 <= i < |order| ==> order[i] in h
  }

  /** `order` lists every key of `h` exactly once: one possible map iteration order. */
  predicate Enumerates(order: seq<Bytes>, h: Headers.Fields) {
    Lists(order, h) && forall k :: k in h ==> k in order
  }

  /** The field lines of the entries of `h` named by `order`, in that order. */
  function Lines(h: Headers.Fields, order: seq<Bytes>): (r: Bytes)
    requires forall i :: 0 <= i < |order| ==> order[i] in h
    decreases |order|
  {
    if order == [] then []
    else
      var k := order[|order| - 1];
      Lines(h, order[..|order| - 1]) + Headers.FieldLineText(k, h[k])
  }

  /** The whole header block: the field lines and the empty line that ends the section. */
  function HeaderBlock(h: Headers.Fields, order: seq<Bytes>): (r: Bytes)
    requires forall i :: 0 <= i < |order| ==> order[i] in h
    ensures |r| >= 2 && r[|r| - 2..] == CRLF
    ensures order == [] ==> r == CRLF
  {
    Lines(h, order) + CRLF
  }

  /** Writing one more field line after the lines of `order` gives the lines of `order + [k]`. */
  lemma LinesSnoc(start: Bytes, h: Headers.Fields, order: seq<Bytes>, k: Bytes)
    requires forall i :: 0 <= i < |order| ==> order[i] in h
    requires k in h
    ensures Lines(h, order + [k]) == Lines(h, order) + Headers.FieldLineText(k, h[k])
    ensures start + Lines(h, order + [k]) == start + Lines(h, order) + Headers.FieldLineText(k, h[k])
  {
    assert (order + [k])[..|order|] == order;
  }

  /** Part way through the map: `order` has been written, `keys` are still to come. */
  predicate Progress(h: Headers.Fields, keys: set<Bytes>, order: seq<Bytes>) {
    keys <= h.Keys && Lists(order, h)
    && (forall i :: 0 <= i < |order| ==> order[i] !in keys)
    && (forall k :: k in h ==> k in keys || k in order)
  }

  lemma ProgressStep(h: Headers.Fields, keys: set<Bytes>, order: seq<Bytes>, key: Bytes)
    requires Progress(h, keys, order) && key in keys
    ensures Progress(h, keys - {key}, order + [key])
  {
  }

  lemma ProgressDone(h: Headers.Fields, order: seq<Bytes>)
    requires Progress(h, {}, order)
    ensures Enumerates(order, h)
    ensures h == map[] ==> order == []
  {
    if order != [] {
      assert order[0] in h;
    }
  }

  /**
    `WriteHeaders`: one write per map entry, in whatever order the map is
    iterated, then the empty line. The first failing write ends the call,
    and nothing is written after it.
  */
  method WriteHeaders(w: Sink, h: Headers.Fields) returns (err: Option<WriteError>, ghost order: seq<Bytes>)
    modifies w
    ensures Lists(order, h)
    ensures err.None? ==> Enumerates(order, h) && w.output == old(w.output) + HeaderBlock(h, order)
    ensures err.Some? ==> w.output == old(w.output) + Lines(h, order)
    ensures h == map[] && err.None? ==> w.output == old(w.output) + CRLF
    ensures err == w.lastError
  {
    var keys := h.Keys;
    order := [];
    while keys != {}
      invariant Progress(h, keys, order)
      invariant w.output == old(w.output) + Lines(h, order)
      decreases keys
    {
      var key :| key in keys;
      var n, e := w.Write(Headers.FieldLineText(key, h[key]));
      if e.Some? {
        return e, order;
      }
      LinesSnoc(old(w.output), h, order, key);
      ProgressStep(h, keys, order, key);
      order := order + [key];
      keys := keys - {key};
    }
    ProgressDone(h, order);
    var n;
    n, err := w.Write(CRLF);
  }

  // ---------------------------------------------------------------------------
  // Length of the header block

  /** The width of one field line: the name, ": ", the value and CRLF. */
  function EntryWidth(name: Bytes, value: Bytes): nat {
    |name| + |value| + 4
  }

  /** The sum of the entry widths of `h`, independent of any order. */
  ghost function Width(h: Headers.Fields): nat
    decreases |h|
  {
    if h == map[] then 0
    else
      var k :| k in h;
      assert |h - {k}| < |h| by { MapRemoveSmaller(h, k); }
      EntryWidth(k, h[k]) + Width(h - {k})
  }

  lemma MapRemoveSmaller(h: Headers.Fields, k: Bytes)
    requires k in h
    ensures |h - {k}| == |h| - 1
  {
    assert (h - {k}).Keys == h.Keys - {k};
  }

  /** Any entry can be taken out of the sum first. */
  lemma {:induction false} WidthRemove(h: Headers.Fields, k: Bytes)
    requires k in h
    ensures Width(h) == EntryWidth(k, h[k]) + Width(h - {k})
    decreases |h|
  {
    var j :| j in h && Width(h) == EntryWidth(j, h[j]) + Width(h - {j});
    if j != k {
      MapRemoveSmaller(h, j);
      MapRemoveSmaller(h, k);
      WidthRemove(h - {j}, k);
      WidthRemove(h - {k}, j);
      assert h - {j} - {k} == h - {k} - {j};
    }
  }

  /** Lines depend only on the entries they name. */
  lemma {:induction false} LinesAgree(h: Headers.Fields, g: Headers.Fields, order: seq<Bytes>)
    requires forall i :: 0 <= i < |order| ==> order[i] in h && order[i] in g && g[order[i]] == h[order[i]]
    ensures Lines(h, order) == Lines(g, order)
    decreases |order|
  {
    if order != [] {
      LinesAgree(h, g, order[..|order| - 1]);
    }
  }

  /**
    Whatever order the map is iterated in, the field lines take the sum of
    |name| + |value| + 4 over all entries, and the whole block 2 bytes more.
  */
  lemma {:induction false} LinesWidth(h: Headers.Fields, order: seq<Bytes>)
    requires Enumerates(order, h)
    ensures |Lines(h, order)| == Width(h)
    ensures |HeaderBlock(h, order)| == Width(h) + 2
    decreases |order|
  {
    if order == [] {
      assert forall k :: k !in h;
    } else {
      var last := order[|order| - 1];
      var front := order[..|order| - 1];
      var g := h - {last};
      assert forall i :: 0 <= i < |front| ==> front[i] == order[i];
      forall k | k in g ensures k in front {
        var i :| 0 <= i < |order| && order[i] == k;
        assert i < |front|;
      }
      LinesWidth(g, front);
      LinesAgree(h, g, front);
      WidthRemove(h, last);
    }
  }

  // ---------------------------------------------------------------------------
  // Reading the header block back

  /** A header section read by calling `Headers.Parse` until it reports the end of the section. */
  function ParseSection(h: Headers.Fields, data: Bytes): (r: Option<Headers.Fields>)
    ensures r.Some? ==> h.Keys <= r.value.Keys
    decreases |data|
  {
    var p := Headers.ParseLine(h, data);
    if p.error.Some? || p.n == 0 then None
    else if p.done then Some(p.fields)
    else ParseSection(p.fields, data[p.n..])
  }

  /** Entries the parser takes back unchanged: token names, trimmed values without CRLF. */
  predicate WellFormedFields(h: Headers.Fields) {
    forall k :: k in h ==> |k| > 0 && Headers.IsToken(k) && IsTrimmed(h[k]) && NoCRLF(h[k])
  }

  lemma {:induction false} LinesCons(h: Headers.Fields, k: Bytes, order: seq<Bytes>)
    requires k in h && forall i :: 0 <= i < |order| ==> order[i] in h
    ensures Lines(h, [k] + order) == Headers.FieldLineText(k, h[k]) + Lines(h, order)
    decreases |order|
  {
    if order != [] {
      var front := order[..|order| - 1];
      var last := order[|order| - 1];
      var longer := [k] + order;
      assert longer[..|longer| - 1] == [k] + front && longer[|longer| - 1] == last;
      LinesCons(h, k, front);
      var a, b, c := Headers.FieldLineText(k, h[k]), Lines(h, front), Headers.FieldLineText(last, h[last]);
      assert Lines(h, longer) == (a + b) + c;
      assert Lines(h, order) == b + c;
      assert (a + b) + c == a + (b + c);
    }
  }

  /** A well-formed field line is stored and the section read on from the next line. */
  lemma ParseSectionLine(acc: Headers.Fields, k: Bytes, v: Bytes, after: Bytes, data: Bytes)
    requires |k| > 0 && Headers.IsToken(k) && IsTrimmed(v) && NoCRLF(v)
    requires data == Headers.FieldLineText(k, v) + after
    ensures ParseSection(acc, data) == ParseSection(Headers.Merge(acc, k, v), after)
  {
    Headers.ParseWellFormedLine(acc, k, v, after);
    assert data[|k| + |v| + 4..] == after;
  }

  /** The block splits into its first line and the block of the remaining entries. */
  lemma BlockSplit(h: Headers.Fields, order: seq<Bytes>, rest: Bytes, after: Bytes)
    requires order != [] && forall i :: 0 <= i < |order| ==> order[i] in h
    requires after == Lines(h, order[1..]) + CRLF + rest
    ensures Lines(h, order) + CRLF + rest == Headers.FieldLineText(order[0], h[order[0]]) + after
  {
    LinesCons(h, order[0], order[1..]);
    assert [order[0]] + order[1..] == order;
  }

  lemma ParseSectionEnds(acc: Headers.Fields, rest: Bytes)
    ensures ParseSection(acc, CRLF + rest) == Some(acc)
  {
    Headers.ParseSectionEnd(acc, rest);
  }

  /**
    Two field lines with the same name and then the empty line: the section
    holds one entry, the two values joined by ", ".
  */
  lemma RepeatedNameCombines(name: Bytes, v1: Bytes, v2: Bytes, rest: Bytes, data: Bytes)
    requires |name| > 0 && Headers.IsToken(name)
    requires IsTrimmed(v1) && NoCRLF(v1) && IsTrimmed(v2) && NoCRLF(v2)
    requires data == Headers.FieldLineText(name, v1) + Headers.FieldLineText(name, v2) + CRLF + rest
    ensures ParseSection(map[], data) == Some(map[name := v1 + ", " + v2])
  {
    var line1, line2 := Headers.FieldLineText(name, v1), Headers.FieldLineText(name, v2);
    var after2 := CRLF + rest;
    var after1 := line2 + after2;
    AppendAssoc3(line1, line2, CRLF, rest);
    ParseSectionLine(map[], name, v1, after1, data);
    var h1 := Headers.Merge(map[], name, v1);
    ParseSectionLine(h1, name, v2, after2, after1);
    ParseSectionEnds(Headers.Merge(h1, name, v2), rest);
    MergeTwice(name, v1, v2);
  }

  lemma AppendAssoc3(a: Bytes, b: Bytes, c: Bytes, d: Bytes)
    ensures a + b + c + d == a + (b + (c + d))
  {
  }

  lemma MergeTwice(name: Bytes, v1: Bytes, v2: Bytes)
    ensures Headers.Merge(Headers.Merge(map[], name, v1), name, v2) == map[name := v1 + ", " + v2]
  {
  }

  /** `acc` with the entries of `h` named by `order` stored into it, one after the other. */
  function Extend(acc: Headers.Fields, h: Headers.Fields, order: seq<Bytes>): Headers.Fields
    requires forall i :: 0 <= i < |order| ==> order[i] in h
    decreases |order|
  {
    if order == [] then acc
    else
      var k := order[0];
      Extend(acc[k := h[k]], h, order[1..])
  }

  lemma {:induction false} ExtendAll(acc: Headers.Fields, h: Headers.Fields, order: seq<Bytes>)
    requires Lists(order, h)
    ensures forall k :: k in Extend(acc, h, order) <==> k in acc || k in order
    ensures forall k :: k in order ==> Extend(acc, h, order)[k] == h[k]
    ensures forall k :: k in acc && k !in order ==> Extend(acc, h, order)[k] == acc[k]
    decreases |order|
  {
    if order != [] {
      var k := order[0];
      var tail := order[1..];
      assert forall i :: 0 <= i < |tail| ==> tail[i] == order[i + 1];
      ExtendAll(acc[k := h[k]], h, tail);
      assert forall j :: j in order <==> j == k || j in tail;
      assert k !in tail;
    }
  }

  lemma MergeNew(acc: Headers.Fields, k: Bytes, v: Bytes)
    requires k !in acc
    ensures Headers.Merge(acc, k, v) == acc[k := v]
  {
  }

  lemma ListsTail(h: Headers.Fields, order: seq<Bytes>, acc: Headers.Fields)
    requires Lists(order, h) && order != []
    requires forall i :: 0 <= i < |order| ==> order[i] !in acc
    ensures Lists(order[1..], h)
    ensures forall i :: 0 <= i < |order| - 1 ==> order[1..][i] !in acc[order[0] := h[order[0]]]
  {
    assert forall i :: 0 <= i < |order| - 1 ==> order[1..][i] == order[i + 1];
  }

  /** The first listed entry is read back and stored; the rest of the block follows. */
  lemma ParseFirstLine(h: Headers.Fields, order: seq<Bytes>, acc: Headers.Fields, rest: Bytes, data: Bytes, after: Bytes)
    requires WellFormedFields(h) && order != [] && forall i :: 0 <= i < |order| ==> order[i] in h
    requires order[0] !in acc
    requires data == Lines(h, order) + CRLF + rest
    requires after == Lines(h, order[1..]) + CRLF + rest
    ensures ParseSection(acc, data) == ParseSection(acc[order[0] := h[order[0]]], after)
  {
    var k := order[0];
    BlockSplit(h, order, rest, after);
    ParseSectionLine(acc, k, h[k], after, data);
    MergeNew(acc, k, h[k]);
  }

  lemma {:induction false} ParseLinesBack(h: Headers.Fields, order: seq<Bytes>, acc: Headers.Fields, rest: Bytes, data: Bytes)
    requires WellFormedFields(h) && Lists(order, h)
    requires forall i :: 0 <= i < |order| ==> order[i] !in acc
    requires data == Lines(h, order) + CRLF + rest
    ensures ParseSection(acc, data) == Some(Extend(acc, h, order))
    decreases |order|
  {
    if order == [] {
      assert data == CRLF + rest;
      ParseSectionEnds(acc, rest);
    } else {
      var k := order[0];
      var after := Lines(h, order[1..]) + CRLF + rest;
      ParseFirstLine(h, order, acc, rest, data, after);
      ListsTail(h, order, acc);
      ParseLinesBack(h, order[1..], acc[k := h[k]], rest, after);
    }
  }

  /**
    Writing a map with token names and trimmed, CRLF-free values, in any
    iteration order, and feeding the block to `Headers.Parse` line by line
    rebuilds the same map and ends at the empty line.
  */
  lemma HeaderBlockRoundTrip(h: Headers.Fields, order: seq<Bytes>)
    requires WellFormedFields(h) && Enumerates(order, h)
    ensures ParseSection(map[], HeaderBlock(h, order)) == Some(h)
  {
    assert HeaderBlock(h, order) == Lines(h, order) + CRLF + [];
    ParseLinesBack(h, order, map[], [], HeaderBlock(h, order));
    ExtendEnumerated(h, order);
  }

  lemma ExtendEnumerated(h: Headers.Fields, order: seq<Bytes>)
    requires Enumerates(order, h)
    ensures Extend(map[], h, order) == h
  {
    var e := Extend(map[], h, order);
    ExtendAll(map[], h, order);
    assert e.Keys == h.Keys;
    assert forall k :: k in e ==> e[k] == h[k];
  }

  // ---------------------------------------------------------------------------
  // Default headers (headers.go)

  /**
    `GetDefaultHeaders`: three `Set` calls on a fresh map. `Set` is not part
    of this model; `setKey` stands for the key it stores a name under.
  */
  function GetDefaultHeaders(contentLen: int, setKey: Bytes -> Bytes): (h: Headers.Fields)
    ensures h.Keys == {setKey("Content-Length"), setKey("Connection"), setKey("Content-Type")}
  {
    map[][setKey("Content-Length") := Decimal(contentLen)]
         [setKey("Connection") := "close"]
         [setKey("Content-Type") := "text/html"]
  }

  /** With three distinct keys, the length reads back as the number given, and the other two are fixed. */
  lemma DefaultHeadersValues(contentLen: Int64, setKey: Bytes -> Bytes)
    requires setKey("Content-Length") != setKey("Connection")
    requires setKey("Content-Length") != setKey("Content-Type")
    ensures var h := GetDefaultHeaders(contentLen, setKey);
      Atoi(h[setKey("Content-Length")]) == Some(contentLen)
      && h[setKey("Content-Type")] == "text/html"
      && (setKey("Connection") != setKey("Content-Type") ==> h[setKey("Connection")] == "close")
  {
    AtoiDecimal(contentLen);
  }

  /** A formatted number has no white space at either end and no CRLF. */
  lemma DecimalClean(n: int)
    ensures IsTrimmed(Decimal(n)) && NoCRLF(Decimal(n))
  {
    var d := DigitsOf(if n < 0 then -n else n);
    assert forall i :: 0 <= i < |d| ==> d[i] != '\r';
    NoCRNoCRLF(Decimal(n));
  }

  /** `setKey` stores each default name in lower case, as `Headers.Parse` stores names. */
  predicate LowerCaseKeys(setKey: Bytes -> Bytes) {
    setKey("Content-Length") == "content-length" && setKey("Connection") == "connection"
    && setKey("Content-Type") == "content-type"
  }

  lemma TokenName(name: Bytes)
    requires forall i :: 0 <= i < |name| ==> 'a' <= name[i] <= 'z' || name[i] == '-'
    ensures Headers.IsToken(name)
  {
    assert forall i :: 0 <= i < |name| ==> Headers.IsTokenChar(name[i]) by {
      assert '-' in "!#$%&'*+-.^_`|~";
    }
  }

  lemma CleanValue(value: Bytes)
    requires forall i :: 0 <= i < |value| ==> 'a' <= value[i] <= 'z' || value[i] == '/'
    ensures IsTrimmed(value) && NoCRLF(value)
  {
    NoCRNoCRLF(value);
  }

  lemma DefaultFieldsWellFormed(length: Bytes, m: Headers.Fields)
    requires IsTrimmed(length) && NoCRLF(length)
    requires m == map["content-length" := length, "connection" := "close", "content-type" := "text/html"]
    ensures WellFormedFields(m)
  {
    TokenName("content-length");
    TokenName("connection");
    TokenName("content-type");
    CleanValue("close");
    CleanValue("text/html");
    forall k | k in m
      ensures |k| > 0 && Headers.IsToken(k) && IsTrimmed(m[k]) && NoCRLF(m[k])
    {
      if k == "content-length" {
        assert m[k] == length;
      } else if k == "connection" {
        assert m[k] == "close";
      } else {
        assert k == "content-type" && m[k] == "text/html";
      }
    }
  }

  /**
    Stored under their lower-case names, the default headers survive being
    written in any order and parsed back, and the request parser's
    Content-Length lookup then reads the number given.
  */
  lemma DefaultHeadersRoundTrip(contentLen: Int64, setKey: Bytes -> Bytes, order: seq<Bytes>)
    requires LowerCaseKeys(setKey)
    requires Enumerates(order, GetDefaultHeaders(contentLen, setKey))
    ensures var h := GetDefaultHeaders(contentLen, setKey);
      ParseSection(map[], HeaderBlock(h, order)) == Some(h)
      && Headers.Get(h, "content-length") == Some(Decimal(contentLen))
      && Atoi(Headers.Get(h, "content-length").value) == Some(contentLen)
  {
    var h := GetDefaultHeaders(contentLen, setKey);
    var d := Decimal(contentLen);
    assert h == map["content-length" := d, "connection" := "close", "content-type" := "text/html"];
    DecimalClean(contentLen);
    DefaultFieldsWellFormed(d, h);
    HeaderBlockRoundTrip(h, order);
    LengthLookup(h, d);
    AtoiDecimal(contentLen);
  }

  lemma LengthLookup(h: Headers.Fields, d: Bytes)
    requires "content-length" in h && h["content-length"] == d
    ensures Headers.Get(h, "content-length") == Some(d)
  {
    TokenName("content-length");
    Headers.TokenFacts("content-length");
  }
}
