/**
  The header field collection of internal/headers/headers.go: a map from
  lower-case field names to values, filled in place one field line at a time
  (section 5.1 of RFC 9112), with repeated names combined as section 5.3 of
  RFC 9110 allows.
*/
module Headers {
  import opened Text

  type Fields = map<Bytes, Bytes>

  datatype HeaderError =
    | InvalidHeader         // the line holds no colon
    | InvalidFieldName      // the name is empty or ends in a space or a tab
    | InvalidFieldNameChar  // the lower-cased name holds a non-token byte

  /** Token characters (section 5.6.2 of RFC 9110) as they look after lower-casing. */
  predicate IsTokenChar(c: Byte) {
    'a' <= c <= 'z' || IsDigit(c) || c in "!#$%&'*+-.^_`|~"
  }

  predicate IsToken(s: Bytes) {
    forall i :: 0 <= i < |s| ==> IsTokenChar(s[i])
  }

  /** What one field line says once its CRLF has been cut off. */
  datatype FieldResult =
    | Field(name: Bytes, value: Bytes)
    | Invalid(error: HeaderError)

  /** The checks `Parse` makes of one line without its CRLF: colon, name, value. */
  function FieldOf(line: Bytes): (r: FieldResult)
    ensures r.Field? ==> IsToken(r.name) && IsTrimmed(r.value)
    ensures r.Field? ==> |line| >= 2
  {
    var colon := Index(line, ":");
    if colon == -1 then Invalid(InvalidHeader)
    else
      var fieldName := line[..colon];
      var fieldValue := line[colon + 1..];
      if |fieldName| == 0 || fieldName[|fieldName| - 1] == ' ' || fieldName[|fieldName| - 1] == '\t' then
        Invalid(InvalidFieldName)
      else
        var name := ToLower(TrimSpace(fieldName));
        if !IsToken(name) then Invalid(InvalidFieldNameChar)
        else Field(name, TrimSpace(fieldValue))
  }

  /** What the byte scan of one call to `Parse` finds, before the map is touched. */
  datatype LineScan =
    | NeedMore                                      // no CRLF yet
    | SectionEnd                                    // an empty line
    | FieldLine(n: nat, name: Bytes, value: Bytes)  // a valid field line of n bytes
    | Malformed(error: HeaderError)

  /** The scan of `data` for one field line: everything `Parse` does but the map update. */
  function ScanFieldLine(data: Bytes): (r: LineScan)
    ensures r.FieldLine? ==> 4 <= r.n <= |data|
    ensures r.FieldLine? ==> IsToken(r.name) && IsTrimmed(r.value)
  {
    var crlf := Index(data, CRLF);
    if crlf == -1 then NeedMore
    else if crlf == 0 then SectionEnd
    else
      match FieldOf(data[..crlf])
      case Invalid(e) => Malformed(e)
      case Field(name, value) => FieldLine(crlf + 2, name, value)
  }

  /** Store one field: a new name is inserted, a repeated one gets ", " and the new value appended. */
  function Merge(h: Fields, name: Bytes, value: Bytes): (r: Fields)
    ensures r.Keys == h.Keys + {name}
    ensures forall k :: k in h && k != name ==> r[k] == h[k]
    ensures r[name] == if name in h then h[name] + ", " + value else value
  {
    if name in h then h[name := h[name] + ", " + value] else h[name := value]
  }

  /** The results of one call to `Parse`, and the map it leaves behind. */
  datatype Parsed = Parsed(n: nat, done: bool, error: Option<HeaderError>, fields: Fields)

  /** The effect of `Parse(data)` on a collection holding `h`. */
  function ParseLine(h: Fields, data: Bytes): (r: Parsed)
    ensures r.n <= |data|
    ensures r.error.Some? ==> r.n == 0 && !r.done && r.fields == h
    ensures r.done ==> r.n == 2 && r.fields == h
    ensures r.n == 0 ==> r.fields == h
    ensures h.Keys <= r.fields.Keys && |r.fields.Keys - h.Keys| <= 1
    ensures forall k :: k in h && k in r.fields && r.fields[k] != h[k] ==> r.n > 0
  {
    match ScanFieldLine(data)
    case NeedMore => Parsed(0, false, None, h)
    case SectionEnd => Parsed(2, true, None, h)
    case Malformed(e) => Parsed(0, false, Some(e), h)
    case FieldLine(n, name, value) =>
      var m := Merge(h, name, value);
      assert m.Keys - h.Keys <= {name};
      Parsed(n, false, None, m)
  }

  /** `Headers.Get`: the value stored under the lower-cased name. */
  function Get(h: Fields, name: Bytes): (r: Option<Bytes>)
    ensures r.Some? <==> ToLower(name) in h
    ensures r.Some? ==> r.value == h[ToLower(name)]
  {
    var key := ToLower(name);
    if key in h then Some(h[key]) else None
  }

  /** A header collection, `Headers` in the source (a Go map updated in place). */
  class Headers {
    var fields: Fields

    /** `NewHeaders`: an empty collection. */
    constructor ()
      ensures fields == map[]
    {
      fields := map[];
    }

    /**
      Consume at most one field line from `data`: `n` bytes are used, `done`
      reports the empty line that ends the section, and a valid line is stored.
    */
    method Parse(data: Bytes) returns (n: nat, done: bool, err: Option<HeaderError>)
      modifies this
      ensures Parsed(n, done, err, fields) == ParseLine(old(fields), data)
    {
      var scan := ScanFieldLine(data);
      ghost var expected := ParseLine(fields, data);
      match scan
      case NeedMore =>
        return 0, false, None;
      case SectionEnd =>
        return 2, true, None;
      case Malformed(e) =>
        return 0, false, Some(e);
      case FieldLine(k, name, value) =>
        assert expected == Parsed(k, false, None, Merge(fields, name, value));
        if name in fields {
          fields := fields[name := fields[name] + ", " + value];
        } else {
          fields := fields[name := value];
        }
        return k, false, None;
    }
  }

  // ---------------------------------------------------------------------------
  // Properties of the field-line scan

  /** Without a CRLF nothing is consumed and nothing is stored; with one, the line up to it is examined. */
  lemma ScanWaitsForCRLF(data: Bytes)
    ensures ScanFieldLine(data).NeedMore? <==> NoCRLF(data)
    ensures ScanFieldLine(data).SectionEnd? <==> OccursAt(data, CRLF, 0)
    ensures ScanFieldLine(data).FieldLine? ==> ScanFieldLine(data).n == Index(data, CRLF) + 2
  {
    IndexFirst(data, CRLF);
  }

  /** A non-empty CRLF-free line followed by CRLF is judged by `FieldOf` alone, whatever follows. */
  lemma {:induction false} ScanLine(line: Bytes, rest: Bytes)
    requires |line| > 0 && NoCRLF(line)
    ensures var f := FieldOf(line);
      ScanFieldLine(line + CRLF + rest) ==
        if f.Field? then FieldLine(|line| + 2, f.name, f.value) else Malformed(f.error)
  {
    IndexCRLFAfter(line, rest);
    assert (line + CRLF + rest)[..|line|] == line;
  }

  /** Every outcome of the checks on a line whose first colon follows `raw`. */
  lemma {:induction false} FieldOfCases(raw: Bytes, value: Bytes)
    requires ':' !in raw
    ensures FieldOf(raw + ":" + value) ==
      if |raw| == 0 || raw[|raw| - 1] == ' ' || raw[|raw| - 1] == '\t' then Invalid(InvalidFieldName)
      else if !IsToken(ToLower(TrimSpace(raw))) then Invalid(InvalidFieldNameChar)
      else Field(ToLower(TrimSpace(raw)), TrimSpace(value))
  {
    var line := raw + ":" + value;
    OccursSingle(line, ':');
    assert line[|raw|] == ':';
    IndexIs(line, ":", |raw|);
    assert line[..|raw|] == raw;
    assert line[|raw| + 1..] == value;
  }

  /** A line without a colon is rejected as an invalid header. */
  lemma {:induction false} FieldOfNoColon(line: Bytes)
    requires ':' !in line
    ensures FieldOf(line) == Invalid(InvalidHeader)
  {
    OccursSingle(line, ':');
  }

  /** White space between a name and its colon is an error (section 5.1 of RFC 9112). */
  lemma {:induction false} SpaceBeforeColonRejected(name: Bytes, value: Bytes)
    requires ':' !in name
    ensures FieldOf(name + " :" + value) == Invalid(InvalidFieldName)
    ensures FieldOf(name + "\t:" + value) == Invalid(InvalidFieldName)
  {
    assert name + " :" + value == (name + " ") + ":" + value;
    FieldOfCases(name + " ", value);
    assert name + "\t:" + value == (name + "\t") + ":" + value;
    FieldOfCases(name + "\t", value);
  }

  /** The concrete case "a : 1" followed by CRLF. */
  lemma SpacedNameExample()
    ensures ScanFieldLine("a : 1\r\n") == Malformed(InvalidFieldName)
  {
    assert "a" + " :" + " 1" == "a : 1";
    SpaceBeforeColonRejected("a", " 1");
    NoCRNoCRLF("a : 1");
    ScanLine("a : 1", []);
    assert "a : 1" + CRLF + [] == "a : 1\r\n";
  }

  /**
    A name made only of white space that does not end in a space or a tab
    (a vertical tab, say) passes the name check and is stored under the
    empty key.
  */
  lemma WhiteSpaceNameStoredEmpty(raw: Bytes, value: Bytes)
    requires |raw| > 0 && AllSpace(raw) && raw[|raw| - 1] != ' ' && raw[|raw| - 1] != '\t'
    ensures FieldOf(raw + ":" + value) == Field([], TrimSpace(value))
  {
    assert forall i :: 0 <= i < |raw| ==> raw[i] != ':';
    SpaceTrimsAway(raw);
    FieldOfCases(raw, value);
  }

  lemma SpaceTrimsAway(raw: Bytes)
    requires AllSpace(raw)
    ensures ToLower(TrimSpace(raw)) == []
  {
    TrimSpacePadded(raw, [], []);
    assert raw + [] + [] == raw;
  }

  /** Token names are their own lower case and hold no white space, colon or CR. */
  lemma TokenFacts(name: Bytes)
    requires IsToken(name)
    ensures ToLower(name) == name
    ensures ':' !in name && '\r' !in name
    ensures IsTrimmed(name) && (|name| > 0 ==> name[|name| - 1] != ' ' && name[|name| - 1] != '\t')
  {
    TokenLower(name);
    forall i | 0 <= i < |name| ensures name[i] != ':' && name[i] != '\r' && !IsSpace(name[i]) {
      assert IsTokenChar(name[i]);
    }
  }

  lemma TokenLower(name: Bytes)
    requires IsToken(name)
    ensures ToLower(name) == name
  {
    forall i | 0 <= i < |name| ensures ToLower(name)[i] == name[i] {
      assert IsTokenChar(name[i]);
    }
  }

  /** A token name passes every check `FieldOfCases` makes of the name. */
  lemma WellFormedName(name: Bytes)
    requires |name| > 0 && IsToken(name)
    ensures ':' !in name && name[|name| - 1] != ' ' && name[|name| - 1] != '\t'
    ensures ToLower(TrimSpace(name)) == name
  {
    TokenFacts(name);
    TrimSpacePadded([], name, []);
    assert [] + name + [] == name;
  }

  /** Writing `name: value` adds no CRLF to a CRLF-free value. */
  lemma WellFormedLineNoCRLF(name: Bytes, value: Bytes)
    requires IsToken(name) && NoCRLF(value)
    ensures NoCRLF(name + ": " + value)
  {
    TokenFacts(name);
    NoCRNoCRLF(name + ": ");
    NoCRLFConcat(name + ": ", value);
  }

  /** The space after the colon is trimmed off a trimmed value. */
  lemma WellFormedValue(value: Bytes)
    requires IsTrimmed(value)
    ensures TrimSpace(" " + value) == value
  {
    TrimSpacePadded(" ", value, []);
    assert " " + value + [] == " " + value;
  }

  /** A well-formed field `name: value` passes every check and yields exactly that name and value. */
  lemma {:induction false} FieldOfWellFormed(name: Bytes, value: Bytes)
    requires |name| > 0 && IsToken(name) && IsTrimmed(value)
    ensures FieldOf(name + ": " + value) == Field(name, value)
  {
    ColonSpace(name, value);
    WellFormedName(name);
    WellFormedValue(value);
    FieldOfCases(name, " " + value);
  }

  lemma ColonSpace(name: Bytes, value: Bytes)
    ensures name + ": " + value == name + ":" + (" " + value)
  {
    assert ": " == ":" + " ";
  }

  /** A field line as a writer puts it on the wire: `name: value` and CRLF. */
  function FieldLineText(name: Bytes, value: Bytes): (r: Bytes)
    ensures |r| == |name| + |value| + 4
  {
    name + ": " + value + CRLF
  }

  /** The facts `ScanLine` needs about a well-formed `name: value`. */
  lemma WellFormedLine(name: Bytes, value: Bytes, line: Bytes)
    requires |name| > 0 && IsToken(name)
    requires IsTrimmed(value) && NoCRLF(value)
    requires line == name + ": " + value
    ensures NoCRLF(line) && FieldOf(line) == Field(name, value)
  {
    FieldOfWellFormed(name, value);
    WellFormedLineNoCRLF(name, value);
  }

  /** A CRLF-free line that passes the checks is consumed with its CRLF. */
  lemma ScanValidLine(line: Bytes, name: Bytes, value: Bytes, rest: Bytes)
    requires |line| > 0 && NoCRLF(line) && FieldOf(line) == Field(name, value)
    ensures ScanFieldLine(line + CRLF + rest) == FieldLine(|line| + 2, name, value)
  {
    ScanLine(line, rest);
  }

  /** A well-formed field line is read back as exactly that name and value, whatever follows it. */
  lemma ScanWellFormedLine(name: Bytes, value: Bytes, rest: Bytes)
    requires |name| > 0 && IsToken(name)
    requires IsTrimmed(value) && NoCRLF(value)
    ensures ScanFieldLine(FieldLineText(name, value) + rest) == FieldLine(|name| + |value| + 4, name, value)
  {
    var line := name + ": " + value;
    assert FieldLineText(name, value) + rest == line + CRLF + rest;
    WellFormedLine(name, value, line);
    ScanValidLine(line, name, value, rest);
  }

  /**
    Parsing a well-formed field line stores it: a new name is inserted, a
    repeated one gets ", " and the new value appended to what it held.
  */
  lemma ParseWellFormedLine(h: Fields, name: Bytes, value: Bytes, rest: Bytes)
    requires |name| > 0 && IsToken(name)
    requires IsTrimmed(value) && NoCRLF(value)
    ensures ParseLine(h, FieldLineText(name, value) + rest) ==
      Parsed(|name| + |value| + 4, false, None, Merge(h, name, value))
  {
    ScanWellFormedLine(name, value, rest);
  }

  /** The empty line ends the section and leaves the map alone, whatever follows it. */
  lemma ParseSectionEnd(h: Fields, rest: Bytes)
    ensures ParseLine(h, CRLF + rest) == Parsed(2, true, None, h)
  {
    assert (CRLF + rest)[0..2] == CRLF;
  }

  /** Once a CRLF has arrived, bytes appended later change nothing about the scan. */
  lemma ScanExtend(a: Bytes, b: Bytes)
    requires !ScanFieldLine(a).NeedMore?
    ensures ScanFieldLine(a + b) == ScanFieldLine(a)
  {
    var k := Index(a, CRLF);
    IndexExtend(a, b, CRLF);
    assert (a + b)[..k] == a[..k];
  }
}
