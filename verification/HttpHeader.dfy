/** `HttpResponseProcessor::parseHeader`: the status line and the header fields of a response. */
module HttpHeader {
  import opened Bytes

  type Headers = map<bytes, bytes>

  const NO_STATUS: int := -1

  datatype Head = Head(status: int, headers: Headers)

  /** `std::stoul`; nothing when it throws. */
  function Stoul(s: bytes): Option<nat> {
    var parsed := Strtoul(CString(s), 10);
    if parsed.end == 0 || parsed.overflow then None else Some(parsed.value)
  }

  /** The second of the tokens that a space separates; nothing when it is there and no number. */
  function ParseStatus(line: bytes): Option<int> {
    match GetLine(line, ' ')
    case None => Some(NO_STATUS)
    case Some((_, rest)) =>
      match GetLine(rest, ' ')
      case None => Some(NO_STATUS)
      case Some((token, _)) =>
        match Stoul(token)
        case None => None
        case Some(n) => Some(ToInt32(n))
  }

  function ParseField(line: bytes, headers: Headers): Headers {
    var (key, rest) := match GetLine(line, ':') case None => ([], []) case Some(pair) => pair;
    var value := match GetLine(rest, CR) case None => [] case Some(pair) => pair.0;
    headers[ToLower(Trim(key)) := Trim(value)]
  }

  function ParseFields(s: bytes, headers: Headers): Headers
    decreases |s|
  {
    match GetLine(s, LF)
    case None => headers
    case Some((line, rest)) => ParseFields(rest, ParseField(line, headers))
  }

  /** `parseHeader` on the text before the empty line; fields are added to those already there. */
  function ParseHeader(text: bytes, headers: Headers): Option<Head> {
    match GetLine(text, LF)
    case None => Some(Head(NO_STATUS, headers))
    case Some((line, rest)) =>
      match ParseStatus(line)
      case None => None
      case Some(status) => Some(Head(status, ParseFields(rest, headers)))
  }

  /** The loop of `parseHeader` over the field lines. */
  method ReadFields(s: bytes, headers: Headers) returns (r: Headers)
    ensures r == ParseFields(s, headers)
  {
    r := headers;
    var stream := s;
    while stream != []
      invariant ParseFields(stream, r) == ParseFields(s, headers)
      decreases |stream|
    {
      var (line, rest) := GetLine(stream, LF).value;
      r := ParseField(line, r);
      stream := rest;
    }
  }

  // ---------------------------------------------------------------- printing

  datatype Field = Field(name: bytes, value: bytes)

  /** What a header may consist of for the parser to read it as it was meant. */
  predicate FieldOk(f: Field) {
    && Trimmed(f.name) && Trimmed(f.value)
    && f.name != []
    && ':' !in f.name && CR !in f.name && LF !in f.name
    && CR !in f.value && LF !in f.value
  }

  predicate FieldsOk(fs: seq<Field>) {
    forall i :: 0 <= i < |fs| ==> FieldOk(fs[i])
  }

  predicate TokenOk(t: bytes) {
    t != [] && ' ' !in t && CR !in t && LF !in t
  }

  function PrintFields(fs: seq<Field>): bytes {
    if fs == [] then [] else CRLF + fs[0].name + ": " + fs[0].value + PrintFields(fs[1..])
  }

  /** The header of a response up to the empty line. */
  function PrintHead(version: bytes, status: nat, reason: bytes, fs: seq<Field>): bytes {
    version + " " + Print(status, 10) + " " + reason + PrintFields(fs)
  }

  /** The map that a list of fields stands for: names in lower case, the last duplicate wins. */
  function FieldMap(fs: seq<Field>, headers: Headers): Headers {
    if fs == [] then headers else FieldMap(fs[1..], headers[ToLower(fs[0].name) := fs[0].value])
  }

  /** A name that no field has keeps the value it had. */
  lemma {:induction false} FieldMapWithout(fs: seq<Field>, headers: Headers, key: bytes)
    requires forall i :: 0 <= i < |fs| ==> ToLower(fs[i].name) != key
    ensures key in FieldMap(fs, headers) <==> key in headers
    ensures key in headers ==> FieldMap(fs, headers)[key] == headers[key]
    decreases |fs|
  {
    hide ToLower;
    if fs != [] {
      FieldMapWithout(fs[1..], headers[ToLower(fs[0].name) := fs[0].value], key);
    }
  }

  /** The last field with a name decides its value. */
  lemma {:induction false} FieldMapLast(fs: seq<Field>, headers: Headers, key: bytes, k: nat)
    requires k < |fs| && ToLower(fs[k].name) == key && forall i :: k < i < |fs| ==> ToLower(fs[i].name) != key
    ensures key in FieldMap(fs, headers) && FieldMap(fs, headers)[key] == fs[k].value
    decreases |fs|
  {
    hide ToLower;
    var headers' := headers[ToLower(fs[0].name) := fs[0].value];
    if k == 0 {
      FieldMapWithout(fs[1..], headers', key);
    } else {
      FieldMapLast(fs[1..], headers', key, k - 1);
    }
  }

  /** A field is read from its line with any white space around its name and its value; a CR ends the line,
      and what follows it is dropped. */
  lemma ParseFieldExactly(a: bytes, name: bytes, b: bytes, c: bytes, value: bytes, d: bytes, end: bytes, headers: Headers)
    requires AllSpace(a) && AllSpace(b) && AllSpace(c) && AllSpace(d) && Trimmed(name) && Trimmed(value)
    requires ':' !in name && CR !in c && CR !in value && CR !in d && (end == [] || end[0] == CR)
    ensures ParseField((a + name + b) + [':'] + ((c + value + d) + end), headers) == headers[ToLower(name) := value]
  {
    hide GetLine, Trim, ToLower, Trimmed, IsSpace;
    assert ':' !in a + name + b by {
      SpaceIsNoColon(a);
      SpaceIsNoColon(b);
    }
    GetLineAtDelim(a + name + b, ':', (c + value + d) + end);
    ValueInLine(c + value + d, end);
    TrimPadded(a, name, b);
    TrimPadded(c, value, d);
  }

  lemma SpaceIsNoColon(s: bytes)
    requires AllSpace(s)
    ensures ':' !in s
  {
  }

  /** A line without a colon is a name whose value is empty. */
  lemma FieldWithoutColon(line: bytes, headers: Headers)
    requires ':' !in line
    ensures ParseField(line, headers) == headers[ToLower(Trim(line)) := []]
  {
    hide GetLine, ToLower;
    assert Trim([]) == [];
    if line != [] {
      GetLineToEnd(line, ':');
    }
  }

  /** A field is read back from its line, whether or not the line still ends in CR. */
  lemma ParseFieldInverts(f: Field, end: bytes, headers: Headers)
    requires FieldOk(f) && (end == [] || end == [CR])
    ensures ParseField(f.name + ": " + f.value + end, headers) == headers[ToLower(f.name) := f.value]
  {
    hide ParseField, Trimmed;
    var none: bytes := [];
    ParseFieldExactly(none, f.name, none, " ", f.value, none, end, headers);
    assert (none + f.name + none) + [':'] + ((" " + f.value + none) + end) == f.name + ": " + f.value + end;
  }

  lemma ValueInLine(value: bytes, end: bytes)
    requires CR !in value && (end == [] || end[0] == CR)
    ensures var r := GetLine(value + end, CR); if r.None? then value == [] else r.value.0 == value
  {
    if end == [] {
      assert value + end == value;
      if value != [] {
        GetLineToEnd(value, CR);
      }
    } else {
      assert value + end == value + [CR] + end[1..];
      GetLineAtDelim(value, CR, end[1..]);
    }
  }

  /** The text of the fields without the line break before the first. */
  function FieldLines(fs: seq<Field>): bytes
    requires fs != []
  {
    fs[0].name + ": " + fs[0].value + PrintFields(fs[1..])
  }

  lemma {:induction false} ParseFieldsInverts(fs: seq<Field>, headers: Headers)
    requires fs != [] && FieldsOk(fs)
    ensures ParseFields(FieldLines(fs), headers) == FieldMap(fs, headers)
    decreases |fs|
  {
    var f, rest := fs[0], fs[1..];
    var line := f.name + ": " + f.value;
    assert LF !in line;
    if rest == [] {
      assert FieldLines(fs) == line;
      GetLineToEnd(line, LF);
      assert line + [] == line;
      ParseFieldInverts(f, [], headers);
    } else {
      var s := FieldLines(fs);
      assert s == line + [CR] + [LF] + FieldLines(rest);
      assert LF !in line + [CR];
      GetLineAtDelim(line + [CR], LF, FieldLines(rest));
      ParseFieldInverts(f, [CR], headers);
      ParseFieldsInverts(rest, headers[ToLower(f.name) := f.value]);
    }
  }

  /** The status is read back from the status line, whether or not the line still ends in CR. */
  lemma ParseStatusInverts(version: bytes, status: nat, reason: bytes)
    requires TokenOk(version) && status <= 0x7FFF_FFFF
    ensures ParseStatus(version + " " + Print(status, 10) + " " + reason) == Some(status)
  {
    hide Print, ParseStatus, Stoul;
    var digits := Print(status, 10);
    assert ' ' !in digits by {
      assert !IsDigit(' ', 10);
    }
    TokenOfLine(version, digits, " " + reason);
    assert version + [' '] + (digits + (" " + reason)) == version + " " + digits + " " + reason;
    StoulOfPrint(status);
  }

  lemma StoulOfPrint(n: nat)
    requires n <= 0x7FFF_FFFF
    ensures Stoul(Print(n, 10)) == Some(n)
  {
    hide Stoul, Print, Number, Value;
    StoulOfDigits(Print(n, 10), []);
    assert Print(n, 10) + [] == Print(n, 10);
    ValueIsNumber(Print(n, 10), 10);
    ValueOfPrint(n, 10);
  }

  /** A status line of one token, or with nothing after it, leaves the status unknown. */
  lemma NoStatusToken(line: bytes)
    requires line == [] || ' ' !in line[..|line| - 1]
    ensures ParseStatus(line) == Some(NO_STATUS)
  {
    hide GetLine, Stoul;
    if line != [] {
      var k := |line| - 1;
      if line[k] == ' ' {
        assert line == line[..k] + [' '] + [];
        GetLineAtDelim(line[..k], ' ', []);
      } else {
        assert line == line[..k] + [line[k]];
        GetLineToEnd(line, ' ');
      }
    }
  }

  /** A second token that does not start with a number: `stoul` throws. */
  lemma NoNumberNoStatus(version: bytes, token: bytes, rest: bytes)
    requires ' ' !in version && ' ' !in token && token + rest != [] && (rest != [] ==> rest[0] == ' ')
    requires token != [] ==> NoNumber(token[0])
    ensures ParseStatus(version + [' '] + (token + rest)).None?
  {
    hide GetLine, Stoul, NoNumber;
    TokenOfLine(version, token, rest);
    NoNumberThrows(token);
  }

  lemma TokenOfLine(version: bytes, token: bytes, rest: bytes)
    requires ' ' !in version && ' ' !in token && token + rest != [] && (rest != [] ==> rest[0] == ' ')
    ensures ParseStatus(version + [' '] + (token + rest)) ==
            match Stoul(token) case None => None case Some(n) => Some(ToInt32(n))
  {
    hide GetLine, Stoul;
    GetLineAtDelim(version, ' ', token + rest);
    if rest == [] {
      assert token + rest == token;
      GetLineToEnd(token, ' ');
    } else {
      assert token + rest == token + [' '] + rest[1..];
      GetLineAtDelim(token, ' ', rest[1..]);
    }
  }

  /** What a number for `stoul` cannot start with. */
  predicate NoNumber(c: byte) {
    c !in "0123456789" && !IsSpace(c) && c != '+' && c != '-'
  }

  lemma NoNumberThrows(text: bytes)
    requires text != [] ==> NoNumber(text[0])
    ensures Stoul(text).None?
  {
    hide Strtoul, CString, IsSpace, IsDigit;
    var t := CString(text);
    if t != [] {
      IsDigitExactly(t[0]);
    }
    StrtoulNothing([], [], t, 10);
    assert [] + ([] + t) == t;
  }

  /** Digits, and anything that is no digit after them: the number, if it is below 2^64. */
  lemma StoulOfDigits(digits: bytes, rest: bytes)
    requires digits != [] && AllDigits(digits, 10) && (rest != [] ==> !IsDigit(rest[0], 10))
    ensures Stoul(digits + rest) ==
            if Number(digits, 10) < 0x1_0000_0000_0000_0000 then Some(Number(digits, 10)) else None
  {
    hide Strtoul, IsDigit, Number, CString;
    DigitsHaveNoNul(digits);
    CStringOfPrefix(digits, rest);
    StrtoulDecimal(digits, CString(rest));
  }

  lemma StrtoulDecimal(digits: bytes, more: bytes)
    requires digits != [] && AllDigits(digits, 10) && (more != [] ==> !IsDigit(more[0], 10))
    ensures Strtoul(digits + more, 10)
         == Parsed(Signed([], Number(digits, 10)), |digits|, Number(digits, 10) >= 0x1_0000_0000_0000_0000)
  {
    hide Strtoul, IsDigit, Number;
    StrtoulRead([], [], [], digits, more, 10);
    assert [] + ([] + ([] + (digits + more))) == digits + more;
  }

  lemma DigitsHaveNoNul(digits: bytes)
    requires AllDigits(digits, 10)
    ensures NUL !in digits
  {
  }

  lemma {:induction false} CStringOfPrefix(s: bytes, rest: bytes)
    requires NUL !in s
    ensures CString(s + rest) == s + CString(rest)
    decreases |s|
  {
    if s == [] {
      assert s + rest == rest;
    } else {
      assert (s + rest)[1..] == s[1..] + rest;
      CStringOfPrefix(s[1..], rest);
    }
  }

  lemma PrintedHead(version: bytes, status: nat, reason: bytes, fs: seq<Field>)
    ensures PrintHead(version, status, reason, fs) ==
            version + " " + Print(status, 10) + " " + reason + (if fs == [] then [] else [CR] + [LF] + FieldLines(fs))
  {
    if fs != [] {
      assert PrintFields(fs) == [CR] + [LF] + FieldLines(fs);
    }
  }

  lemma ParsedNothing(headers: Headers)
    ensures ParseFields([], headers) == headers && FieldMap([], headers) == headers
  {
  }

  /** Parsing inverts printing: the status, and the map of the fields on top of the fields that
      were there before. */
  lemma ParseInvertsPrint(version: bytes, status: nat, reason: bytes, fs: seq<Field>, headers: Headers)
    requires TokenOk(version) && status <= 0x7FFF_FFFF && LF !in reason && FieldsOk(fs)
    ensures ParseHeader(PrintHead(version, status, reason, fs), headers) == Some(Head(status, FieldMap(fs, headers)))
  {
    hide GetLine, ParseStatus, ParseFields, Print, PrintFields, FieldMap;
    var digits := Print(status, 10);
    var line := version + " " + digits + " " + reason;
    assert LF !in line by {
      assert LF !in digits;
    }
    ParseStatusInverts(version, status, reason);
    PrintedHead(version, status, reason, fs);
    if fs == [] {
      assert line + [] == line;
      GetLineToEnd(line, LF);
      ParsedNothing(headers);
    } else {
      assert line + ([CR] + [LF] + FieldLines(fs)) == line + [CR] + [LF] + FieldLines(fs);
      GetLineAtDelim(line + [CR], LF, FieldLines(fs));
      ParseStatusInverts(version, status, reason + [CR]);
      assert line + [CR] == version + " " + digits + " " + (reason + [CR]);
      ParseFieldsInverts(fs, headers);
    }
  }

  // ---------------------------------------------------------------- the end of the header

  /** Every CR is followed, two places later, by something else than CR. */
  predicate Spaced(s: bytes) {
    forall i :: 0 <= i < |s| && s[i] == CR ==> i + 2 < |s| && s[i + 2] != CR
  }

  lemma {:induction false} FieldsSpaced(fs: seq<Field>)
    requires FieldsOk(fs)
    ensures Spaced(PrintFields(fs))
    decreases |fs|
  {
    if fs != [] {
      var f, tail := fs[0], PrintFields(fs[1..]);
      var line := CRLF + f.name + ": " + f.value;
      FieldsSpaced(fs[1..]);
      assert CR !in f.name + ": " + f.value && line == CRLF + (f.name + ": " + f.value);
      forall i | 0 <= i < |line + tail| && (line + tail)[i] == CR
        ensures i + 2 < |line + tail| && (line + tail)[i + 2] != CR
      {
        if i >= |line| {
          assert tail[i - |line|] == CR;
          assert (line + tail)[i + 2] == tail[i + 2 - |line|];
        } else {
          assert i == 0 && line[2] == f.name[0];
        }
      }
    }
  }

  /** The empty line after a printed header is the first one in the response. */
  lemma HeadEndsOnce(version: bytes, status: nat, reason: bytes, fs: seq<Field>, body: bytes)
    requires TokenOk(version) && CR !in reason && FieldsOk(fs)
    ensures Find(PrintHead(version, status, reason, fs) + HEAD_END + body, HEAD_END, 0)
         == |PrintHead(version, status, reason, fs)|
  {
    var line := version + " " + Print(status, 10) + " " + reason;
    var head := PrintHead(version, status, reason, fs);
    assert head == line + PrintFields(fs);
    assert CR !in line by {
      assert CR !in Print(status, 10);
    }
    FieldsSpaced(fs);
    var s := head + HEAD_END + body;
    forall i | 0 <= i < |head|
      ensures !OccursAt(s, HEAD_END, i)
    {
      if s[i] == CR {
        assert PrintFields(fs)[i - |line|] == CR;
        assert s[i + 2] == PrintFields(fs)[i + 2 - |line|];
        assert i + 4 <= |s| ==> s[i..i + 4][2] == s[i + 2];
      } else {
        assert i + 4 <= |s| ==> s[i..i + 4][0] == s[i];
      }
    }
    assert s[|head|..|head| + 4] == HEAD_END;
    FindIs(s, HEAD_END, 0, |head|);
  }
}
