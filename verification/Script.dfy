/** `ConversationSerializer`: writing actions to a script and reading them back. */
module Script {
  import opened Bytes
  import opened Actions
  import opened InputStream
  import opened TagScan
  import Base64
  import Properties

  const START_TAG: bytes := "<#DATA_START#>"
  const ENCODING: bytes := "Encoding"
  const BASE64: bytes := "BASE64"
  const SEPARATOR: bytes := "##############################"

  /** `action_type_to_string`. */
  function TypeName(kind: ActionType): bytes {
    match kind
    case Connect => "CONNECT"
    case Send => "SEND"
    case Recv => "RECV"
    case Close => "CLOSE"
  }

  /** `string_to_action_type`; nothing when it throws. */
  function TypeOf(name: bytes): (r: Option<ActionType>)
    ensures forall k :: r == Some(k) <==> name == TypeName(k)
  {
    if name == "CONNECT" then Some(Connect)
    else if name == "SEND" then Some(Send)
    else if name == "RECV" then Some(Recv)
    else if name == "CLOSE" then Some(Close)
    else None
  }

  // ---------------------------------------------------------------- writing

  predicate IsBinaryByte(c: byte) {
    !IsPrint(c) && !IsSpace(c)
  }

  /** Whether the data is written in base64: some byte among the last 49 is neither printable nor white
      space, and there are at least 50 bytes. */
  predicate IsBinary(data: bytes) {
    |data| >= 50 && exists i :: |data| - 49 <= i < |data| && IsBinaryByte(data[i])
  }

  /** An `int` converted to `size_t`. */
  function ToSizeT(n: int): nat
    requires -0x8000_0000_0000_0000 <= n < 0x1_0000_0000_0000_0000
  {
    if n < 0 then n + 0x1_0000_0000_0000_0000 else n
  }

  /** The loop of `write_action` that looks for binary data. The lower bound of its index is unsigned,
      and so beyond every index when there are less than 50 bytes. */
  method DetectBinary(data: bytes) returns (binary: bool)
    requires |data| < 0x8000_0000
    ensures binary <==> IsBinary(data)
  {
    binary := false;
    var i := |data| - 1;
    while i >= 0 && ToSizeT(i) > ToSizeT(|data| - 50)
      invariant -1 <= i < |data|
      invariant |data| >= 50 ==> i >= |data| - 50 && forall k :: i < k < |data| ==> !IsBinaryByte(data[k])
    {
      if IsBinaryByte(data[i]) {
        return true;
      }
      i := i - 1;
    }
  }

  /** `write_action`. */
  function WriteAction(a: Action): bytes {
    TypeName(a.kind) + [LF]
    + (if IsBinary(a.data) then Properties.PropertyLine(ENCODING, BASE64) + [LF] else [])
    + START_TAG + [LF]
    + (if IsBinary(a.data) then Base64.ToBase64(a.data) else a.data) + END_TAG + [LF]
  }

  /** The loop of `write` over the action queue, with the comment lines between the actions. */
  function WriteActions(actions: seq<Action>): bytes {
    if actions == [] then []
    else [LF] + SEPARATOR + [LF] + [LF] + WriteAction(actions[0]) + WriteActions(actions[1..])
  }

  // ---------------------------------------------------------------- reading

  /** What is left of the stream, and its eofbit. */
  datatype Stream = Stream(rest: bytes, eof: bool)

  /** `std::getline` on the stream; nothing when it fails. */
  function NextLine(s: Stream): (r: Option<(bytes, Stream)>)
    ensures r.Some? ==> |r.value.1.rest| < |s.rest|
  {
    if s.eof || s.rest == [] then None
    else var (line, rest) := GetLine(s.rest, LF).value; Some((line, Stream(rest, LF !in s.rest)))
  }

  /** `is_comment`. */
  predicate IsComment(line: bytes) {
    var t := TrimLeft(line);
    t != [] && t[0] == '#'
  }

  /** The first of the nested loops: the next line that is neither a comment nor blank, trimmed. */
  function NextText(s: Stream): (r: Option<(bytes, Stream)>)
    ensures r.Some? ==> |r.value.1.rest| < |s.rest|
    decreases |s.rest|
  {
    match NextLine(s)
    case None => None
    case Some((line, s')) =>
      if IsComment(line) || Trim(line) == [] then NextText(s') else Some((Trim(line), s'))
  }

  /** The second of the nested loops: properties up to the line that starts the data, if there is one. */
  function ReadProperties(s: Stream, props: Properties.PropertyMap): (r: (Properties.PropertyMap, Option<Stream>))
    ensures r.1.Some? ==> |r.1.value.rest| < |s.rest|
    decreases |s.rest|
  {
    match NextText(s)
    case None => (props, None)
    case Some((line, s')) =>
      if line == START_TAG then (props, Some(s')) else ReadProperties(s', Properties.PutLine(props, line))
  }

  /** What reading an action comes to. */
  datatype Reading =
    | NoAction
    | Got(action: Action, next: Stream)
    | ReadThrew
    | ReadOutsideBuffer

  /** The data as it is in the script, and then, if the properties say so, decoded. */
  function Decoded(kind: ActionType, props: Properties.PropertyMap, data: bytes, next: Stream): Reading {
    if ENCODING in props && props[ENCODING] == BASE64 then
      match Base64.FromBase64(data)
      case None => ReadThrew
      case Some(decoded) => Got(Action(kind, decoded), next)
    else Got(Action(kind, data), next)
  }

  /** The data of an action, when there is any, and the action it makes. */
  function BodyOf(kind: ActionType, props: Properties.PropertyMap, body: Option<Stream>): (r: Reading)
    ensures !r.NoAction?
    ensures r.Got? ==> |r.next.rest| <= if body.None? then 0 else |body.value.rest|
  {
    match body
    case None => Decoded(kind, props, [], Stream([], true))
    case Some(s) =>
      if s.eof then ReadThrew
      else match ScanData(s.rest)
        case Tagged(data, rest) => Decoded(kind, props, data, Stream(rest, false))
        case Untagged(all) => Decoded(kind, props, all, Stream([], true))
        case TooShort => ReadOutsideBuffer
        case Failing => ReadThrew
  }

  /** One turn of the outer loop of `read_actions`. */
  function ReadAction(s: Stream): (r: Reading)
    ensures r.Got? ==> |r.next.rest| < |s.rest|
  {
    match NextText(s)
    case None => NoAction
    case Some((name, s')) =>
      match TypeOf(name)
      case None => ReadThrew
      case Some(kind) =>
        var (props, body) := ReadProperties(s', map[]);
        BodyOf(kind, props, body)
  }

  datatype Parsed = Actions(actions: seq<Action>) | ParseThrew | ParseOutsideBuffer

  function Prepend(before: seq<Action>, p: Parsed): Parsed {
    if p.Actions? then Actions(before + p.actions) else p
  }

  /** `read_actions`. */
  function ReadActions(s: Stream): Parsed
    decreases |s.rest|
  {
    if s.eof then Actions([]) else
      match ReadAction(s)
      case NoAction => Actions([])
      case Got(action, next) => Prepend([action], ReadActions(next))
      case ReadThrew => ParseThrew
      case ReadOutsideBuffer => ParseOutsideBuffer
  }

  // ---------------------------------------------------------------- reading what was written

  /** A line that ends in a line feed. */
  lemma NextLineIs(line: bytes, rest: bytes)
    requires LF !in line
    ensures NextLine(Stream(line + [LF] + rest, false)) == Some((line, Stream(rest, false)))
  {
    GetLineAtDelim(line, LF, rest);
    assert (line + [LF] + rest)[|line|] == LF;
  }

  /** A line that counts as it is. */
  predicate Plain(line: bytes) {
    LF !in line && line != [] && Trimmed(line) && line[0] != '#'
  }

  /** A line that counts is read without the white space around it. */
  lemma NextTextPadded(a: bytes, line: bytes, b: bytes, rest: bytes)
    requires AllSpace(a) && AllSpace(b) && Plain(line) && LF !in a && LF !in b
    ensures NextText(Stream(a + line + b + [LF] + rest, false)) == Some((line, Stream(rest, false)))
  {
    hide IsSpace, Trim;
    var all := a + line + b;
    NextLineIs(all, rest);
    TrimPadded(a, line, b);
    assert all == a + (line + b);
    TrimLeftStops(a, line + b);
  }

  lemma NextTextIs(line: bytes, rest: bytes)
    requires Plain(line)
    ensures NextText(Stream(line + [LF] + rest, false)) == Some((line, Stream(rest, false)))
  {
    hide NextText;
    NextTextPadded([], line, [], rest);
    assert [] + line + [] == line;
  }

  /** White space, and a comment after it, if there is one, are skipped. */
  lemma CommentsSkipped(a: bytes, comment: bytes, rest: bytes)
    requires AllSpace(a) && LF !in a && LF !in comment && (comment == [] || comment[0] == '#')
    ensures NextText(Stream(a + comment + [LF] + rest, false)) == NextText(Stream(rest, false))
  {
    NextLineIs(a + comment, rest);
    if comment == [] {
      assert a + comment == a;
      AllSpaceTrimsAway(a);
    } else {
      TrimLeftStops(a, comment);
    }
  }

  lemma NextTextSkips(line: bytes, rest: bytes)
    requires LF !in line && (line == [] || line[0] == '#')
    ensures NextText(Stream(line + [LF] + rest, false)) == NextText(Stream(rest, false))
  {
    hide NextText;
    CommentsSkipped([], line, rest);
    assert [] + line == line;
  }

  lemma SeparatorSkipped(rest: bytes)
    ensures NextText(Stream([LF] + SEPARATOR + [LF] + [LF] + rest, false)) == NextText(Stream(rest, false))
  {
    hide NextText;
    assert [LF] + SEPARATOR + [LF] + [LF] + rest == [] + [LF] + (SEPARATOR + [LF] + ([] + [LF] + rest));
    NextTextSkips([], SEPARATOR + [LF] + ([] + [LF] + rest));
    NextTextSkips(SEPARATOR, [] + [LF] + rest);
    NextTextSkips([], rest);
  }

  lemma NamesArePlain(kind: ActionType)
    ensures Plain(TypeName(kind)) && Plain(START_TAG) && Plain(Properties.PropertyLine(ENCODING, BASE64))
    ensures Properties.PropertyLine(ENCODING, BASE64) != START_TAG
  {
    assert Properties.PropertyLine(ENCODING, BASE64) == "Encoding: BASE64";
  }

  /** Blank and comment lines before an action do not change what is read. */
  lemma SameTextSameAction(s: Stream, s': Stream)
    requires NextText(s) == NextText(s')
    ensures ReadAction(s) == ReadAction(s')
  {
    hide NextText, ReadProperties, Decoded, ScanData;
  }

  /** Reading the properties of a written action. */
  lemma PropertiesRead(binary: bool, rest: bytes)
    ensures var lines := (if binary then Properties.PropertyLine(ENCODING, BASE64) + [LF] else []) + START_TAG + [LF] + rest;
            var r := ReadProperties(Stream(lines, false), map[]);
            r.1 == Some(Stream(rest, false)) && r.0 == if binary then map[ENCODING := BASE64] else map[]
  {
    NamesArePlain(Connect);
    var line := Properties.PropertyLine(ENCODING, BASE64);
    var tail := START_TAG + [LF] + rest;
    NextTextIs(START_TAG, rest);
    if binary {
      assert line + [LF] + START_TAG + [LF] + rest == line + [LF] + tail;
      NextTextIs(line, tail);
      EncodingSurvives();
    } else {
      assert [] + START_TAG + [LF] + rest == tail;
    }
  }

  lemma EncodingSurvives()
    ensures Properties.PutLine(map[], Properties.PropertyLine(ENCODING, BASE64)) == map[ENCODING := BASE64]
  {
    Properties.LineSurvivesExactly(ENCODING, BASE64, map[]);
    assert ':' !in ENCODING;
  }

  /** What is between the tags of a written action. */
  function Payload(a: Action): bytes {
    if IsBinary(a.data) then Base64.ToBase64(a.data) else a.data
  }

  /** Reading a written action: the scan decides what its data is. */
  lemma WrittenActionRead(a: Action, rest: bytes)
    ensures var props: Properties.PropertyMap := if IsBinary(a.data) then map[ENCODING := BASE64] else map[];
            ReadAction(Stream(WriteAction(a) + rest, false)) ==
            match ScanData(Payload(a) + END_TAG + [LF] + rest)
            case Tagged(data, next) => Decoded(a.kind, props, data, Stream(next, false))
            case Untagged(all) => Decoded(a.kind, props, all, Stream([], true))
            case TooShort => ReadOutsideBuffer
            case Failing => ReadThrew
  {
    hide ScanData, NextText, ReadProperties, Decoded, IsBinary, Payload, WriteAction, TypeName;
    var body := Payload(a) + END_TAG + [LF] + rest;
    var lines := WrittenLines(a, rest);
    NamesArePlain(a.kind);
    NextTextIs(TypeName(a.kind), lines);
    PropertiesRead(IsBinary(a.data), body);
  }

  lemma WrittenLines(a: Action, rest: bytes) returns (lines: bytes)
    ensures WriteAction(a) + rest == TypeName(a.kind) + [LF] + lines
    ensures lines == (if IsBinary(a.data) then Properties.PropertyLine(ENCODING, BASE64) + [LF] else [])
                     + START_TAG + [LF] + (Payload(a) + END_TAG + [LF] + rest)
  {
    hide IsBinary;
    lines := (if IsBinary(a.data) then Properties.PropertyLine(ENCODING, BASE64) + [LF] else [])
             + START_TAG + [LF] + (Payload(a) + END_TAG + [LF] + rest);
  }

  // ---------------------------------------------------------------- the text, character by character

  lemma NamesExactly()
    ensures TypeName(Connect) == "CONNECT" && TypeName(Send) == "SEND" && TypeName(Recv) == "RECV"
            && TypeName(Close) == "CLOSE"
  {
  }

  /** The characters that do not make data binary: tab to carriage return, and space to tilde. */
  predicate IsText(c: byte) {
    9 <= c as int <= 13 || 32 <= c as int <= 126
  }

  /** Data of less than 50 bytes, and data whose last 49 bytes are text, is written as it is, and everything
      else in base64. */
  lemma WrittenExactly(a: Action)
    ensures WriteAction(a) ==
            TypeName(a.kind) + "\n"
            + (if |a.data| < 50 || forall i :: |a.data| - 49 <= i < |a.data| ==> IsText(a.data[i]) then
                 "<#DATA_START#>\n" + a.data
               else
                 "Encoding: BASE64\n<#DATA_START#>\n" + Base64.ToBase64(a.data))
            + "<#DATA_END#>\n"
  {
    hide Base64.ToBase64, TypeName;
    forall i | |a.data| - 49 <= i < |a.data| && 0 <= i
      ensures IsBinaryByte(a.data[i]) <==> !IsText(a.data[i])
    {
      ClassesExactly(a.data[i]);
    }
    TextParts();
    hide IsBinaryByte, IsText;
    if IsBinary(a.data) {
      JoinParts(TypeName(a.kind) + [LF], Properties.PropertyLine(ENCODING, BASE64) + [LF], START_TAG + [LF],
                Base64.ToBase64(a.data), END_TAG + [LF]);
    } else {
      JoinParts(TypeName(a.kind) + [LF], [], START_TAG + [LF], a.data, END_TAG + [LF]);
    }
  }

  lemma TextParts()
    ensures Properties.PropertyLine(ENCODING, BASE64) + [LF] + (START_TAG + [LF]) == "Encoding: BASE64\n<#DATA_START#>\n"
    ensures START_TAG + [LF] == "<#DATA_START#>\n" && END_TAG + [LF] == "<#DATA_END#>\n"
  {
    assert Properties.PropertyLine(ENCODING, BASE64) == "Encoding: BASE64";
  }

  lemma JoinParts(a: bytes, b: bytes, c: bytes, d: bytes, e: bytes)
    ensures a + b + c + d + e == a + (b + c + d) + e
  {
  }

  /** Before each action there are an empty line, a line of thirty number signs and another empty line. */
  lemma SeparatorExactly(a: Action, more: seq<Action>)
    ensures WriteActions([a] + more) == "\n##############################\n\n" + WriteAction(a) + WriteActions(more)
  {
    hide WriteAction;
    assert ([a] + more)[1..] == more;
    assert [LF] + SEPARATOR + [LF] + [LF] == "\n##############################\n\n";
  }

  // ---------------------------------------------------------------- scripts that are not written like this

  /** A first line that counts and is none of the four names makes reading fail, whatever follows it. */
  lemma UnknownTypeThrows(a: bytes, line: bytes, b: bytes, rest: bytes)
    requires AllSpace(a) && AllSpace(b) && Plain(line) && LF !in a && LF !in b
    requires line != "CONNECT" && line != "SEND" && line != "RECV" && line != "CLOSE"
    ensures ReadActions(Stream(a + line + b + [LF] + rest, false)) == ParseThrew
  {
    hide NextText, Plain, ReadProperties, BodyOf;
    NextTextPadded(a, line, b, rest);
  }

  /** A name and nothing after it is an action without data, whether or not its line ends. */
  lemma NameAlone(kind: ActionType)
    ensures ReadActions(Stream(TypeName(kind) + [LF], false)) == Actions([Action(kind, [])])
    ensures ReadActions(Stream(TypeName(kind), false)) == Actions([Action(kind, [])])
  {
    hide NextText, TypeName;
    NamesArePlain(kind);
    NextTextIs(TypeName(kind), []);
    assert TypeName(kind) + [LF] + [] == TypeName(kind) + [LF];
    LastLineRead(TypeName(kind));
    NothingLeft();
    var props: Properties.PropertyMap := map[];
    assert ReadProperties(Stream([], false), props) == ReadProperties(Stream([], true), props) == (props, None);
    assert ReadAction(Stream(TypeName(kind) + [LF], false)) == Got(Action(kind, []), Stream([], true));
    assert ReadAction(Stream(TypeName(kind), false)) == Got(Action(kind, []), Stream([], true));
  }

  lemma LastLineRead(line: bytes)
    requires Plain(line)
    ensures NextText(Stream(line, false)) == Some((line, Stream([], true)))
  {
    GetLineToEnd(line, LF);
    Properties.TrimExactly(line);
    Properties.TrimLeftKeepsTrimmed(line);
  }

  /** When the script ends with the start tag itself, reading fails. */
  lemma StartTagAtEnd(kind: ActionType)
    ensures ReadActions(Stream(TypeName(kind) + [LF] + "<#DATA_START#>", false)) == ParseThrew
  {
    hide NextText, TypeName;
    NamesArePlain(kind);
    NextTextIs(TypeName(kind), START_TAG);
    LastLineRead(START_TAG);
    var props: Properties.PropertyMap := map[];
    assert ReadProperties(Stream(START_TAG, false), props) == (props, Some(Stream([], true)));
    assert ReadAction(Stream(TypeName(kind) + [LF] + START_TAG, false)) == ReadThrew;
  }

  lemma NothingLeft()
    ensures NextText(Stream([], false)) == NextText(Stream([], true)) == None
  {
  }

  /** One property before the data: only the value BASE64 of the property Encoding makes a difference. Data
      that is no base64 then makes reading fail. */
  lemma OnePropertyRead(kind: ActionType, key: bytes, value: bytes, data: bytes, rest: bytes)
    requires key != [] && LF !in key && LF !in value && ':' !in key && key[0] != '#' && Trimmed(key) && Trimmed(value)
    requires value != [] && TextSurvives(data)
    ensures ReadAction(Stream(TypeName(kind) + [LF]
                              + (Properties.PropertyLine(key, value) + [LF] + (START_TAG + [LF] + (data + END_TAG + rest))), false))
         == if key == "Encoding" && value == "BASE64" then
              (match Base64.FromBase64(data)
               case None => ReadThrew
               case Some(decoded) => Got(Action(kind, decoded), Stream(rest, false)))
            else Got(Action(kind, data), Stream(rest, false))
  {
    hide NextText, TypeName, TextSurvives, Trimmed, Base64.FromBase64, ScanData;
    var body := data + END_TAG + rest;
    var line := Properties.PropertyLine(key, value);
    NamesArePlain(kind);
    NextTextIs(TypeName(kind), line + [LF] + (START_TAG + [LF] + body));
    PropertyIsPlain(key, value);
    NextTextIs(line, START_TAG + [LF] + body);
    NextTextIs(START_TAG, body);
    Properties.LineSurvivesExactly(key, value, map[]);
    ScanExactly(data, rest);
    var props: Properties.PropertyMap := map[key := value];
    assert ReadProperties(Stream(START_TAG + [LF] + body, false), props) == (props, Some(Stream(body, false)));
  }

  lemma PropertyIsPlain(key: bytes, value: bytes)
    requires key != [] && value != [] && LF !in key && LF !in value && key[0] != '#' && Trimmed(key) && Trimmed(value)
    ensures Plain(Properties.PropertyLine(key, value)) && Properties.PropertyLine(key, value) != START_TAG
  {
    var line := Properties.PropertyLine(key, value);
    assert line[|key|] == ':' && line[|line| - 1] == value[|value| - 1];
    assert ':' !in START_TAG;
  }

  // ---------------------------------------------------------------- the scan of a written payload

  predicate NoRun(d: bytes) {
    forall i :: 0 <= i < |d| - 1 ==> !(d[i] == DELIMITER && d[i + 1] == DELIMITER)
  }

  /** Collapsing leaves a text as it is exactly when it has no two delimiters in a row. */
  lemma {:induction false} CollapseExactly(d: bytes)
    ensures Collapse(d) == d <==> NoRun(d)
    decreases |d|
  {
    if d != [] {
      var p, last := d[..|d| - 1], d[|d| - 1];
      CollapseExactly(p);
      assert d == p + [last];
      assert forall i :: 0 <= i < |p| ==> d[i] == p[i];
      if last == DELIMITER && EndsInDelimiter(p) {
        assert d[|d| - 2] == DELIMITER;
        assert |Collapse(d)| < |d|;
      } else {
        assert Collapse(d) == d ==> Collapse(p) == d[..|d| - 1];
        assert NoRun(d) <==> NoRun(p);
      }
    }
  }

  /** Data that the script keeps as it is. */
  predicate TextSurvives(d: bytes) {
    && d != []
    && DELIMITER !in d[..Min(|d|, TAG_LENGTH)]
    && NoRun(d)
    && Find(d, END_TAG, 0) < 0
  }

  /** The tag does not overlap with itself. */
  lemma NoTagAcross(d: bytes, rest: bytes, i: nat)
    requires i < |d|
    ensures OccursAt(d + END_TAG + rest, END_TAG, i) <==> OccursAt(d, END_TAG, i)
  {
    var s := d + END_TAG + rest;
    if i + 12 <= |d| {
      assert s[i..i + 12] == d[i..i + 12];
    } else {
      assert s[i..i + 12][|d| - i] == s[|d|] == '<';
      assert forall k :: 1 <= k < 12 ==> END_TAG[k] != '<';
    }
  }

  /** The first tag of the data followed by the tag. */
  lemma FirstTag(d: bytes, rest: bytes)
    ensures var at := Find(d + END_TAG + rest, END_TAG, 0);
            0 <= at <= |d| && (at == |d| <==> Find(d, END_TAG, 0) < 0)
  {
    var s := d + END_TAG + rest;
    assert s[|d|..|d| + 12] == END_TAG;
    assert OccursAt(s, END_TAG, |d|);
    var mine := Find(d, END_TAG, 0);
    if mine < 0 {
      forall i | 0 <= i < |d|
        ensures !OccursAt(s, END_TAG, i)
      {
        assert !OccursAt(d, END_TAG, i);
        NoTagAcross(d, rest, i);
      }
      FindIs(s, END_TAG, 0, |d|);
    } else {
      NoTagAcross(d, rest, mine);
      assert OccursAt(s, END_TAG, mine);
    }
  }

  /** The scan of written data comes back with the data, and stops right after its tag, exactly when
      the data survives; otherwise it leaves the buffer or comes back with other data. */
  lemma ScanExactly(d: bytes, rest: bytes)
    ensures var r := ScanData(d + END_TAG + rest);
            if TextSurvives(d) then r == Tagged(d, rest)
            else r == TooShort || (r.Tagged? && r.data != d)
  {
    hide Find, Collapse;
    var s := d + END_TAG + rest;
    var head := s[..TAG_LENGTH];
    var at := Find(s, END_TAG, 0);
    FirstTag(d, rest);
    CollapseExactly(d);
    HeadOfTagged(d, rest);
    if DELIMITER !in head {
      if at == |d| {
        assert s[..at] == d && s[at + TAG_LENGTH..] == rest;
      }
    }
  }

  /** A delimiter is among the first twelve bytes exactly when it is in the data, or the tag is. */
  lemma HeadOfTagged(d: bytes, rest: bytes)
    ensures DELIMITER in (d + END_TAG + rest)[..TAG_LENGTH] <==> d == [] || DELIMITER in d[..Min(|d|, TAG_LENGTH)]
  {
    var s := d + END_TAG + rest;
    var head, mine := s[..TAG_LENGTH], d[..Min(|d|, TAG_LENGTH)];
    assert head == mine + END_TAG[..TAG_LENGTH - |mine|];
    if d == [] {
      assert head[11] == DELIMITER;
    } else {
      assert forall k :: 0 <= k < 11 ==> END_TAG[k] != DELIMITER;
      assert DELIMITER !in END_TAG[..TAG_LENGTH - |mine|];
    }
  }

  // ---------------------------------------------------------------- whole scripts

  /** An action that the script gives back. */
  predicate Survives(a: Action) {
    IsBinary(a.data) || TextSurvives(a.data)
  }

  /** Base64 text survives, whatever the data. */
  lemma EncodedSurvives(data: bytes)
    requires IsBinary(data)
    ensures TextSurvives(Base64.ToBase64(data))
  {
    hide Base64.ToBase64;
    var e := Base64.ToBase64(data);
    Base64.EncodedHasNoDelimiter(data);
    forall i | 0 <= i <= |e| - TAG_LENGTH
      ensures !OccursAt(e, END_TAG, i)
    {
      assert e[i..i + 12][11] == e[i + 11] && e[i + 11] in e;
    }
    var at := Find(e, END_TAG, 0);
    assert at >= 0 ==> at <= |e| - TAG_LENGTH;
  }

  /** Reading a written action and the line feed after it: the action, exactly when it survives. */
  lemma WrittenActionExactly(a: Action, rest: bytes)
    ensures var r := ReadAction(Stream(WriteAction(a) + rest, false));
            if Survives(a) then r == Got(a, Stream([LF] + rest, false)) else !(r.Got? && r.action == a)
  {
    hide ReadAction, WriteAction, ScanData, TextSurvives, IsBinary, Base64.ToBase64, Base64.FromBase64;
    WrittenActionRead(a, rest);
    var payload := Payload(a);
    assert payload + END_TAG + [LF] + rest == payload + END_TAG + ([LF] + rest);
    ScanExactly(payload, [LF] + rest);
    if IsBinary(a.data) {
      EncodedSurvives(a.data);
      Base64.FromInvertsTo(a.data);
    }
  }

  /** A line feed before the next action does not matter. */
  lemma LeadingLineFeed(rest: bytes)
    ensures ReadActions(Stream([LF] + rest, false)) == ReadActions(Stream(rest, false))
  {
    hide ReadAction;
    assert [LF] + rest == [] + [LF] + rest;
    NextTextSkips([], rest);
    SameTextSameAction(Stream([LF] + rest, false), Stream(rest, false));
  }

  /** Reading the script of a list of actions gives the list back if and only if every action survives:
      its data is written in base64, or it is not empty, has no delimiter among its first twelve
      bytes, no two delimiters in a row and no end tag. */
  lemma {:induction false} ScriptRoundTripExactly(actions: seq<Action>)
    ensures ReadActions(Stream(WriteActions(actions), false)) == Actions(actions)
        <==> forall i :: 0 <= i < |actions| ==> Survives(actions[i])
    decreases |actions|
  {
    hide ReadAction, WriteAction, Survives;
    if actions == [] {
      NothingToRead();
    } else {
      var a, rest := actions[0], WriteActions(actions[1..]);
      var s := Stream(WriteActions(actions), false);
      var s' := Stream(WriteAction(a) + rest, false);
      assert s.rest == [LF] + SEPARATOR + [LF] + [LF] + s'.rest;
      SeparatorSkipped(s'.rest);
      SameTextSameAction(s, s');
      WrittenActionExactly(a, rest);
      AllSurviveStep(actions);
      if Survives(a) {
        LeadingLineFeed(rest);
        ScriptRoundTripExactly(actions[1..]);
        assert actions == [a] + actions[1..];
      }
    }
  }

  lemma AllSurviveStep(actions: seq<Action>)
    requires actions != []
    ensures (forall i :: 0 <= i < |actions| ==> Survives(actions[i]))
        <==> Survives(actions[0]) && forall i :: 0 <= i < |actions[1..]| ==> Survives(actions[1..][i])
  {
    hide Survives;
    assert forall i :: 1 <= i < |actions| ==> actions[i] == actions[1..][i - 1];
  }

  lemma NothingToRead()
    ensures ReadActions(Stream([], false)) == Actions([])
  {
  }

  /** An action without data never survives. */
  lemma EmptyNeverSurvives(kind: ActionType, rest: bytes)
    ensures !Survives(Action(kind, []))
    ensures ReadAction(Stream(WriteAction(Action(kind, [])) + rest, false)) == ReadOutsideBuffer
  {
    hide ReadAction, WriteAction, Find;
    WrittenActionRead(Action(kind, []), rest);
    HeadOfTagged([], [LF] + rest);
    assert [] + END_TAG + [LF] + rest == [] + END_TAG + ([LF] + rest);
  }

  // ---------------------------------------------------------------- the methods

  /** `write_action`. */
  method WriteActionTo(a: Action) returns (out: bytes)
    requires |a.data| < 0x8000_0000
    ensures out == WriteAction(a)
  {
    hide Base64.ToBase64;
    out := TypeName(a.kind) + [LF];
    var binary := DetectBinary(a.data);
    if binary {
      var props := new Properties.PropertyStore();
      props.Put(ENCODING, BASE64);
      var block := props.WriteTo([ENCODING]);
      assert [ENCODING][1..] == [];
      out := out + block + START_TAG + [LF] + Base64.ToBase64(a.data);
    } else {
      out := out + START_TAG + [LF] + a.data;
    }
    out := out + END_TAG + [LF];
  }

  /** The loop of `write` over the action queue. */
  method WriteScript(actions: seq<Action>) returns (out: bytes)
    requires forall i :: 0 <= i < |actions| ==> |actions[i].data| < 0x8000_0000
    ensures out == WriteActions(actions)
  {
    hide WriteAction;
    out := [];
    for i := 0 to |actions|
      invariant out + WriteActions(actions[i..]) == WriteActions(actions)
    {
      var text := WriteActionTo(actions[i]);
      WriteOneMore(out, actions[i], actions[i + 1..]);
      assert actions[i..] == [actions[i]] + actions[i + 1..];
      out := out + ([LF] + SEPARATOR + [LF] + [LF] + text);
    }
    assert out + [] == out;
  }

  lemma WriteOneMore(before: bytes, a: Action, more: seq<Action>)
    ensures before + WriteActions([a] + more)
         == before + ([LF] + SEPARATOR + [LF] + [LF] + WriteAction(a)) + WriteActions(more)
  {
    hide WriteAction;
    assert ([a] + more)[1..] == more;
  }

  /** `getline` inside the loops that look for the next text: skips comments and blank lines. */
  method ReadText(input: InStream) returns (text: Option<bytes>)
    modifies input
    ensures var r := NextText(Stream(old(input.rest), old(input.eof)));
            match r
            case None => text == None && input.eof
            case Some((line, s)) => text == Some(line) && Stream(input.rest, input.eof) == s
    ensures |input.rest| <= |old(input.rest)| && (text.Some? ==> |input.rest| < |old(input.rest)|)
  {
    while true
      invariant NextText(Stream(input.rest, input.eof)) == NextText(Stream(old(input.rest), old(input.eof)))
      invariant |input.rest| <= |old(input.rest)|
      decreases |input.rest|
    {
      var line := input.GetLine();
      if line.None? {
        return None;
      }
      if !IsComment(line.value) && Trim(line.value) != [] {
        return Some(Trim(line.value));
      }
    }
  }

  /** The loop that reads properties up to the start of the data. */
  method ReadPropertyLines(input: InStream, props: Properties.PropertyStore) returns (found: bool)
    modifies input, props
    ensures var r := ReadProperties(Stream(old(input.rest), old(input.eof)), old(props.data));
            props.data == r.0 && found == r.1.Some?
            && (if found then Stream(input.rest, input.eof) == r.1.value else input.eof)
    ensures |input.rest| <= |old(input.rest)|
  {
    hide NextText, Properties.PutLine;
    ghost var all := ReadProperties(Stream(input.rest, input.eof), props.data);
    while true
      invariant ReadProperties(Stream(input.rest, input.eof), props.data) == all
      invariant |input.rest| <= |old(input.rest)|
      decreases |input.rest|
    {
      var text := ReadText(input);
      if text.None? {
        return false;
      }
      if text.value == START_TAG {
        return true;
      }
      var used := props.PutText(text.value);
    }
  }

  /** The properties of an action and its data. */
  method ReadBody(input: InStream, kind: ActionType, props: Properties.PropertyStore, bufSize: nat) returns (r: Reading)
    requires bufSize >= 256 && (props as object) != input && props.data == map[]
    modifies input, props
    ensures var read := ReadProperties(Stream(old(input.rest), old(input.eof)), map[]);
            r == BodyOf(kind, read.0, read.1)
    ensures r.Got? ==> input.eof == r.next.eof && (!input.eof ==> input.rest == r.next.rest)
    ensures |input.rest| <= |old(input.rest)|
  {
    hide ReadProperties, Base64.FromBase64, ScanData;
    var found := ReadPropertyLines(input, props);
    var data := [];
    if found {
      if input.eof {
        return ReadThrew;
      }
      var scanned := ReadActionData(input, bufSize);
      match scanned {
        case Data(d) => data := d;
        case Failed => return ReadThrew;
        case OutsideBuffer => return ReadOutsideBuffer;
      }
    }
    return Decoded(kind, props.data, data, if found then Stream(input.rest, input.eof) else Stream([], true));
  }

  /** One turn of the outer loop of `read_actions`. */
  method ReadOneAction(input: InStream, props: Properties.PropertyStore, bufSize: nat) returns (r: Reading)
    requires bufSize >= 256 && (props as object) != input
    modifies input, props
    ensures r == ReadAction(Stream(old(input.rest), old(input.eof)))
    ensures r.Got? ==> input.eof == r.next.eof && (!input.eof ==> input.rest == r.next.rest)
    ensures |input.rest| <= |old(input.rest)| && (r.Got? ==> |input.rest| < |old(input.rest)|)
  {
    hide NextText, ReadProperties, BodyOf;
    props.Clear();
    var name := ReadText(input);
    if name.None? {
      return NoAction;
    }
    var kind := TypeOf(name.value);
    if kind.None? {
      return ReadThrew;
    }
    r := ReadBody(input, kind.value, props, bufSize);
  }

  /** `read_actions`: exactly the actions of the script, whatever the size of the buffer. */
  method ReadActionsFrom(input: InStream, bufSize: nat) returns (p: Parsed)
    requires bufSize >= 256 && !input.eof
    modifies input
    ensures p == ReadActions(Stream(old(input.rest), false))
  {
    hide ReadAction;
    var props := new Properties.PropertyStore();
    var actions := [];
    ghost var spec := ReadActions(Stream(input.rest, false));
    while !input.eof
      invariant Prepend(actions, ReadActions(Stream(input.rest, input.eof))) == spec
      decreases |input.rest|
    {
      var r := ReadOneAction(input, props, bufSize);
      match r {
        case NoAction => return Actions(actions);
        case Got(a, next) =>
          PrependSnoc(actions, a, ReadActions(next));
          actions := actions + [a];
        case ReadOutsideBuffer => return ParseOutsideBuffer;
        case ReadThrew => return ParseThrew;
      }
    }
    assert actions + [] == actions;
    return Actions(actions);
  }

  lemma PrependSnoc(actions: seq<Action>, a: Action, p: Parsed)
    ensures Prepend(actions, Prepend([a], p)) == Prepend(actions + [a], p)
  {
    if p.Actions? {
      assert actions + ([a] + p.actions) == actions + [a] + p.actions;
    }
  }
}
