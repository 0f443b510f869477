/**
 `ConversationSerializer::read_action_data`: a scan for the end tag with a buffer of fixed size in
 which the last bytes read are carried over from block to block.
 */
module TagScan {
  import opened Bytes
  import opened InputStream

  const END_TAG: bytes := "<#DATA_END#>"
  const TAG_LENGTH: nat := 12
  const DELIMITER: byte := '>'
  const EOF_CHAR: byte := 255 as char   // what storing EOF in a char leaves there

  /** How a scan ends: with the data, with an exception, or outside the part of the buffer that has
      been filled. */
  datatype Scanned = Data(data: bytes) | Failed | OutsideBuffer

  // ---------------------------------------------------------------- what the scan computes

  /** The text with every run of delimiters shortened to one. */
  function Collapse(s: bytes): (r: bytes)
    ensures |r| <= |s|
  {
    if s == [] then []
    else
      var p, last := s[..|s| - 1], s[|s| - 1];
      if last == DELIMITER && EndsInDelimiter(p) then Collapse(p) else Collapse(p) + [last]
  }

  predicate EndsInDelimiter(s: bytes) {
    s != [] && s[|s| - 1] == DELIMITER
  }

  lemma CollapseSnoc(s: bytes, c: byte)
    ensures Collapse(s + [c]) == if c == DELIMITER && EndsInDelimiter(s) then Collapse(s) else Collapse(s) + [c]
  {
    assert (s + [c])[..|s|] == s;
  }

  lemma {:induction false} CollapseBlock(s: bytes, block: bytes)
    requires DELIMITER !in block
    ensures Collapse(s + block) == Collapse(s) + block
    decreases |block|
  {
    if block == [] {
      assert s + block == s && Collapse(s) + block == Collapse(s);
    } else {
      var p, c := block[..|block| - 1], block[|block| - 1];
      assert c != DELIMITER && DELIMITER !in p;
      CollapseBlock(s, p);
      CollapseSnoc(s + p, c);
      SplitLast(s, block);
      SplitLast(Collapse(s), block);
    }
  }

  lemma SplitLast(s: bytes, block: bytes)
    requires block != []
    ensures s + block == s + block[..|block| - 1] + [block[|block| - 1]]
  {
  }

  lemma CollapseTagged(s: bytes)
    ensures Collapse(s + END_TAG) == Collapse(s) + END_TAG
  {
    var stem := "<#DATA_END#";
    CollapseBlock(s, stem);
    CollapseSnoc(s + stem, DELIMITER);
    assert s + END_TAG == s + stem + [DELIMITER];
    assert Collapse(s) + stem + [DELIMITER] == Collapse(s) + END_TAG;
  }

  /** The end of a non-empty text is in the collapsed text, too. */
  lemma {:induction false} CollapseKeepsLast(s: bytes)
    requires s != []
    ensures Collapse(s) != [] && Collapse(s)[|Collapse(s)| - 1] == s[|s| - 1]
    decreases |s|
  {
    var p, last := s[..|s| - 1], s[|s| - 1];
    if last == DELIMITER && EndsInDelimiter(p) {
      CollapseKeepsLast(p);
    }
  }

  predicate EndsIn(s: bytes, w: bytes) {
    |w| <= |s| && s[|s| - |w|..] == w
  }

  /** The text after the last delimiter. */
  lemma {:induction false} LastBlock(s: bytes) returns (p: bytes, t: bytes)
    ensures s == p + t && DELIMITER !in t && (p == [] || EndsInDelimiter(p))
    decreases |s|
  {
    if s == [] || EndsInDelimiter(s) {
      p, t := s, [];
    } else {
      p, t := LastBlock(s[..|s| - 1]);
      t := t + [s[|s| - 1]];
    }
  }

  lemma EndsInJoined(p: bytes, t: bytes, w: bytes)
    requires |w| <= |t|
    ensures EndsIn(p + t, w) <==> EndsIn(t, w)
  {
    assert (p + t)[|p + t| - |w|..] == t[|t| - |w|..];
  }

  /** Collapsing neither makes up nor destroys an end without delimiter. */
  lemma CollapseKeepsEnd(s: bytes, w: bytes)
    requires DELIMITER !in w
    ensures EndsIn(Collapse(s), w) <==> EndsIn(s, w)
  {
    hide Collapse;
    var p, t := LastBlock(s);
    CollapseBlock(p, t);
    if |w| <= |t| {
      EndsInJoined(p, t, w);
      EndsInJoined(Collapse(p), t, w);
    } else {
      DelimiterIsInEnd(p, t, w);
      if p != [] {
        CollapseKeepsLast(p);
      } else {
        CollapseNothing();
      }
      DelimiterIsInEnd(Collapse(p), t, w);
    }
  }

  lemma CollapseNothing()
    ensures Collapse([]) == []
  {
  }

  lemma DelimiterIsInEnd(p: bytes, t: bytes, w: bytes)
    requires |w| > |t| && DELIMITER !in w && (p == [] || EndsInDelimiter(p))
    ensures !EndsIn(p + t, w)
  {
    var s := p + t;
    if |w| <= |s| {
      assert s[|s| - |w|..][|w| - |t| - 1] == p[|p| - 1];
    }
  }

  /** What the scan of a stream that holds `s` comes to. */
  datatype Scan =
    | Tagged(data: bytes, rest: bytes)
    | Untagged(all: bytes)   // no end tag: everything but the last twelve bytes
    | Failing                // nothing at all, or no end tag and a delimiter at the end: an exception
    | TooShort               // a delimiter, or the end of the stream, among the first twelve bytes

  /** All that a scan without end tag returns. */
  function AllButTail(s: bytes): bytes {
    var r := Collapse(s);
    if |r| < TAG_LENGTH then [] else r[..|r| - TAG_LENGTH]
  }

  function ScanData(s: bytes): Scan {
    if s == [] then Failing
    else if |s| < TAG_LENGTH || DELIMITER in s[..TAG_LENGTH] then TooShort
    else
      var at := Find(s, END_TAG, 0);
      if at >= 0 then Tagged(Collapse(s[..at]), s[at + TAG_LENGTH..])
      else if EndsInDelimiter(s) then Failing
      else Untagged(AllButTail(s))
  }

  /** Text without any delimiter comes back without its last twelve bytes; with a delimiter at its end, if
      that does not end a tag, it makes the scan fail; and less than twelve bytes are too few. */
  lemma UntaggedExactly(s: bytes)
    requires '>' !in s
    ensures ScanData(s) == if s == [] then Failing else if |s| < 12 then TooShort else Untagged(s[..|s| - 12])
    ensures s[Max(|s| - 11)..] != "<#DATA_END#" ==> ScanData(s + ">") == if |s| < 12 then TooShort else Failing
  {
    hide Collapse, Find;
    CollapseBlock([], s);
    CollapseNothing();
    assert [] + s == s;
    TagNeedsDelimiter(s, Find(s, END_TAG, 0));
    TagNeedsDelimiter(s, Find(s + ">", END_TAG, 0));
    assert |s| >= 12 ==> (s + ">")[..12] == s[..12];
    assert |s| < 12 ==> (s + ">")[|s|] == '>';
    assert |s| == 11 ==> (s + ">")[..12] == s + ">";
  }

  function Max(n: int): nat {
    if n < 0 then 0 else n
  }

  lemma TagNeedsDelimiter(s: bytes, at: int)
    requires '>' !in s
    ensures !OccursAt(s, END_TAG, at)
    ensures OccursAt(s + ">", END_TAG, at) ==> |s| >= 11 && s[|s| - 11..] == "<#DATA_END#"
  {
    var t := s + ">";
    assert END_TAG[11] == '>' && END_TAG[..11] == "<#DATA_END#";
    if 0 <= at && at + 12 <= |t| {
      assert t[at..at + 12][11] == t[at + 11];
      assert t[at..at + 12][..11] == t[at..at + 11];
      if at + 12 <= |s| {
        assert s[at..at + 12] == t[at..at + 12];
      } else {
        assert t[at..at + 11] == s[|s| - 11..];
      }
    }
  }

  // ---------------------------------------------------------------- the window invariant

  predicate NoTag(s: bytes) {
    forall i :: 0 <= i <= |s| - TAG_LENGTH ==> !OccursAt(s, END_TAG, i)
  }

  /** What the loop of the scan keeps: the data so far and the bytes carried over in the buffer are
      everything read, with its runs collapsed; thirteen bytes are carried after a delimiter, else
      twelve; the tag has not been read. */
  ghost predicate Window(done: bytes, data: bytes, carry: bytes) {
    && |done| >= TAG_LENGTH
    && data + carry == Collapse(done)
    && |carry| == (if EndsInDelimiter(done) then TAG_LENGTH + 1 else TAG_LENGTH)
    && NoTag(done)
    && !EndsIn(Collapse(done), END_TAG)
  }

  const STEM: bytes := "<#DATA_END#"

  /** The tag at the end of a text that ends in a delimiter. */
  lemma TagAtDelimiter(s: bytes)
    ensures EndsIn(s + [DELIMITER], END_TAG) <==> EndsIn(s, STEM)
  {
    var r := s + [DELIMITER];
    assert END_TAG == STEM + [DELIMITER];
    if |s| >= 11 {
      assert r[|r| - 12..] == s[|s| - 11..] + [DELIMITER];
      assert r[|r| - 12..][..11] == s[|s| - 11..];
      assert END_TAG[..11] == STEM;
    }
  }

  lemma BlockHasNoTag(done: bytes, block: bytes)
    requires NoTag(done) && DELIMITER !in block
    ensures NoTag(done + block)
  {
    var s := done + block;
    forall i | 0 <= i <= |s| - TAG_LENGTH
      ensures !OccursAt(s, END_TAG, i)
    {
      if i + TAG_LENGTH <= |done| {
        assert !OccursAt(done, END_TAG, i);
        assert s[i..i + 12] == done[i..i + 12];
      } else {
        assert s[i..i + 12][11] == block[i + 11 - |done|] && block[i + 11 - |done|] in block;
        assert END_TAG[11] == DELIMITER;
      }
    }
  }

  lemma NextHasNoTag(done: bytes)
    requires NoTag(done) && !EndsIn(done + [DELIMITER], END_TAG)
    ensures NoTag(done + [DELIMITER])
  {
    var s := done + [DELIMITER];
    forall i | 0 <= i <= |s| - TAG_LENGTH
      ensures !OccursAt(s, END_TAG, i)
    {
      if i + TAG_LENGTH <= |done| {
        assert !OccursAt(done, END_TAG, i);
        assert s[i..i + 12] == done[i..i + 12];
      } else {
        assert i == |s| - 12;
        assert s[i..i + 12] == s[|s| - 12..];
      }
    }
  }

  /** A block without delimiter: all of it but the last twelve bytes goes to the data. */
  lemma WindowAfterBlock(done: bytes, data: bytes, carry: bytes, block: bytes)
    requires block != [] && DELIMITER !in block && |carry| + |block| >= TAG_LENGTH
    requires if carry == [] then done == data == [] else Window(done, data, carry)
    ensures var all := carry + block;
            var cut := |all| - TAG_LENGTH;
            Window(done + block, data + all[..cut], all[cut..])
  {
    hide Collapse, NoTag, EndsIn;
    var all := carry + block;
    var cut := |all| - TAG_LENGTH;
    CollapseBlock(done, block);
    CollapseNothing();
    NothingHasNoTag();
    BlockHasNoTag(done, block);
    assert all[..cut] + all[cut..] == all;
    assert data + all[..cut] + all[cut..] == data + carry + block;
    assert done == [] ==> carry == [];
    EndsInBlock(Collapse(done), block);
  }

  lemma EndsInBlock(s: bytes, block: bytes)
    requires block != [] && DELIMITER !in block
    ensures !EndsIn(s + block, END_TAG)
  {
    var r := s + block;
    assert END_TAG[11] == DELIMITER && r[|r| - 1] == block[|block| - 1];
    if |r| >= 12 {
      assert r[|r| - 12..][11] == r[|r| - 1];
    }
  }

  lemma NothingHasNoTag()
    ensures NoTag([])
  {
  }

  /** Directly after another delimiter the buffer never shows the tag. */
  lemma NoTagInRun(done: bytes, data: bytes, carry: bytes)
    requires Window(done, data, carry) && EndsInDelimiter(done)
    ensures carry[TAG_LENGTH] == DELIMITER && carry[1..TAG_LENGTH] + [DELIMITER] != END_TAG
    ensures !EndsIn(done + [DELIMITER], END_TAG)
  {
    hide Collapse, NoTag;
    CollapseKeepsLast(done);
    var r := Collapse(done);
    assert r[|r| - 1] == carry[TAG_LENGTH];
    assert r[|r| - 12..] == carry[1..TAG_LENGTH] + [carry[TAG_LENGTH]];
    TagAtDelimiter(done);
    assert |done| >= 11 && done[|done| - 11..][10] == DELIMITER;
  }

  /** After another character the buffer shows the tag exactly when it has been read. */
  lemma TagInBuffer(done: bytes, data: bytes, carry: bytes)
    requires Window(done, data, carry) && !EndsInDelimiter(done)
    ensures carry[1..TAG_LENGTH] + [DELIMITER] == END_TAG <==> EndsIn(done + [DELIMITER], END_TAG)
    ensures Collapse(done + [DELIMITER]) == data + carry + [DELIMITER]
    ensures EndsIn(Collapse(done + [DELIMITER]), END_TAG) <==> EndsIn(done + [DELIMITER], END_TAG)
  {
    hide Collapse, NoTag;
    CollapseSnoc(done, DELIMITER);
    TagAtDelimiter(done);
    TagAtDelimiter(Collapse(done));
    CollapseKeepsEnd(done, STEM);
    var r := data + carry + [DELIMITER];
    assert r[|r| - 12..] == carry[1..TAG_LENGTH] + [DELIMITER];
  }

  /** A delimiter that does not end a tag stays in the buffer; directly after another one it takes the
      place of that one. */
  lemma WindowAfterDelimiter(done: bytes, data: bytes, carry: bytes)
    requires Window(done, data, carry)
    requires carry[1..TAG_LENGTH] + [DELIMITER] != END_TAG
    ensures Window(done + [DELIMITER], data, carry[..TAG_LENGTH] + [DELIMITER])
  {
    hide Collapse, NoTag, EndsIn;
    if EndsInDelimiter(done) {
      NoTagInRun(done, data, carry);
      CollapseSnoc(done, DELIMITER);
      assert carry[..TAG_LENGTH] + [DELIMITER] == carry;
    } else {
      TagInBuffer(done, data, carry);
      assert carry[..TAG_LENGTH] == carry;
      assert data + (carry + [DELIMITER]) == data + carry + [DELIMITER];
    }
    NextHasNoTag(done);
  }

  // ---------------------------------------------------------------- leaving the loop

  /** A delimiter that ends the tag: the first byte of the buffer is the last byte of the data. */
  lemma TagFound(s: bytes, done: bytes, data: bytes, carry: bytes, rest: bytes)
    requires Window(done, data, carry) && s == done + [DELIMITER] + rest && DELIMITER !in s[..TAG_LENGTH]
    requires carry[1..TAG_LENGTH] + [DELIMITER] == END_TAG
    ensures ScanData(s) == Tagged(data + [carry[0]], rest)
  {
    hide Collapse, NoTag, EndsIn, Find;
    if EndsInDelimiter(done) {
      NoTagInRun(done, data, carry);
    } else {
      TagInBuffer(done, data, carry);
      assert EndsIn(done + [DELIMITER], END_TAG);
      var next := done + [DELIMITER];
      var at := |next| - TAG_LENGTH;
      TagIsFirst(s, done, rest);
      CollapseTagged(next[..at]);
      assert next == next[..at] + END_TAG by { EndsInSplits(next); }
      assert data + carry + [DELIMITER] == data + [carry[0]] + (carry[1..TAG_LENGTH] + [DELIMITER]);
      assert s[..at] == next[..at] && s[at + TAG_LENGTH..] == rest;
      SameTail(Collapse(next[..at]), data + [carry[0]], END_TAG);
    }
  }

  lemma EndsInSplits(s: bytes)
    requires EndsIn(s, END_TAG)
    ensures s == s[..|s| - TAG_LENGTH] + END_TAG
  {
  }

  lemma SameTail(a: bytes, b: bytes, tail: bytes)
    requires a + tail == b + tail
    ensures a == b
  {
    assert |a| == |b|;
    assert (a + tail)[..|a|] == a && (b + tail)[..|b|] == b;
  }

  lemma TagIsFirst(s: bytes, done: bytes, rest: bytes)
    requires NoTag(done) && s == done + [DELIMITER] + rest && EndsIn(done + [DELIMITER], END_TAG)
    ensures Find(s, END_TAG, 0) == |done| + 1 - TAG_LENGTH
  {
    var at := |done| + 1 - TAG_LENGTH;
    forall i | 0 <= i < at
      ensures !OccursAt(s, END_TAG, i)
    {
      assert !OccursAt(done, END_TAG, i);
      assert s[i..i + 12] == done[i..i + 12];
    }
    assert s[at..at + 12] == (done + [DELIMITER])[at..];
    FindIs(s, END_TAG, 0, at);
  }

  lemma StreamEnds(s: bytes, data: bytes, carry: bytes)
    requires Window(s, data, carry) && DELIMITER !in s[..TAG_LENGTH]
    ensures ScanData(s) == if |carry| == TAG_LENGTH then Untagged(data) else Failing
  {
    hide Collapse, EndsIn;
    var at := Find(s, END_TAG, 0);
    assert at >= 0 ==> OccursAt(s, END_TAG, at);
    if |carry| == TAG_LENGTH {
      assert (data + carry)[..|data + carry| - TAG_LENGTH] == data;
    }
  }

  lemma FirstBlockShort(s: bytes, limit: nat)
    requires limit > TAG_LENGTH
    ensures s != [] && |Block(s, limit, DELIMITER)| < TAG_LENGTH ==> ScanData(s) == TooShort
    ensures |Block(s, limit, DELIMITER)| >= TAG_LENGTH ==> DELIMITER !in s[..TAG_LENGTH]
  {
    var block := Block(s, limit, DELIMITER);
    if |block| >= TAG_LENGTH {
      assert s[..TAG_LENGTH] == block[..TAG_LENGTH];
    } else if |s| >= TAG_LENGTH {
      assert s[..TAG_LENGTH][|block|] == DELIMITER;
    }
  }

  /** What the scan of `s` has to leave behind. */
  ghost predicate Scanning(s: bytes, out: Scanned, input: InStream)
    reads input
  {
    match ScanData(s)
    case Failing => out == Failed
    case TooShort => out == OutsideBuffer
    case Tagged(data, rest) => out == Data(data) && input.rest == rest && !input.eof
    case Untagged(all) => out == Data(all) && input.eof && input.rest == []
  }

  // ---------------------------------------------------------------- the scan

  /** The first part of the loop: reads a block behind what is carried over and moves all of it but
      the last twelve bytes to the data, unless too little has been read. */
  method ReadBlock(input: InStream, buf: array<byte>, carried: nat, limit: nat, data: bytes)
      returns (count: nat, data': bytes)
    requires carried + limit <= buf.Length && 0 < limit
    modifies input, buf
    ensures count == |Block(old(input.rest), limit, DELIMITER)|
    ensures input.rest == old(input.rest)[count..]
    ensures input.eof == (old(input.eof) || count == |old(input.rest)|)
    ensures carried + count >= TAG_LENGTH ==>
              var all := old(buf[..carried]) + Block(old(input.rest), limit, DELIMITER);
              var cut := |all| - TAG_LENGTH;
              data' == data + all[..cut] && buf[..TAG_LENGTH] == all[cut..]
  {
    data' := data;
    count := input.GetInto(buf, carried, limit, DELIMITER);
    if carried + count >= TAG_LENGTH {
      var cut := carried + count - TAG_LENGTH;
      ghost var all := buf[..carried + count];
      data' := data + buf[..cut];
      forall i | 0 <= i < TAG_LENGTH {
        buf[i] := buf[cut + i];
      }
    }
  }

  /** The second part of the loop: the delimiter, or the end of the stream, goes behind the twelve
      bytes carried over. */
  method ReadDelimiter(input: InStream, buf: array<byte>) returns (c: Option<byte>)
    requires buf.Length > TAG_LENGTH
    modifies input, buf
    ensures c == if old(input.rest) == [] then None else Some(old(input.rest)[0])
    ensures input.rest == if old(input.rest) == [] then [] else old(input.rest)[1..]
    ensures input.eof == (old(input.eof) || old(input.rest) == [])
    ensures buf[..TAG_LENGTH + 1] == old(buf[..TAG_LENGTH]) + [if c.Some? then c.value else EOF_CHAR]
  {
    c := input.Get();
    buf[TAG_LENGTH] := if c.Some? then c.value else EOF_CHAR;
  }

  /** What holds between two turns of the loop, with `carried` bytes in the buffer. */
  ghost predicate Reading(s: bytes, done: bytes, data: bytes, carry: bytes, rest: bytes) {
    && s == done + rest
    && if carry == [] then done == data == []
       else Window(done, data, carry) && |s| >= TAG_LENGTH && DELIMITER !in s[..TAG_LENGTH]
  }

  /** The first part of a turn, when a delimiter is not next. */
  method BlockTurn(input: InStream, buf: array<byte>, carried: nat, data: bytes, ghost s: bytes, ghost done: bytes)
      returns (left: Option<Scanned>, full: bool, data': bytes, ghost done': bytes)
    requires buf.Length > 200 && carried <= TAG_LENGTH + 1 && (input.eof ==> input.rest == [])
    requires Reading(s, done, data, buf[..carried], input.rest)
    requires input.rest == [] || input.rest[0] != DELIMITER
    requires carried == TAG_LENGTH ==> input.rest != []
    modifies input, buf
    ensures left.Some? ==> Scanning(s, left.value, input) && |input.rest| <= |s|
    ensures left.None? ==> Reading(s, done', data', buf[..TAG_LENGTH], input.rest) && |input.rest| < |old(input.rest)|
    ensures left.None? ==> (input.eof <==> input.rest == [])
    ensures left.None? && !full ==> input.rest == [] || input.rest[0] == DELIMITER
  {
    hide Window, ScanData, EndsIn, NoTag;
    var limit := buf.Length - 1 - carried - 1;
    ghost var block := Block(input.rest, limit, DELIMITER);
    ghost var carry := buf[..carried];
    done' := done + block;
    assert carried == 0 ==> s == input.rest;
    FirstBlockShort(input.rest, limit);
    if carried + |block| >= TAG_LENGTH && block != [] {
      ReadingBlock(s, done, data, carry, input.rest, block);
    }
    var count;
    count, data' := ReadBlock(input, buf, carried, limit, data);
    full := count == limit;
    if count == 0 {
      assert input.rest == [];
      NothingRead(s, done, data, carry);
      return Some(Failed), full, data', done';
    }
    if carried + count < TAG_LENGTH {
      WindowFills(done, data, carry);
      return Some(OutsideBuffer), full, data', done';
    }
    left := None;
  }

  lemma ReadingBlock(s: bytes, done: bytes, data: bytes, carry: bytes, rest: bytes, block: bytes)
    requires Reading(s, done, data, carry, rest) && block <= rest && block != [] && DELIMITER !in block
    requires |carry| + |block| >= TAG_LENGTH
    ensures var all := carry + block;
            var cut := |all| - TAG_LENGTH;
            Reading(s, done + block, data + all[..cut], all[cut..], rest[|block|..])
  {
    hide Window;
    WindowAfterBlock(done, data, carry, block);
    assert rest == block + rest[|block|..];
    if carry == [] {
      assert s[..TAG_LENGTH] == block[..TAG_LENGTH];
    }
  }

  lemma WindowFills(done: bytes, data: bytes, carry: bytes)
    ensures Window(done, data, carry) ==> |carry| >= TAG_LENGTH
  {
  }

  /** The second part of a turn. */
  method DelimiterTurn(input: InStream, buf: array<byte>, carried: nat, data: bytes, ghost s: bytes, ghost done: bytes)
      returns (left: Option<Scanned>)
    requires buf.Length > 200 && TAG_LENGTH <= carried <= TAG_LENGTH + 1 && (input.eof ==> input.rest == [])
    requires Reading(s, done, data, buf[..carried], input.rest)
    requires input.rest == [] ==> carried == TAG_LENGTH
    requires input.rest == [] || input.rest[0] == DELIMITER
    modifies input, buf
    ensures left.Some? ==> Scanning(s, left.value, input) && |input.rest| <= |s|
    ensures left.None? ==> Reading(s, done + [DELIMITER], data, buf[..TAG_LENGTH + 1], input.rest)
    ensures left.None? ==> !input.eof && |input.rest| < |old(input.rest)|
  {
    hide Window, ScanData, EndsIn, NoTag;
    ghost var carry := buf[..carried];
    assert carry[..TAG_LENGTH] == buf[..TAG_LENGTH];
    var c := ReadDelimiter(input, buf);
    if c.None? {
      assert s == done;
      StreamEnds(s, data, carry);
      return Some(Data(data));
    }
    assert buf[1..TAG_LENGTH + 1] == carry[1..TAG_LENGTH] + [DELIMITER];
    assert s == done + [DELIMITER] + input.rest;
    if buf[1..TAG_LENGTH + 1] == END_TAG {
      TagFound(s, done, data, carry, input.rest);
      return Some(Data(data + [buf[0]]));
    }
    WindowAfterDelimiter(done, data, carry);
    return None;
  }

  /** `read_action_data`, for any buffer size. */
  method ReadActionData(input: InStream, bufSize: nat) returns (out: Scanned)
    requires bufSize >= 256 && !input.eof
    modifies input
    ensures Scanning(old(input.rest), out, input) && |input.rest| <= |old(input.rest)|
  {
    hide Window, ScanData;
    var buf := new byte[bufSize + 1](_ => NUL);
    var data, carried := [], 0;
    ghost var s := input.rest;
    ghost var done := [];
    assert buf[..0] == [] && [] + s == s;
    while true
      invariant !input.eof && fresh(buf) && buf.Length == bufSize + 1
      invariant carried == 0 || carried == TAG_LENGTH || carried == TAG_LENGTH + 1
      invariant Reading(s, done, data, buf[..carried], input.rest)
      invariant carried == TAG_LENGTH ==> input.rest != []
      decreases |input.rest|
    {
      var next := input.Peek();
      var check := next == Some(DELIMITER);
      if !check {
        var left, full;
        left, full, data, done := BlockTurn(input, buf, carried, data, s, done);
        if left.Some? {
          return left.value;
        }
        carried := TAG_LENGTH;
        check := !full;
      } else if carried == 0 {
        assert s == input.rest;
        FirstBlockShort(s, TAG_LENGTH + 1);
        return OutsideBuffer;
      }
      if check {
        var left := DelimiterTurn(input, buf, carried, data, s, done);
        if left.Some? {
          return left.value;
        }
        done := done + [DELIMITER];
        carried := TAG_LENGTH + 1;
      }
      if input.eof {
        assert s == done;
        StreamEnds(s, data, buf[..TAG_LENGTH]);
        return Data(data);
      }
    }
  }

  lemma NothingRead(s: bytes, done: bytes, data: bytes, carry: bytes)
    requires Reading(s, done, data, carry, []) && |carry| != TAG_LENGTH
    ensures ScanData(s) == Failing
  {
    hide Collapse, Window;
    assert s == done;
    if carry != [] {
      StreamEnds(s, data, carry);
    }
  }
}
