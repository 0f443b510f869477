/**
 The chunked transfer coding of section 7.1 of RFC 9112, without chunk extensions and trailers:
 a printer, and a reference decoder that looks at one byte at a time. Being a fold over the bytes,
 the reference decoder cannot depend on how they are cut into pieces.
 */
module ChunkedFormat {
  import opened Bytes

  /** The longest size line, with its CRLF, that fits the decoder's line buffer. */
  const MAX_LINE: nat := 1024
  const MAX_CHUNK: nat := 0x7FFF_FFFF

  datatype Phase =
    | SizeLine(line: bytes)             // the part of the size line seen so far
    | Payload(size: nat, read: nat)     // inside the bytes of a chunk
    | Closing(size: nat, seen: nat)     // inside the CRLF after the bytes of a chunk
    | Finished(extra: nat)              // the body is complete; the number of bytes after it
    | Unclosed(wrong: byte)             // a chunk that is followed by this instead of CRLF
    | Malformed                         // everything else that the coding does not allow

  datatype Progress = Progress(phase: Phase, data: bytes)

  const START: Progress := Progress(SizeLine([]), [])

  function AfterLine(size: nat, data: bytes): Progress {
    Progress(if size == 0 then Closing(0, 0) else Payload(size, 0), data)
  }

  function LineStep(line: bytes, data: bytes, b: byte): Progress {
    if line != [] && line[|line| - 1] == CR then
      if b == LF then AfterLine(Value(line[..|line| - 1], 16), data) else Progress(Malformed, data)
    else if b == CR && line != [] && Value(line, 16) <= MAX_CHUNK then
      Progress(SizeLine(line + [b]), data)
    else if IsDigit(b, 16) && |line| + 3 <= MAX_LINE then
      Progress(SizeLine(line + [b]), data)
    else
      Progress(Malformed, data)
  }

  function Step(p: Progress, b: byte): Progress {
    match p.phase
    case SizeLine(line) => LineStep(line, p.data, b)
    case Payload(size, read) =>
      Progress(if read + 1 >= size then Closing(size, 0) else Payload(size, read + 1), p.data + [b])
    case Closing(size, seen) =>
      if seen == 0 then
        Progress(if b == CR then Closing(size, 1) else Unclosed(b), p.data)
      else if b == LF then
        Progress(if size == 0 then Finished(0) else SizeLine([]), p.data)
      else
        Progress(Unclosed(b), p.data)
    case Finished(extra) => Progress(Finished(extra + 1), p.data)
    case Unclosed(_) => p
    case Malformed => p
  }

  /** The reference decoder. */
  function Feed(p: Progress, s: bytes): Progress
    decreases |s|
  {
    if s == [] then p else Feed(Step(p, s[0]), s[1..])
  }

  predicate Sound(p: Progress, s: bytes) {
    !Feed(p, s).phase.Malformed?
  }

  lemma {:induction false} FeedAppend(p: Progress, a: bytes, b: bytes)
    ensures Feed(p, a + b) == Feed(Feed(p, a), b)
    decreases |a|
  {
    if a == [] {
      assert a + b == b;
    } else {
      assert (a + b)[1..] == a[1..] + b;
      FeedAppend(Step(p, a[0]), a[1..], b);
    }
  }

  lemma FeedNothing(p: Progress)
    ensures Feed(p, []) == p
  {
  }

  lemma {:induction false} MalformedStays(p: Progress, s: bytes)
    requires p.phase.Malformed? || p.phase.Unclosed?
    ensures Feed(p, s) == p
  {
    if s != [] {
      MalformedStays(p, s[1..]);
    }
  }

  /** Whatever follows the end of the body is not looked at. */
  lemma {:induction false} FinishedStays(p: Progress, s: bytes)
    requires p.phase.Finished?
    ensures Feed(p, s) == Progress(Finished(p.phase.extra + |s|), p.data)
    decreases |s|
  {
    if s != [] {
      FinishedStays(Step(p, s[0]), s[1..]);
    }
  }

  /** Whatever precedes a sound point is sound. */
  lemma SoundPrefix(p: Progress, a: bytes, b: bytes)
    requires Sound(p, a + b)
    ensures Sound(p, a) && Sound(Feed(p, a), b)
  {
    FeedAppend(p, a, b);
    if !Sound(p, a) {
      MalformedStays(Feed(p, a), b);
    }
  }

  /** What goes on to be finished is not unclosed. */
  lemma FinishesLater(p: Progress, a: bytes, b: bytes)
    requires Feed(p, a + b).phase.Finished?
    ensures !Feed(p, a).phase.Unclosed? && Feed(Feed(p, a), b).phase.Finished?
  {
    FeedAppend(p, a, b);
    if Feed(p, a).phase.Unclosed? {
      MalformedStays(Feed(p, a), b);
    }
  }

  // ---------------------------------------------------------------- stretches of one phase

  /** A size line that is not finished. */
  predicate PartialLine(l: bytes) {
    if l != [] && l[|l| - 1] == CR then
      |l| >= 2 && |l| < MAX_LINE && AllDigits(l[..|l| - 1], 16) && Value(l[..|l| - 1], 16) <= MAX_CHUNK
    else
      |l| + 2 <= MAX_LINE && AllDigits(l, 16)
  }

  /** A finished size line. */
  predicate FullLine(l: bytes) {
    && 3 <= |l| <= MAX_LINE
    && l[|l| - 2..] == CRLF
    && AllDigits(l[..|l| - 2], 16)
    && Value(l[..|l| - 2], 16) <= MAX_CHUNK
  }

  function SizeOf(l: bytes): nat
    requires FullLine(l)
  {
    Value(l[..|l| - 2], 16)
  }

  /** From inside a size line, the bytes `s` either stay inside it (`n == 0`) or finish it with their
      first line feed, after `n` bytes. */
  ghost predicate EndsLine(p: Progress, s: bytes, n: nat) {
    && p.phase.SizeLine?
    && n <= |s|
    && var l := p.phase.line;
       if n == 0 then
         LF !in s && PartialLine(l + s) && Feed(p, s) == Progress(SizeLine(l + s), p.data)
       else
         && s[n - 1] == LF && LF !in s[..n - 1] && FullLine(l + s[..n])
         && Feed(p, s) == Feed(AfterLine(SizeOf(l + s[..n]), p.data), s[n..])
  }

  lemma {:induction false} FeedLine(p: Progress, s: bytes) returns (n: nat)
    requires p.phase.SizeLine? && PartialLine(p.phase.line) && Sound(p, s)
    ensures EndsLine(p, s, n)
    decreases |s|
  {
    var l := p.phase.line;
    if s == [] {
      n := 0;
      assert l + s == l;
      return;
    }
    var b, rest := s[0], s[1..];
    var q := Step(p, b);
    assert s == [b] + rest;
    if q.phase.Malformed? {
      MalformedStays(q, rest);
    } else if q.phase.SizeLine? {
      LineGrows(l, p.data, b);
      n := FeedLine(q, rest);
      EndsLineEarlier(p, b, rest, n);
      n := if n == 0 then 0 else n + 1;
    } else {
      n := 1;
      LineEnds(l, p.data, b);
      assert s[..1] == [b];
    }
  }

  lemma EndsLineEarlier(p: Progress, b: byte, rest: bytes, n: nat)
    requires p.phase.SizeLine? && b != LF && Step(p, b) == Progress(SizeLine(p.phase.line + [b]), p.data)
    requires EndsLine(Step(p, b), rest, n)
    ensures EndsLine(p, [b] + rest, if n == 0 then 0 else n + 1)
  {
    var s := [b] + rest;
    assert Feed(p, s) == Feed(Step(p, b), rest) by {
      assert s[1..] == rest;
    }
    PrependedParts(p.phase.line, b, rest, n);
  }

  lemma PrependedParts(l: bytes, b: byte, rest: bytes, n: nat)
    requires n <= |rest|
    ensures l + ([b] + rest) == l + [b] + rest
    ensures l + ([b] + rest)[..n + 1] == l + [b] + rest[..n]
    ensures ([b] + rest)[n + 1..] == rest[n..]
    ensures ([b] + rest)[..n + 1] == [b] + rest[..n]
    ensures n > 0 ==> ([b] + rest)[..n] == [b] + rest[..n - 1]
  {
  }

  lemma LineEnds(l: bytes, data: bytes, b: byte)
    requires PartialLine(l) && !LineStep(l, data, b).phase.SizeLine? && !LineStep(l, data, b).phase.Malformed?
    ensures b == LF && FullLine(l + [b]) && LineStep(l, data, b) == AfterLine(SizeOf(l + [b]), data)
  {
    assert (l + [b])[..|l| - 1] == l[..|l| - 1];
    assert (l + [b])[|l| - 1..] == CRLF;
  }

  lemma LineGrows(l: bytes, data: bytes, b: byte)
    requires PartialLine(l) && LineStep(l, data, b).phase.SizeLine?
    ensures LineStep(l, data, b) == Progress(SizeLine(l + [b]), data)
    ensures PartialLine(l + [b]) && b != LF
  {
    assert (l + [b])[..|l|] == l;
    assert b == CR ==> PartialLine(l + [b]);
  }

  /** Inside a chunk every byte is payload. */
  lemma {:induction false} FeedPayload(size: nat, read: nat, data: bytes, s: bytes)
    requires read < size && read + |s| <= size
    ensures Feed(Progress(Payload(size, read), data), s)
         == Progress(if read + |s| == size then Closing(size, 0) else Payload(size, read + |s|), data + s)
    decreases |s|
  {
    if s == [] {
      assert data + s == data;
    } else if |s| == 1 {
      assert s == [s[0]];
      assert s[1..] == [];
    } else {
      FeedPayload(size, read + 1, data + [s[0]], s[1..]);
      assert data + [s[0]] + s[1..] == data + s;
    }
  }

  // ---------------------------------------------------------------- printing

  /** A size as it may be written: hexadecimal digits in either case, with leading zeros or without, in a
      line that fits the buffer. */
  predicate Spells(size: bytes, n: nat) {
    && 1 <= |size| <= 1022
    && (forall i :: 0 <= i < |size| ==> size[i] in "0123456789abcdefABCDEF")
    && Number(size, 16) == n
  }

  /** Chunks that follow each other, with their sizes as they are written. */
  function Lines(sizes: seq<bytes>, chunks: seq<bytes>): bytes
    requires |sizes| >= |chunks|
  {
    if chunks == [] then [] else sizes[0] + CRLF + chunks[0] + CRLF + Lines(sizes[1..], chunks[1..])
  }

  /** A chunked coding: the chunks, and the last size line with the line after it. */
  function Coding(sizes: seq<bytes>, chunks: seq<bytes>): bytes
    requires |sizes| == |chunks| + 1
  {
    Lines(sizes, chunks) + (sizes[|chunks|] + CRLF + CRLF)
  }

  predicate SizesOf(sizes: seq<bytes>, chunks: seq<bytes>) {
    |sizes| >= |chunks| && forall i :: 0 <= i < |chunks| ==> Spells(sizes[i], |chunks[i]|)
  }

  /** Chunks that a coding may have, and sizes that announce them and the end. */
  predicate Spelled(sizes: seq<bytes>, chunks: seq<bytes>) {
    && Chunks(chunks)
    && |sizes| == |chunks| + 1 && SizesOf(sizes, chunks) && Spells(sizes[|chunks|], 0)
  }

  /** The coding with sizes in lower case and without leading zeros. */
  function Encode(chunks: seq<bytes>): bytes {
    if chunks == [] then Print(0, 16) + CRLF + CRLF
    else Print(|chunks[0]|, 16) + CRLF + chunks[0] + CRLF + Encode(chunks[1..])
  }

  function PrintedSizes(chunks: seq<bytes>): (sizes: seq<bytes>)
    ensures |sizes| == |chunks| + 1
  {
    if chunks == [] then [Print(0, 16)] else [Print(|chunks[0]|, 16)] + PrintedSizes(chunks[1..])
  }

  predicate Chunks(chunks: seq<bytes>) {
    forall i :: 0 <= i < |chunks| ==> 1 <= |chunks[i]| <= 0x7FFF_FFFF
  }

  lemma {:induction false} PrintLength(n: nat, limit: nat)
    requires n < Power16(limit) && limit >= 1
    ensures |Print(n, 16)| <= limit
    decreases limit
  {
    if n >= 16 {
      PrintLength(n / 16, limit - 1);
    }
  }

  function Power16(k: nat): nat {
    if k == 0 then 1 else 16 * Power16(k - 1)
  }

  /** A printed size is a size line. */
  lemma PrintedLine(n: nat)
    requires n <= MAX_CHUNK
    ensures FullLine(Print(n, 16) + CRLF) && SizeOf(Print(n, 16) + CRLF) == n
    ensures |Print(n, 16)| <= 8
  {
    var l := Print(n, 16) + CRLF;
    assert Power16(8) == 0x1_0000_0000 by {
      assert Power16(4) == 0x1_0000;
    }
    PrintLength(n, 8);
    ValueOfPrint(n, 16);
    assert l[..|l| - 2] == Print(n, 16);
  }

  /** A size that is written in any of these ways is a size line. */
  lemma SpelledLine(size: bytes, n: nat)
    requires Spells(size, n) && n <= MAX_CHUNK
    ensures FullLine(size + CRLF) && SizeOf(size + CRLF) == n
  {
    hide Value, Number, IsDigit;
    var l := size + CRLF;
    assert l[..|l| - 2] == size && l[|l| - 2..] == CRLF;
    ValueIsNumber(size, 16);
    forall i | 0 <= i < |size|
      ensures IsDigit(size[i], 16)
    {
      IsDigitExactly(size[i]);
    }
  }

  lemma PrintedSpells(n: nat)
    requires n <= MAX_CHUNK
    ensures Spells(Print(n, 16), n)
  {
    hide Value, Number, Print, IsDigit;
    PrintedLine(n);
    ValueOfPrint(n, 16);
    ValueIsNumber(Print(n, 16), 16);
    forall i | 0 <= i < |Print(n, 16)|
      ensures Print(n, 16)[i] in "0123456789abcdefABCDEF"
    {
      IsDigitExactly(Print(n, 16)[i]);
    }
  }

  /** The printed coding is one of them. */
  lemma {:induction false} EncodeIsCoding(chunks: seq<bytes>)
    requires Chunks(chunks)
    ensures Spelled(PrintedSizes(chunks), chunks) && Encode(chunks) == Coding(PrintedSizes(chunks), chunks)
    decreases |chunks|
  {
    hide Print, Spells;
    PrintedSpells(0);
    if chunks == [] {
      assert [] + (Print(0, 16) + CRLF + CRLF) == Print(0, 16) + CRLF + CRLF;
    } else {
      var more := chunks[1..];
      EncodeIsCoding(more);
      PrintedSpells(|chunks[0]|);
      assert PrintedSizes(chunks)[1..] == PrintedSizes(more);
      assert forall i :: 1 <= i < |chunks| ==> chunks[i] == more[i - 1] && PrintedSizes(chunks)[i] == PrintedSizes(more)[i - 1];
      var last := Print(0, 16) + CRLF + CRLF;
      assert PrintedSizes(chunks)[|chunks|] == PrintedSizes(more)[|more|];
      LinesThen(PrintedSizes(chunks), chunks, PrintedSizes(more)[|more|] + CRLF + CRLF);
    }
  }

  lemma LinesThen(sizes: seq<bytes>, chunks: seq<bytes>, last: bytes)
    requires chunks != [] && |sizes| >= |chunks|
    ensures Lines(sizes, chunks) + last == sizes[0] + CRLF + chunks[0] + CRLF + (Lines(sizes[1..], chunks[1..]) + last)
  {
    Associates(sizes[0] + CRLF + chunks[0] + CRLF, Lines(sizes[1..], chunks[1..]), last);
  }

  lemma Associates(a: bytes, b: bytes, c: bytes)
    ensures (a + b) + c == a + (b + c)
  {
  }

  /** A finished line takes the reference decoder to the chunk it announces. */
  lemma {:induction false} FeedFullLine(t: bytes, l: bytes, data: bytes)
    requires FullLine(l) && t < l && |t| <= |l| - 2
    ensures Feed(Progress(SizeLine(t), data), l[|t|..]) == AfterLine(SizeOf(l), data)
    decreases |l| - |t|
  {
    var p := Progress(SizeLine(t), data);
    var d := |l| - 2;
    assert t == l[..|t|];
    assert l[|t|..][1..] == l[|t| + 1..];
    assert |t| < d ==> IsDigit(l[..d][|t|], 16);
    assert t != [] ==> IsDigit(l[..d][|t| - 1], 16);
    assert l[d..][0] == CR && l[d..][1] == LF;
    var t' := t + [l[|t|]];
    if |t| < d {
      assert t' == l[..|t| + 1];
      FeedFullLine(t', l, data);
    } else {
      assert t == l[..d];
      assert Step(p, CR) == Progress(SizeLine(t'), data);
      assert t'[..|t'| - 1] == t;
      assert l[|t| + 1..] == [LF];
      assert Feed(Progress(SizeLine(t'), data), [LF]) == Feed(AfterLine(SizeOf(l), data), []);
    }
  }

  /** One chunk takes the reference decoder from one size line to the next. */
  lemma FeedChunk(size: bytes, c: bytes, data: bytes)
    requires Spells(size, |c|) && |c| <= MAX_CHUNK
    ensures Feed(Progress(SizeLine([]), data), size + CRLF + c + CRLF)
         == Progress(if c == [] then Finished(0) else SizeLine([]), data + c)
  {
    hide Feed, Step, Spells, FullLine;
    FeedOpenChunk(size, c, data);
    FeedAppend(Progress(SizeLine([]), data), size + CRLF + c, CRLF);
    FeedCrlf(|c|, data + c);
  }

  lemma {:induction false} FeedLines(sizes: seq<bytes>, chunks: seq<bytes>, data: bytes)
    requires Chunks(chunks) && SizesOf(sizes, chunks)
    ensures Feed(Progress(SizeLine([]), data), Lines(sizes, chunks)) == Progress(SizeLine([]), data + Concat(chunks))
    decreases |chunks|
  {
    hide Feed, Step, Spells;
    if chunks == [] {
      FeedNothing(Progress(SizeLine([]), data));
      assert data + [] == data;
    } else {
      var c, rest := chunks[0], Lines(sizes[1..], chunks[1..]);
      FeedChunk(sizes[0], c, data);
      FeedAppend(Progress(SizeLine([]), data), sizes[0] + CRLF + c + CRLF, rest);
      FeedLines(sizes[1..], chunks[1..], data + c);
      assert data + c + Concat(chunks[1..]) == data + Concat(chunks);
    }
  }

  /** Decoding inverts encoding: the reference decoder finishes on the last byte of a coding with the
      chunks put together, however their sizes are written. */
  lemma DecodeInvertsCoding(sizes: seq<bytes>, chunks: seq<bytes>, data: bytes)
    requires Spelled(sizes, chunks)
    ensures Feed(Progress(SizeLine([]), data), Coding(sizes, chunks)) == Progress(Finished(0), data + Concat(chunks))
  {
    hide Feed, Step, Spells;
    var last := sizes[|chunks|];
    FeedLines(sizes, chunks, data);
    FeedAppend(Progress(SizeLine([]), data), Lines(sizes, chunks), last + CRLF + CRLF);
    FeedChunk(last, [], data + Concat(chunks));
    assert last + CRLF + [] + CRLF == last + CRLF + CRLF;
    assert data + Concat(chunks) + [] == data + Concat(chunks);
  }

  lemma DecodeInvertsEncode(chunks: seq<bytes>, data: bytes)
    requires Chunks(chunks)
    ensures Feed(Progress(SizeLine([]), data), Encode(chunks)) == Progress(Finished(0), data + Concat(chunks))
  {
    hide Feed, Encode, Coding;
    EncodeIsCoding(chunks);
    DecodeInvertsCoding(PrintedSizes(chunks), chunks, data);
  }

  lemma FeedCrlf(n: nat, data: bytes)
    ensures Feed(Progress(Closing(n, 0), data), CRLF) == Progress(if n == 0 then Finished(0) else SizeLine([]), data)
  {
    assert CRLF[1..] == [LF];
    assert [LF][1..] == [];
    assert Step(Progress(Closing(n, 0), data), CR) == Progress(Closing(n, 1), data);
    assert Feed(Progress(Closing(n, 1), data), [LF]) == Feed(Step(Progress(Closing(n, 1), data), LF), []);
  }

  /** ... and never earlier. */
  lemma NotFinishedEarly(sizes: seq<bytes>, chunks: seq<bytes>, k: nat)
    requires Spelled(sizes, chunks) && k < |Coding(sizes, chunks)|
    ensures !Feed(START, Coding(sizes, chunks)[..k]).phase.Finished?
  {
    hide Coding, Spells;
    var s := Coding(sizes, chunks);
    DecodeInvertsCoding(sizes, chunks, []);
    assert s == s[..k] + s[k..];
    FeedAppend(START, s[..k], s[k..]);
    var p := Feed(START, s[..k]);
    if p.phase.Finished? {
      FinishedStays(p, s[k..]);
    }
  }

  /** Bytes after the coding do not change what is decoded. */
  lemma CodingThenMore(sizes: seq<bytes>, chunks: seq<bytes>, more: bytes)
    requires Spelled(sizes, chunks)
    ensures Feed(START, Coding(sizes, chunks) + more) == Progress(Finished(|more|), Concat(chunks))
  {
    hide Feed, Coding, Spells;
    DecodeInvertsCoding(sizes, chunks, []);
    assert [] + Concat(chunks) == Concat(chunks);
    FeedAppend(START, Coding(sizes, chunks), more);
    FinishedStays(Feed(START, Coding(sizes, chunks)), more);
  }

  /** A size line and the bytes of its chunk lead to the CRLF after them. */
  lemma FeedOpenChunk(size: bytes, c: bytes, data: bytes)
    requires Spells(size, |c|) && |c| <= MAX_CHUNK
    ensures Feed(Progress(SizeLine([]), data), size + CRLF + c) == Progress(Closing(|c|, 0), data + c)
  {
    hide Feed, Step, Spells, FullLine;
    var line := size + CRLF;
    SpelledLine(size, |c|);
    FeedFullLine([], line, data);
    assert line[0..] == line;
    FeedAppend(Progress(SizeLine([]), data), line, c);
    if c == [] {
      assert data + c == data;
      FeedNothing(AfterLine(0, data));
    } else {
      FeedPayload(|c|, 0, data, c);
    }
  }

  lemma FeedWrong(n: nat, data: bytes, wrong: bytes)
    requires (|wrong| == 1 && wrong[0] != CR) || (|wrong| == 2 && wrong[0] == CR && wrong[1] != LF)
    ensures Feed(Progress(Closing(n, 0), data), wrong) == Progress(Unclosed(wrong[|wrong| - 1]), data)
  {
    var p := Progress(Closing(n, 0), data);
    assert Feed(p, wrong) == Feed(Step(p, wrong[0]), wrong[1..]);
    if |wrong| == 1 {
      assert wrong[1..] == [];
    } else {
      assert wrong[1..] == [wrong[1]] && [wrong[1]][1..] == [];
      FeedNothing(Progress(Unclosed(wrong[1]), data));
    }
  }

  /** A chunk that is not followed by CRLF. */
  lemma UnclosedIsSeen(sizes: seq<bytes>, chunks: seq<bytes>, size: bytes, chunk: bytes, wrong: bytes, rest: bytes)
    requires Chunks(chunks) && SizesOf(sizes, chunks) && |chunk| <= MAX_CHUNK && Spells(size, |chunk|)
    requires (|wrong| == 1 && wrong[0] != CR) || (|wrong| == 2 && wrong[0] == CR && wrong[1] != LF)
    ensures Feed(START, Lines(sizes, chunks) + (size + CRLF + chunk) + wrong + rest).phase == Unclosed(wrong[|wrong| - 1])
  {
    hide Feed, Lines, Spells;
    var all, open := Lines(sizes, chunks), size + CRLF + chunk;
    FeedLines(sizes, chunks, []);
    assert [] + Concat(chunks) == Concat(chunks);
    FeedOpenChunk(size, chunk, Concat(chunks));
    FeedAppend(START, all, open);
    FeedWrong(|chunk|, Concat(chunks) + chunk, wrong);
    FeedAppend(START, all + open, wrong);
    FeedAppend(START, all + open + wrong, rest);
    MalformedStays(Feed(START, all + open + wrong), rest);
  }
}
