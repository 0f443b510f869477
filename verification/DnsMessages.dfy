/** DNS messages as they are encoded, and what `validate` makes of them. */
module DnsMessages {
  import opened Bytes
  import opened Dns

  /** How the encoding of a name ends: with the root, or with a pointer to an earlier name. */
  datatype NameEnd = Root | Pointer(high: byte, low: byte)

  /** A name as in section 4.1.4 of RFC 1035; like the code, with any byte from 64 on for a pointer. */
  datatype Name = Name(labels: seq<bytes>, end: NameEnd)

  datatype Question = Question(name: Name, fields: bytes)

  datatype Record = Record(name: Name, fields: bytes, ttl: bytes, rdata: bytes)

  /** A message as in section 4.1 of RFC 1035; the records of its three sections follow each other. */
  datatype Message = Message(idAndFlags: bytes, questions: seq<Question>, answers: nat, authority: nat,
                             additional: nat, records: seq<Record>)

  predicate NameOk(n: Name) {
    (forall i :: 0 <= i < |n.labels| ==> 1 <= |n.labels[i]| <= 63) && (n.end.Pointer? ==> n.end.high as nat >= 64)
  }

  predicate QuestionOk(q: Question) {
    NameOk(q.name) && |q.fields| == 4
  }

  predicate RecordOk(r: Record) {
    NameOk(r.name) && |r.fields| == 4 && |r.ttl| == 4 && |r.rdata| < 0x1_0000
  }

  predicate MessageOk(m: Message) {
    && |m.idAndFlags| == 4 && |m.questions| < 0x1_0000
    && m.answers < 0x1_0000 && m.authority < 0x1_0000 && m.additional < 0x1_0000
    && m.answers + m.authority + m.additional == |m.records|
    && (forall i :: 0 <= i < |m.questions| ==> QuestionOk(m.questions[i]))
    && (forall i :: 0 <= i < |m.records| ==> RecordOk(m.records[i]))
  }

  function PrintWord(n: nat): (r: bytes)
    requires n < 0x1_0000
    ensures |r| == 2 && Word(r, 0) == n
  {
    [(n / 256) as char, (n % 256) as char]
  }

  function PrintName(n: Name): (r: bytes)
    requires NameOk(n)
    ensures r != []
    decreases |n.labels|
  {
    if n.labels == [] then
      match n.end
      case Root => [NUL]
      case Pointer(high, low) => [high, low]
    else [|n.labels[0]| as char] + n.labels[0] + PrintName(Name(n.labels[1..], n.end))
  }

  function PrintQuestions(qs: seq<Question>): bytes
    requires forall i :: 0 <= i < |qs| ==> QuestionOk(qs[i])
  {
    if qs == [] then [] else
      assert QuestionOk(qs[0]);
      PrintName(qs[0].name) + qs[0].fields + PrintQuestions(qs[1..])
  }

  function PrintRecord(r: Record): bytes
    requires RecordOk(r)
  {
    PrintName(r.name) + r.fields + r.ttl + PrintWord(|r.rdata|) + r.rdata
  }

  function PrintRecords(rs: seq<Record>): bytes
    requires forall i :: 0 <= i < |rs| ==> RecordOk(rs[i])
  {
    if rs == [] then [] else PrintRecord(rs[0]) + PrintRecords(rs[1..])
  }

  function PrintHeader(m: Message): (r: bytes)
    requires MessageOk(m)
    ensures |r| == HEADER_LENGTH
  {
    m.idAndFlags + PrintWord(|m.questions|) + PrintWord(m.answers) + PrintWord(m.authority) + PrintWord(m.additional)
  }

  function PrintMessage(m: Message): bytes
    requires MessageOk(m)
  {
    PrintHeader(m) + PrintQuestions(m.questions) + PrintRecords(m.records)
  }

  /** `skip_name` ends just past an encoded name, wherever that is. */
  lemma {:induction false} SkipsEncodedName(before: bytes, n: Name, after: bytes)
    requires NameOk(n)
    ensures SkipName(before + PrintName(n) + after, |before|) == Some(|before| + |PrintName(n)|)
    decreases |n.labels|
  {
    var data := before + PrintName(n) + after;
    assert data[|before|] == PrintName(n)[0];
    if n.labels != [] {
      var head, tail := n.labels[0], Name(n.labels[1..], n.end);
      var before' := before + [|head| as char] + head;
      assert data == before' + PrintName(tail) + after;
      SkipsEncodedName(before', tail, after);
    }
  }

  /** A message that ends inside a name makes reading it fail, unless only the second byte of a pointer is
      missing. */
  lemma {:induction false} CutNameThrows(before: bytes, n: Name, k: nat)
    requires NameOk(n) && k < |PrintName(n)|
    ensures SkipName(before + PrintName(n)[..k], |before|) ==
            if n.end.Pointer? && k == |PrintName(n)| - 1 then Some(|before| + k) else None
    decreases |n.labels|
  {
    var name := PrintName(n);
    var data := before + name[..k];
    if k > 0 {
      assert data[|before|] == name[0];
      if n.labels != [] {
        var head, tail := n.labels[0], Name(n.labels[1..], n.end);
        var before' := before + [|head| as char] + head;
        if k > |head| {
          assert data == before' + PrintName(tail)[..k - 1 - |head|];
          CutNameThrows(before', tail, k - 1 - |head|);
        }
      }
    }
  }

  /** A message that ends inside a record makes reading it fail if and only if less than two bytes of the
      TTL are there. */
  lemma CutRecordThrows(before: bytes, r: Record, k: nat)
    requires RecordOk(r) && |PrintName(r.name)| <= k <= |PrintRecord(r)|
    ensures SkipRecord(before + PrintRecord(r)[..k], |before|).Some? <==> k >= |PrintName(r.name)| + 6
  {
    hide PrintName, SkipName;
    var rest := PrintRecord(r)[|PrintName(r.name)|..k];
    assert before + PrintRecord(r)[..k] == before + PrintName(r.name) + rest;
    SkipsEncodedName(before, r.name, rest);
  }

  lemma {:induction false} SkipsQuestions(before: bytes, qs: seq<Question>, after: bytes)
    requires forall i :: 0 <= i < |qs| ==> QuestionOk(qs[i])
    ensures SkipQuestions(before + PrintQuestions(qs) + after, |before|, |qs|)
         == Some(|before| + |PrintQuestions(qs)|)
    decreases |qs|
  {
    hide SkipName, PrintName;
    var data := before + PrintQuestions(qs) + after;
    if qs != [] {
      var name, more := PrintName(qs[0].name), PrintQuestions(qs[1..]);
      assert data == before + name + (qs[0].fields + more + after);
      SkipsEncodedName(before, qs[0].name, qs[0].fields + more + after);
      assert data == (before + name + qs[0].fields) + more + after;
      SkipsQuestions(before + name + qs[0].fields, qs[1..], after);
    }
  }

  /** Where the TTLs of records are that follow `from` bytes. */
  function TtlOffsets(from: nat, rs: seq<Record>): seq<nat>
    requires forall i :: 0 <= i < |rs| ==> RecordOk(rs[i])
    decreases |rs|
  {
    if rs == [] then [] else
      assert RecordOk(rs[0]);
      [from + |PrintName(rs[0].name)| + 4] + TtlOffsets(from + |PrintRecord(rs[0])|, rs[1..])
  }

  /** What is after the TTL of a record. */
  function AfterTtl(r: Record): bytes
    requires RecordOk(r)
  {
    PrintWord(|r.rdata|) + r.rdata
  }

  /** Where the reader goes on after a record whose name ends at `end`: past the type, the class and two
      bytes of the TTL, by as many bytes as those two say. */
  function NextStart(data: bytes, end: nat, r: Record): (p: nat)
    requires RecordOk(r)
    ensures p <= |data|
  {
    Advance(data, Min(end + 6, |data|), Word(r.ttl, 0))
  }

  /** From `p`, `skip_name` ends where the name of the record at `at` ends, and so on for the records
      after it, each from where the reader goes on. */
  predicate Lands(data: bytes, p: nat, at: nat, rs: seq<Record>)
    requires p <= |data| && forall i :: 0 <= i < |rs| ==> RecordOk(rs[i])
    decreases |rs|
  {
    rs == [] ||
    assert RecordOk(rs[0]);
    var end := at + |PrintName(rs[0].name)|;
    SkipName(data, p) == Some(end) && Lands(data, NextStart(data, end, rs[0]), at + |PrintRecord(rs[0])|, rs[1..])
  }

  /** Reading a record whose name has been skipped rightly. */
  lemma RecordRead(before: bytes, r: Record, after: bytes, p: nat)
    requires RecordOk(r)
    ensures var data, end := before + PrintRecord(r) + after, |before| + |PrintName(r.name)|;
            p <= |data| && SkipName(data, p) == Some(end)
            ==> SkipRecord(data, p) == Some((end + 4, NextStart(data, end, r)))
  {
    hide SkipName, PrintName;
    var data, end := before + PrintRecord(r) + after, |before| + |PrintName(r.name)|;
    assert data == (before + PrintName(r.name) + r.fields) + r.ttl + (AfterTtl(r) + after);
    assert data[end + 4] == r.ttl[0] && data[end + 5] == r.ttl[1];
  }

  /** The TTL is where the end of the name says, and nowhere else. */
  lemma TtlOfRecord(data: bytes, p: nat)
    requires p <= |data| && SkipRecord(data, p).Some?
    ensures SkipName(data, p).Some? && SkipRecord(data, p).value.0 == SkipName(data, p).value + 4
  {
  }

  lemma SameRest(x: nat, a: seq<nat>, b: seq<nat>)
    ensures [x] + a == [x] + b <==> a == b
  {
    assert ([x] + a)[1..] == a && ([x] + b)[1..] == b;
  }

  /** The TTLs of the records are found from `p` if and only if the reader lands on each of them. */
  lemma {:induction false} TtlsFoundExactly(before: bytes, rs: seq<Record>, p: nat)
    requires forall i :: 0 <= i < |rs| ==> RecordOk(rs[i])
    requires p <= |before + PrintRecords(rs)|
    ensures Ttls(before + PrintRecords(rs), p, |rs|) == Some(TtlOffsets(|before|, rs))
        <==> Lands(before + PrintRecords(rs), p, |before|, rs)
    decreases |rs|
  {
    hide SkipRecord, SkipName, PrintRecord, PrintName, NextStart;
    if rs != [] {
      assert RecordOk(rs[0]);
      var data, more := before + PrintRecords(rs), PrintRecords(rs[1..]);
      var end := |before| + |PrintName(rs[0].name)|;
      assert data == before + PrintRecord(rs[0]) + more;
      assert data == (before + PrintRecord(rs[0])) + more;
      if SkipName(data, p) == Some(end) {
        RecordRead(before, rs[0], more, p);
        var next := NextStart(data, end, rs[0]);
        TtlsFoundExactly(before + PrintRecord(rs[0]), rs[1..], next);
        var found := Ttls(data, next, |rs[1..]|);
        if found.Some? {
          SameRest(end + 4, found.value, TtlOffsets(|before + PrintRecord(rs[0])|, rs[1..]));
        }
      } else if SkipRecord(data, p).Some? {
        TtlOfRecord(data, p);
        assert TtlOffsets(|before|, rs)[0] == end + 4;
        assert Ttls(data, p, |rs|).Some? ==> Ttls(data, p, |rs|).value[0] == SkipRecord(data, p).value.0;
      }
    }
  }

  /** Where the records of a message start. */
  function RecordsAt(m: Message): nat
    requires MessageOk(m)
  {
    HEADER_LENGTH + |PrintQuestions(m.questions)|
  }

  /** The reader lands on every record of the message. */
  predicate AllLand(m: Message)
    requires MessageOk(m)
  {
    Lands(PrintMessage(m), RecordsAt(m), RecordsAt(m), m.records)
  }

  /** The TTLs of a message are found if and only if the reader lands on every record. */
  lemma MessageTtlsFound(m: Message)
    requires MessageOk(m)
    ensures FindTtls(PrintMessage(m)) == Some(TtlOffsets(RecordsAt(m), m.records)) <==> AllLand(m)
  {
    hide SkipQuestions, PrintQuestions, PrintRecords, PrintWord, Ttls, TtlOffsets, Lands;
    var data, header, questions := PrintMessage(m), PrintHeader(m), PrintQuestions(m.questions);
    var records := PrintRecords(m.records);
    assert data == header + questions + records;
    HeaderRead(m, questions + records);
    assert data == header + (questions + records);
    SkipsQuestions(header, m.questions, records);
    TtlsFoundExactly(header + questions, m.records, RecordsAt(m));
  }

  // ---------------------------------------------------------------- messages that are read rightly

  /** The length taken from the TTL leads to the next record. */
  predicate LeadsOn(r: Record)
    requires RecordOk(r)
  {
    Word(r.ttl, 0) == |r.rdata| + 4
  }

  lemma NextIsRecord(before: bytes, r: Record, after: bytes)
    requires RecordOk(r) && LeadsOn(r)
    ensures NextStart(before + PrintRecord(r) + after, |before| + |PrintName(r.name)|, r) == |before| + |PrintRecord(r)|
  {
    hide PrintName;
  }

  lemma NameSkipped(before: bytes, r: Record, after: bytes)
    requires RecordOk(r)
    ensures SkipName(before + PrintRecord(r) + after, |before|) == Some(|before| + |PrintName(r.name)|)
  {
    hide SkipName, PrintName;
    var rest := r.fields + r.ttl + AfterTtl(r) + after;
    assert before + PrintRecord(r) + after == before + PrintName(r.name) + rest;
    SkipsEncodedName(before, r.name, rest);
  }

  /** The reader lands on the first record, and on every record after one that leads on. */
  lemma {:induction false} LandsIfLedOn(before: bytes, rs: seq<Record>)
    requires forall i :: 0 <= i < |rs| ==> RecordOk(rs[i])
    requires forall i :: 0 <= i < |rs| - 1 ==> LeadsOn(rs[i])
    ensures Lands(before + PrintRecords(rs), |before|, |before|, rs)
    decreases |rs|
  {
    hide SkipName, PrintName, PrintRecord, NextStart, LeadsOn;
    if rs != [] {
      assert RecordOk(rs[0]);
      var more := PrintRecords(rs[1..]);
      assert before + PrintRecords(rs) == before + PrintRecord(rs[0]) + more;
      NameSkipped(before, rs[0], more);
      if |rs| > 1 {
        NextIsRecord(before, rs[0], more);
        LandsIfLedOn(before + PrintRecord(rs[0]), rs[1..]);
      }
    }
  }

  /** So always when there is at most one record. */
  lemma LedOnLands(m: Message)
    requires MessageOk(m)
    requires forall i :: 0 <= i < |m.records| - 1 ==> LeadsOn(m.records[i])
    ensures AllLand(m)
  {
    hide Lands, LeadsOn, PrintQuestions, PrintRecords;
    LandsIfLedOn(PrintHeader(m) + PrintQuestions(m.questions), m.records);
  }

  // ---------------------------------------------------------------- messages that are not

  /** A TTL below 65536 whose third byte ends a name: below 256, or at least 16384. */
  predicate EndsNameEarly(ttl: bytes)
    requires |ttl| == TTL_LENGTH
  {
    Word(ttl, 0) == 0 && (ttl[2] == NUL || ttl[2] as nat >= 64)
  }

  lemma NextNameMissed(before: bytes, r: Record, next: Record, after: bytes)
    requires RecordOk(r) && RecordOk(next) && EndsNameEarly(r.ttl)
    ensures var data, end := before + PrintRecord(r) + PrintRecord(next) + after, |before| + |PrintName(r.name)|;
            SkipName(data, NextStart(data, end, r)) != Some(|before| + |PrintRecord(r)| + |PrintName(next.name)|)
  {
    hide PrintName;
    var data, end := before + PrintRecord(r) + PrintRecord(next) + after, |before| + |PrintName(r.name)|;
    var rest := AfterTtl(r) + PrintRecord(next) + after;
    assert data == (before + PrintName(r.name) + r.fields) + r.ttl + rest;
    assert data[end + 6] == r.ttl[2];
    assert |PrintRecord(r)| >= |PrintName(r.name)| + 10;
  }

  /** After such a TTL the next one is missed, whatever the names and the data are. */
  lemma {:induction false} LandsNot(before: bytes, rs: seq<Record>, k: nat, p: nat)
    requires forall i :: 0 <= i < |rs| ==> RecordOk(rs[i])
    requires p <= |before + PrintRecords(rs)|
    requires k + 1 < |rs| && EndsNameEarly(rs[k].ttl)
    ensures !Lands(before + PrintRecords(rs), p, |before|, rs)
    decreases k
  {
    hide SkipName, PrintName, PrintRecord, NextStart, EndsNameEarly;
    assert RecordOk(rs[0]) && RecordOk(rs[1]);
    var data, end := before + PrintRecords(rs), |before| + |PrintName(rs[0].name)|;
    var next := NextStart(data, end, rs[0]);
    assert data == (before + PrintRecord(rs[0])) + PrintRecords(rs[1..]);
    if k == 0 {
      assert rs[1..][0] == rs[1];
      assert data == before + PrintRecord(rs[0]) + PrintRecord(rs[1]) + PrintRecords(rs[1..][1..]);
      NextNameMissed(before, rs[0], rs[1], PrintRecords(rs[1..][1..]));
    } else {
      LandsNot(before + PrintRecord(rs[0]), rs[1..], k - 1, next);
    }
  }

  lemma HeaderRead(m: Message, after: bytes)
    requires MessageOk(m)
    ensures var data := PrintHeader(m) + after;
            Word(data, 4) == |m.questions| && Word(data, 6) == m.answers && Word(data, 8) == m.authority
            && Word(data, 10) == m.additional
  {
    var data := PrintHeader(m) + after;
    assert data[4..6] == PrintWord(|m.questions|) && data[6..8] == PrintWord(m.answers);
    assert data[8..10] == PrintWord(m.authority) && data[10..12] == PrintWord(m.additional);
  }

  /** The last TTL is followed by at least the length of the data. */
  lemma {:induction false} TtlsInside(from: nat, rs: seq<Record>)
    requires forall i :: 0 <= i < |rs| ==> RecordOk(rs[i])
    ensures var ttls := TtlOffsets(from, rs);
            |ttls| == |rs| && (rs != [] ==> LastStart(ttls, 0) + 2 <= from + |PrintRecords(rs)|)
    decreases |rs|
  {
    hide PrintName, PrintWord;
    if rs != [] {
      TtlsInside(from + |PrintRecord(rs[0])|, rs[1..]);
      assert RecordOk(rs[0]);
      if |rs| > 1 {
        var ttls, more := TtlOffsets(from, rs), TtlOffsets(from + |PrintRecord(rs[0])|, rs[1..]);
        assert ttls[|ttls| - 1] == more[|more| - 1];
      }
    }
  }

  /** Two lists of windows of the same length that are not the same: some byte is left out by one of
      them only. */
  lemma MasksDiffer(data: bytes, a: seq<nat>, b: seq<nat>) returns (k: nat)
    requires Windows(data, a, 0) && Windows(data, b, 0) && |a| == |b| && a != b
    ensures k < |data| && (Masked(a, k) <==> !Masked(b, k))
  {
    var i := FirstDifference(a, b);
    if a[i] < b[i] {
      k := a[i];
      MaskedOnce(data, a, b, i);
    } else {
      k := b[i];
      MaskedOnce(data, b, a, i);
    }
  }

  lemma {:induction false} FirstDifference(a: seq<nat>, b: seq<nat>) returns (i: nat)
    requires |a| == |b| && a != b
    ensures i < |a| && a[i] != b[i] && a[..i] == b[..i]
    decreases |a|
  {
    if a[0] != b[0] {
      i := 0;
    } else {
      assert a == [a[0]] + a[1..] && b == [b[0]] + b[1..];
      i := FirstDifference(a[1..], b[1..]);
      assert a[..i + 1] == [a[0]] + a[1..][..i] && b[..i + 1] == [b[0]] + b[1..][..i];
      i := i + 1;
    }
  }

  lemma MaskedOnce(data: bytes, a: seq<nat>, b: seq<nat>, i: nat)
    requires Windows(data, a, 0) && Windows(data, b, 0) && |a| == |b| && i < |a| && a[..i] == b[..i] && a[i] < b[i]
    ensures a[i] < |data| && Masked(a, a[i]) && !Masked(b, a[i])
  {
    forall j | 0 <= j < |b|
      ensures !(b[j] <= a[i] < b[j] + TTL_LENGTH)
    {
      if j < i {
        assert b[j] == b[..i][j] == a[..i][j] == a[j];
      }
    }
  }

  lemma RecordLength(r: Record)
    requires RecordOk(r)
    ensures |PrintRecord(r)| == |PrintName(r.name)| + 10 + |r.rdata|
  {
    hide PrintName;
  }

  /** The TTLs of encoded records are windows. */
  lemma {:induction false} OffsetsAreWindows(data: bytes, from: nat, rs: seq<Record>)
    requires forall i :: 0 <= i < |rs| ==> RecordOk(rs[i])
    requires from + |PrintRecords(rs)| <= |data|
    ensures Windows(data, TtlOffsets(from, rs), from) && |TtlOffsets(from, rs)| == |rs|
    decreases |rs|
  {
    hide PrintName, PrintRecord;
    if rs != [] {
      assert RecordOk(rs[0]);
      RecordLength(rs[0]);
      OffsetsAreWindows(data, from + |PrintRecord(rs[0])|, rs[1..]);
    }
  }

  /** Messages that differ in one byte: `validate` tells exactly when it is not in a window. */
  lemma OneByteChanged(data: bytes, k: nat, ttls: seq<nat>) returns (actual: bytes)
    requires k < |data| && Windows(data, ttls, 0)
    ensures |actual| == |data| && LengthsFit(data, actual, ttls, 0)
    ensures forall other: seq<nat> :: SameOutside(data, actual, other, 0) <==> Masked(other, k)
  {
    hide Masked;
    var changed: byte := if data[k] == NUL then 1 as char else NUL;
    actual := data[k := changed];
    assert actual[k] != data[k];
  }

  lemma WrongVerdict(m: Message) returns (actual: bytes)
    requires MessageOk(m) && !AllLand(m)
    ensures Validate(PrintMessage(m), actual)
         != Some(SameButTtls(PrintMessage(m), actual, TtlOffsets(RecordsAt(m), m.records)))
  {
    hide FindTtls, PrintQuestions, PrintRecords, TtlOffsets, SameOutside, Lands, Masked;
    MessageTtlsFound(m);
    var data, ttls := PrintMessage(m), TtlOffsets(RecordsAt(m), m.records);
    if FindTtls(data).None? {
      actual := data;
    } else {
      var found := FindTtls(data).value;
      WindowsNeverOverlap(data);
      OffsetsAreWindows(data, RecordsAt(m), m.records);
      assert data == PrintHeader(m) + (PrintQuestions(m.questions) + PrintRecords(m.records));
      HeaderRead(m, PrintQuestions(m.questions) + PrintRecords(m.records));
      var k := MasksDiffer(data, ttls, found);
      actual := OneByteChanged(data, k, found);
      ValidatesExactly(data, actual);
    }
  }

  /** `validate` accepts exactly the same message with any TTLs, for every other message, if and only if
      the reader lands on every record. */
  lemma MessageValidatesExactly(m: Message)
    requires MessageOk(m)
    ensures (forall actual :: Validate(PrintMessage(m), actual)
                           == Some(SameButTtls(PrintMessage(m), actual, TtlOffsets(RecordsAt(m), m.records))))
        <==> AllLand(m)
  {
    hide FindTtls, PrintQuestions, PrintRecords, TtlOffsets, SameOutside, Lands, Validate;
    MessageTtlsFound(m);
    var data, ttls := PrintMessage(m), TtlOffsets(RecordsAt(m), m.records);
    if AllLand(m) {
      ValidatesLengthExactly(data);
      TtlsInside(RecordsAt(m), m.records);
    } else {
      var actual := WrongVerdict(m);
    }
  }

  /** After a record with such a TTL, whatever the names and the data are, the next TTL is missed, and
      there is a message that `validate` misjudges. */
  lemma EarlyEndMisses(m: Message, k: nat) returns (actual: bytes)
    requires MessageOk(m) && k + 1 < |m.records| && EndsNameEarly(m.records[k].ttl)
    ensures FindTtls(PrintMessage(m)) != Some(TtlOffsets(RecordsAt(m), m.records))
    ensures Validate(PrintMessage(m), actual)
         != Some(SameButTtls(PrintMessage(m), actual, TtlOffsets(RecordsAt(m), m.records)))
  {
    hide Lands, PrintQuestions, PrintRecords, EndsNameEarly, FindTtls, Validate, TtlOffsets, SameOutside;
    LandsNot(PrintHeader(m) + PrintQuestions(m.questions), m.records, k, RecordsAt(m));
    MessageTtlsFound(m);
    actual := WrongVerdict(m);
  }

  const ZEROS: bytes := [NUL, NUL, NUL, NUL]

  /** A message with two records, both for the root; the first one is all zero. */
  function TwoRecords(fields: bytes, ttl: bytes): (m: Message)
    requires |fields| == 4 && |ttl| == TTL_LENGTH
    ensures MessageOk(m)
  {
    var root := Name([], Root);
    Message(ZEROS, [], 2, 0, 0, [Record(root, ZEROS, ZEROS, []), Record(root, fields, ttl, [])])
  }

  lemma TwoRecordsPrinted(fields: bytes, ttl: bytes)
    requires |fields| == 4 && |ttl| == TTL_LENGTH
    ensures PrintMessage(TwoRecords(fields, ttl))
         == ZEROS + [NUL, NUL, NUL, 2 as char] + ZEROS + ([NUL] + ZEROS + ZEROS + [NUL, NUL])
            + ([NUL] + fields + ttl + [NUL, NUL])
  {
    var rs := TwoRecords(fields, ttl).records;
    assert PrintRecord(rs[0]) == [NUL] + ZEROS + ZEROS + [NUL, NUL];
    assert PrintRecord(rs[1]) == [NUL] + fields + ttl + [NUL, NUL];
    assert rs[1..] == [rs[1]] && rs[1..][1..] == [];
    assert PrintRecords(rs[1..]) == PrintRecord(rs[1]);
    assert PrintHeader(TwoRecords(fields, ttl)) == ZEROS + [NUL, NUL, NUL, 2 as char] + ZEROS;
  }

  lemma TwoRecordsTtls(fields: bytes, ttl: bytes)
    requires |fields| == 4 && |ttl| == TTL_LENGTH
    ensures FindTtls(PrintMessage(TwoRecords(fields, ttl))) == Some([17, 24])
  {
    hide PrintMessage, TwoRecords;
    var data := PrintMessage(TwoRecords(fields, ttl));
    TwoRecordsPrinted(fields, ttl);
    assert |data| == 34 && data[12] == NUL && data[19] == NUL;
    assert Word(data, 4) == 0 && Word(data, 6) == 2 && Word(data, 8) == 0 && Word(data, 10) == 0 && Word(data, 17) == 0;
    assert SkipRecord(data, 12) == Some((17, 19));
    var next := SkipRecord(data, 19).value.1;
    assert SkipRecord(data, 19) == Some((24, next));
    var last: seq<nat> := [24];
    assert last + [] == last;
    assert Ttls(data, next, 0) == Some([]);
    assert Ttls(data, 19, 1) == Some(last);
    var both: seq<nat> := [17, 24];
    assert [17] + last == both;
    assert Ttls(data, 12, 2) == Some(both);
  }

  /** With two records the wrong bytes can be left out: of these messages, `validate` accepts exactly
      those with the same second TTL, and whatever type and class the second record has. */
  lemma SecondTtlMissed(fields: bytes, ttl: bytes, fields': bytes, ttl': bytes)
    requires |fields| == 4 && |ttl| == TTL_LENGTH && |fields'| == 4 && |ttl'| == TTL_LENGTH
    ensures Validate(PrintMessage(TwoRecords(fields, ttl)), PrintMessage(TwoRecords(fields', ttl'))) == Some(ttl == ttl')
  {
    hide PrintMessage, TwoRecords, FindTtls, Validate;
    var e, a := PrintMessage(TwoRecords(fields, ttl)), PrintMessage(TwoRecords(fields', ttl'));
    TwoRecordsTtls(fields, ttl);
    ValidatesLengthExactly(e);
    TwoRecordsPrinted(fields, ttl);
    TwoRecordsPrinted(fields', ttl');
    assert e[28..32] == ttl && a[28..32] == ttl';
    assert Masked([17, 24], 24) && Masked([17, 24], 25) && Masked([17, 24], 26) && Masked([17, 24], 27);
    if ttl == ttl' {
      assert SameOutside(e, a, [17, 24], 0);
    } else {
      assert forall k :: 28 <= k < 32 ==> !Masked([17, 24], k) && e[k] == ttl[k - 28] && a[k] == ttl'[k - 28];
    }
  }
}
