/** `dns.py`: comparing two DNS messages apart from the TTLs of their records. */
module Dns {
  import opened Bytes

  const HEADER_LENGTH := 12
  const TTL_LENGTH := 4
  const MAX_LABEL := 63

  // ---------------------------------------------------------------- reading a message

  /** A 16-bit number in network order. */
  function Word(data: bytes, pos: nat): nat
    requires pos + 2 <= |data|
  {
    data[pos] as nat * 256 + data[pos + 1] as nat
  }

  /** Where `reader.read(n)` leaves the reader. */
  function Advance(data: bytes, pos: nat, n: nat): (p: nat)
    requires pos <= |data|
    ensures p <= |data|
  {
    Min(pos + n, |data|)
  }

  /** The loop of `skip_name`, with the length of the next label already read; nothing when the original
      throws because the message ends. */
  function SkipLabels(data: bytes, pos: nat, length: nat): (r: Option<nat>)
    requires pos <= |data|
    ensures r.Some? ==> pos <= r.value <= |data|
    decreases |data| - pos
  {
    if length == 0 then Some(pos)
    else if length > MAX_LABEL then Some(Advance(data, pos, 1))
    else
      var p := Advance(data, pos, length);
      if p == |data| then None else SkipLabels(data, p + 1, data[p] as nat)
  }

  /** `skip_name`. */
  function SkipName(data: bytes, pos: nat): (r: Option<nat>)
    requires pos <= |data|
    ensures r.Some? ==> pos < r.value <= |data|
  {
    if pos == |data| then None else SkipLabels(data, pos + 1, data[pos] as nat)
  }

  /** `skip_question`, `n` times. */
  function SkipQuestions(data: bytes, pos: nat, n: nat): (r: Option<nat>)
    requires pos <= |data|
    ensures r.Some? ==> pos <= r.value <= |data|
    decreases n
  {
    if n == 0 then Some(pos)
    else match SkipName(data, pos)
      case None => None
      case Some(p) => SkipQuestions(data, Advance(data, p, 4), n - 1)
  }

  /** Where the TTL of the record at `pos` is taken to be, and where the next record is taken to start.
      The length that is skipped is read from the TTL. */
  function SkipRecord(data: bytes, pos: nat): (r: Option<(nat, nat)>)
    requires pos <= |data|
    ensures r.Some? ==> pos + 5 <= r.value.0 && r.value.0 + 2 <= r.value.1 <= |data|
  {
    match SkipName(data, pos)
    case None => None
    case Some(p) =>
      var ttl := Advance(data, p, 4);
      if ttl + 2 > |data| then None else Some((ttl, Advance(data, ttl + 2, Word(data, ttl))))
  }

  function Ttls(data: bytes, pos: nat, n: nat): (r: Option<seq<nat>>)
    requires pos <= |data|
    decreases n
  {
    if n == 0 then Some([])
    else match SkipRecord(data, pos)
      case None => None
      case Some((ttl, next)) =>
        match Ttls(data, next, n - 1)
        case None => None
        case Some(more) => Some([ttl] + more)
  }

  /** The first part of `validate`: the offsets of the TTLs in a message. */
  function FindTtls(data: bytes): Option<seq<nat>> {
    if |data| < HEADER_LENGTH then None
    else match SkipQuestions(data, HEADER_LENGTH, Word(data, 4))
      case None => None
      case Some(pos) => Ttls(data, pos, Word(data, 6) + Word(data, 8) + Word(data, 10))
  }

  /** `io.BytesIO`, as far as it is used. */
  class Reader {
    const data: bytes
    var pos: nat

    ghost predicate Valid()
      reads this
    {
      pos <= |data|
    }

    constructor (data: bytes)
      ensures this.data == data && pos == 0
    {
      this.data, pos := data, 0;
    }

    method Read(n: nat) returns (r: bytes)
      requires Valid()
      modifies this
      ensures Valid() && pos == Advance(data, old(pos), n) && r == data[old(pos)..pos]
    {
      r := data[pos..Min(pos + n, |data|)];
      pos := Min(pos + n, |data|);
    }

    /** `struct.unpack("B", reader.read(1))[0]`; nothing when it throws. */
    method ReadByte() returns (r: Option<nat>)
      requires Valid()
      modifies this
      ensures Valid() && pos == Advance(data, old(pos), 1)
      ensures r == if old(pos) == |data| then None else Some(data[old(pos)] as nat)
    {
      var b := Read(1);
      return if |b| != 1 then None else Some(b[0] as nat);
    }

    /** `skip_name`. */
    method SkipNameHere() returns (ok: bool)
      requires Valid()
      modifies this
      ensures Valid() && if ok then SkipName(data, old(pos)) == Some(pos) else SkipName(data, old(pos)).None?
    {
      var labelLen: Option<nat> := ReadByte();
      if labelLen.None? {
        return false;
      }
      while labelLen.value > 0
        invariant Valid() && labelLen.Some?
        invariant SkipName(data, old(pos)) == SkipLabels(data, pos, labelLen.value)
        decreases |data| - pos, labelLen.value
      {
        if labelLen.value > MAX_LABEL {
          var pointer := Read(1);
          break;
        } else {
          var text := Read(labelLen.value);
        }
        labelLen := ReadByte();
        if labelLen.None? {
          return false;
        }
      }
      return true;
    }

    /** `skip_question`. */
    method SkipQuestion() returns (ok: bool)
      requires Valid()
      modifies this
      ensures Valid() && ok == SkipName(data, old(pos)).Some?
      ensures ok ==> pos == Advance(data, SkipName(data, old(pos)).value, 4)
    {
      ok := SkipNameHere();
      if ok {
        var fields := Read(4);
      }
    }

    /** The body of the loop over the records: the offset of one TTL. */
    method TakeTtl() returns (ttl: Option<nat>)
      requires Valid()
      modifies this
      ensures Valid() && ttl.Some? == SkipRecord(data, old(pos)).Some?
      ensures ttl.Some? ==> SkipRecord(data, old(pos)).value == (ttl.value, pos)
    {
      var ok := SkipNameHere();
      if !ok {
        return None;
      }
      var fields := Read(4);
      var at := pos;
      var length := Read(2);
      if |length| != 2 {
        return None;
      }
      var skipped := Read(Word(length, 0));
      return Some(at);
    }

    /** The loops over the questions and the records. */
    method SkipAllQuestions(n: nat) returns (ok: bool)
      requires Valid()
      modifies this
      ensures Valid() && if ok then SkipQuestions(data, old(pos), n) == Some(pos)
                         else SkipQuestions(data, old(pos), n).None?
    {
      for i := 0 to n
        invariant Valid() && SkipQuestions(data, old(pos), n) == SkipQuestions(data, pos, n - i)
      {
        ok := SkipQuestion();
        if !ok {
          return;
        }
      }
      return true;
    }

    method TakeTtls(n: nat) returns (ttls: Option<seq<nat>>)
      requires Valid()
      modifies this
      ensures Valid() && ttls == Ttls(data, old(pos), n)
    {
      var found: seq<nat> := [];
      for i := 0 to n
        invariant Valid()
        invariant Ttls(data, old(pos), n) == Onto(found, Ttls(data, pos, n - i))
      {
        var ttl := TakeTtl();
        if ttl.None? {
          return None;
        }
        OntoSnoc(found, ttl.value, Ttls(data, pos, n - i - 1));
        found := found + [ttl.value];
      }
      assert found + [] == found;
      return Some(found);
    }
  }

  function Onto(before: seq<nat>, more: Option<seq<nat>>): (r: Option<seq<nat>>)
    ensures before == [] ==> r == more
  {
    assert more.Some? ==> [] + more.value == more.value;
    if more.None? then None else Some(before + more.value)
  }

  lemma OntoSnoc(before: seq<nat>, ttl: nat, more: Option<seq<nat>>)
    ensures Onto(before + [ttl], more) == Onto(before, Onto([ttl], more))
  {
    if more.Some? {
      assert before + [ttl] + more.value == before + ([ttl] + more.value);
    }
  }

  // ---------------------------------------------------------------- comparing

  /** A slice the way Python takes it: bounds past the end are moved to the end. */
  function Slice(s: bytes, from: nat, to: nat): bytes {
    s[Min(from, |s|)..if to <= from then Min(from, |s|) else Min(to, |s|)]
  }

  function SliceFrom(s: bytes, from: nat): bytes {
    s[Min(from, |s|)..]
  }

  /** The second part of `validate`. */
  function SameApart(expected: bytes, actual: bytes, ttls: seq<nat>, from: nat): bool
    decreases |ttls|
  {
    if ttls == [] then SliceFrom(expected, from) == SliceFrom(actual, from)
    else
      Slice(expected, from, ttls[0]) == Slice(actual, from, ttls[0])
      && SameApart(expected, actual, ttls[1..], ttls[0] + TTL_LENGTH)
  }

  /** `validate`; nothing when it throws. */
  function Validate(expected: bytes, actual: bytes): Option<bool> {
    match FindTtls(expected)
    case None => None
    case Some(ttls) => Some(SameApart(expected, actual, ttls, 0))
  }

  /** `validate`; nothing when it throws. */
  method ValidateMessage(expected: bytes, actual: bytes) returns (same: Option<bool>)
    ensures same == Validate(expected, actual)
  {
    hide Ttls, SkipQuestions;
    var reader := new Reader(expected);
    var header := reader.Read(HEADER_LENGTH);
    if |header| != HEADER_LENGTH {
      return None;
    }
    assert header == expected[..HEADER_LENGTH];
    var ok := reader.SkipAllQuestions(Word(header, 4));
    if !ok {
      return None;
    }
    var ttls := reader.TakeTtls(Word(header, 6) + Word(header, 8) + Word(header, 10));
    if ttls.None? {
      return None;
    }
    var agree := CompareApart(expected, actual, ttls.value);
    return Some(agree);
  }

  /** The loop of slices. */
  method CompareApart(expected: bytes, actual: bytes, ttls: seq<nat>) returns (same: bool)
    ensures same == SameApart(expected, actual, ttls, 0)
  {
    var startIdx: nat := 0;
    for i := 0 to |ttls|
      invariant SameApart(expected, actual, ttls, 0) == SameApart(expected, actual, ttls[i..], startIdx)
    {
      if Slice(expected, startIdx, ttls[i]) != Slice(actual, startIdx, ttls[i]) {
        return false;
      }
      startIdx := ttls[i] + TTL_LENGTH;
    }
    return SliceFrom(expected, startIdx) == SliceFrom(actual, startIdx);
  }

  // ---------------------------------------------------------------- the windows

  /** The windows lie in order, apart from each other, and begin inside the message. */
  predicate Windows(data: bytes, ttls: seq<nat>, from: nat) {
    && (forall i :: 0 <= i < |ttls| ==> from < ttls[i] && ttls[i] + 2 <= |data|)
    && (forall i, j :: 0 <= i < j < |ttls| ==> ttls[i] + TTL_LENGTH < ttls[j])
  }

  lemma {:induction false} TtlsAreWindows(data: bytes, pos: nat, n: nat)
    requires pos <= |data| && Ttls(data, pos, n).Some?
    ensures Windows(data, Ttls(data, pos, n).value, pos + 4) && |Ttls(data, pos, n).value| == n
    decreases n
  {
    hide SkipRecord;
    if n > 0 {
      TtlsAreWindows(data, SkipRecord(data, pos).value.1, n - 1);
    }
  }

  /** Whatever the message: the windows that are left out never overlap, and begin inside it. */
  lemma WindowsNeverOverlap(data: bytes)
    requires FindTtls(data).Some?
    ensures Windows(data, FindTtls(data).value, HEADER_LENGTH)
    ensures |FindTtls(data).value| == Word(data, 6) + Word(data, 8) + Word(data, 10)
  {
    hide Ttls, SkipQuestions;
    var pos := SkipQuestions(data, HEADER_LENGTH, Word(data, 4)).value;
    TtlsAreWindows(data, pos, Word(data, 6) + Word(data, 8) + Word(data, 10));
  }

  /** `k` is in one of the windows. */
  predicate Masked(ttls: seq<nat>, k: nat) {
    exists i :: 0 <= i < |ttls| && ttls[i] <= k < ttls[i] + TTL_LENGTH
  }

  /** Outside the windows, the messages agree as far as both go. */
  predicate SameOutside(expected: bytes, actual: bytes, ttls: seq<nat>, from: nat) {
    forall k :: from <= k < |expected| && k < |actual| && !Masked(ttls, k) ==> expected[k] == actual[k]
  }

  /** Where what is compared last begins. */
  function LastStart(ttls: seq<nat>, from: nat): nat {
    if ttls == [] then from else ttls[|ttls| - 1] + TTL_LENGTH
  }

  /** The lengths agree, or both messages end in the last window. */
  predicate LengthsFit(expected: bytes, actual: bytes, ttls: seq<nat>, from: nat) {
    && (ttls != [] ==> ttls[|ttls| - 1] <= |actual|)
    && (|expected| == |actual| || (|expected| <= LastStart(ttls, from) && |actual| <= LastStart(ttls, from)))
  }

  lemma MaskedStep(ttls: seq<nat>, k: nat)
    requires ttls != []
    ensures Masked(ttls, k) <==> (ttls[0] <= k < ttls[0] + TTL_LENGTH || Masked(ttls[1..], k))
  {
    if Masked(ttls[1..], k) {
      var i :| 0 <= i < |ttls[1..]| && ttls[1..][i] <= k < ttls[1..][i] + TTL_LENGTH;
      assert ttls[i + 1] == ttls[1..][i];
    }
    if Masked(ttls, k) {
      var i :| 0 <= i < |ttls| && ttls[i] <= k < ttls[i] + TTL_LENGTH;
      assert i > 0 ==> ttls[1..][i - 1] == ttls[i];
    }
  }

  lemma SliceExactly(expected: bytes, actual: bytes, from: nat, to: nat)
    requires from < to <= |expected|
    ensures Slice(expected, from, to) == Slice(actual, from, to)
        <==> to <= |actual| && forall k :: from <= k < to ==> expected[k] == actual[k]
  {
    var a, b := Slice(expected, from, to), Slice(actual, from, to);
    if to <= |actual| {
      assert forall k :: from <= k < to ==> a[k - from] == expected[k] && b[k - from] == actual[k];
      if forall k :: from <= k < to ==> expected[k] == actual[k] {
        assert a == b;
      }
    } else {
      assert |a| != |b|;
    }
  }

  lemma SliceFromExactly(expected: bytes, actual: bytes, from: nat)
    ensures SliceFrom(expected, from) == SliceFrom(actual, from)
        <==> (|expected| == |actual| || (|expected| <= from && |actual| <= from))
             && forall k :: from <= k < |expected| && k < |actual| ==> expected[k] == actual[k]
  {
    var a, b := SliceFrom(expected, from), SliceFrom(actual, from);
    if |expected| == |actual| && from < |expected| {
      assert forall k :: from <= k < |expected| ==> a[k - from] == expected[k] && b[k - from] == actual[k];
      if forall k :: from <= k < |expected| ==> expected[k] == actual[k] {
        assert a == b;
      }
    }
  }

  lemma SameOutsideStep(expected: bytes, actual: bytes, ttls: seq<nat>, from: nat)
    requires ttls != [] && Windows(expected, ttls, from) && ttls[0] <= |actual|
    ensures SameOutside(expected, actual, ttls, from)
        <==> (forall k :: from <= k < ttls[0] ==> expected[k] == actual[k])
             && SameOutside(expected, actual, ttls[1..], ttls[0] + TTL_LENGTH)
  {
    forall k: nat
      ensures k < ttls[0] ==> !Masked(ttls, k)
      ensures Masked(ttls, k) <==> (ttls[0] <= k < ttls[0] + TTL_LENGTH || Masked(ttls[1..], k))
    {
      MaskedStep(ttls, k);
    }
    hide Masked;
  }

  lemma WindowsTail(data: bytes, ttls: seq<nat>, from: nat)
    requires ttls != [] && Windows(data, ttls, from)
    ensures Windows(data, ttls[1..], ttls[0] + TTL_LENGTH) && from < ttls[0] <= |data|
  {
  }

  lemma LengthsFitStep(expected: bytes, actual: bytes, ttls: seq<nat>, from: nat)
    requires ttls != [] && Windows(expected, ttls, from)
    ensures LengthsFit(expected, actual, ttls, from)
        <==> ttls[0] <= |actual| && LengthsFit(expected, actual, ttls[1..], ttls[0] + TTL_LENGTH)
  {
    var more := ttls[1..];
    assert more != [] ==> ttls[|ttls| - 1] == more[|more| - 1] && ttls[0] < ttls[|ttls| - 1];
  }

  lemma NothingMasked(expected: bytes, actual: bytes, from: nat)
    ensures SameApart(expected, actual, [], from)
        <==> LengthsFit(expected, actual, [], from) && SameOutside(expected, actual, [], from)
  {
    SliceFromExactly(expected, actual, from);
    assert forall k :: !Masked([], k);
  }

  /** The loop of slices compares exactly what is outside the windows. */
  lemma {:induction false} SameApartExactly(expected: bytes, actual: bytes, ttls: seq<nat>, from: nat)
    requires Windows(expected, ttls, from)
    ensures SameApart(expected, actual, ttls, from)
        <==> LengthsFit(expected, actual, ttls, from) && SameOutside(expected, actual, ttls, from)
    decreases |ttls|
  {
    hide Windows, LengthsFit, SameOutside, Slice;
    if ttls == [] {
      NothingMasked(expected, actual, from);
    } else {
      WindowsTail(expected, ttls, from);
      SliceExactly(expected, actual, from, ttls[0]);
      LengthsFitStep(expected, actual, ttls, from);
      SameApartExactly(expected, actual, ttls[1..], ttls[0] + TTL_LENGTH);
      if ttls[0] <= |actual| {
        SameOutsideStep(expected, actual, ttls, from);
      }
    }
  }

  /** `validate` accepts exactly the messages that agree outside the windows and whose length fits. */
  lemma ValidatesExactly(expected: bytes, actual: bytes)
    requires FindTtls(expected).Some?
    ensures var ttls := FindTtls(expected).value;
            Validate(expected, actual)
            == Some(LengthsFit(expected, actual, ttls, 0) && SameOutside(expected, actual, ttls, 0))
  {
    hide FindTtls, SameApart, LengthsFit, SameOutside;
    WindowsNeverOverlap(expected);
    SameApartExactly(expected, actual, FindTtls(expected).value, 0);
  }

  /** What `validate` is for: the same message, apart from the TTLs. */
  predicate SameButTtls(expected: bytes, actual: bytes, ttls: seq<nat>) {
    |expected| == |actual| && SameOutside(expected, actual, ttls, 0)
  }

  /** It does that for every other message if and only if the last window ends before `expected` does:
      otherwise a message that stops in that window is accepted as well. */
  lemma ValidatesLengthExactly(expected: bytes)
    requires FindTtls(expected).Some?
    ensures var ttls := FindTtls(expected).value;
            ((forall actual :: Validate(expected, actual) == Some(SameButTtls(expected, actual, ttls)))
             <==> (ttls == [] || LastStart(ttls, 0) < |expected|))
  {
    hide FindTtls, Validate;
    var ttls := FindTtls(expected).value;
    WindowsNeverOverlap(expected);
    forall actual
      ensures Validate(expected, actual)
           == Some(LengthsFit(expected, actual, ttls, 0) && SameOutside(expected, actual, ttls, 0))
    {
      ValidatesExactly(expected, actual);
    }
    if ttls != [] && LastStart(ttls, 0) >= |expected| {
      var short := expected[..ttls[|ttls| - 1]];
      assert SameOutside(expected, short, ttls, 0) && |short| != |expected|;
      assert Validate(expected, short) == Some(true);
    }
  }
}
