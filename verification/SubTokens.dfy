/** The substitution tokens `${name}` that `ConversationSerializer::create_action` finds in the data. */
module SubTokens {
  import opened Actions
  import opened Bytes

  const PREFIX: bytes := "${"
  const SUFFIX: bytes := "}"

  /** `token_`, `begin_idx_` and `end_idx_`. */
  datatype SubToken = SubToken(text: bytes, begin: nat, end: nat)

  /** `std::string_view::substr(at, count)`. */
  function Substr(s: bytes, at: nat, count: nat): bytes
    requires at <= |s|
  {
    s[at..Min(at + count, |s|)]
  }

  /** One turn of the loop. Its `substr` is given the position of the suffix where the number of
      characters is due. */
  function FirstToken(data: bytes, start: nat): (r: Option<SubToken>)
    ensures r.Some? ==> start <= r.value.begin && r.value.begin + 2 < r.value.end <= |data|
  {
    var begin := Find(data, PREFIX, start);
    if begin < 0 then None else
      var suffix := Find(data, SUFFIX, begin + 2);
      if suffix < 0 then None
      else Some(SubToken(Substr(data, begin + 2, suffix), begin, suffix + 1))
  }

  /** The tokens from `start` on. */
  function Scan(data: bytes, start: nat): seq<SubToken>
    decreases |data| - start
  {
    match FirstToken(data, start)
    case None => []
    case Some(t) => [t] + Scan(data, t.end)
  }

  method CreateTokens(data: bytes) returns (tokens: seq<SubToken>)
    ensures tokens == Scan(data, 0)
  {
    hide FirstToken;
    tokens := [];
    var start := 0;
    while true
      invariant tokens + Scan(data, start) == Scan(data, 0)
      decreases |data| - start
    {
      var t := FirstToken(data, start);
      if t.None? {
        break;
      }
      ScanSplits(data, start, tokens);
      tokens := tokens + [t.value];
      start := t.value.end;
    }
    assert tokens + [] == tokens;
  }

  /** An action with its `subTokens_`. */
  datatype TokenAction = TokenAction(action: Action, tokens: seq<SubToken>)

  /** `create_action`. */
  method CreateAction(kind: ActionType, data: bytes) returns (a: TokenAction)
    ensures a == TokenAction(Action(kind, data), Scan(data, 0))
  {
    var tokens := CreateTokens(data);
    return TokenAction(Action(kind, data), tokens);
  }

  lemma ScanSplits(data: bytes, start: nat, before: seq<SubToken>)
    requires FirstToken(data, start).Some?
    ensures var t := FirstToken(data, start).value; before + Scan(data, start) == before + [t] + Scan(data, t.end)
  {
    hide FirstToken;
  }

  // ---------------------------------------------------------------- what a token list has to be

  predicate OpenedAt(data: bytes, begin: nat) {
    begin + 2 <= |data| && data[begin] == '$' && data[begin + 1] == '{'
  }

  predicate ClosedAt(data: bytes, begin: nat, j: nat) {
    begin + 2 <= j < |data| && data[j] == '}'
  }

  /** A prefix that a suffix follows. */
  ghost predicate Opens(data: bytes, begin: nat) {
    OpenedAt(data, begin) && exists j: nat :: ClosedAt(data, begin, j)
  }

  /** A token runs from a prefix to the first suffix after it. */
  ghost predicate IsToken(data: bytes, t: SubToken) {
    && OpenedAt(data, t.begin)
    && t.end > 0 && ClosedAt(data, t.begin, t.end - 1)
    && forall j: nat :: ClosedAt(data, t.begin, j) ==> t.end - 1 <= j
  }

  /** The tokens follow each other from `start` on. */
  predicate Ordered(tokens: seq<SubToken>, start: nat) {
    tokens != [] ==> start <= tokens[0].begin < tokens[0].end && Ordered(tokens[1..], tokens[0].end)
  }

  ghost predicate Covers(tokens: seq<SubToken>, i: nat) {
    exists k :: 0 <= k < |tokens| && tokens[k].begin <= i < tokens[k].end
  }

  /** Tokens that are ordered and disjoint, and leave out no prefix that is followed by a suffix. */
  ghost predicate IsTokenList(data: bytes, start: nat, tokens: seq<SubToken>) {
    && Ordered(tokens, start)
    && (forall k :: 0 <= k < |tokens| ==> IsToken(data, tokens[k]))
    && (forall i: nat :: start <= i && Opens(data, i) ==> Covers(tokens, i))
  }

  lemma PrefixIs(data: bytes, i: nat)
    ensures OccursAt(data, PREFIX, i) <==> OpenedAt(data, i)
  {
    if i + 2 <= |data| {
      assert data[i..i + 2] == [data[i], data[i + 1]];
    }
  }

  /** The suffix that the search finds closes the prefix, and is the first one to do so. */
  lemma SuffixFound(data: bytes, begin: nat)
    requires OpenedAt(data, begin)
    ensures var suffix := Find(data, SUFFIX, begin + 2);
            && (Opens(data, begin) <==> suffix >= 0)
            && (suffix >= 0 ==> ClosedAt(data, begin, suffix))
            && (forall j: nat :: ClosedAt(data, begin, j) ==> 0 <= suffix <= j)
  {
    var suffix := Find(data, SUFFIX, begin + 2);
    forall j: nat | ClosedAt(data, begin, j)
      ensures 0 <= suffix <= j
    {
      assert data[j..j + 1] == SUFFIX;
      assert OccursAt(data, SUFFIX, j);
    }
    if suffix >= 0 {
      assert data[suffix..suffix + 1][0] == '}';
      assert ClosedAt(data, begin, suffix);
    }
  }

  /** A suffix that closes a prefix closes every earlier prefix. */
  lemma OpensEarlier(data: bytes, i: nat, j: nat)
    requires i <= j && Opens(data, j) && OpenedAt(data, i)
    ensures Opens(data, i)
  {
    var k: nat :| ClosedAt(data, j, k);
    assert ClosedAt(data, i, k);
  }

  /** One turn finds the first prefix that a suffix follows, and ends only when there is none. */
  lemma FirstTokenIsFirst(data: bytes, start: nat)
    ensures FirstToken(data, start).Some? ==> IsToken(data, FirstToken(data, start).value)
    ensures forall i: nat :: start <= i && Opens(data, i) ==>
              FirstToken(data, start).Some? && FirstToken(data, start).value.begin <= i
  {
    var begin := Find(data, PREFIX, start);
    if begin >= 0 {
      PrefixIs(data, begin);
      SuffixFound(data, begin);
    }
    forall i: nat | start <= i && Opens(data, i)
      ensures FirstToken(data, start).Some? && FirstToken(data, start).value.begin <= i
    {
      PrefixIs(data, i);
      OpensEarlier(data, begin, i);
    }
  }

  /** The scan finds ordered, disjoint tokens in bounds and misses none. */
  lemma {:induction false} ScanIsTokenList(data: bytes, start: nat)
    ensures IsTokenList(data, start, Scan(data, start))
    decreases |data| - start
  {
    hide FirstToken, Opens, IsToken;
    FirstTokenIsFirst(data, start);
    if FirstToken(data, start).Some? {
      var t := FirstToken(data, start).value;
      ScanIsTokenList(data, t.end);
      PrependToken(data, start, t, Scan(data, t.end));
    }
  }

  lemma PrependToken(data: bytes, start: nat, t: SubToken, rest: seq<SubToken>)
    requires start <= t.begin < t.end && IsToken(data, t) && IsTokenList(data, t.end, rest)
    requires forall i: nat :: start <= i && Opens(data, i) ==> t.begin <= i
    ensures IsTokenList(data, start, [t] + rest)
  {
    hide Opens, IsToken;
    var tokens := [t] + rest;
    assert tokens[1..] == rest;
    forall i: nat | start <= i && Opens(data, i)
      ensures Covers(tokens, i)
    {
      if i < t.end {
        assert tokens[0].begin <= i < tokens[0].end;
      } else {
        var k :| 0 <= k < |rest| && rest[k].begin <= i < rest[k].end;
        assert tokens[k + 1] == rest[k];
      }
    }
  }

  predicate SameIntervals(a: seq<SubToken>, b: seq<SubToken>) {
    |a| == |b| && forall k :: 0 <= k < |a| ==> a[k].begin == b[k].begin && a[k].end == b[k].end
  }

  lemma {:induction false} OrderedBegins(tokens: seq<SubToken>, start: nat)
    requires Ordered(tokens, start)
    ensures forall k :: 0 <= k < |tokens| ==> start <= tokens[k].begin
    ensures forall k :: 0 < k < |tokens| ==> tokens[0].end <= tokens[k].begin
    decreases |tokens|
  {
    if tokens != [] {
      OrderedBegins(tokens[1..], tokens[0].end);
      assert forall k :: 0 < k < |tokens| ==> tokens[k] == tokens[1..][k - 1];
    }
  }

  /** There is only one such list of intervals: the leftmost scan. */
  lemma {:induction false} TokenListIsUnique(data: bytes, start: nat, a: seq<SubToken>, b: seq<SubToken>)
    requires IsTokenList(data, start, a) && IsTokenList(data, start, b)
    ensures SameIntervals(a, b)
    decreases |a| + |b|
  {
    OrderedBegins(a, start);
    OrderedBegins(b, start);
    if a != [] {
      FirstIsCovered(data, start, a, b);
    }
    if b != [] {
      FirstIsCovered(data, start, b, a);
    }
    if a != [] && b != [] {
      TailIsTokenList(data, start, a);
      TailIsTokenList(data, start, b);
      TokenListIsUnique(data, a[0].end, a[1..], b[1..]);
      assert forall k :: 0 < k < |a| ==> a[k] == a[1..][k - 1] && b[k] == b[1..][k - 1];
    }
  }

  /** The first token of one list is one of the other list, which does not start later. */
  lemma FirstIsCovered(data: bytes, start: nat, a: seq<SubToken>, b: seq<SubToken>)
    requires IsTokenList(data, start, a) && IsTokenList(data, start, b) && a != []
    ensures b != [] && b[0].begin <= a[0].begin
    ensures b[0].begin == a[0].begin ==> b[0].end == a[0].end
  {
    OrderedBegins(a, start);
    OrderedBegins(b, start);
    assert ClosedAt(data, a[0].begin, a[0].end - 1);
    assert Opens(data, a[0].begin);
    assert Covers(b, a[0].begin);
    assert ClosedAt(data, b[0].begin, b[0].end - 1);
  }

  lemma TailIsTokenList(data: bytes, start: nat, a: seq<SubToken>)
    requires IsTokenList(data, start, a) && a != []
    ensures IsTokenList(data, a[0].end, a[1..])
  {
    OrderedBegins(a, start);
    forall i: nat | a[0].end <= i && Opens(data, i)
      ensures Covers(a[1..], i)
    {
      assert Covers(a, i);
      var k :| 0 <= k < |a| && a[k].begin <= i < a[k].end;
      assert a[1..][k - 1] == a[k];
    }
  }

  /** The text of a token begins after the prefix, and is as long as the position of the suffix says, not as
      the name is, as far as the data has that. */
  lemma {:induction false} TextExactly(data: bytes, start: nat, k: nat)
    requires k < |Scan(data, start)|
    ensures var t := Scan(data, start)[k];
            t.begin + 2 < t.end <= |data| && t.text == data[t.begin + 2..Min(t.begin + t.end + 1, |data|)]
    decreases k
  {
    hide FirstToken;
    var t := FirstToken(data, start).value;
    if k == 0 {
      FirstTextExactly(data, start);
    } else {
      TextExactly(data, t.end, k - 1);
    }
  }

  lemma FirstTextExactly(data: bytes, start: nat)
    requires FirstToken(data, start).Some?
    ensures var t := FirstToken(data, start).value; t.text == data[t.begin + 2..Min(t.begin + t.end + 1, |data|)]
  {
  }

  /** So it is never its name: it goes on with the suffix, at least. */
  lemma TextIsNeverTheName(data: bytes, start: nat, k: nat)
    requires k < |Scan(data, start)|
    ensures var t := Scan(data, start)[k];
            t.begin + 2 < t.end <= |data| && data[t.begin + 2..t.end - 1] + "}" <= t.text
  {
    hide Scan;
    TextExactly(data, start, k);
    ScanIsTokenList(data, start);
    var t := Scan(data, start)[k];
    assert IsToken(data, t);
    assert t.text[..t.end - t.begin - 3] == data[t.begin + 2..t.end - 1];
    assert t.text[t.end - t.begin - 3] == data[t.end - 1];
  }
}
