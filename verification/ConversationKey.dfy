/** `tcpIpGetKey`: the key under which the packets of both directions of a conversation are found. */
module ConversationKey {
  import opened Bytes
  import opened Packets

  const KEY_SEPARATOR: bytes := ":"

  /** The two digits of one byte. */
  function HexByte(c: byte): (r: bytes)
    ensures |r| == 2
  {
    [DigitChar(c as int / 16), DigitChar(c as int % 16)]
  }

  function HexString(data: bytes): (r: bytes)
    ensures |r| == 2 * |data|
  {
    if data == [] then [] else HexString(data[..|data| - 1]) + HexByte(data[|data| - 1])
  }

  /** `bytes_to_hex_string`: the loop over the bytes. */
  method BytesToHexString(data: bytes) returns (s: bytes)
    ensures s == HexString(data)
  {
    s := [];
    var i := 0;
    while i < |data|
      invariant 0 <= i <= |data|
      invariant s == HexString(data[..i])
    {
      assert data[..i + 1][..i] == data[..i];
      s := s + HexByte(data[i]);
      i := i + 1;
    }
    assert data[..|data|] == data;
  }

  /** `generateKey`. */
  function GenerateKey(a: Endpoint, b: Endpoint): bytes {
    HexString(a.addr) + KEY_SEPARATOR + Print(a.port, 10) + KEY_SEPARATOR
    + HexString(b.addr) + KEY_SEPARATOR + Print(b.port, 10)
  }

  /** `tcpIpGetKey`. */
  function KeyOf(p: Packet): bytes
    requires WellFormed(p)
  {
    var comp := MemCmp(p.src.addr, p.dest.addr);
    if comp == 0 then
      if p.src.port < p.dest.port then GenerateKey(p.src, p.dest) else GenerateKey(p.dest, p.src)
    else if comp < 0 then GenerateKey(p.src, p.dest)
    else GenerateKey(p.dest, p.src)
  }

  // ---------------------------------------------------------------- printing is injective

  lemma HexByteInjective(c: byte, d: byte)
    requires HexByte(c) == HexByte(d)
    ensures c == d
  {
    assert HexByte(c)[0] == HexByte(d)[0] && HexByte(c)[1] == HexByte(d)[1];
    assert c as int / 16 == d as int / 16 && c as int % 16 == d as int % 16;
  }

  lemma {:induction false} HexStringInjective(a: bytes, b: bytes)
    requires HexString(a) == HexString(b)
    ensures a == b
    decreases |a|
  {
    hide HexByte;
    if a != [] {
      var n := |a| - 1;
      SameTail(HexString(a[..n]), HexByte(a[n]), HexString(b[..n]), HexByte(b[n]));
      HexByteInjective(a[n], b[n]);
      HexStringInjective(a[..n], b[..n]);
      assert a == a[..n] + [a[n]] && b == b[..n] + [b[n]];
    }
  }

  lemma SameTail(a: bytes, x: bytes, b: bytes, y: bytes)
    requires a + x == b + y && |x| == |y|
    ensures a == b && x == y
  {
    assert (a + x)[..|a|] == a && (b + y)[..|b|] == b && (a + x)[|a|..] == x && (b + y)[|b|..] == y;
  }

  lemma {:induction false} HexHasNoSeparator(a: bytes)
    ensures ':' !in HexString(a)
    decreases |a|
  {
    if a != [] {
      HexHasNoSeparator(a[..|a| - 1]);
    }
  }

  lemma DecimalHasNoSeparator(n: nat)
    ensures ':' !in Print(n, 10)
  {
    assert !IsDigit(':', 10);
  }

  /** A text splits at its first separator in one way only. */
  lemma SplitOnce(a: bytes, x: bytes, b: bytes, y: bytes)
    requires ':' !in a && ':' !in b && a + KEY_SEPARATOR + x == b + KEY_SEPARATOR + y
    ensures a == b && x == y
  {
    var s := a + KEY_SEPARATOR + x;
    assert s[|a|] == ':' && s[|b|] == ':';
    assert forall i :: 0 <= i < |a| ==> s[i] == a[i];
    assert forall i :: 0 <= i < |b| ==> s[i] == b[i];
    assert a == s[..|a|] && b == s[..|b|];
    assert x == s[|a| + 1..] && y == s[|b| + 1..];
  }

  lemma GenerateKeyInjective(a: Endpoint, b: Endpoint, c: Endpoint, d: Endpoint)
    requires GenerateKey(a, b) == GenerateKey(c, d)
    ensures a == c && b == d
  {
    hide HexString, Print;
    var tail := (e: Endpoint) => HexString(e.addr) + KEY_SEPARATOR + Print(e.port, 10);
    KeySplits(a, b);
    KeySplits(c, d);
    HexHasNoSeparator(a.addr);
    HexHasNoSeparator(c.addr);
    SplitOnce(HexString(a.addr), Print(a.port, 10) + KEY_SEPARATOR + tail(b),
              HexString(c.addr), Print(c.port, 10) + KEY_SEPARATOR + tail(d));
    DecimalHasNoSeparator(a.port);
    DecimalHasNoSeparator(c.port);
    SplitOnce(Print(a.port, 10), tail(b), Print(c.port, 10), tail(d));
    HexHasNoSeparator(b.addr);
    HexHasNoSeparator(d.addr);
    SplitOnce(HexString(b.addr), Print(b.port, 10), HexString(d.addr), Print(d.port, 10));
    HexStringInjective(a.addr, c.addr);
    HexStringInjective(b.addr, d.addr);
    PrintInjective(a.port, c.port, 10);
    PrintInjective(b.port, d.port, 10);
  }

  lemma KeySplits(a: Endpoint, b: Endpoint)
    ensures GenerateKey(a, b)
         == HexString(a.addr) + KEY_SEPARATOR
            + (Print(a.port, 10) + KEY_SEPARATOR + (HexString(b.addr) + KEY_SEPARATOR + Print(b.port, 10)))
  {
    hide HexString, Print;
  }

  // ---------------------------------------------------------------- the key is free of direction

  /** The end points in the order in which the key has them. */
  function Sorted(p: Packet): (Endpoint, Endpoint)
    requires WellFormed(p)
  {
    var comp := MemCmp(p.src.addr, p.dest.addr);
    if comp < 0 || (comp == 0 && p.src.port < p.dest.port) then (p.src, p.dest) else (p.dest, p.src)
  }

  lemma {:induction false} MemCmpTurns(a: bytes, b: bytes)
    requires |a| == |b|
    ensures MemCmp(a, b) == -MemCmp(b, a)
  {
    if a != [] && a[0] == b[0] {
      MemCmpTurns(a[1..], b[1..]);
    }
  }

  predicate SameEndpoints(p: Packet, q: Packet) {
    (p.src == q.src && p.dest == q.dest) || (p.src == q.dest && p.dest == q.src)
  }

  lemma SortedTurns(p: Packet, q: Packet)
    requires WellFormed(p) && WellFormed(q) && p.src == q.dest && p.dest == q.src
    ensures Sorted(p) == Sorted(q)
  {
    MemCmpTurns(p.src.addr, p.dest.addr);
    MemCmpIsEquality(p.src.addr, p.dest.addr);
  }

  /** Two packets have the same key if and only if they are between the same two end points, in either
      direction. */
  lemma KeyExactly(p: Packet, q: Packet)
    requires WellFormed(p) && WellFormed(q)
    ensures KeyOf(p) == KeyOf(q) <==> SameEndpoints(p, q)
  {
    hide GenerateKey, MemCmp;
    var (a, b) := Sorted(p);
    var (c, d) := Sorted(q);
    assert KeyOf(p) == GenerateKey(a, b) && KeyOf(q) == GenerateKey(c, d);
    if SameEndpoints(p, q) {
      if p.src == q.dest && p.dest == q.src {
        SortedTurns(p, q);
      }
    } else if KeyOf(p) == KeyOf(q) {
      GenerateKeyInjective(a, b, c, d);
    }
  }

  // ---------------------------------------------------------------- the text of the key

  /** Two digits of the literal alphabet for each byte, the high half first. */
  lemma {:induction false} HexStringExactly(data: bytes, i: nat)
    requires i < |data|
    ensures HexString(data)[2 * i] == "0123456789abcdef"[data[i] as int / 16]
    ensures HexString(data)[2 * i + 1] == "0123456789abcdef"[data[i] as int % 16]
    decreases |data|
  {
    if i < |data| - 1 {
      HexStringExactly(data[..|data| - 1], i);
    }
  }

  /** Two end points as text, each with its address in hexadecimal and its port in decimal. */
  function KeyText(a: Endpoint, b: Endpoint): bytes {
    HexString(a.addr) + ":" + Print(a.port, 10) + ":" + HexString(b.addr) + ":" + Print(b.port, 10)
  }

  /** The end point with the lower address comes first, whichever it is in the packet. */
  lemma LowerAddressFirst(p: Packet, i: nat)
    requires WellFormed(p) && i < |p.src.addr| && p.src.addr[..i] == p.dest.addr[..i]
    requires p.src.addr[i] != p.dest.addr[i]
    ensures KeyOf(p) == if p.src.addr[i] < p.dest.addr[i] then KeyText(p.src, p.dest) else KeyText(p.dest, p.src)
  {
    hide HexString, Print, MemCmp;
    MemCmpDecides(p.src.addr, p.dest.addr, i);
    MemCmpIsEquality(p.src.addr, p.dest.addr);
    assert p.src.addr != p.dest.addr;
  }

  /** With equal addresses it is the one with the lower port. */
  lemma LowerPortFirst(p: Packet)
    requires WellFormed(p) && p.src.addr == p.dest.addr
    ensures KeyOf(p) == if p.src.port <= p.dest.port then KeyText(p.src, p.dest) else KeyText(p.dest, p.src)
  {
    hide HexString, Print, MemCmp;
    MemCmpIsEquality(p.src.addr, p.dest.addr);
  }
}
