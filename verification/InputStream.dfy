/** The part of `std::istream` that the script reader uses. */
module InputStream {
  import opened Bytes

  /** The text before the first delimiter, at most `limit` characters of it. */
  function Block(s: bytes, limit: nat, delim: byte): (r: bytes)
    ensures |r| <= limit && r <= s && delim !in r
    ensures |r| < limit && |r| < |s| ==> s[|r|] == delim
  {
    if limit == 0 || s == [] || s[0] == delim then []
    else
      var r := Block(s[1..], limit - 1, delim);
      assert s == [s[0]] + s[1..];
      [s[0]] + r
  }

  class InStream {
    var rest: bytes    // what has not been read yet
    var eof: bool      // eofbit

    constructor (content: bytes)
      ensures rest == content && !eof
    {
      rest, eof := content, false;
    }

    /** `peek`. */
    method Peek() returns (c: Option<byte>)
      modifies this`eof
      ensures c == if rest == [] then None else Some(rest[0])
      ensures eof == (old(eof) || rest == [])
    {
      if rest == [] {
        eof := true;
        return None;
      }
      return Some(rest[0]);
    }

    /** `get()`. */
    method Get() returns (c: Option<byte>)
      modifies this
      ensures c == if old(rest) == [] then None else Some(old(rest)[0])
      ensures rest == if old(rest) == [] then [] else old(rest)[1..]
      ensures eof == (old(eof) || old(rest) == [])
    {
      c := Peek();
      if c.Some? {
        rest := rest[1..];
      }
    }

    /** `get(buf + at, limit + 1, delim)`, without the NUL that it adds. Reaching the end of the stream sets
        eofbit, even with the last of `limit` characters. */
    method GetInto(buf: array<byte>, at: nat, limit: nat, delim: byte) returns (count: nat)
      requires at + limit <= buf.Length && 0 < limit
      modifies this, buf
      ensures count == |Block(old(rest), limit, delim)|
      ensures buf[..at + count] == old(buf[..at]) + Block(old(rest), limit, delim)
      ensures rest == old(rest)[count..]
      ensures eof == (old(eof) || count == |old(rest)|)
    {
      var block := Block(rest, limit, delim);
      count := |block|;
      forall i | 0 <= i < count {
        buf[at + i] := block[i];
      }
      eof := eof || count == |rest|;
      rest := rest[count..];
    }

    /** `std::getline(input, line)`; nothing when it fails. */
    method GetLine() returns (line: Option<bytes>)
      modifies this
      ensures old(eof) || old(rest) == [] ==> line == None && rest == old(rest) && eof
      ensures !old(eof) && old(rest) != [] ==>
                line == Some(Bytes.GetLine(old(rest), LF).value.0)
                && rest == Bytes.GetLine(old(rest), LF).value.1
                && eof == (LF !in old(rest))
    {
      if eof || rest == [] {
        eof := true;
        return None;
      }
      var (token, left) := Bytes.GetLine(rest, LF).value;
      eof := LF !in rest;
      rest := left;
      return Some(token);
    }
  }
}
