/** `Properties`: a block of `key: value` lines. */
module Properties {
  import opened Bytes

  const COLON: bytes := ":"

  type PropertyMap = map<bytes, bytes>

  /** `put(line)`: a line without delimiter is ignored. */
  function PutLine(props: PropertyMap, line: bytes): PropertyMap {
    var index := Find(line, COLON, 0);
    if index < 0 then props
    else props[Trim(line[..index]) := Trim(line[index + 1..])]
  }

  function PropertyLine(key: bytes, value: bytes): bytes {
    key + ": " + value
  }

  /** `write`, for the order in which the map happens to be iterated. */
  function Write(order: seq<bytes>, props: PropertyMap): bytes
    requires forall k :: k in order ==> k in props
  {
    if order == [] then []
    else
      assert forall k :: k in order[1..] ==> k in order;
      assert order[0] in order;
      PropertyLine(order[0], props[order[0]]) + [LF] + Write(order[1..], props)
  }

  /** Reading a block of lines back. */
  function Read(s: bytes, props: PropertyMap): PropertyMap
    decreases |s|
  {
    match GetLine(s, LF)
    case None => props
    case Some((line, rest)) => Read(rest, PutLine(props, line))
  }

  class PropertyStore {
    var data: PropertyMap

    constructor ()
      ensures data == map[]
    {
      data := map[];
    }

    method Clear()
      modifies this
      ensures data == map[]
    {
      data := map[];
    }

    method Put(key: bytes, value: bytes)
      modifies this
      ensures data == old(data)[key := value]
    {
      data := data[key := value];
    }

    /** `put(line)`. */
    method PutText(line: bytes) returns (found: bool)
      modifies this
      ensures found == (':' in line)
      ensures data == PutLine(old(data), line)
    {
      var index := Find(line, COLON, 0);
      ColonFound(line);
      if index < 0 {
        return false;
      }
      data := data[Trim(line[..index]) := Trim(line[index + 1..])];
      return true;
    }

    /** `write`: the loop over the map. */
    method WriteTo(order: seq<bytes>) returns (out: bytes)
      requires forall k :: k in order ==> k in data
      ensures out == Write(order, data)
    {
      out := [];
      var i := 0;
      while i < |order|
        invariant 0 <= i <= |order|
        invariant out + Write(order[i..], data) == Write(order, data)
      {
        assert order[i..][1..] == order[i + 1..];
        var line := PropertyLine(order[i], data[order[i]]) + [LF];
        assert out + (line + Write(order[i + 1..], data)) == out + line + Write(order[i + 1..], data);
        out := out + line;
        i := i + 1;
      }
      assert out + [] == out;
    }
  }

  // ---------------------------------------------------------------- one line

  lemma ColonFound(line: bytes)
    ensures Find(line, COLON, 0) >= 0 <==> ':' in line
    ensures Find(line, COLON, 0) >= 0 ==> line[Find(line, COLON, 0)] == ':' && ':' !in line[..Find(line, COLON, 0)]
    ensures forall i :: 0 <= i < Find(line, COLON, 0) ==> line[i] != ':'
  {
    var index := Find(line, COLON, 0);
    forall i | 0 <= i < (if index < 0 then |line| else index)
      ensures line[i] != ':'
    {
      assert !OccursAt(line, COLON, i);
      assert line[i..i + 1] == [line[i]];
    }
    if index >= 0 {
      assert line[index..index + 1] == [line[index]];
    }
  }

  lemma {:induction false} TrimLeftKeepsTrimmed(s: bytes)
    ensures TrimLeft(s) == [] || !IsSpace(TrimLeft(s)[0])
    ensures TrimLeft(s) == s <==> s == [] || !IsSpace(s[0])
  {
    if s != [] && IsSpace(s[0]) {
      TrimLeftKeepsTrimmed(s[1..]);
    }
  }

  lemma {:induction false} TrimRightKeepsTrimmed(s: bytes)
    ensures |TrimRight(s)| <= |s| && TrimRight(s) == s[..|TrimRight(s)|]
    ensures TrimRight(s) == [] || !IsSpace(TrimRight(s)[|TrimRight(s)| - 1])
    ensures TrimRight(s) == s <==> s == [] || !IsSpace(s[|s| - 1])
  {
    if s != [] && IsSpace(s[|s| - 1]) {
      TrimRightKeepsTrimmed(s[..|s| - 1]);
    }
  }

  /** `trim` leaves a text as it is exactly when it is trimmed, and never makes it longer. */
  lemma TrimExactly(s: bytes)
    ensures Trim(s) == s <==> Trimmed(s)
    ensures |Trim(s)| <= |s|
  {
    TrimLeftKeepsTrimmed(s);
    TrimRightKeepsTrimmed(TrimLeft(s));
  }

  lemma TrimAfterSpace(s: bytes)
    ensures Trim(" " + s) == Trim(s)
  {
    assert (" " + s)[1..] == s;
  }

  /** A property is read back from its line exactly when the key has no colon and neither the key nor
      the value has white space at an end. */
  lemma LineSurvivesExactly(key: bytes, value: bytes, props: PropertyMap)
    requires key !in props
    ensures PutLine(props, PropertyLine(key, value)) == props[key := value]
        <==> ':' !in key && Trimmed(key) && Trimmed(value)
  {
    hide PutLine, Find, Trim, Trimmed;
    TrimExactly(key);
    TrimExactly(value);
    if ':' in key {
      ColonInKey(key, value, props);
    } else {
      LineOfPlainKey(key, value, props);
      if Trim(key) == key {
        assert props[key := Trim(value)][key] == Trim(value);
        assert props[key := value][key] == value;
      } else {
        assert key !in props[Trim(key) := Trim(value)];
      }
    }
  }

  lemma ColonInKey(key: bytes, value: bytes, props: PropertyMap)
    requires key !in props && ':' in key
    ensures key !in PutLine(props, PropertyLine(key, value))
  {
    hide Find, Trim, Trimmed;
    var line := PropertyLine(key, value);
    var index := Find(line, COLON, 0);
    ColonFound(line);
    var i :| 0 <= i < |key| && key[i] == ':';
    assert line[i] == ':';
    TrimExactly(line[..index]);
  }

  lemma LineOfPlainKey(key: bytes, value: bytes, props: PropertyMap)
    requires ':' !in key
    ensures PutLine(props, PropertyLine(key, value)) == props[Trim(key) := Trim(value)]
  {
    hide Find, Trim;
    var line := PropertyLine(key, value);
    var index := Find(line, COLON, 0);
    ColonFound(line);
    assert line[|key|] == ':';
    assert index == |key|;
    assert line[..index] == key && line[index + 1..] == " " + value;
    TrimAfterSpace(value);
  }

  /** Any line with a colon: the text before the first one and the text after it, each without the white
      space around it. */
  lemma LineRead(a: bytes, key: bytes, b: bytes, c: bytes, value: bytes, d: bytes, props: PropertyMap)
    requires AllSpace(a) && AllSpace(b) && AllSpace(c) && AllSpace(d) && Trimmed(key) && Trimmed(value) && ':' !in key
    ensures PutLine(props, (a + key + b) + [':'] + (c + value + d)) == props[key := value]
  {
    hide Find, Trim, Trimmed;
    var left, right := a + key + b, c + value + d;
    var line := left + [':'] + right;
    var index := Find(line, COLON, 0);
    ColonFound(line);
    assert ':' !in left;
    assert line[|left|] == ':';
    assert index == |left|;
    assert line[..index] == left && line[index + 1..] == right;
    TrimPadded(a, key, b);
    TrimPadded(c, value, d);
  }

  /** A line without one is ignored. */
  lemma LineWithoutColon(line: bytes, props: PropertyMap)
    requires ':' !in line
    ensures PutLine(props, line) == props
  {
    hide Find, Trim;
    ColonFound(line);
  }

  // ---------------------------------------------------------------- a block

  predicate Distinct(order: seq<bytes>) {
    forall i, j :: 0 <= i < j < |order| ==> order[i] != order[j]
  }

  predicate Writable(key: bytes, value: bytes) {
    ':' !in key && LF !in key && LF !in value && Trimmed(key) && Trimmed(value)
  }

  function Restrict(props: PropertyMap, keys: seq<bytes>): PropertyMap
    requires forall k :: k in keys ==> k in props
  {
    map k | k in keys :: props[k]
  }

  lemma RestrictSplits(props: PropertyMap, order: seq<bytes>, before: PropertyMap)
    requires order != [] && forall k :: k in order ==> k in props
    ensures forall k :: k in order[1..] ==> k in props
    ensures order[0] !in order[1..] ==>
              before[order[0] := props[order[0]]] + Restrict(props, order[1..]) == before + Restrict(props, order)
  {
    assert order == [order[0]] + order[1..];
  }

  lemma {:induction false} ReadInvertsWrite(order: seq<bytes>, props: PropertyMap, before: PropertyMap)
    requires Distinct(order)
    requires forall k :: k in order ==> k in props && k !in before && Writable(k, props[k])
    ensures Read(Write(order, props), before) == before + Restrict(props, order)
    decreases |order|
  {
    if order != [] {
      var key, rest := order[0], order[1..];
      assert key in order && key !in rest && forall k :: k in rest ==> k in order;
      ReadFirstLine(key, props[key], Write(rest, props), before);
      ReadInvertsWrite(rest, props, before[key := props[key]]);
      RestrictSplits(props, order, before);
    }
  }

  lemma ReadFirstLine(key: bytes, value: bytes, rest: bytes, before: PropertyMap)
    requires Writable(key, value) && key !in before
    ensures Read(PropertyLine(key, value) + [LF] + rest, before) == Read(rest, before[key := value])
  {
    hide PutLine;
    var line := PropertyLine(key, value);
    assert LF !in line;
    GetLineAtDelim(line, LF, rest);
    LineSurvivesExactly(key, value, before);
  }

  /** Whatever the order of iteration, reading back what was written gives the same properties. */
  lemma EveryOrderReadsBack(order: seq<bytes>, props: PropertyMap)
    requires Distinct(order) && (forall k :: k in order <==> k in props)
    requires forall k :: k in props ==> Writable(k, props[k])
    ensures Read(Write(order, props), map[]) == props
  {
    ReadInvertsWrite(order, props, map[]);
    assert map[] + Restrict(props, order) == props;
  }
}
