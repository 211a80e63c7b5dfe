/**
 * Cursor primitives over a captured chunk: each extractor either reads the
 * next bytes of RawData, hands them out and moves the cursor past them, or
 * reports NeedsMoreData / NotFound and leaves the cursor where it was.
 */
module BinaryDecoder {
  import opened Wrappers
  import opened CStr
  import opened DataStream

  /** The (uint8_t) cast of a C char. */
  function ByteOf(c: char): (b: nat)
    ensures b < 256
  {
    (c as int) % 256
  }

  function Pow256(n: nat): (p: nat)
    ensures p >= 1
  {
    if n == 0 then 1 else 256 * Pow256(n - 1)
  }

  /** Unsigned value of bytes read most significant first: the fold res := (res << 8) | byte. */
  function BigEndian(s: seq<char>): (v: nat)
    ensures v < Pow256(|s|)
  {
    if |s| == 0 then 0 else BigEndian(s[..|s| - 1]) * 256 + ByteOf(s[|s| - 1])
  }

  /** The n-byte big-endian encoding of v: the reference the fold is checked against. */
  function Encode(v: nat, n: nat): (r: seq<char>)
    requires v < Pow256(n)
    ensures |r| == n
    ensures forall i :: 0 <= i < n ==> r[i] as int < 256
  {
    if n == 0 then [] else Encode(v / 256, n - 1) + [(v % 256) as char]
  }

  /** Decoding the big-endian encoding of v gives v back. */
  lemma {:induction false} DecodeEncode(v: nat, n: nat)
    requires v < Pow256(n)
    ensures BigEndian(Encode(v, n)) == v
  {
    if n > 0 {
      var e := Encode(v, n);
      assert e[..n - 1] == Encode(v / 256, n - 1);
      DecodeEncode(v / 256, n - 1);
    }
  }

  /** Encoding the value of n bytes (each below 256) gives the same bytes back. */
  lemma {:induction false} EncodeDecode(s: seq<char>)
    requires forall i :: 0 <= i < |s| ==> s[i] as int < 256
    ensures Encode(BigEndian(s), |s|) == s
  {
    if |s| > 0 {
      var init := s[..|s| - 1];
      EncodeDecode(init);
      var v := BigEndian(s);
      assert v / 256 == BigEndian(init);
      assert (v % 256) as char == s[|s| - 1];
      assert s == init + [s[|s| - 1]];
    }
  }

  /** The six integer types the decoder is instantiated for. */
  datatype IntType = Int8 | Int16 | Int32 | UInt8 | UInt16 | UInt32
  {
    /** sizeof(T) */
    function Size(): nat
    {
      match this
      case Int8 => 1
      case UInt8 => 1
      case Int16 => 2
      case UInt16 => 2
      case Int32 => 4
      case UInt32 => 4
    }

    predicate Signed()
    {
      this == Int8 || this == Int16 || this == Int32
    }

    /** Smallest value of the type. */
    function Min(): int
    {
      if Signed() then -(Pow256(Size()) / 2) else 0
    }

    /** One past the largest value of the type. */
    function Bound(): int
    {
      if Signed() then Pow256(Size()) / 2 else Pow256(Size())
    }
  }

  /** Two's complement reading of an n-byte unsigned value, as the conversion to a signed type does. */
  function ToSigned(u: nat, n: nat): (x: int)
    requires u < Pow256(n)
    ensures -(Pow256(n) / 2) <= x < Pow256(n) / 2 || (n == 0 && x == 0)
  {
    if n > 0 && u >= Pow256(n) / 2 then Pow256Even(n); u - Pow256(n) else u
  }

  /** The n-byte two's complement pattern of a signed value. */
  function FromSigned(x: int, n: nat): (u: nat)
    requires n > 0 && -(Pow256(n) / 2) <= x < Pow256(n) / 2
    ensures u < Pow256(n)
  {
    if x < 0 then x + Pow256(n) else x
  }

  lemma Pow256Even(n: nat)
    requires n > 0
    ensures Pow256(n) % 2 == 0 && Pow256(n) == 2 * (Pow256(n) / 2)
  {
    assert Pow256(n) == 2 * (128 * Pow256(n - 1));
  }

  lemma SignedRoundTrip(x: int, n: nat)
    requires n > 0 && -(Pow256(n) / 2) <= x < Pow256(n) / 2
    ensures ToSigned(FromSigned(x, n), n) == x
  {
    Pow256Even(n);
  }

  /** The value of type t held in the first sizeof(t) bytes of buf. */
  function ValueOf(buf: seq<char>, t: IntType): int
    requires |buf| >= t.Size()
  {
    var u := BigEndian(buf[..t.Size()]);
    if t.Signed() then ToSigned(u, t.Size()) else u
  }

  /** big_endian_bytes_to_T: the accumulating loop, with the signed conversion applied to its final value. */
  method BigEndianBytesToInt(buf: seq<char>, t: IntType) returns (res: int)
    requires |buf| >= t.Size()
    ensures res == ValueOf(buf, t)
    ensures t.Min() <= res < t.Bound()
  {
    var acc: nat := 0;
    var i := 0;
    while i < t.Size()
      invariant 0 <= i <= t.Size()
      invariant acc == BigEndian(buf[..i])
    {
      assert buf[..i + 1][..i] == buf[..i];
      acc := acc * 256 + ByteOf(buf[i]);
      i := i + 1;
    }
    assert buf[..i] == buf[..t.Size()];
    res := if t.Signed() then ToSigned(acc, t.Size()) else acc;
  }

  /** Reading back a value encoded in type t's width gives the value. */
  lemma ValueOfEncoding(x: int, t: IntType)
    requires t.Min() <= x < t.Bound()
    ensures ValueOf(if t.Signed() then Encode(FromSigned(x, t.Size()), t.Size()) else Encode(x, t.Size()), t) == x
  {
    var n := t.Size();
    if t.Signed() {
      var e := Encode(FromSigned(x, n), n);
      assert e[..n] == e;
      DecodeEncode(FromSigned(x, n), n);
      SignedRoundTrip(x, n);
    } else {
      var e := Encode(x, n);
      assert e[..n] == e;
      DecodeEncode(x, n);
    }
  }

  /** decoder_extract_char */
  method ExtractChar(raw: RawData, res0: char) returns (st: ParseState, res: char)
    requires raw.Valid()
    modifies raw
    ensures raw.Valid() && raw.flags == old(raw.flags)
    ensures st == Success || st == NeedsMoreData
    ensures st == NeedsMoreData <==> old(raw.Unconsumed()) < 1
    ensures st == Success ==> res == old(raw.Rest())[0] && raw.currentPos == old(raw.currentPos) + 1
    ensures st != Success ==> res == res0 && raw.currentPos == old(raw.currentPos)
  {
    if raw.Unconsumed() < 1 {
      return NeedsMoreData, res0;
    }
    res := raw.data[raw.currentPos];
    raw.Advance(1);
    st := Success;
  }

  /** decoder_extract_T for the six integer types. */
  method ExtractInt(raw: RawData, t: IntType, res0: int) returns (st: ParseState, res: int)
    requires raw.Valid()
    modifies raw
    ensures raw.Valid() && raw.flags == old(raw.flags)
    ensures st == Success || st == NeedsMoreData
    ensures st == NeedsMoreData <==> old(raw.Unconsumed()) < t.Size()
    ensures st == Success ==> res == ValueOf(old(raw.Rest()), t)
                              && raw.currentPos == old(raw.currentPos) + t.Size()
    ensures st != Success ==> res == res0 && raw.currentPos == old(raw.currentPos)
  {
    if raw.Unconsumed() < t.Size() {
      return NeedsMoreData, res0;
    }
    res := BigEndianBytesToInt(raw.Rest(), t);
    raw.Advance(t.Size());
    st := Success;
  }

  /**
   * extract_prefix_bytes_string: copies decodeLen bytes at the cursor and
   * moves it by offset. allocOk is the outcome of the malloc for the copy;
   * when it fails nothing changes and false is returned.
   */
  method ExtractPrefixBytesString(raw: RawData, decodeLen: nat, offset: nat, allocOk: bool, res0: string)
    returns (ok: bool, res: string)
    requires raw.Valid() && decodeLen <= raw.Unconsumed() && offset <= raw.Unconsumed()
    modifies raw
    ensures raw.Valid() && raw.flags == old(raw.flags)
    ensures ok == allocOk
    ensures ok ==> res == old(raw.Rest())[..decodeLen] && raw.currentPos == old(raw.currentPos) + offset
    ensures !ok ==> res == res0 && raw.currentPos == old(raw.currentPos)
  {
    if !allocOk {
      return false, res0;
    }
    res := raw.data[raw.currentPos..raw.currentPos + decodeLen];
    raw.Advance(offset);
    ok := true;
  }

  /** decoder_extract_string; allocOk is the outcome of the malloc for the copy. */
  method ExtractString(raw: RawData, decodeLen: nat, allocOk: bool, res0: string) returns (st: ParseState, res: string)
    requires raw.Valid()
    modifies raw
    ensures raw.Valid() && raw.flags == old(raw.flags)
    ensures st == Success || st == NeedsMoreData || st == Invalid
    ensures st == NeedsMoreData <==> old(raw.Unconsumed()) < decodeLen
    ensures st == Invalid <==> old(raw.Unconsumed()) >= decodeLen && !allocOk
    ensures st == Success ==> |res| == decodeLen && res == old(raw.Rest())[..decodeLen]
                              && raw.currentPos == old(raw.currentPos) + decodeLen
    ensures st != Success ==> res == res0 && raw.currentPos == old(raw.currentPos)
  {
    if raw.Unconsumed() < decodeLen {
      return NeedsMoreData, res0;
    }
    var ok;
    ok, res := ExtractPrefixBytesString(raw, decodeLen, decodeLen, allocOk, res0);
    st := if ok then Success else Invalid;
  }

  /**
   * decoder_extract_str_until_char: the bytes before the first searchChar,
   * which is consumed too; allocOk is the outcome of the malloc for the copy.
   */
  method ExtractStrUntilChar(raw: RawData, searchChar: char, allocOk: bool, res0: string) returns (st: ParseState, res: string)
    requires raw.Valid()
    modifies raw
    ensures raw.Valid() && raw.flags == old(raw.flags)
    ensures st == Success || st == NotFound || st == Invalid
    ensures st == NotFound <==> searchChar !in old(raw.Rest())
    ensures st == Invalid <==> searchChar in old(raw.Rest()) && !allocOk
    ensures st == Success ==> searchChar !in res && |res| < |old(raw.Rest())|
                              && res + [searchChar] == old(raw.Rest())[..|res| + 1]
                              && raw.currentPos == old(raw.currentPos) + |res| + 1
    ensures st != Success ==> res == res0 && raw.currentPos == old(raw.currentPos)
  {
    var found: Option<nat> := None;
    var i := raw.currentPos;
    while i < |raw.data|
      invariant raw.currentPos <= i <= |raw.data|
      invariant searchChar !in raw.data[raw.currentPos..i]
      decreases |raw.data| - i
    {
      if raw.data[i] == searchChar {
        found := Some(i);
        break;
      }
      assert raw.data[raw.currentPos..i + 1] == raw.data[raw.currentPos..i] + [raw.data[i]];
      i := i + 1;
    }
    if found.None? {
      assert raw.data[raw.currentPos..i] == raw.Rest();
      return NotFound, res0;
    }
    var decodeLen := found.value - raw.currentPos;
    ghost var rest, p, f := raw.Rest(), raw.currentPos, found.value;
    assert f == i < |raw.data| && raw.data[f] == searchChar;
    assert rest[..decodeLen + 1] == raw.data[p..f + 1];
    assert raw.data[p..f + 1] == raw.data[p..f] + [raw.data[f]];
    assert searchChar in rest by {
      assert rest[decodeLen] == searchChar;
    }
    var ok;
    ok, res := ExtractPrefixBytesString(raw, decodeLen, decodeLen + 1, allocOk, res0);
    st := if ok then Success else Invalid;
  }

  /**
   * decoder_extract_str_until_str: the bytes before the first occurrence of
   * searchStr among the unconsumed ones; allocOk is the outcome of the
   * malloc for the copy.
   */
  method ExtractStrUntilStr(raw: RawData, searchStr: string, allocOk: bool, res0: string) returns (st: ParseState, res: string)
    requires raw.Valid()
    modifies raw
    ensures raw.Valid() && raw.flags == old(raw.flags)
    ensures st == Success || st == NotFound || st == Invalid
    ensures st == NotFound <==> forall j :: !OccursAt(old(raw.Rest()), searchStr, j)
    ensures st == Invalid <==> (exists j :: OccursAt(old(raw.Rest()), searchStr, j)) && !allocOk
    ensures st == Success ==> OccursAt(old(raw.Rest()), searchStr, |res|)
                              && res == old(raw.Rest())[..|res|]
                              && (forall j :: 0 <= j < |res| ==> !OccursAt(old(raw.Rest()), searchStr, j))
                              && raw.currentPos == old(raw.currentPos) + |res| + |searchStr|
    ensures st != Success ==> res == res0 && raw.currentPos == old(raw.currentPos)
  {
    var found := FindFrom(raw.Rest(), searchStr, 0);
    if found.None? {
      return NotFound, res0;
    }
    var strPos := found.value;
    var ok;
    ok, res := ExtractPrefixBytesString(raw, strPos, strPos + |searchStr|, allocOk, res0);
    st := if ok then Success else Invalid;
  }

  /** decoder_extract_prefix_ignore */
  method ExtractPrefixIgnore(raw: RawData, prefixLen: nat) returns (st: ParseState)
    requires raw.Valid()
    modifies raw
    ensures raw.Valid() && raw.flags == old(raw.flags)
    ensures st == Success || st == NeedsMoreData
    ensures st == NeedsMoreData <==> old(raw.Unconsumed()) < prefixLen
    ensures st == Success ==> raw.currentPos == old(raw.currentPos) + prefixLen
    ensures st != Success ==> raw.currentPos == old(raw.currentPos)
  {
    if raw.Unconsumed() < prefixLen {
      return NeedsMoreData;
    }
    raw.Advance(prefixLen);
    st := Success;
  }
}
