/**
 * Address formatting and small string helpers of the common utility
 * library: ip_str / ip6_str (dotted quad, IPv4-mapped IPv6 addresses,
 * IPv6 groups with their leading zeros dropped as in section 4.1 of
 * RFC 5952 but without "::" compression), split_newline_symbol,
 * is_digit_str and the bounded append __snprintf.
 *
 * C buffers are arrays of char holding a NUL-terminated text; an
 * address is a sequence of bytes in network order.
 */
module Util {
  import opened CStr

  type Byte = b: int | 0 <= b < 256

  /** AF_INET6 as Linux numbers it. */
  const AF_INET6: nat := 10
  /** Length of the "%04x:...:%04x" text of an IPv6 address. */
  const IP6_FORMATTED_LEN: nat := 39

  // ---------------------------------------------------------------------
  // NUL-terminated texts and snprintf
  // ---------------------------------------------------------------------

  /** strlen: the index of the first NUL. */
  function CLen(s: seq<char>): (n: nat)
    requires '\0' in s
    ensures n < |s| && s[n] == '\0' && '\0' !in s[..n]
  {
    if s[0] == '\0' then 0 else
      assert '\0' in s[1..];
      var n := 1 + CLen(s[1..]);
      assert s[..n] == [s[0]] + s[1..][..n - 1];
      n
  }

  /** The text a NUL-terminated buffer holds. */
  function CText(s: seq<char>): string
    requires '\0' in s
  {
    s[..CLen(s)]
  }

  lemma CTextOf(s: seq<char>, t: string)
    requires |t| < |s| && s[..|t|] == t && s[|t|] == '\0' && '\0' !in t
    ensures '\0' in s && CText(s) == t
  {
    var n := CLen(s);
    assert forall i :: 0 <= i < |t| ==> s[i] == t[i] && s[i] != '\0';
    assert forall i :: 0 <= i < n ==> s[..n][i] == s[i] && s[i] != '\0';
  }

  /**
   * snprintf(buf + pos, size, ...) producing text: at most size - 1
   * characters of the text are written, followed by a NUL; nothing is
   * written when size is 0. The rest of the array is untouched.
   */
  method WriteTruncated(buf: array<char>, pos: nat, size: nat, text: string)
    requires pos + size <= buf.Length
    modifies buf
    ensures size > 0 ==> var n := Min(|text|, size - 1);
      buf[pos..pos + n] == text[..n] && buf[pos + n] == '\0'
    ensures size > 0 ==> forall i :: 0 <= i < buf.Length && !(pos <= i <= pos + Min(|text|, size - 1)) ==>
      buf[i] == old(buf[i])
    ensures size == 0 ==> buf[..] == old(buf[..])
  {
    if size == 0 {
      return;
    }
    var n := Min(|text|, size - 1);
    forall i | pos <= i < pos + n {
      buf[i] := text[i - pos];
    }
    buf[pos + n] := '\0';
    assert buf[pos..pos + n] == text[..n];
  }

  function Min(a: int, b: int): int
  {
    if a < b then a else b
  }

  /**
   * __snprintf: appends the formatted text at the cursor pos of a window
   * of bufLen characters. It fails (-1, cursor and remaining length
   * unchanged) when the window is empty or the text does not fit with
   * its NUL; otherwise the cursor moves past the text and the remaining
   * length becomes bufLen - len, so the end of the window stays put.
   * Whenever the window is not empty the text is written into it, cut to
   * bufLen - 1 characters and ended by a NUL, even when the call fails;
   * nothing outside that is touched.
   */
  method Snprintf(buf: array<char>, pos: nat, bufLen: int, remainLen: int, text: string)
    returns (ret: int, newPos: nat, newRemain: int)
    requires bufLen > 0 ==> pos + bufLen <= buf.Length
    modifies buf
    ensures ret == 0 || ret == -1
    ensures ret == 0 <==> 0 < bufLen && |text| < bufLen
    ensures ret == -1 ==> newPos == pos && newRemain == remainLen
    ensures ret == 0 ==> (newPos == pos + |text| && newRemain == bufLen - |text|
      && newPos + newRemain == pos + bufLen && newRemain > 0
      && buf[pos..newPos] == text && buf[newPos] == '\0')
    ensures bufLen <= 0 ==> buf[..] == old(buf[..])
    ensures bufLen > 0 ==> var n := Min(|text|, bufLen - 1);
      buf[pos..pos + n] == text[..n] && buf[pos + n] == '\0'
      && forall i :: 0 <= i < buf.Length && !(pos <= i <= pos + n) ==> buf[i] == old(buf[i])
  {
    if bufLen <= 0 {
      return -1, pos, remainLen;
    }
    WriteTruncated(buf, pos, bufLen, text);
    var len := |text|;
    if len >= bufLen {
      return -1, pos, remainLen;
    }
    return 0, pos + len, bufLen - len;
  }

  // ---------------------------------------------------------------------
  // split_newline_symbol and is_digit_str
  // ---------------------------------------------------------------------

  /** A text without its one trailing newline, if it has one. */
  function StripNewline(t: string): (r: string)
    ensures |r| <= |t| && r == t[..|r|]
    ensures |r| < |t| <==> |t| > 0 && t[|t| - 1] == '\n'
    ensures |r| >= |t| - 1
  {
    if |t| > 0 && t[|t| - 1] == '\n' then t[..|t| - 1] else t
  }

  /** Appending a newline and stripping it are inverse. */
  lemma StripNewlineAppended(t: string)
    ensures StripNewline(t + "\n") == t
  {
    assert (t + "\n")[..|t|] == t;
  }

  /**
   * split_newline_symbol: overwrites a trailing '\n' of the text with NUL,
   * in place; any other buffer is left alone.
   */
  method SplitNewline(s: array<char>)
    requires '\0' in s[..]
    modifies s
    ensures '\0' in s[..] && CText(s[..]) == StripNewline(old(CText(s[..])))
    ensures var len := old(CLen(s[..]));
      s[..] == if len > 0 && old(s[len - 1]) == '\n' then old(s[..])[len - 1 := '\0'] else old(s[..])
  {
    var len := CLen(s[..]);
    ghost var t := CText(s[..]);
    if len > 0 && s[len - 1] == '\n' {
      s[len - 1] := '\0';
      assert s[..len - 1] == t[..len - 1];
      CTextOf(s[..], t[..len - 1]);
    }
  }

  predicate AllDigits(s: string)
  {
    forall i :: 0 <= i < |s| ==> IsDigit(s[i])
  }

  /** is_digit_str: true iff every character is a decimal digit (so the empty text is). */
  method IsDigitStr(s: string) returns (b: bool)
    ensures b <==> AllDigits(s)
  {
    var i := 0;
    while i < |s|
      invariant 0 <= i <= |s|
      invariant AllDigits(s[..i])
    {
      if !IsDigit(s[i]) {
        return false;
      }
      assert s[..i + 1] == s[..i] + [s[i]];
      i := i + 1;
    }
    assert s[..i] == s;
    return true;
  }

  // ---------------------------------------------------------------------
  // Splitting a text at a separator (to read addresses back)
  // ---------------------------------------------------------------------

  /** The fields of s between occurrences of sep. */
  function SplitAt(s: string, sep: char): (parts: seq<string>)
    ensures |parts| >= 1
  {
    if |s| == 0 then [""]
    else
      var rest := SplitAt(s[1..], sep);
      if s[0] == sep then [""] + rest else [[s[0]] + rest[0]] + rest[1..]
  }

  lemma {:induction false} SplitAtField(x: string, sep: char)
    requires sep !in x
    ensures SplitAt(x, sep) == [x]
  {
    if |x| > 0 {
      SplitAtField(x[1..], sep);
      assert [x[0]] + x[1..] == x;
    }
  }

  lemma {:induction false} SplitAtSep(x: string, sep: char, y: string)
    requires sep !in x
    ensures SplitAt(x + [sep] + y, sep) == [x] + SplitAt(y, sep)
  {
    var s := x + [sep] + y;
    if |x| == 0 {
      assert s[1..] == y;
    } else {
      assert s[1..] == x[1..] + [sep] + y;
      SplitAtSep(x[1..], sep, y);
      assert [x[0]] + x[1..] == x;
    }
  }

  // ---------------------------------------------------------------------
  // IPv4 text
  // ---------------------------------------------------------------------

  /** "%u.%u.%u.%u" of four bytes. */
  function DottedQuad(a: Byte, b: Byte, c: Byte, d: Byte): string
  {
    DecimalOf(a) + "." + (DecimalOf(b) + "." + (DecimalOf(c) + "." + DecimalOf(d)))
  }

  lemma DecimalOfByte(n: Byte)
    ensures 1 <= |DecimalOf(n)| <= 3
    ensures '.' !in DecimalOf(n) && ':' !in DecimalOf(n) && '\0' !in DecimalOf(n)
  {
    if n >= 10 {
      assert |DecimalOf(n / 10)| <= 2;
    }
  }

  /** A dotted quad is at most 15 characters and reads back as its four bytes. */
  lemma DottedQuadReadsBack(a: Byte, b: Byte, c: Byte, d: Byte)
    ensures 7 <= |DottedQuad(a, b, c, d)| <= 15 && '\0' !in DottedQuad(a, b, c, d)
    ensures var p := SplitAt(DottedQuad(a, b, c, d), '.');
      p == [DecimalOf(a), DecimalOf(b), DecimalOf(c), DecimalOf(d)]
      && DecimalValue(p[0]) == a && DecimalValue(p[1]) == b
      && DecimalValue(p[2]) == c && DecimalValue(p[3]) == d
  {
    DecimalOfByte(a); DecimalOfByte(b); DecimalOfByte(c); DecimalOfByte(d);
    DecimalOfValue(a); DecimalOfValue(b); DecimalOfValue(c); DecimalOfValue(d);
    var da, db, dc, dd := DecimalOf(a), DecimalOf(b), DecimalOf(c), DecimalOf(d);
    SplitAtField(dd, '.');
    SplitAtSep(dc, '.', dd);
    SplitAtSep(db, '.', dc + "." + dd);
    SplitAtSep(da, '.', db + "." + (dc + "." + dd));
  }

  // ---------------------------------------------------------------------
  // IPv6 text
  // ---------------------------------------------------------------------

  /** The i-th 16-bit group of an address, network byte order (ntohs). */
  function Group(ip6: seq<Byte>, k: nat): (v: nat)
    requires |ip6| == 16 && k < 8
    ensures v < 0x10000
  {
    (ip6[2 * k] as int) * 256 + ip6[2 * k + 1] as int
  }

  /** "%04x": four lower-case hex digits. */
  function Hex4(v: nat): (g: string)
    requires v < 0x10000
    ensures |g| == 4 && AllHex(g) && ':' !in g
  {
    [HexDigitOf(v / 16 / 16 / 16), HexDigitOf(v / 16 / 16 % 16), HexDigitOf(v / 16 % 16), HexDigitOf(v % 16)]
  }

  lemma Hex4Value(v: nat)
    requires v < 0x10000
    ensures HexFold(Hex4(v)) == v
  {
    var g := Hex4(v);
    var x := v / 16;
    var y := x / 16;
    var z := y / 16;
    assert g[..1][..0] == [];
    assert HexFold(g[..1]) == z;
    assert g[..2][..1] == g[..1];
    assert HexFold(g[..2]) == z * 16 + y % 16 == y;
    assert g[..3][..2] == g[..2];
    assert HexFold(g[..3]) == y * 16 + x % 16 == x;
    assert g[..4][..3] == g[..3] && g[..4] == g;
  }

  /** The eight groups as NIP6_FMT prints them. */
  function Groups(ip6: seq<Byte>): (gs: seq<string>)
    requires |ip6| == 16
    ensures |gs| == 8 && FourDigitGroups(gs)
  {
    seq(8, k requires 0 <= k < 8 => Hex4(Group(ip6, k)))
  }

  predicate FourDigitGroups(gs: seq<string>)
  {
    forall k :: 0 <= k < |gs| ==> |gs[k]| == 4 && AllHex(gs[k]) && ':' !in gs[k]
  }

  /** The fields joined with ':'. */
  function JoinColon(gs: seq<string>): string
    requires |gs| > 0
  {
    if |gs| == 1 then gs[0] else gs[0] + ":" + JoinColon(gs[1..])
  }

  lemma {:induction false} JoinColonSnoc(gs: seq<string>, g: string)
    requires |gs| > 0
    ensures JoinColon(gs + [g]) == JoinColon(gs) + ":" + g
  {
    if |gs| > 1 {
      assert (gs + [g])[1..] == gs[1..] + [g];
      JoinColonSnoc(gs[1..], g);
    }
  }

  /** Joining and splitting at ':' are inverse when no field holds a ':'. */
  lemma {:induction false} SplitJoinColon(gs: seq<string>)
    requires |gs| > 0 && forall k :: 0 <= k < |gs| ==> ':' !in gs[k]
    ensures SplitAt(JoinColon(gs), ':') == gs
  {
    if |gs| == 1 {
      SplitAtField(gs[0], ':');
    } else {
      SplitJoinColon(gs[1..]);
      SplitAtSep(gs[0], ':', JoinColon(gs[1..]));
      assert gs[0] + ":" + JoinColon(gs[1..]) == gs[0] + [':'] + JoinColon(gs[1..]);
    }
  }

  /** Where the characters of joined four-digit groups sit. */
  lemma {:induction false} JoinColonAt(gs: seq<string>, k: nat, r: nat)
    requires |gs| > 0 && FourDigitGroups(gs)
    requires k < |gs| && (r < 4 || (r == 4 && k + 1 < |gs|))
    ensures |JoinColon(gs)| == 5 * |gs| - 1
    ensures JoinColon(gs)[5 * k + r] == if r < 4 then gs[k][r] else ':'
  {
    if |gs| > 1 {
      if k == 0 {
        JoinColonAt(gs[1..], 0, 0);
      } else {
        JoinColonAt(gs[1..], k - 1, r);
      }
    }
  }

  lemma {:induction false} JoinColonShort(gs: seq<string>)
    requires |gs| > 0 && forall k :: 0 <= k < |gs| ==> |gs[k]| <= 4
    ensures |JoinColon(gs)| <= 5 * |gs| - 1
  {
    if |gs| > 1 {
      JoinColonShort(gs[1..]);
    }
  }

  /** The number of leading zeros the compress loop skips in a group. */
  function LeadingSkip(g: string): nat
    requires |g| == 4
  {
    if g[0] != '0' then 0 else if g[1] != '0' then 1 else if g[2] != '0' then 2 else 3
  }

  /**
   * A group without its leading zeros, keeping at least one digit:
   * the shortest suffix that drops only zeros and does not itself start
   * with a zero unless it is "0".
   */
  function StripZeros(g: string): (r: string)
    requires |g| == 4
    ensures 1 <= |r| <= 4
  {
    g[LeadingSkip(g)..]
  }

  lemma StripZerosShortest(g: string)
    requires |g| == 4
    ensures var r := StripZeros(g); (r == g[4 - |r|..]
      && (forall i :: 0 <= i < 4 - |r| ==> g[i] == '0')
      && (|r| > 1 ==> r[0] != '0'))
  {
  }

  lemma {:induction false} HexFoldDropZero(s: string)
    requires |s| > 0 && s[0] == '0' && AllHex(s)
    ensures HexFold(s[1..]) == HexFold(s)
  {
    if |s| > 1 {
      var init := s[..|s| - 1];
      HexFoldDropZero(init);
      assert init[1..] == s[1..][..|s[1..]| - 1];
    }
  }

  /** Dropping leading zeros does not change the value of a group. */
  lemma StripZerosValue(g: string)
    requires |g| == 4 && AllHex(g)
    ensures HexFold(StripZeros(g)) == HexFold(g)
  {
    var s := LeadingSkip(g);
    if s >= 1 {
      HexFoldDropZero(g);
      if s >= 2 {
        assert g[1..][1..] == g[2..];
        HexFoldDropZero(g[1..]);
        if s == 3 {
          assert g[2..][1..] == g[3..];
          HexFoldDropZero(g[2..]);
        }
      }
    }
  }

  function Stripped(gs: seq<string>): (st: seq<string>)
    requires forall k :: 0 <= k < |gs| ==> |gs[k]| == 4
    ensures |st| == |gs|
  {
    seq(|gs|, k requires 0 <= k < |gs| => StripZeros(gs[k]))
  }

  /** ip6_str's text for an address that is not IPv4-mapped. */
  function Ip6Groups(ip6: seq<Byte>): string
    requires |ip6| == 16
  {
    JoinColon(Stripped(Groups(ip6)))
  }

  /** ::ffff:a.b.c.d (section 2.5.5.2 of RFC 4291). */
  predicate IsV4Mapped(ip6: seq<Byte>)
    requires |ip6| == 16
  {
    (forall i :: 0 <= i < 10 ==> ip6[i] == 0) && ip6[10] == 0xff && ip6[11] == 0xff
  }

  /** The text ip6_str produces. */
  function Ip6Text(ip6: seq<Byte>): string
    requires |ip6| == 16
  {
    if IsV4Mapped(ip6) then DottedQuad(ip6[12], ip6[13], ip6[14], ip6[15]) else Ip6Groups(ip6)
  }

  /**
   * The compressed text of an address that is not IPv4-mapped is at most
   * as long as the formatted text, has eight ':'-separated fields, and
   * each field reads back, as hex, as the group it came from: no group is
   * lost or merged, since "::" is never produced.
   */
  lemma Ip6GroupsReadBack(ip6: seq<Byte>)
    requires |ip6| == 16
    ensures |Ip6Groups(ip6)| <= IP6_FORMATTED_LEN
    ensures var p := SplitAt(Ip6Groups(ip6), ':');
      |p| == 8 && forall k :: 0 <= k < 8 ==> AllHex(p[k]) && HexFold(p[k]) == Group(ip6, k)
  {
    var gs := Groups(ip6);
    var st := Stripped(gs);
    JoinColonShort(st);
    SplitJoinColon(st);
    forall k | 0 <= k < 8
      ensures HexFold(st[k]) == Group(ip6, k)
    {
      Hex4Value(Group(ip6, k));
      StripZerosValue(gs[k]);
    }
  }

  /** The formatted text: 39 characters, with ':' exactly at every fifth place. */
  predicate Formatted(str: string)
  {
    |str| == IP6_FORMATTED_LEN && forall p :: 0 <= p < |str| ==> (str[p] == ':' <==> p % 5 == 4)
  }

  lemma FormattedJoin(gs: seq<string>)
    requires |gs| == 8 && FourDigitGroups(gs)
    ensures Formatted(JoinColon(gs))
  {
    JoinColonAt(gs, 0, 0);
    var str := JoinColon(gs);
    forall p | 0 <= p < |str|
      ensures str[p] == ':' <==> p % 5 == 4
    {
      JoinColonAt(gs, p / 5, p % 5);
      if p % 5 < 4 {
        assert str[p] == gs[p / 5][p % 5];
        assert ':' !in gs[p / 5];
      }
    }
  }

  /**
   * Whether position p of the formatted text survives compression: a
   * character survives unless it is among the first three of its group
   * and every character of the group up to it is '0'.
   */
  predicate Keep(str: string, p: nat)
    requires p < |str|
  {
    var r := p % 5;
    if r == 0 then str[p] != '0'
    else if r == 1 then !(str[p - 1] == '0' && str[p] == '0')
    else if r == 2 then !(str[p - 2] == '0' && str[p - 1] == '0' && str[p] == '0')
    else true
  }

  /** The surviving characters among the first j of the text. */
  function KeptUpTo(str: string, j: nat): string
    requires j <= |str|
  {
    if j == 0 then "" else KeptUpTo(str, j - 1) + (if Keep(str, j - 1) then [str[j - 1]] else "")
  }

  /** The characters of one group that survive are the group without its leading zeros. */
  lemma KeptGroup(str: string, gs: seq<string>, m: nat)
    requires |str| == IP6_FORMATTED_LEN && m < |gs| && m < 8 && |gs[m]| == 4
    requires str[5 * m] == gs[m][0] && str[5 * m + 1] == gs[m][1]
    requires str[5 * m + 2] == gs[m][2] && str[5 * m + 3] == gs[m][3]
    ensures KeptUpTo(str, 5 * m + 4) == KeptUpTo(str, 5 * m) + StripZeros(gs[m])
  {
    var g := gs[m];
    var b := 5 * m;
    assert b % 5 == 0 && (b + 1) % 5 == 1 && (b + 2) % 5 == 2 && (b + 3) % 5 == 3;
    var k0 := KeptUpTo(str, b);
    var k1 := KeptUpTo(str, b + 1);
    var k2 := KeptUpTo(str, b + 2);
    var k3 := KeptUpTo(str, b + 3);
    assert k1 == k0 + (if Keep(str, b) then [g[0]] else "");
    assert k2 == k1 + (if Keep(str, b + 1) then [g[1]] else "");
    assert k3 == k2 + (if Keep(str, b + 2) then [g[2]] else "");
    assert KeptUpTo(str, b + 4) == k3 + [g[3]];
    var s := LeadingSkip(g);
    if s == 0 {
      assert k3 == k0 + [g[0], g[1], g[2]];
      assert g == [g[0], g[1], g[2], g[3]];
    } else if s == 1 {
      assert k3 == k0 + [g[1], g[2]];
      assert g[1..] == [g[1], g[2], g[3]];
    } else if s == 2 {
      assert k3 == k0 + [g[2]];
      assert g[2..] == [g[2], g[3]];
    } else {
      assert k3 == k0;
      assert g[3..] == [g[3]];
    }
  }

  /** Through group k, the surviving characters are the stripped groups 0..k joined. */
  lemma {:induction false} KeptGroups(gs: seq<string>, k: nat)
    requires |gs| == 8 && FourDigitGroups(gs) && k < 8
    ensures |JoinColon(gs)| == IP6_FORMATTED_LEN
    ensures KeptUpTo(JoinColon(gs), 5 * k + 4) == JoinColon(Stripped(gs)[..k + 1])
  {
    var str := JoinColon(gs);
    var st := Stripped(gs);
    KeptGroupOf(gs, k);
    if k == 0 {
      assert st[..1] == [st[0]];
    } else {
      KeptGroups(gs, k - 1);
      ColonOf(gs, k);
      KeptColon(str, st, k);
    }
  }

  /** The survivors of group k in the formatted text are its stripped form. */
  lemma KeptGroupOf(gs: seq<string>, k: nat)
    requires |gs| == 8 && FourDigitGroups(gs) && k < 8
    ensures |JoinColon(gs)| == IP6_FORMATTED_LEN
    ensures KeptUpTo(JoinColon(gs), 5 * k + 4) == KeptUpTo(JoinColon(gs), 5 * k) + Stripped(gs)[k]
  {
    JoinColonAt(gs, k, 0);
    JoinColonAt(gs, k, 1);
    JoinColonAt(gs, k, 2);
    JoinColonAt(gs, k, 3);
    KeptGroup(JoinColon(gs), gs, k);
  }

  /** Group k of the formatted text follows a ':'. */
  lemma ColonOf(gs: seq<string>, k: nat)
    requires |gs| == 8 && FourDigitGroups(gs) && 0 < k < 8
    ensures |JoinColon(gs)| == IP6_FORMATTED_LEN && JoinColon(gs)[5 * k - 1] == ':'
  {
    JoinColonAt(gs, k - 1, 4);
  }

  /** Group k's survivors follow a ':' that survives after groups 0..k-1. */
  lemma KeptColon(str: string, st: seq<string>, k: nat)
    requires 0 < k < |st| && 5 * k + 4 <= |str| && str[5 * k - 1] == ':'
    requires KeptUpTo(str, 5 * (k - 1) + 4) == JoinColon(st[..k])
    requires KeptUpTo(str, 5 * k + 4) == KeptUpTo(str, 5 * k) + st[k]
    ensures KeptUpTo(str, 5 * k + 4) == JoinColon(st[..k + 1])
  {
    assert (5 * k - 1) % 5 == 4;
    assert 5 * (k - 1) + 4 == 5 * k - 1;
    assert KeptUpTo(str, 5 * k) == KeptUpTo(str, 5 * k - 1) + ":";
    assert st[..k + 1] == st[..k] + [st[k]];
    JoinColonSnoc(st[..k], st[k]);
  }

  /** Compressing the formatted groups yields the stripped groups joined with ':'. */
  lemma KeptJoin(gs: seq<string>)
    requires |gs| == 8 && FourDigitGroups(gs)
    ensures KeptUpTo(JoinColon(gs), |JoinColon(gs)|) == JoinColon(Stripped(gs))
  {
    KeptGroups(gs, 7);
    assert Stripped(gs)[..8] == Stripped(gs);
  }

  /** Where a round of the compress loop that starts at j reads. */
  function NextRead(str: string, j: nat): (n: nat)
    requires |str| == IP6_FORMATTED_LEN && j < |str|
  {
    if j % 5 == 0 && str[j] == '0' then
      if str[j + 1] != '0' then j + 1 else if str[j + 2] != '0' then j + 2 else j + 3
    else j
  }

  /** A round skips only characters that do not survive and stops at one that does. */
  lemma RoundSkip(str: string, j: nat)
    requires |str| == IP6_FORMATTED_LEN && j < |str|
    requires j % 5 != 0 ==> Keep(str, j)
    ensures var n := NextRead(str, j);
      j <= n < |str| && Keep(str, n) && KeptUpTo(str, n) == KeptUpTo(str, j)
  {
    var n := NextRead(str, j);
    if j % 5 == 0 && str[j] == '0' {
      KeepStart(str, j);
      SkipOne(str, j);
      if str[j + 1] == '0' {
        SkipOne(str, j + 1);
        if str[j + 2] == '0' {
          SkipOne(str, j + 2);
        }
      }
    }
  }

  /** Which of a group's four digits survive. */
  lemma KeepStart(str: string, j: nat)
    requires j % 5 == 0 && j + 3 < |str|
    ensures Keep(str, j) == (str[j] != '0')
    ensures Keep(str, j + 1) == !(str[j] == '0' && str[j + 1] == '0')
    ensures Keep(str, j + 2) == !(str[j] == '0' && str[j + 1] == '0' && str[j + 2] == '0')
    ensures Keep(str, j + 3)
  {
    Mod5Next(j);
    Mod5Next(j + 1);
    Mod5Next(j + 2);
  }

  lemma SkipOne(str: string, j: nat)
    requires j < |str| && !Keep(str, j)
    ensures KeptUpTo(str, j + 1) == KeptUpTo(str, j)
  {
  }

  /** Inside a group, the character after a survivor survives too. */
  lemma KeepNext(str: string, n: nat)
    requires n + 1 < |str| && Keep(str, n) && (n + 1) % 5 != 0
    ensures Keep(str, n + 1)
  {
    Mod5Next(n);
  }

  /**
   * A round copies the first survivor at or after j; after it, ':' was
   * copied last exactly when the next read is at a group start, and a
   * read inside a group is of a survivor.
   */
  lemma RoundFacts(str: string, j: nat)
    requires Formatted(str) && j < |str|
    requires j % 5 != 0 ==> Keep(str, j)
    ensures var n := NextRead(str, j);
      j <= n < |str| && Keep(str, n) && KeptUpTo(str, n) == KeptUpTo(str, j)
      && KeptUpTo(str, n + 1) == KeptUpTo(str, j) + [str[n]]
      && (str[n] == ':' <==> (n + 1) % 5 == 0)
      && ((n + 1) % 5 != 0 && n + 1 < |str| ==> Keep(str, n + 1))
  {
    var n := NextRead(str, j);
    RoundSkip(str, j);
    Mod5Next(n);
    assert str[n] == ':' <==> n % 5 == 4;
    assert KeptUpTo(str, n + 1) == KeptUpTo(str, n) + [str[n]];
    if (n + 1) % 5 != 0 && n + 1 < |str| {
      KeepNext(str, n);
    }
  }

  lemma Mod5Next(j: nat)
    ensures (j + 1) % 5 == 0 <==> j % 5 == 4
    ensures j % 5 < 4 ==> (j + 1) % 5 == j % 5 + 1
  {
  }

  /**
   * Step 2 of ip6_str: copies the formatted text into ipStr, skipping up
   * to three leading zeros of every group, then terminates it with NUL.
   */
  method Compress(str: string, ipStr: array<char>)
    requires Formatted(str) && ipStr.Length > IP6_FORMATTED_LEN
    modifies ipStr
    ensures var t := KeptUpTo(str, |str|); |t| < ipStr.Length && ipStr[..|t|] == t && ipStr[|t|] == '\0'
  {
    var i, j := 0, 0;
    while j < |str|
      invariant i <= j <= |str|
      invariant i == 0 <==> j == 0
      invariant i > 0 ==> (ipStr[i - 1] == ':' <==> j % 5 == 0)
      invariant j % 5 != 0 && j < |str| ==> Keep(str, j)
      invariant ipStr[..i] == KeptUpTo(str, j)
    {
      ghost var before := ipStr[..i];
      ghost var n := NextRead(str, j);
      RoundFacts(str, j);
      assert i > 0 ==> ipStr[i - 1] == before[|before| - 1];
      if str[j] == '0' && (j == 0 || ipStr[i - 1] == ':') {
        if str[j + 1] != '0' {
          j := j + 1;
        } else if str[j + 2] != '0' {
          j := j + 2;
        } else {
          j := j + 3;
        }
      }
      assert j == n;
      ipStr[i] := str[j];
      assert ipStr[..i + 1] == before + [str[j]];
      i, j := i + 1, j + 1;
    }
    ghost var done := ipStr[..i];
    ipStr[i] := '\0';
    assert ipStr[..i] == done;
  }

  /**
   * ip6_str: the dotted quad of the last four bytes for an IPv4-mapped
   * address, otherwise the eight groups with leading zeros dropped.
   * The buffer must hold the 39-character formatted text and its NUL.
   */
  method Ip6Str(ip6: seq<Byte>, ipStr: array<char>)
    requires |ip6| == 16 && ipStr.Length > IP6_FORMATTED_LEN
    modifies ipStr
    ensures '\0' in ipStr[..] && CText(ipStr[..]) == Ip6Text(ip6)
  {
    if IsV4Mapped(ip6) {
      var t := DottedQuad(ip6[12], ip6[13], ip6[14], ip6[15]);
      DottedQuadReadsBack(ip6[12], ip6[13], ip6[14], ip6[15]);
      WriteTruncated(ipStr, 0, ipStr.Length, t);
      assert t[..|t|] == t;
      CTextOf(ipStr[..], t);
      return;
    }
    var str := JoinColon(Groups(ip6));
    FormattedJoin(Groups(ip6));
    KeptJoin(Groups(ip6));
    Compress(str, ipStr);
    var t := Ip6Groups(ip6);
    Ip6GroupsNoNul(ip6);
    CTextOf(ipStr[..], t);
  }

  lemma Ip6GroupsNoNul(ip6: seq<Byte>)
    requires |ip6| == 16
    ensures '\0' !in Ip6Groups(ip6)
  {
    var st := Stripped(Groups(ip6));
    assert forall k :: 0 <= k < 8 ==> '\0' !in st[k];
    JoinColonNoNul(st);
  }

  lemma {:induction false} JoinColonNoNul(gs: seq<string>)
    requires |gs| > 0 && forall k :: 0 <= k < |gs| ==> '\0' !in gs[k]
    ensures '\0' !in JoinColon(gs)
  {
    if |gs| > 1 {
      JoinColonNoNul(gs[1..]);
    }
  }

  /** The text ip_str produces for an address of the given family. */
  function IpText(family: nat, ip: seq<Byte>): string
    requires family == AF_INET6 ==> |ip| == 16
    requires family != AF_INET6 ==> |ip| >= 4
  {
    if family == AF_INET6 then Ip6Text(ip) else DottedQuad(ip[0], ip[1], ip[2], ip[3])
  }

  /** The first n characters of t, or all of t when it is shorter. */
  function Clip(t: string, n: nat): (r: string)
    ensures |r| == Min(|t|, n) && r == t[..|r|]
  {
    if |t| <= n then t else t[..n]
  }

  /**
   * ip_str: AF_INET6 goes through ip6_str, any other family is printed as
   * the dotted quad of the first four bytes, truncated to the buffer as
   * snprintf does; either way the buffer ends up NUL-terminated.
   */
  method IpStr(family: nat, ip: seq<Byte>, ipStr: array<char>)
    requires family == AF_INET6 ==> |ip| == 16 && ipStr.Length > IP6_FORMATTED_LEN
    requires family != AF_INET6 ==> |ip| >= 4
    requires ipStr.Length > 0
    modifies ipStr
    ensures '\0' in ipStr[..] && CText(ipStr[..]) == Clip(IpText(family, ip), ipStr.Length - 1)
    ensures family == AF_INET6 ==> CText(ipStr[..]) == IpText(family, ip)
  {
    ipStr[0] := '\0';
    if family == AF_INET6 {
      Ip6Str(ip, ipStr);
      if IsV4Mapped(ip) {
        DottedQuadReadsBack(ip[12], ip[13], ip[14], ip[15]);
      } else {
        Ip6GroupsReadBack(ip);
      }
      return;
    }
    var t := DottedQuad(ip[0], ip[1], ip[2], ip[3]);
    DottedQuadReadsBack(ip[0], ip[1], ip[2], ip[3]);
    WriteTruncated(ipStr, 0, ipStr.Length, t);
    var c := Clip(t, ipStr.Length - 1);
    assert ipStr[..|c|] == c;
    CTextOf(ipStr[..], c);
  }
}
