/**
 * The per-process metric collector's parsing core: the container-id and
 * /proc directory checks, the ':'-separated stat fields, the io and
 * smaps_rollup line scanners, the escaping copy of a command line, and
 * the table of watched processes keyed by (pid, start time).  What the
 * collector reads from /proc arrives as input values.
 */
module SystemProcs {
  import opened Wrappers
  import opened CStr
  import Snooper

  /** A byte of a /proc file. */
  type Byte = b: int | 0 <= b < 256

  // ---------------------------------------------------------------------
  // Container ids and /proc entries
  // ---------------------------------------------------------------------

  /** A character the container-id scan accepts: a decimal digit or a hex letter of either case. */
  predicate IdChar(c: char)
  {
    ('0' <= c <= '9') || ('A' <= c <= 'F') || ('a' <= c <= 'f')
  }

  /** The scan of __is_valid_container_id from position i on. */
  predicate IdCharsFrom(s: string, i: nat)
    requires i <= |s|
    decreases |s| - i
  {
    i == |s| || (IdChar(s[i]) && IdCharsFrom(s, i + 1))
  }

  /** __is_valid_container_id: a 64-character string whose characters all pass the scan. */
  predicate IsValidContainerId(s: string)
  {
    |s| == 64 && IdCharsFrom(s, 0)
  }

  lemma {:induction false} IdCharsFromAll(s: string, i: nat)
    requires i <= |s|
    ensures IdCharsFrom(s, i) <==> forall j :: i <= j < |s| ==> IsHexDigit(s[j])
    decreases |s| - i
  {
    if i < |s| {
      IdCharsFromAll(s, i + 1);
    }
  }

  /** The container ids accepted are exactly the 64-digit hex strings, in either case. */
  lemma ValidContainerIdIsHex(s: string)
    ensures IsValidContainerId(s) <==> |s| == 64 && AllHex(s)
  {
    IdCharsFromAll(s, 0);
  }

  /** Any 64 hex digits written out are an accepted container id. */
  lemma HexDigitsAreContainerId(ds: seq<nat>)
    requires |ds| == 64 && forall i :: 0 <= i < |ds| ==> ds[i] < 16
    ensures IsValidContainerId(seq(64, i requires 0 <= i < 64 => HexDigitOf(ds[i])))
  {
    ValidContainerIdIsHex(seq(64, i requires 0 <= i < 64 => HexDigitOf(ds[i])));
  }

  /** is_proc_subdir: 0 for a name that starts with a digit 1-9, -1 otherwise. */
  function IsProcSubdir(name: string): (r: int)
    ensures r == 0 || r == -1
  {
    if |name| > 0 && '1' <= name[0] <= '9' then 0 else -1
  }

  /**
   * Every positive pid's directory is accepted and (u32)atoi reads the pid
   * back from it; an accepted name of at most nine characters (every pid
   * below 10^9) is stored as a positive pid.
   */
  lemma ProcSubdirOfPid(pid: nat, name: string)
    ensures pid > 0 ==> IsProcSubdir(DecimalOf(pid)) == 0
    ensures 0 < pid < INT_LIMIT ==> U32(CAtoi(DecimalOf(pid))) == pid
    ensures IsProcSubdir(name) == 0 && |name| <= 9 ==> U32(CAtoi(name)) >= 1
    ensures IsProcSubdir("self") == -1 && IsProcSubdir("") == -1
  {
    if pid > 0 {
      DecimalOfLead(pid);
      AtoiDecimal(pid);
    }
    if IsProcSubdir(name) == 0 && |name| <= 9 {
      ShortNumberInRange(name);
    }
  }

  // ---------------------------------------------------------------------
  // strtok and sscanf
  // ---------------------------------------------------------------------

  /** The length of the leading run of s without sep. */
  function RunLen(s: string, sep: char): (n: nat)
    ensures n <= |s| && (n < |s| ==> s[n] == sep)
    ensures forall i :: 0 <= i < n ==> s[i] != sep
  {
    if |s| == 0 || s[0] == sep then 0
    else
      var n := RunLen(s[1..], sep);
      assert forall i :: 1 <= i < n + 1 ==> s[i] == s[1..][i - 1];
      1 + n
  }

  /** Repeated strtok(s, sep): the maximal non-empty runs of s without sep, in order. */
  function Tokens(s: string, sep: char): seq<string>
    decreases |s|
  {
    if |s| == 0 then []
    else if s[0] == sep then Tokens(s[1..], sep)
    else
      var n := RunLen(s, sep);
      [s[..n]] + Tokens(s[n..], sep)
  }

  function Concat(ts: seq<string>): string
  {
    if |ts| == 0 then "" else ts[0] + Concat(ts[1..])
  }

  /** s with every sep removed. */
  function Without(s: string, sep: char): string
  {
    if |s| == 0 then "" else (if s[0] == sep then "" else [s[0]]) + Without(s[1..], sep)
  }

  lemma {:induction false} WithoutAppend(a: string, b: string, sep: char)
    ensures Without(a + b, sep) == Without(a, sep) + Without(b, sep)
  {
    if |a| > 0 {
      assert (a + b)[1..] == a[1..] + b;
      WithoutAppend(a[1..], b, sep);
    } else {
      assert a + b == b;
    }
  }

  lemma {:induction false} WithoutNone(a: string, sep: char)
    requires forall i :: 0 <= i < |a| ==> a[i] != sep
    ensures Without(a, sep) == a
  {
    if |a| > 0 {
      WithoutNone(a[1..], sep);
    }
  }

  /** Every token is non-empty and holds no separator. */
  predicate CleanTokens(ts: seq<string>, sep: char)
  {
    forall k :: 0 <= k < |ts| ==> |ts[k]| > 0 && sep !in ts[k]
  }

  lemma CleanCons(t: string, rest: seq<string>, sep: char)
    requires |t| > 0 && sep !in t && CleanTokens(rest, sep)
    ensures CleanTokens([t] + rest, sep)
  {
    var ts := [t] + rest;
    forall k | 0 <= k < |ts| ensures |ts[k]| > 0 && sep !in ts[k] {
      if k > 0 {
        assert ts[k] == rest[k - 1];
      }
    }
  }

  lemma ConcatCons(t: string, rest: seq<string>)
    ensures Concat([t] + rest) == t + Concat(rest)
  {
    assert ([t] + rest)[1..] == rest;
  }

  /**
   * The tokens are non-empty, hold no separator, and together are exactly
   * the characters of s that are not separators, in order.
   */
  lemma {:induction false} TokensExact(s: string, sep: char)
    ensures Concat(Tokens(s, sep)) == Without(s, sep)
    ensures CleanTokens(Tokens(s, sep), sep)
    decreases |s|
  {
    if |s| > 0 {
      if s[0] == sep {
        TokensExact(s[1..], sep);
        assert Without(s, sep) == Without(s[1..], sep);
      } else {
        var n := RunLen(s, sep);
        TokensExact(s[n..], sep);
        TokensCons(s, sep, n);
      }
    }
  }

  /** The step of TokensExact past a leading token s[..n]. */
  lemma TokensCons(s: string, sep: char, n: nat)
    requires |s| > 0 && s[0] != sep && n == RunLen(s, sep)
    requires Concat(Tokens(s[n..], sep)) == Without(s[n..], sep)
    requires CleanTokens(Tokens(s[n..], sep), sep)
    ensures Concat(Tokens(s, sep)) == Without(s, sep)
    ensures CleanTokens(Tokens(s, sep), sep)
  {
    var t := s[..n];
    var rest := Tokens(s[n..], sep);
    assert Tokens(s, sep) == [t] + rest;
    assert s == t + s[n..];
    WithoutAppend(t, s[n..], sep);
    WithoutNone(t, sep);
    ConcatCons(t, rest);
    CleanCons(t, rest, sep);
  }

  /** The length of the leading run of non-space characters (what %s takes). */
  function WordLen(s: string): (n: nat)
    ensures n <= |s| && (n < |s| ==> IsSpace(s[n]))
  {
    if |s| == 0 || IsSpace(s[0]) then 0 else 1 + WordLen(s[1..])
  }

  /**
   * sscanf's %lu/%llu conversion: white space, an optional sign, decimal
   * digits; None when there are no digits.  An out-of-range value
   * saturates and a minus sign negates modulo 2^64, as strtoull does.
   */
  function ScanUnsigned(s: string): (r: Option<nat>)
    ensures r.Some? ==> r.value < U64_MOD
  {
    var t := SkipSpaces(s);
    var neg := |t| > 0 && t[0] == '-';
    var u := if |t| > 0 && (t[0] == '-' || t[0] == '+') then t[1..] else t;
    var d := DigitRun(u);
    DigitRunAllDigits(u);
    if d == 0 then None
    else
      var v := DecimalValue(u[..d]);
      Some(if v >= U64_MOD then U64_MOD - 1 else if neg then (U64_MOD - v) % U64_MOD else v)
  }

  /** One line as sscanf(line, "%s %lu", ...) converts it: the first word, then the number after it. */
  datatype Scanned = Scanned(word: Option<string>, value: Option<nat>)

  function ScanLine(line: string): (r: Scanned)
    ensures r.word.None? ==> r.value.None?
  {
    var t := SkipSpaces(line);
    var n := WordLen(t);
    if n == 0 then Scanned(None, None) else Scanned(Some(t[..n]), ScanUnsigned(t[n..]))
  }

  /** The word scanned is a non-empty run of non-space characters. */
  lemma ScanLineWord(line: string)
    ensures ScanLine(line).word.Some? ==> IsWord(ScanLine(line).word.value)
  {
    WordLenNoSpace(SkipSpaces(line));
  }

  lemma {:induction false} WordLenNoSpace(s: string)
    ensures forall i :: 0 <= i < WordLen(s) ==> !IsSpace(s[i])
  {
    if |s| > 0 && !IsSpace(s[0]) {
      WordLenNoSpace(s[1..]);
      assert forall i :: 1 <= i < WordLen(s) ==> s[i] == s[1..][i - 1];
    }
  }

  lemma {:induction false} WordLenAppend(a: string, b: string)
    requires forall i :: 0 <= i < |a| ==> !IsSpace(a[i])
    requires |b| == 0 || IsSpace(b[0])
    ensures WordLen(a + b) == |a|
  {
    if |a| > 0 {
      assert (a + b)[1..] == a[1..] + b;
      WordLenAppend(a[1..], b);
    } else {
      assert a + b == b;
    }
  }

  lemma {:induction false} DigitRunAppend(a: string, b: string)
    requires forall i :: 0 <= i < |a| ==> IsDigit(a[i])
    requires |b| == 0 || !IsDigit(b[0])
    ensures DigitRun(a + b) == |a|
  {
    if |a| > 0 {
      assert (a + b)[1..] == a[1..] + b;
      DigitRunAppend(a[1..], b);
    } else {
      assert a + b == b;
    }
  }

  /** The number printed after a space converts back to itself. */
  lemma ScanUnsignedReadsBack(v: nat, rest: string)
    requires v < U64_MOD && (|rest| == 0 || !IsDigit(rest[0]))
    ensures ScanUnsigned(" " + DecimalOf(v) + rest) == Some(v)
  {
    var digits := DecimalOf(v);
    var after := " " + digits + rest;
    assert after[1..] == digits + rest;
    assert SkipSpaces(after) == digits + rest by {
      assert IsDigit((digits + rest)[0]);
    }
    DigitRunAppend(digits, rest);
    assert (digits + rest)[..|digits|] == digits;
    DecimalOfValue(v);
  }

  /** A line "key value rest", as /proc/<pid>/io and smaps_rollup print them, scans back to its key and value. */
  lemma ScanLineReadsBack(key: string, v: nat, rest: string)
    requires |key| > 0 && forall i :: 0 <= i < |key| ==> !IsSpace(key[i])
    requires v < U64_MOD && (|rest| == 0 || IsSpace(rest[0]))
    ensures ScanLine(key + " " + DecimalOf(v) + rest) == Scanned(Some(key), Some(v))
  {
    var tail := " " + DecimalOf(v) + rest;
    var line := key + tail;
    assert key + " " + DecimalOf(v) + rest == line;
    assert SkipSpaces(line) == line;
    WordLenAppend(key, tail);
    assert line[..|key|] == key && line[|key|..] == tail;
    ScanUnsignedReadsBack(v, rest);
  }

  // ---------------------------------------------------------------------
  // The fields of one process
  // ---------------------------------------------------------------------

  /** The stat fields in PROC_STAT_CMD's order: min_flt, maj_flt, utime, stime, vsize, rss. */
  const PROC_STAT_MAX: nat := 6
  /** The io fields in /proc/<pid>/io's order: rchar, wchar, syscr, syscw, read_bytes, write_bytes, cancelled_write_bytes. */
  const PROC_IO_MAX: nat := 7
  /** The smaps_rollup fields the collector keeps, in the order it expects them. */
  const PROC_MSS_MAX: nat := 8
  const MSS_KEYS: seq<string> := ["Shared_Clean:", "Shared_Dirty:", "Private_Clean:", "Private_Dirty:",
    "Referenced:", "LazyFree:", "Swap:", "SwapPss:"]

  /** The fields after the values in vals replace the leading ones. */
  function Overlay(fields: seq<nat>, vals: seq<nat>): (r: seq<nat>)
    requires |vals| <= |fields|
    ensures |r| == |fields|
  {
    vals + fields[|vals|..]
  }

  /** Each field of an overlay is the new value where there is one and the old field elsewhere. */
  lemma OverlayAt(fields: seq<nat>, vals: seq<nat>, i: nat)
    requires |vals| <= |fields| && i < |fields|
    ensures Overlay(fields, vals)[i] == if i < |vals| then vals[i] else fields[i]
  {
  }

  /** Setting the field after the overlaid ones extends the overlay. */
  lemma OverlayStep(fields: seq<nat>, vals: seq<nat>, v: nat)
    requires |vals| < |fields|
    ensures Overlay(fields, vals)[|vals| := v] == Overlay(fields, vals + [v])
  {
  }

  /** The values read so far, followed by what the remaining lines give, are all the io values. */
  ghost predicate IoScanned(done: seq<nat>, rest: seq<string>, room: nat, whole: seq<nat>)
  {
    done + IoValues(rest, room) == whole
  }

  /** One more converted io line extends the values read so far. */
  lemma IoAdvance(rest: seq<string>, room: nat, done: seq<nat>, v: nat, whole: seq<nat>)
    requires 0 < |rest| && 0 < room
    requires IoScanned(done, rest, room, whole)
    requires ScanLine(rest[0]).value == Some(v)
    ensures IoScanned(done + [v], rest[1..], room - 1, whole)
  {
    var more := IoValues(rest[1..], room - 1);
    IoValuesCons(rest, room, v);
    assert (done + [v]) + more == done + ([v] + more);
  }

  /** The io scan ends at the end of the lines, after seven values, or at a line without a number. */
  lemma IoStop(rest: seq<string>, room: nat, done: seq<nat>, whole: seq<nat>)
    requires IoScanned(done, rest, room, whole)
    requires |rest| == 0 || room == 0 || ScanLine(rest[0]).value.None?
    ensures done == whole
  {
    assert done + [] == done;
  }

  /** One more smaps line moves the scan on, storing a value when it carries the expected key. */
  /** The mss values read so far, followed by what the remaining lines give, are all of them. */
  ghost predicate MssScanned(keys: seq<string>, done: seq<nat>, rest: seq<string>, k: nat, whole: seq<nat>)
  {
    k <= |keys| && done + MssValues(keys, rest, k) == whole
  }

  lemma MssAdvance(keys: seq<string>, rest: seq<string>, k: nat, done: seq<nat>, whole: seq<nat>)
    requires 0 < |rest| && MssScanned(keys, done, rest, k, whole)
    requires ScanLine(rest[0]).word.Some?
    ensures var sc := ScanLine(rest[0]);
      if k < |keys| && sc.word.value == keys[k] then MssScanned(keys, done + [U32(sc.value.GetOr(0))], rest[1..], k + 1, whole)
      else MssScanned(keys, done, rest[1..], k, whole)
  {
    var sc := ScanLine(rest[0]);
    if k < |keys| && sc.word.value == keys[k] {
      var x := U32(sc.value.GetOr(0));
      var more := MssValues(keys, rest[1..], k + 1);
      assert MssValues(keys, rest, k) == [x] + more;
      assert (done + [x]) + more == done + ([x] + more);
    }
  }

  /** The smaps scan ends at the end of the lines or at a blank line. */
  lemma MssStop(keys: seq<string>, rest: seq<string>, k: nat, done: seq<nat>, whole: seq<nat>)
    requires MssScanned(keys, done, rest, k, whole)
    requires |rest| == 0 || ScanLine(rest[0]).word.None?
    ensures done == whole
  {
    assert done + [] == done;
  }

  /** get_proc_stat's values: (u64)atoll of each token, for at most PROC_STAT_MAX tokens. */
  function StatValues(tokens: seq<string>): (vals: seq<nat>)
    ensures |vals| == if |tokens| < PROC_STAT_MAX then |tokens| else PROC_STAT_MAX
  {
    var n := if |tokens| < PROC_STAT_MAX then |tokens| else PROC_STAT_MAX;
    seq(n, i requires 0 <= i < n => U64(Strtol(tokens[i])))
  }

  /** get_proc_io's values: the numbers of the leading lines that convert, at most PROC_IO_MAX of them. */
  function IoValues(lines: seq<string>, room: nat): (vals: seq<nat>)
    ensures |vals| <= room && |vals| <= |lines|
  {
    if |lines| == 0 || room == 0 then []
    else match ScanLine(lines[0]).value
      case None => []
      case Some(v) => [v] + IoValues(lines[1..], room - 1)
  }

  /**
   * get_proc_mss's values: from the line after the header on, a line
   * whose key is the next expected key stores its number (0 when it has
   * none), truncated to u32, and moves on to the following key; a blank
   * line ends the scan.  Once every key has been found nothing more is
   * stored.
   */
  function MssValues(keys: seq<string>, lines: seq<string>, k: nat): (vals: seq<nat>)
    requires k <= |keys|
    ensures k + |vals| <= |keys|
  {
    if |lines| == 0 then []
    else
      var sc := ScanLine(lines[0]);
      if sc.word.None? then []
      else if k < |keys| && sc.word.value == keys[k] then [U32(sc.value.GetOr(0))] + MssValues(keys, lines[1..], k + 1)
      else MssValues(keys, lines[1..], k)
  }

  /**
   * The same scan as the source writes it: it compares with the expected
   * key without checking that one is left, so once all eight keys have
   * been found the next non-blank line reads past the key list.
   */
  predicate MssReadsPastKeys(keys: seq<string>, lines: seq<string>, k: nat)
  {
    if |lines| == 0 then false
    else
      var sc := ScanLine(lines[0]);
      if sc.word.None? then false
      else if k >= |keys| then true
      else if sc.word.value == keys[k] then MssReadsPastKeys(keys, lines[1..], k + 1)
      else MssReadsPastKeys(keys, lines[1..], k)
  }

  /** One "key value kB" line, as /proc prints io and smaps_rollup fields. */
  function PrintedLine(key: string, v: nat): string
  {
    key + " " + DecimalOf(v) + " kB"
  }

  /** A printed line scans back to its key and value. */
  lemma ScanPrinted(key: string, v: nat)
    requires IsWord(key) && v < U64_MOD
    ensures ScanLine(PrintedLine(key, v)) == Scanned(Some(key), Some(v))
  {
    ScanLineReadsBack(key, v, " kB");
  }

  /** The keys printed in order with their values, one line each. */
  function PrintedLines(keys: seq<string>, vals: seq<nat>): (lines: seq<string>)
    requires |keys| == |vals|
    ensures |lines| == |keys|
  {
    if |keys| == 0 then [] else [PrintedLine(keys[0], vals[0])] + PrintedLines(keys[1..], vals[1..])
  }

  lemma PrintedLinesCons(keys: seq<string>, vals: seq<nat>)
    requires |keys| == |vals| > 0
    ensures PrintedLines(keys, vals)[0] == PrintedLine(keys[0], vals[0])
    ensures PrintedLines(keys, vals)[1..] == PrintedLines(keys[1..], vals[1..])
  {
    assert PrintedLines(keys, vals) == [PrintedLine(keys[0], vals[0])] + PrintedLines(keys[1..], vals[1..]);
  }

  predicate IsWord(w: string)
  {
    |w| > 0 && forall i :: 0 <= i < |w| ==> !IsSpace(w[i])
  }

  /** io lines that each print a key and a value read back as those values, when there is room for all of them. */
  lemma {:induction false} IoValuesReadBack(keys: seq<string>, vals: seq<nat>, room: nat)
    requires |keys| == |vals| <= room
    requires forall i :: 0 <= i < |keys| ==> IsWord(keys[i]) && vals[i] < U64_MOD
    ensures IoValues(PrintedLines(keys, vals), room) == vals
  {
    if |keys| > 0 {
      var lines := PrintedLines(keys, vals);
      PrintedLinesCons(keys, vals);
      ScanPrinted(keys[0], vals[0]);
      IoValuesReadBack(keys[1..], vals[1..], room - 1);
      IoValuesCons(lines, room, vals[0]);
      assert vals == [vals[0]] + vals[1..];
    }
  }

  /** A line that converts contributes its value ahead of the rest. */
  lemma IoValuesCons(lines: seq<string>, room: nat, v: nat)
    requires 0 < |lines| && 0 < room
    requires ScanLine(lines[0]).value == Some(v)
    ensures IoValues(lines, room) == [v] + IoValues(lines[1..], room - 1)
  {
  }

  lemma MssKeysAreWords()
    ensures |MSS_KEYS| == PROC_MSS_MAX
    ensures forall i :: 0 <= i < PROC_MSS_MAX ==> IsWord(MSS_KEYS[i])
  {
  }

  /** Lines listing the keys from position k on read back as their values. */
  lemma {:induction false} MssValuesReadBack(keys: seq<string>, vals: seq<nat>, k: nat, extra: seq<string>)
    requires k + |vals| == |keys|
    requires forall i :: 0 <= i < |keys| ==> IsWord(keys[i])
    requires forall i :: 0 <= i < |vals| ==> vals[i] < U32_MOD
    requires forall i :: 0 <= i < |extra| ==> ScanLine(extra[i]).word.Some?
    ensures MssValues(keys, PrintedLines(keys[k..], vals) + extra, k) == vals
    ensures MssReadsPastKeys(keys, PrintedLines(keys[k..], vals) + extra, k) <==> |extra| > 0
    decreases |vals|
  {
    var lines := PrintedLines(keys[k..], vals) + extra;
    if |vals| > 0 {
      assert lines[0] == PrintedLine(keys[k], vals[0]);
      ScanPrinted(keys[k], vals[0]);
      assert keys[k..][1..] == keys[k + 1..];
      assert lines[1..] == PrintedLines(keys[k + 1..], vals[1..]) + extra;
      MssValuesReadBack(keys, vals[1..], k + 1, extra);
      assert MssValues(keys, lines, k) == [vals[0]] + vals[1..];
    } else {
      assert lines == extra;
      MssAfterKeys(keys, extra);
    }
  }

  /** Once every key has been found the remaining word lines store nothing, and the first of them reads past the keys. */
  lemma {:induction false} MssAfterKeys(keys: seq<string>, lines: seq<string>)
    requires forall i :: 0 <= i < |lines| ==> ScanLine(lines[i]).word.Some?
    ensures MssValues(keys, lines, |keys|) == []
    ensures MssReadsPastKeys(keys, lines, |keys|) <==> |lines| > 0
  {
    if |lines| > 0 {
      MssAfterKeys(keys, lines[1..]);
    }
  }

  /** All the keys in order, then one more printed line: every value is read, and the scan as written reads past the keys. */
  lemma KeysThenLine(keys: seq<string>, header: string, vals: seq<nat>, last: string, v: nat)
    requires |vals| == |keys| && forall i :: 0 <= i < |keys| ==> IsWord(keys[i])
    requires forall i :: 0 <= i < |vals| ==> vals[i] < U32_MOD
    requires IsWord(last) && v < U64_MOD
    ensures var lines := [header] + PrintedLines(keys, vals) + [PrintedLine(last, v)];
      MssValues(keys, lines[1..], 0) == vals && MssReadsPastKeys(keys, lines[1..], 0)
  {
    var extra := [PrintedLine(last, v)];
    var lines := [header] + PrintedLines(keys, vals) + extra;
    assert lines[1..] == PrintedLines(keys[0..], vals) + extra;
    ScanPrinted(last, v);
    MssValuesReadBack(keys, vals, 0, extra);
  }

  /**
   * The usual smaps_rollup layout: a header, then the eight keys the
   * collector expects, then "Locked:".  All eight values are read, and
   * the scan as written then compares the "Locked:" line against a key
   * past the end of its list.
   */
  lemma SmapsRollupReadsPast(header: string, vals: seq<nat>, locked: nat)
    requires |vals| == PROC_MSS_MAX && forall i :: 0 <= i < |vals| ==> vals[i] < U32_MOD
    requires locked < U64_MOD
    ensures var lines := [header] + PrintedLines(MSS_KEYS, vals) + [PrintedLine("Locked:", locked)];
      MssValues(MSS_KEYS, lines[1..], 0) == vals && MssReadsPastKeys(MSS_KEYS, lines[1..], 0)
  {
    MssKeysAreWords();
    assert IsWord("Locked:");
    KeysThenLine(MSS_KEYS, header, vals, "Locked:", locked);
  }

  /**
   * The per-process record the collector fills from /proc: the short
   * container id and the stat, io and smaps_rollup fields, each group
   * in the order of its PROC_*_MAX enumeration.
   */
  class ProcInfo {
    /** CONTAINER_ABBR_ID_LEN: how much of a container id is kept. */
    const abbrLen: nat
    var containerId: string
    var stat: seq<nat>
    var io: seq<nat>
    var mss: seq<nat>

    ghost predicate Valid()
      reads this
    {
      abbrLen <= 64 && |containerId| <= abbrLen
      && |stat| == PROC_STAT_MAX && |io| == PROC_IO_MAX && |mss| == PROC_MSS_MAX
    }

    /** A zero-filled record, as init_one_proc allocates it. */
    constructor (abbrLen: nat)
      requires abbrLen <= 64
      ensures Valid() && this.abbrLen == abbrLen && containerId == ""
      ensures stat == seq(PROC_STAT_MAX, _ => 0) && io == seq(PROC_IO_MAX, _ => 0) && mss == seq(PROC_MSS_MAX, _ => 0)
    {
      this.abbrLen := abbrLen;
      containerId := "";
      stat := seq(PROC_STAT_MAX, _ => 0);
      io := seq(PROC_IO_MAX, _ => 0);
      mss := seq(PROC_MSS_MAX, _ => 0);
    }

    /**
     * get_proc_container_id, given the last component of the cpuset path
     * (None when it cannot be read): a valid id is kept shortened to
     * abbrLen characters, anything else leaves the record as it was.
     */
    method GetProcContainerId(line: Option<string>) returns (ret: int)
      requires Valid()
      modifies this`containerId
      ensures Valid()
      ensures line.None? ==> ret == -1 && containerId == old(containerId)
      ensures line.Some? && IsValidContainerId(line.value) ==> ret == 0 && containerId == line.value[..abbrLen]
      ensures line.Some? && !IsValidContainerId(line.value) ==> ret == 0 && containerId == old(containerId)
    {
      if line.None? {
        return -1;
      }
      if !IsValidContainerId(line.value) {
        return 0;
      }
      containerId := line.value[..abbrLen];
      return 0;
    }

    /** do_set_proc_stat: the index-th stat field becomes (u64)atoll(text); other indexes change nothing. */
    method SetStat(text: string, index: nat)
      requires Valid()
      modifies this`stat
      ensures Valid()
      ensures stat == if index < PROC_STAT_MAX then old(stat)[index := U64(Strtol(text))] else old(stat)
    {
      if index < PROC_STAT_MAX {
        stat := stat[index := U64(Strtol(text))];
      }
    }

    /**
     * get_proc_stat, given the ':'-joined line of the six fields (None
     * when it cannot be read): the fields take the values of the leading
     * tokens.
     */
    method GetProcStat(line: Option<string>) returns (ret: int)
      requires Valid()
      modifies this`stat
      ensures Valid()
      ensures line.None? ==> ret == -1 && stat == old(stat)
      ensures line.Some? ==> ret == 0 && stat == Overlay(old(stat), StatValues(Tokens(line.value, ':')))
    {
      if line.None? {
        return -1;
      }
      var tokens := Tokens(line.value, ':');
      var index := 0;
      while index < |tokens| && index < PROC_STAT_MAX
        invariant 0 <= index <= |tokens| && index <= PROC_STAT_MAX
        invariant Valid()
        invariant stat == Overlay(old(stat), StatValues(tokens)[..index])
      {
        OverlayStep(old(stat), StatValues(tokens)[..index], U64(Strtol(tokens[index])));
        assert StatValues(tokens)[..index + 1] == StatValues(tokens)[..index] + [U64(Strtol(tokens[index]))];
        SetStat(tokens[index], index);
        index := index + 1;
      }
      assert StatValues(tokens)[..index] == StatValues(tokens);
      return 0;
    }

    /** do_set_proc_io: the index-th io field becomes value; other indexes change nothing. */
    method SetIo(value: nat, index: nat)
      requires Valid()
      modifies this`io
      ensures Valid()
      ensures io == if index < PROC_IO_MAX then old(io)[index := value] else old(io)
    {
      if index < PROC_IO_MAX {
        io := io[index := value];
      }
    }

    /**
     * get_proc_io, given the lines of /proc/<pid>/io (None when the file
     * cannot be read): one field per line until a line has no number or
     * all seven are set.  It reports success whatever happens.
     */
    method GetProcIo(lines: Option<seq<string>>) returns (ret: int)
      requires Valid()
      modifies this`io
      ensures Valid()
      ensures ret == 0
      ensures io == if lines.None? then old(io) else Overlay(old(io), IoValues(lines.value, PROC_IO_MAX))
    {
      if lines.None? {
        return 0;
      }
      // rest is what is still unread of the file, line by line
      var rest := lines.value;
      var index := 0;
      ghost var done: seq<nat> := [];
      ghost var whole := IoValues(rest, PROC_IO_MAX);
      ghost var room: nat := PROC_IO_MAX;
      assert IoScanned([], rest, room, whole);
      while |rest| > 0 && index < PROC_IO_MAX
        invariant index <= PROC_IO_MAX && |done| == index && room == PROC_IO_MAX - index
        invariant Valid()
        invariant IoScanned(done, rest, room, whole)
        invariant io == Overlay(old(io), done)
      {
        var sc := ScanLine(rest[0]);
        if sc.value.None? {
          break;
        }
        var value := sc.value.value;
        IoAdvance(rest, room, done, value, whole);
        OverlayStep(old(io), done, value);
        SetIo(value, index);
        done := done + [value];
        rest := rest[1..];
        room := room - 1;
        index := index + 1;
      }
      IoStop(rest, room, done, whole);
      return 0;
    }

    /** do_set_proc_mss: the index-th smaps field becomes value; other indexes change nothing. */
    method SetMss(value: nat, index: nat)
      requires Valid()
      modifies this`mss
      ensures Valid()
      ensures mss == if index < PROC_MSS_MAX then old(mss)[index := value] else old(mss)
    {
      if index < PROC_MSS_MAX {
        mss := mss[index := value];
      }
    }

    /**
     * get_proc_mss, given the lines of smaps_rollup (None when the file
     * cannot be read): past the header line, each line carrying the next
     * expected key sets that field.  It reports success whatever happens.
     * Unlike the source, it stops comparing once all eight keys are found.
     */
    method GetProcMss(lines: Option<seq<string>>) returns (ret: int)
      requires Valid()
      modifies this`mss
      ensures Valid()
      ensures ret == 0
      ensures mss == if lines.None? || |lines.value| == 0 then old(mss) else Overlay(old(mss), MssValues(MSS_KEYS, lines.value[1..], 0))
    {
      if lines.None? {
        return 0;
      }
      ScanMss(lines.value, MSS_KEYS);
      return 0;
    }

    /** get_proc_mss's loop over the lines, with keys the expected keys in order. */
    method ScanMss(ls: seq<string>, keys: seq<string>)
      requires Valid() && |keys| == PROC_MSS_MAX
      modifies this`mss
      ensures Valid()
      ensures mss == if |ls| == 0 then old(mss) else Overlay(old(mss), MssValues(keys, ls[1..], 0))
    {
      var index := 0;
      var smapIndex := 0;
      ghost var done: seq<nat> := [];
      ghost var whole := if |ls| == 0 then [] else MssValues(keys, ls[1..], 0);
      while index < |ls|
        invariant 0 <= index <= |ls| && smapIndex == |done| <= PROC_MSS_MAX
        invariant Valid()
        invariant index == 0 ==> done == []
        invariant index > 0 ==> MssScanned(keys, done, ls[index..], smapIndex, whole)
        invariant mss == Overlay(old(mss), done)
      {
        if index == 0 {
          assert MssScanned(keys, [], ls[1..], 0, whole) by {
            assert [] + whole == whole;
          }
          index := index + 1;
          continue;
        }
        var sc := ScanLine(ls[index]);
        if sc.word.None? {
          break;
        }
        MssAdvance(keys, ls[index..], smapIndex, done, whole);
        assert ls[index..][1..] == ls[index + 1..];
        if smapIndex < PROC_MSS_MAX && sc.word.value == keys[smapIndex] {
          var value := U32(sc.value.GetOr(0));
          OverlayStep(old(mss), done, value);
          SetMss(value, smapIndex);
          done := done + [value];
          smapIndex := smapIndex + 1;
        }
        index := index + 1;
      }
      if index > 0 {
        MssStop(keys, ls[index..], smapIndex, done, whole);
      }
    }
  }

  // ---------------------------------------------------------------------
  // The command line
  // ---------------------------------------------------------------------

  /** What fgetc returns: a byte, or -1 (EOF) once the file is exhausted. */
  type Fgetc = c: int | -1 <= c < 256

  /** The results of fgetc on a file: its bytes, then EOF. */
  function Stream(content: seq<Byte>): (r: seq<Fgetc>)
    ensures |r| == |content| + 1
  {
    if |content| == 0 then [-1] else [content[0] as Fgetc] + Stream(content[1..])
  }

  /** The bytes as characters. */
  function Text(content: seq<Byte>): (t: string)
    ensures |t| == |content|
  {
    if |content| == 0 then "" else [content[0] as char] + Text(content[1..])
  }

  /** fgetc's result stored into a char: EOF becomes the byte 0xFF. */
  function CharOf(c: Fgetc): char
  {
    if c == -1 then 255 as char else c as char
  }

  /** The text one read contributes: a quote is escaped, NUL separators become spaces, 0xFF and EOF end the text. */
  function EscapeOne(c: Fgetc): (w: string)
    ensures 1 <= |w| <= 2
  {
    var ch := CharOf(c);
    if ch == '"' then ['\\', '"']
    else if ch == '\0' then [' ']
    else if ch == 255 as char then ['\0']
    else [ch]
  }

  /** Every read escaped, with no bound on the room. */
  function EscapeAll(got: seq<Fgetc>): string
  {
    if |got| == 0 then "" else EscapeOne(got[0]) + EscapeAll(got[1..])
  }

  /**
   * What get_proc_cmdline stores before the terminator when room
   * characters are left: the results are copied escaped until the room runs
   * out, and a quote whose escape does not fit ends the copy.
   */
  function Escaped(got: seq<Fgetc>, room: nat): (w: string)
    ensures |w| <= room
  {
    if |got| == 0 || room == 0 then ""
    else if CharOf(got[0]) == '"' && room < 2 then ""
    else EscapeOne(got[0]) + Escaped(got[1..], room - |EscapeOne(got[0])|)
  }

  /** The copy is always a prefix of the unbounded escaping. */
  lemma {:induction false} EscapedIsPrefix(got: seq<Fgetc>, room: nat)
    ensures Escaped(got, room) <= EscapeAll(got)
  {
    if |got| > 0 && room > 0 && !(CharOf(got[0]) == '"' && room < 2) {
      EscapedIsPrefix(got[1..], room - |EscapeOne(got[0])|);
    }
  }

  /** When the whole escaped text fits, nothing is lost. */
  lemma {:induction false} EscapedFits(got: seq<Fgetc>, room: nat)
    requires |EscapeAll(got)| <= room
    ensures Escaped(got, room) == EscapeAll(got)
  {
    if |got| > 0 {
      assert CharOf(got[0]) == '"' ==> room >= 2;
      EscapedFits(got[1..], room - |EscapeOne(got[0])|);
    }
  }

  /** Undoes the quote escaping: \" reads back as ". */
  function Unescape(w: string): string
  {
    if |w| == 0 then ""
    else if |w| >= 2 && w[0] == '\\' && w[1] == '"' then ['"'] + Unescape(w[2..])
    else [w[0]] + Unescape(w[1..])
  }

  /**
   * A command line without NUL separators, backslashes or 0xFF bytes,
   * copied into a buffer with room for its escaped text, reads back as
   * it was followed by the NUL that EOF leaves.
   */
  lemma CmdlineRoundTrip(content: seq<Byte>, room: nat)
    requires forall i :: 0 <= i < |content| ==> content[i] != 0 && content[i] != 92 && content[i] != 255
    requires |EscapeAll(Stream(content))| <= room
    ensures Unescape(Escaped(Stream(content), room)) == Text(content) + ['\0']
  {
    UnescapeAll(content);
    EscapedFits(Stream(content), room);
  }

  lemma {:induction false} UnescapeAll(content: seq<Byte>)
    requires forall i :: 0 <= i < |content| ==> content[i] != 0 && content[i] != 92 && content[i] != 255
    ensures Unescape(EscapeAll(Stream(content))) == Text(content) + ['\0']
  {
    if |content| == 0 {
      assert EscapeAll(Stream(content)) == ['\0'];
    } else {
      var got := Stream(content);
      assert got[1..] == Stream(content[1..]);
      var rest := EscapeAll(Stream(content[1..]));
      UnescapeAll(content[1..]);
      assert EscapeAll(got) == EscapeOne(got[0]) + rest;
      if content[0] == 34 {
        assert EscapeOne(got[0]) + rest == ['\\', '"'] + rest;
        assert (['\\', '"'] + rest)[2..] == rest;
      } else {
        assert EscapeOne(got[0]) + rest == [content[0] as char] + rest;
        assert ([content[0] as char] + rest)[1..] == rest;
      }
    }
  }

  /**
   * The body of get_proc_cmdline's loop for one fgetc result c at
   * position index: a quote is written as its escape when that fits
   * before the last character and otherwise ends the copy.
   */
  method StoreOne(buf: array<char>, index: nat, c: Fgetc) returns (next: nat, stop: bool)
    requires index < buf.Length - 1
    requires forall i :: index <= i < buf.Length ==> buf[i] == '\0'
    modifies buf
    ensures stop <==> CharOf(c) == '"' && index + 2 >= buf.Length
    ensures stop ==> next == index
    ensures !stop ==> next == index + |EscapeOne(c)| < buf.Length && buf[index..next] == EscapeOne(c)
    ensures buf[..index] == old(buf[..index])
    ensures forall i :: next <= i < buf.Length ==> buf[i] == '\0'
  {
    next, stop := index, false;
    var ch := CharOf(c);
    if ch == '"' {
      if index + 2 >= buf.Length {
        buf[index] := '\0';
        stop := true;
        return;
      }
      buf[index] := '\\';
      buf[index + 1] := '"';
      next := index + 1;
    } else if ch == '\0' {
      buf[index] := ' ';
    } else if ch == 255 as char {
      buf[index] := '\0';
    } else {
      buf[index] := ch;
    }
    next := next + 1;
  }

  /** What has been copied so far, followed by the escaped rest of the stream, is the whole copy. */
  ghost predicate CopyScanned(done: string, rest: seq<Fgetc>, room: nat, w: string)
  {
    done + Escaped(rest, room) == w
  }

  lemma CopyStep(rest: seq<Fgetc>, room: nat, done: string, w: string)
    requires 0 < |rest| && room > 0 && !(CharOf(rest[0]) == '"' && room < 2)
    requires CopyScanned(done, rest, room, w)
    ensures |EscapeOne(rest[0])| <= room
    ensures CopyScanned(done + EscapeOne(rest[0]), rest[1..], room - |EscapeOne(rest[0])|, w)
  {
  }

  lemma CopyStop(rest: seq<Fgetc>, room: nat, done: string, w: string)
    requires |rest| == 0 || room == 0 || (CharOf(rest[0]) == '"' && room < 2)
    requires CopyScanned(done, rest, room, w)
    ensures done == w
  {
    assert done + "" == done;
  }

  /** get_proc_cmdline's loop over the fgetc results got, into a cleared buffer. */
  method CopyEscaped(got: seq<Fgetc>, buf: array<char>)
    requires buf.Length >= 1 && forall i :: 0 <= i < buf.Length ==> buf[i] == '\0'
    modifies buf
    ensures var w := Escaped(got, buf.Length - 1);
      buf[..|w|] == w && forall i :: |w| <= i < buf.Length ==> buf[i] == '\0'
  {
    ghost var w := Escaped(got, buf.Length - 1);
    ghost var done := "";
    // rest is what fgetc has still to return
    var rest := got;
    var index := 0;
    assert CopyScanned(done, rest, buf.Length - 1, w);
    while |rest| > 0
      invariant 0 <= index < buf.Length && |done| == index
      invariant buf[..index] == done
      invariant CopyScanned(done, rest, buf.Length - 1 - index, w)
      invariant forall i :: index <= i < buf.Length ==> buf[i] == '\0'
    {
      if index >= buf.Length - 1 {
        buf[index] := '\0';
        CopyStop(rest, 0, done, w);
        return;
      }
      ghost var room := buf.Length - 1 - index;
      ghost var piece := EscapeOne(rest[0]);
      var next, stop := StoreOne(buf, index, rest[0]);
      if stop {
        CopyStop(rest, room, done, w);
        return;
      }
      CopyStep(rest, room, done, w);
      rest := rest[1..];
      assert buf[..next] == buf[..index] + buf[index..next];
      done := done + piece;
      index := next;
    }
    CopyStop(rest, buf.Length - 1 - index, done, w);
  }

  /**
   * get_proc_cmdline, given the bytes of /proc/<pid>/cmdline (None when
   * the file cannot be opened): the buffer is cleared, then holds the
   * escaped copy that fits before its last character.  A quote stops
   * the copy unless its two-character escape fits with the terminator
   * still after it.
   */
  method GetProcCmdline(content: Option<seq<Byte>>, buf: array<char>) returns (ret: int)
    requires buf.Length >= 1
    modifies buf
    ensures content.None? ==> ret == -1 && forall i :: 0 <= i < buf.Length ==> buf[i] == '\0'
    ensures content.Some? ==> (ret == 0
      && var w := Escaped(Stream(content.value), buf.Length - 1);
      buf[..|w|] == w && forall i :: |w| <= i < buf.Length ==> buf[i] == '\0')
  {
    forall i | 0 <= i < buf.Length {
      buf[i] := '\0';
    }
    if content.None? {
      return -1;
    }
    CopyEscaped(Stream(content.value), buf);
    return 0;
  }

  /**
   * The copy loop as the source writes it, from position index of a
   * buffer of bufLen characters: its quote guard never holds inside the
   * loop, so a quote at bufLen - 2 is escaped into the last two
   * characters and the next pass stores its terminator at bufLen.  True
   * when some store falls outside the buffer.
   */
  predicate OverrunsAsWritten(got: seq<Fgetc>, index: nat, bufLen: nat)
    requires bufLen >= 1
  {
    if |got| == 0 then false
    else if index >= bufLen - 1 then index >= bufLen
    else if CharOf(got[0]) == '"' then OverrunsAsWritten(got[1..], index + 2, bufLen)
    else OverrunsAsWritten(got[1..], index + 1, bufLen)
  }

  /** The command line ab" read into a four-character buffer: the loop as written stores past its end. */
  lemma QuoteOverrun()
    ensures Stream([97, 98, 34]) == [97, 98, 34, -1]
    ensures OverrunsAsWritten(Stream([97, 98, 34]), 0, 4)
    ensures Escaped(Stream([97, 98, 34]), 3) == "ab"
  {
    var got := Stream([97, 98, 34]);
    assert got == [97, 98, 34, -1];
    assert got[1..] == [98, 34, -1] && got[2..] == [34, -1] && got[3..] == [-1];
    assert OverrunsAsWritten(got[3..], 4, 4);
    assert Escaped(got[2..], 1) == "";
  }

  // ---------------------------------------------------------------------
  // The table of watched processes
  // ---------------------------------------------------------------------

  /** A process is identified by its pid together with its start time, so a reused pid is a new entry. */
  datatype ProcKey = ProcKey(pid: nat, startTime: nat)

  /** What the table keeps per process: its name and whether it is in the probe's range. */
  datatype ProcRecord = ProcRecord(comm: string, inProbeRange: bool)

  /** What the collector reads about a pid: the comm line and the start-time field of its stat line. */
  datatype ProcSys = ProcSys(comm: nat -> string, startTime: nat -> string)

  /** hash_find_proc's key: the pid and (u64)atoll of the start-time text. */
  function KeyOf(pid: nat, stime: string): (k: ProcKey)
    ensures k.pid == pid && k.startTime < U64_MOD
  {
    ProcKey(pid, U64(Strtol(stime)))
  }

  /** The key of a process object, read through the system. */
  function ObjKey(pid: nat, sys: ProcSys): ProcKey
  {
    KeyOf(pid, sys.startTime(pid))
  }

  /**
   * The table refresh_proc_filter_map builds from the objects it is
   * given: each process object's (pid, start time) not yet present is
   * added with its comm and the in-range flag.
   */
  function FilterMap(objs: seq<Snooper.SnooperObj>, sys: ProcSys): map<ProcKey, ProcRecord>
  {
    if |objs| == 0 then map[]
    else
      var m := FilterMap(objs[..|objs| - 1], sys);
      var o := objs[|objs| - 1];
      if o.ObjProc? && ObjKey(o.procId, sys) !in m then m[ObjKey(o.procId, sys) := ProcRecord(sys.comm(o.procId), true)]
      else m
  }

  /** The table holds exactly the keys of the process objects, and each record is that process's comm, in range. */
  lemma {:induction false} FilterMapExact(objs: seq<Snooper.SnooperObj>, sys: ProcSys, k: ProcKey)
    ensures k in FilterMap(objs, sys) <==> exists i :: 0 <= i < |objs| && objs[i].ObjProc? && ObjKey(objs[i].procId, sys) == k
    ensures k in FilterMap(objs, sys) ==> FilterMap(objs, sys)[k] == ProcRecord(sys.comm(k.pid), true)
  {
    if |objs| > 0 {
      var front := objs[..|objs| - 1];
      FilterMapExact(front, sys, k);
      if k in FilterMap(objs, sys) && k !in FilterMap(front, sys) {
        assert objs[|objs| - 1].ObjProc? && ObjKey(objs[|objs| - 1].procId, sys) == k;
      }
      if exists i :: 0 <= i < |objs| && objs[i].ObjProc? && ObjKey(objs[i].procId, sys) == k {
        var i :| 0 <= i < |objs| && objs[i].ObjProc? && ObjKey(objs[i].procId, sys) == k;
        if i < |objs| - 1 {
          assert front[i] == objs[i];
        }
      }
      if exists i :: 0 <= i < |front| && front[i].ObjProc? && ObjKey(front[i].procId, sys) == k {
        var i :| 0 <= i < |front| && front[i].ObjProc? && ObjKey(front[i].procId, sys) == k;
        assert objs[i] == front[i];
      }
    }
  }

  /** The processes being watched, keyed by (pid, start time). */
  class ProcTable {
    var procs: map<ProcKey, ProcRecord>

    constructor ()
      ensures procs == map[]
    {
      procs := map[];
    }

    /** hash_find_proc: the record of the process with that pid and start-time text. */
    function Find(pid: nat, stime: string): (r: Option<ProcRecord>)
      reads this
      ensures r.Some? <==> KeyOf(pid, stime) in procs
      ensures r.Some? ==> r.value == procs[KeyOf(pid, stime)]
    {
      var k := KeyOf(pid, stime);
      if k in procs then Some(procs[k]) else None
    }

    /**
     * refresh_proc_filter_map: the table is emptied, then every process
     * object among the first objNum (at most SNOOPER_MAX) is looked up
     * by pid and start time and added when absent.
     */
    method RefreshFilterMap(objs: seq<Snooper.SnooperObj>, objNum: nat, sys: ProcSys) returns (ret: int)
      requires |objs| == Snooper.SNOOPER_MAX
      modifies this
      ensures ret == 0
      ensures procs == FilterMap(objs[..if objNum < Snooper.SNOOPER_MAX then objNum else Snooper.SNOOPER_MAX], sys)
    {
      procs := map[];
      var i := 0;
      while i < objNum && i < Snooper.SNOOPER_MAX
        invariant 0 <= i <= Snooper.SNOOPER_MAX && (i <= objNum)
        invariant procs == FilterMap(objs[..i], sys)
      {
        assert objs[..i + 1][..i] == objs[..i];
        if !objs[i].ObjProc? {
          i := i + 1;
          continue;
        }
        var pid := objs[i].procId;
        var comm := sys.comm(pid);
        var stime := sys.startTime(pid);
        var p := Find(pid, stime);
        if p.None? {
          procs := procs[KeyOf(pid, stime) := ProcRecord(comm, true)];
        }
        i := i + 1;
      }
      return 0;
    }
  }
}
