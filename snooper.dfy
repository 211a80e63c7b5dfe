/**
 * The snooper of a probe (src/lib/probe/snooper.c): the probe-range name
 * table, the configuration slots filled from a JSON description, and the
 * object slots generated from the configurations and trimmed when a
 * process exits.
 *
 * JSON arrives already parsed, as the Json datatype. The /proc scan, the
 * regular-expression matcher and the container lookups are an Env of
 * function values.
 */
module Snooper {
  import opened Wrappers
  import opened CStr

  /** Capacity of the configuration and object tables. */
  const SNOOPER_MAX: nat := 100

  datatype ProbeType =
    | BaseInfo | Virt | FlameGraph | L7 | Tcp | Socket | Io | Proc | Jvm
    | RedisSli | PostgreSli | GaussSli | Dnsmasq | Lvs | Nginx | Haproxy | Kafka

  /** One row of probe_range_define: a sub-probe name and its flag bit. */
  datatype RangeDef = RangeDef(probeType: ProbeType, desc: string, flags: bv32)

  /** probe_range_define, in table order. Flag values repeat across probe types. */
  const RangeTable: seq<RangeDef> := [
    RangeDef(FlameGraph, "oncpu", 0x01),
    RangeDef(FlameGraph, "offcpu", 0x02),
    RangeDef(FlameGraph, "mem", 0x04),
    RangeDef(L7, "l7_bytes_metrics", 0x01),
    RangeDef(L7, "l7_rpc_metrics", 0x02),
    RangeDef(L7, "l7_rpc_trace", 0x04),
    RangeDef(Tcp, "tcp_abnormal", 0x01),
    RangeDef(Tcp, "tcp_rtt", 0x04),
    RangeDef(Tcp, "tcp_windows", 0x02),
    RangeDef(Tcp, "tcp_srtt", 0x40),
    RangeDef(Tcp, "tcp_rate", 0x20),
    RangeDef(Tcp, "tcp_sockbuf", 0x10),
    RangeDef(Tcp, "tcp_stats", 0x08),
    RangeDef(Socket, "tcp_socket", 0x01),
    RangeDef(Socket, "udp_socket", 0x02),
    RangeDef(Io, "io_trace", 0x01),
    RangeDef(Io, "io_err", 0x02),
    RangeDef(Io, "io_count", 0x04),
    RangeDef(Io, "page_cache", 0x08),
    RangeDef(Proc, "base_metrics", 0x20),
    RangeDef(Proc, "proc_syscall", 0x01),
    RangeDef(Proc, "proc_fs", 0x02),
    RangeDef(Proc, "proc_io", 0x08),
    RangeDef(Proc, "proc_dns", 0x04),
    RangeDef(Proc, "proc_pagecache", 0x10)
  ]

  /** The first row of table at or after k whose name equals range ignoring case. */
  function RangeIndexFrom(table: seq<RangeDef>, range: string, k: nat): (r: Option<nat>)
    requires k <= |table|
    ensures r.Some? ==> k <= r.value < |table| && EqualsIgnoreCase(table[r.value].desc, range)
    ensures r.Some? ==> forall j :: k <= j < r.value ==> !EqualsIgnoreCase(table[j].desc, range)
    ensures r.None? ==> forall j :: k <= j < |table| ==> !EqualsIgnoreCase(table[j].desc, range)
    decreases |table| - k
  {
    if k == |table| then None
    else if EqualsIgnoreCase(table[k].desc, range) then Some(k)
    else RangeIndexFrom(table, range, k + 1)
  }

  /** get_probe_range: the flag of the named sub-probe, 0 for an unknown name. */
  function GetProbeRange(range: string): (flags: bv32)
  {
    match RangeIndexFrom(RangeTable, range, 0)
    case Some(i) => RangeTable[i].flags
    case None => 0
  }

  /** The lookup depends on the name only up to case. */
  lemma {:induction false} RangeIndexIgnoresCase(table: seq<RangeDef>, a: string, b: string, k: nat)
    requires k <= |table| && EqualsIgnoreCase(a, b)
    ensures RangeIndexFrom(table, a, k) == RangeIndexFrom(table, b, k)
    decreases |table| - k
  {
    if k < |table| {
      var d := table[k].desc;
      EqualsIgnoreCaseChars(a, b);
      EqualsIgnoreCaseChars(d, a);
      EqualsIgnoreCaseChars(d, b);
      RangeIndexIgnoresCase(table, a, b, k + 1);
    }
  }

  /** get_probe_range answers the same for two spellings that differ only in case. */
  lemma GetProbeRangeIgnoresCase(a: string, b: string)
    requires EqualsIgnoreCase(a, b)
    ensures GetProbeRange(a) == GetProbeRange(b)
  {
    RangeIndexIgnoresCase(RangeTable, a, b, 0);
  }

  /** The first row whose name matches, in any case, gives the flag. */
  lemma GetProbeRangeFirstRow(i: nat, name: string)
    requires i < |RangeTable| && EqualsIgnoreCase(RangeTable[i].desc, name)
    requires forall j :: 0 <= j < i ==> !EqualsIgnoreCase(RangeTable[j].desc, name)
    ensures GetProbeRange(name) == RangeTable[i].flags
  {
    FirstMatch(RangeTable, name, i);
  }

  /** A matching row with no match before it is what the lookup finds. */
  lemma FirstMatch(table: seq<RangeDef>, range: string, i: nat)
    requires i < |table| && EqualsIgnoreCase(table[i].desc, range)
    requires forall j :: 0 <= j < i ==> !EqualsIgnoreCase(table[j].desc, range)
    ensures RangeIndexFrom(table, range, 0) == Some(i)
  {
  }

  /** A name that no row carries maps to no flag. */
  lemma GetProbeRangeUnknown(name: string)
    requires forall i :: 0 <= i < |RangeTable| ==> !EqualsIgnoreCase(RangeTable[i].desc, name)
    ensures GetProbeRange(name) == 0
  {
  }

  /** print_snooper's range list: the names of this probe type whose flag bit is set, in table order. */
  function PrintedRanges(probeType: ProbeType, flags: bv32): (names: seq<string>)
  {
    PrintedFrom(RangeTable, probeType, flags, 0)
  }

  /** A row is listed when it belongs to the probe type and its flag bit is set. */
  predicate Shown(row: RangeDef, probeType: ProbeType, flags: bv32)
  {
    row.probeType == probeType && flags & row.flags != 0
  }

  function PrintedFrom(table: seq<RangeDef>, probeType: ProbeType, flags: bv32, k: nat): (names: seq<string>)
    requires k <= |table|
    decreases |table| - k
  {
    if k == |table| then []
    else
      (if Shown(table[k], probeType, flags) then [table[k].desc] else [])
      + PrintedFrom(table, probeType, flags, k + 1)
  }

  /** A name is printed exactly when a row of the probe's own type carries it with a set flag bit. */
  lemma {:induction false} PrintedFromRows(table: seq<RangeDef>, probeType: ProbeType, flags: bv32, k: nat, name: string)
    requires k <= |table|
    ensures name in PrintedFrom(table, probeType, flags, k) <==>
      exists j :: k <= j < |table| && table[j].desc == name && Shown(table[j], probeType, flags)
    decreases |table| - k
  {
    if k < |table| {
      PrintedFromRows(table, probeType, flags, k + 1, name);
      var head := if Shown(table[k], probeType, flags) then [table[k].desc] else [];
      var rest := PrintedFrom(table, probeType, flags, k + 1);
      assert PrintedFrom(table, probeType, flags, k) == head + rest;
      if name in head {
        assert table[k].desc == name && Shown(table[k], probeType, flags);
      }
      if exists j :: k <= j < |table| && table[j].desc == name && Shown(table[j], probeType, flags) {
        var j :| k <= j < |table| && table[j].desc == name && Shown(table[j], probeType, flags);
        if j == k {
          assert name in head;
        } else {
          assert name in rest;
        }
      }
    }
  }

  /** With no flag set nothing is printed, whatever the probe type. */
  lemma {:induction false} PrintedNothing(table: seq<RangeDef>, probeType: ProbeType, k: nat)
    requires k <= |table|
    ensures PrintedFrom(table, probeType, 0, k) == []
    decreases |table| - k
  {
    if k < |table| {
      PrintedNothing(table, probeType, k + 1);
    }
  }

  /** print_snooper lists exactly the configured ranges of the probe's own type. */
  lemma PrintedRangesExact(probeType: ProbeType, flags: bv32, name: string)
    ensures name in PrintedRanges(probeType, flags) <==>
      exists j :: 0 <= j < |RangeTable| && RangeTable[j].desc == name
        && RangeTable[j].probeType == probeType && flags & RangeTable[j].flags != 0
  {
    PrintedFromRows(RangeTable, probeType, flags, 0, name);
    if name in PrintedRanges(probeType, flags) {
      var j :| 0 <= j < |RangeTable| && RangeTable[j].desc == name && Shown(RangeTable[j], probeType, flags);
    }
  }

  /** JSON as cJSON hands it over; a number carries its valueint. */
  datatype Json =
    | JNull
    | JBool(b: bool)
    | JNumber(n: int)
    | JString(s: string)
    | JArray(items: seq<Json>)
    | JObject(members: seq<(string, Json)>)

  /** cJSON_GetObjectItem: the first member whose key equals name ignoring case; none for a non-object. */
  function GetItem(j: Json, name: string): Option<Json>
  {
    if j.JObject? then FindMember(j.members, name) else None
  }

  function FindMember(ms: seq<(string, Json)>, name: string): Option<Json>
  {
    if |ms| == 0 then None
    else if EqualsIgnoreCase(ms[0].0, name) then Some(ms[0].1)
    else FindMember(ms[1..], name)
  }

  /** The member found has a matching key and no earlier key matches; none is found only when no key matches. */
  lemma {:induction false} FindMemberFirst(ms: seq<(string, Json)>, name: string)
    ensures var r := FindMember(ms, name);
      (r.Some? ==>
        exists k :: 0 <= k < |ms| && ms[k].1 == r.value && EqualsIgnoreCase(ms[k].0, name)
          && forall j :: 0 <= j < k ==> !EqualsIgnoreCase(ms[j].0, name))
      && (r.None? ==> forall k :: 0 <= k < |ms| ==> !EqualsIgnoreCase(ms[k].0, name))
  {
    if |ms| > 0 && !EqualsIgnoreCase(ms[0].0, name) {
      FindMemberFirst(ms[1..], name);
      assert forall k :: 1 <= k < |ms| ==> ms[k] == ms[1..][k - 1];
      var r := FindMember(ms[1..], name);
      if r.Some? {
        var k :| 0 <= k < |ms[1..]| && ms[1..][k].1 == r.value && EqualsIgnoreCase(ms[1..][k].0, name)
          && forall j :: 0 <= j < k ==> !EqualsIgnoreCase(ms[1..][j].0, name);
        assert ms[k + 1].1 == r.value && EqualsIgnoreCase(ms[k + 1].0, name);
      }
    }
  }

  /** cJSON_GetArraySize and cJSON_GetArrayItem: the children of an array or object, none otherwise. */
  function Children(j: Json): (cs: seq<Json>)
    ensures j.JArray? ==> cs == j.items
  {
    match j
    case JArray(items) => items
    case JObject(ms) => seq(|ms|, k requires 0 <= k < |ms| => ms[k].1)
    case _ => []
  }

  /** probe_range_flags after parse_snooper_probe ORs in each element's range; None at a non-string element. */
  function ProbeFlags(flags: bv32, items: seq<Json>): (r: Option<bv32>)
    decreases |items|
  {
    if |items| == 0 then Some(flags)
    else if items[0].JString? then ProbeFlags(flags | GetProbeRange(items[0].s), items[1..])
    else None
  }

  /** Parsing ranges only adds flag bits, and fails exactly on a non-string element. */
  lemma {:induction false} ProbeFlagsGrow(flags: bv32, items: seq<Json>)
    ensures var r := ProbeFlags(flags, items);
      (r.Some? <==> forall k :: 0 <= k < |items| ==> items[k].JString?)
      && (r.Some? ==> r.value & flags == flags)
    decreases |items|
  {
    if |items| > 0 && items[0].JString? {
      ProbeFlagsGrow(flags | GetProbeRange(items[0].s), items[1..]);
      assert forall k :: 1 <= k < |items| ==> items[k] == items[1..][k - 1];
    }
  }

  /**
   * probe_range_flags once parse_snooper_probe stops: the flags of the
   * string elements before the first non-string one, all of them when
   * there is none.
   */
  function FlagsBefore(flags: bv32, items: seq<Json>): bv32
    decreases |items|
  {
    if |items| == 0 || !items[0].JString? then flags
    else FlagsBefore(flags | GetProbeRange(items[0].s), items[1..])
  }

  /** When the range list parses, the flags it leaves are the flags it yields. */
  lemma {:induction false} FlagsBeforeAgrees(flags: bv32, items: seq<Json>)
    ensures ProbeFlags(flags, items).Some? ==> ProbeFlags(flags, items).value == FlagsBefore(flags, items)
    decreases |items|
  {
    if |items| > 0 && items[0].JString? {
      FlagsBeforeAgrees(flags | GetProbeRange(items[0].s), items[1..]);
    }
  }

  /** A configuration entry of the probe. */
  datatype SnooperConf =
    | ConfProcId(procId: nat)
    | ConfApp(comm: string, cmdline: Option<string>, debuggingDir: Option<string>)
    | ConfPod(pod: string)
    | ConfContainer(containerId: string)
    | ConfGaussdb(ip: Option<string>, dbname: Option<string>, usr: Option<string>, pass: Option<string>, port: nat)

  /** A configuration that add_snooper_conf_* accepts without storing: an empty comm, pod or container id. */
  predicate Skipped(c: SnooperConf)
  {
    (c.ConfApp? && c.comm == "") || (c.ConfPod? && c.pod == "") || (c.ConfContainer? && c.containerId == "")
  }

  /** The size of a fixed string buffer of a configuration; never zero. */
  type BufLen = n: nat | 0 < n witness 1

  /**
   * The buffers add_snooper_conf_procname and add_snooper_conf_container
   * copy into: TASK_COMM_LEN characters for a comm, CONTAINER_ABBR_ID_LEN
   * for a container id (both defined outside this model, so parameters).
   */
  datatype Limits = Limits(commLen: BufLen, abbrLen: BufLen)

  /** What strncpy(dst, s, n) leaves in dst, read back: at most the first n characters of s. */
  function Cut(s: string, n: nat): (r: string)
    ensures |r| <= n && IsPrefix(r, s)
    ensures |r| == if |s| <= n then |s| else n
  {
    if |s| <= n then s else s[..n]
  }

  /** A configuration whose comm and container id fit their buffers whole. */
  predicate Fits(lim: Limits, c: SnooperConf)
  {
    (c.ConfApp? ==> |c.comm| < lim.commLen) && (c.ConfContainer? ==> |c.containerId| <= lim.abbrLen)
  }

  /**
   * The configuration add_snooper_conf_* stores for c: the comm cut to
   * TASK_COMM_LEN and the container id to CONTAINER_ABBR_ID_LEN
   * characters; the other kinds are kept whole (strdup).
   */
  function Stored(lim: Limits, c: SnooperConf): (r: SnooperConf)
    ensures SectionOf(r) == SectionOf(c) && (Skipped(r) <==> Skipped(c))
    ensures r.ConfApp? ==>
              (IsPrefix(r.comm, c.comm) && |r.comm| <= lim.commLen
               && r.cmdline == c.cmdline && r.debuggingDir == c.debuggingDir)
    ensures r.ConfContainer? ==> IsPrefix(r.containerId, c.containerId) && |r.containerId| <= lim.abbrLen
    ensures !c.ConfApp? && !c.ConfContainer? ==> r == c
    ensures Fits(lim, c) ==> r == c
    ensures (c.ConfApp? && |c.comm| > lim.commLen) || (c.ConfContainer? && |c.containerId| > lim.abbrLen) ==> r != c
  {
    match c
    case ConfApp(comm, cmdline, dbgdir) => ConfApp(Cut(comm, lim.commLen), cmdline, dbgdir)
    case ConfContainer(id) => ConfContainer(Cut(id, lim.abbrLen))
    case _ => c
  }

  /** A string member stored only when it is non-empty. */
  function NonEmpty(s: string): (r: Option<string>)
    ensures r.Some? <==> s != ""
    ensures r.Some? ==> r.value == s
  {
    if s == "" then None else Some(s)
  }

  /** An optional string member: absent, or a string. */
  predicate OptString(m: Option<Json>)
  {
    m.None? || m.value.JString?
  }

  function OptText(m: Option<Json>): Option<string>
    requires OptString(m)
  {
    if m.None? then None else NonEmpty(m.value.s)
  }

  /** A required string member. */
  predicate IsString(m: Option<Json>)
  {
    m.Some? && m.value.JString?
  }

  /** The configuration sections of the JSON description, in the order parse_snooper reads them. */
  datatype Section = SecProcId | SecProcName | SecPod | SecContainer | SecGaussdb

  function SectionName(sec: Section): string
  {
    match sec
    case SecProcId => "proc_id"
    case SecProcName => "proc_name"
    case SecPod => "pod"
    case SecContainer => "container_id"
    case SecGaussdb => "gaussdb"
  }

  /**
   * The configuration one array element of a section describes, or None
   * when the element is malformed and the section fails.
   */
  function ConfOf(sec: Section, item: Json): (r: Option<SnooperConf>)
    ensures r.Some? ==> SectionOf(r.value) == sec
  {
    match sec
    case SecProcId =>
      if item.JNumber? then Some(ConfProcId(U32(item.n))) else None
    case SecProcName => AppConfOf(item)
    case SecPod =>
      if item.JString? then Some(ConfPod(item.s)) else None
    case SecContainer =>
      if item.JString? then Some(ConfContainer(item.s)) else None
    case SecGaussdb => GaussdbConfOf(item)
  }

  /** parse_snooper_procname's element: "comm" a string, "cmdline" and "debugging_dir" absent or strings. */
  function AppConfOf(item: Json): (r: Option<SnooperConf>)
    ensures r.Some? ==> r.value.ConfApp?
  {
    var comm := GetItem(item, "comm");
    var cmdline := GetItem(item, "cmdline");
    var dbgdir := GetItem(item, "debugging_dir");
    if IsString(comm) && OptString(cmdline) && OptString(dbgdir) then
      Some(ConfApp(comm.value.s, OptText(cmdline), OptText(dbgdir)))
    else None
  }

  /** parse_snooper_gaussdb's element: four strings and the port number, all required. */
  function GaussdbConfOf(item: Json): (r: Option<SnooperConf>)
    ensures r.Some? ==> r.value.ConfGaussdb?
  {
    var ip := GetItem(item, "dbip");
    var dbname := GetItem(item, "dbname");
    var usr := GetItem(item, "dbuser");
    var pass := GetItem(item, "dbpass");
    var port := GetItem(item, "dbport");
    if IsString(ip) && IsString(dbname) && IsString(usr) && IsString(pass) && port.Some? && port.value.JNumber? then
      Some(ConfGaussdb(NonEmpty(ip.value.s), NonEmpty(dbname.value.s), NonEmpty(usr.value.s),
        NonEmpty(pass.value.s), U32(port.value.n)))
    else None
  }

  /**
   * The optional-string tests of add_snooper_conf_procname and
   * add_snooper_conf_gaussdb as written: a present string s is stored only
   * when guard, the string whose first character is tested, is empty.
   */
  function StoredAsWritten(s: Option<string>, guard: string): Option<string>
  {
    if s.Some? && guard == "" then s else None
  }

  /**
   * parse_snooper_procname and add_snooper_conf_procname as written: a
   * present cmdline member is read as the comm string, and then stored
   * only if comm is empty; debugging_dir is stored only when it is empty.
   */
  function AppConfOfAsWritten(item: Json): Option<SnooperConf>
  {
    var comm := GetItem(item, "comm");
    var cmdline := GetItem(item, "cmdline");
    var dbgdir := GetItem(item, "debugging_dir");
    if IsString(comm) && OptString(cmdline) && OptString(dbgdir) then
      var cmd := if cmdline.Some? then Some(comm.value.s) else None;
      var dir := if dbgdir.Some? then Some(dbgdir.value.s) else None;
      Some(ConfApp(comm.value.s, StoredAsWritten(cmd, comm.value.s), StoredAsWritten(dir, OrEmpty(dir))))
    else None
  }

  /**
   * As written, an application configuration that is stored (its comm is
   * not empty) never keeps a cmdline, and keeps a debugging_dir only when
   * it is empty: it agrees with the intended one exactly when the member is
   * absent.
   */
  lemma AppConfAsWrittenLosesStrings(item: Json)
    requires AppConfOf(item).Some? && AppConfOf(item).value.comm != ""
    ensures AppConfOfAsWritten(item).Some?
    ensures AppConfOfAsWritten(item).value.comm == AppConfOf(item).value.comm
    ensures AppConfOfAsWritten(item).value.cmdline.None?
    ensures AppConfOf(item).value.cmdline.Some? ==> AppConfOfAsWritten(item).value.cmdline != AppConfOf(item).value.cmdline
    ensures AppConfOfAsWritten(item).value.debuggingDir.Some? ==> AppConfOfAsWritten(item).value.debuggingDir == Some("")
    ensures AppConfOfAsWritten(item).value.debuggingDir == AppConfOf(item).value.debuggingDir
            <==> GetItem(item, "debugging_dir").None?
  {
  }

  /** parse_snooper_gaussdb and add_snooper_conf_gaussdb as written: each of the four strings is stored only when it is empty. */
  function GaussdbConfOfAsWritten(item: Json): Option<SnooperConf>
  {
    var ip := GetItem(item, "dbip");
    var dbname := GetItem(item, "dbname");
    var usr := GetItem(item, "dbuser");
    var pass := GetItem(item, "dbpass");
    var port := GetItem(item, "dbport");
    if IsString(ip) && IsString(dbname) && IsString(usr) && IsString(pass) && port.Some? && port.value.JNumber? then
      Some(ConfGaussdb(StoredAsWritten(Some(ip.value.s), ip.value.s), StoredAsWritten(Some(dbname.value.s), dbname.value.s),
        StoredAsWritten(Some(usr.value.s), usr.value.s), StoredAsWritten(Some(pass.value.s), pass.value.s),
        U32(port.value.n)))
    else None
  }

  /** As written, none of the four strings of a gaussdb configuration is ever what the intended parse keeps. */
  lemma GaussdbAsWrittenLosesStrings(item: Json)
    requires GaussdbConfOf(item).Some?
    ensures GaussdbConfOfAsWritten(item).Some?
    ensures var w, c := GaussdbConfOfAsWritten(item).value, GaussdbConfOf(item).value;
            && w.ip != c.ip && w.dbname != c.dbname && w.usr != c.usr && w.pass != c.pass && w.port == c.port
            && (w.ip.Some? ==> w.ip == Some("")) && (w.pass.Some? ==> w.pass == Some(""))
  {
  }

  /**
   * The configuration list after the add_snooper_conf_* calls for the
   * elements of a section, or None when an element is malformed or the
   * table is already full.
   */
  function Extend(lim: Limits, confs: seq<SnooperConf>, sec: Section, items: seq<Json>): Option<seq<SnooperConf>>
    decreases |items|
  {
    if |items| == 0 then Some(confs)
    else match ConfOf(sec, items[0])
      case None => None
      case Some(c) =>
        if |confs| >= SNOOPER_MAX then None
        else Extend(lim, if Skipped(c) then confs else confs + [Stored(lim, c)], sec, items[1..])
  }

  /**
   * A section keeps the configurations before it, appends at most one
   * per element, never an empty one, and never grows the list past
   * SNOOPER_MAX.
   */
  lemma {:induction false} ExtendKeeps(lim: Limits, confs: seq<SnooperConf>, sec: Section, items: seq<Json>)
    requires |confs| <= SNOOPER_MAX
    ensures var r := Extend(lim, confs, sec, items);
      r.Some? ==> (|confs| <= |r.value| <= SNOOPER_MAX && |r.value| <= |confs| + |items|
        && r.value[..|confs|] == confs
        && forall k :: |confs| <= k < |r.value| ==> !Skipped(r.value[k]))
    decreases |items|
  {
    if |items| > 0 {
      var c := ConfOf(sec, items[0]);
      if c.Some? && |confs| < SNOOPER_MAX {
        var next := if Skipped(c.value) then confs else confs + [Stored(lim, c.value)];
        ExtendKeeps(lim, next, sec, items[1..]);
        var r := Extend(lim, next, sec, items[1..]);
        if r.Some? {
          assert r.value[..|confs|] == next[..|confs|];
        }
      }
    }
  }

  /**
   * The configuration list once a section's add_snooper_conf_* calls stop:
   * those added for the elements before the first malformed one, or
   * before the table was found full.
   */
  function ExtendBefore(lim: Limits, confs: seq<SnooperConf>, sec: Section, items: seq<Json>): seq<SnooperConf>
    decreases |items|
  {
    if |items| == 0 then confs
    else match ConfOf(sec, items[0])
      case None => confs
      case Some(c) =>
        if |confs| >= SNOOPER_MAX then confs
        else ExtendBefore(lim, if Skipped(c) then confs else confs + [Stored(lim, c)], sec, items[1..])
  }

  /** When a section parses, the list it leaves is the list it yields. */
  lemma {:induction false} ExtendBeforeAgrees(lim: Limits, confs: seq<SnooperConf>, sec: Section, items: seq<Json>)
    ensures Extend(lim, confs, sec, items).Some? ==> Extend(lim, confs, sec, items).value == ExtendBefore(lim, confs, sec, items)
    decreases |items|
  {
    if |items| > 0 {
      var c := ConfOf(sec, items[0]);
      if c.Some? && |confs| < SNOOPER_MAX {
        ExtendBeforeAgrees(lim, if Skipped(c.value) then confs else confs + [Stored(lim, c.value)], sec, items[1..]);
      }
    }
  }

  /** A section whose JSON member is absent leaves the list alone. */
  function SectionSpec(lim: Limits, json: Json, sec: Section, confs: seq<SnooperConf>): Option<seq<SnooperConf>>
  {
    match GetItem(json, SectionName(sec))
    case None => Some(confs)
    case Some(item) => Extend(lim, confs, sec, Children(item))
  }

  function AndThen(lim: Limits, r: Option<seq<SnooperConf>>, json: Json, sec: Section): Option<seq<SnooperConf>>
  {
    if r.None? then None else SectionSpec(lim, json, sec, r.value)
  }

  /** The range flags a description sets, or None when its "probe" member is malformed. */
  function FlagsSpec(json: Json): Option<bv32>
  {
    match GetItem(json, "probe")
    case None => Some(0)
    case Some(item) => ProbeFlags(0, Children(item))
  }

  /** The configurations a description yields, section by section, or None at the first failure. */
  function ConfsSpec(lim: Limits, json: Json): Option<seq<SnooperConf>>
  {
    var c1 := SectionSpec(lim, json, SecProcId, []);
    var c2 := AndThen(lim, c1, json, SecProcName);
    var c3 := AndThen(lim, c2, json, SecPod);
    var c4 := AndThen(lim, c3, json, SecContainer);
    AndThen(lim, c4, json, SecGaussdb)
  }

  /** The list a section leaves, whether it parses or not. */
  function SectionBefore(lim: Limits, json: Json, sec: Section, confs: seq<SnooperConf>): seq<SnooperConf>
  {
    match GetItem(json, SectionName(sec))
    case None => confs
    case Some(item) => ExtendBefore(lim, confs, sec, Children(item))
  }

  /** The sections in the order parse_snooper reads them. */
  const SECTIONS: seq<Section> := [SecProcId, SecProcName, SecPod, SecContainer, SecGaussdb]

  /** The list the sections secs leave from confs: each section in turn, up to and including the first that fails. */
  function SectionsBefore(lim: Limits, json: Json, secs: seq<Section>, confs: seq<SnooperConf>): seq<SnooperConf>
    decreases |secs|
  {
    if |secs| == 0 then confs
    else match SectionSpec(lim, json, secs[0], confs)
      case None => SectionBefore(lim, json, secs[0], confs)
      case Some(next) => SectionsBefore(lim, json, secs[1..], next)
  }

  /** The configurations parse_snooper leaves once its flags parse: all of them, or those before the first failure. */
  function ConfsLeft(lim: Limits, json: Json): seq<SnooperConf>
  {
    SectionsBefore(lim, json, SECTIONS, [])
  }

  /** The range flags parse_snooper leaves, whether the range list parses or not. */
  function FlagsLeft(json: Json): bv32
  {
    match GetItem(json, "probe")
    case None => 0
    case Some(item) => FlagsBefore(0, Children(item))
  }

  /** A description that parses leaves exactly the flags and configurations it yields. */
  lemma LeftAgrees(lim: Limits, json: Json)
    ensures FlagsSpec(json).Some? ==> FlagsSpec(json).value == FlagsLeft(json)
    ensures ConfsSpec(lim, json).Some? ==> ConfsSpec(lim, json).value == ConfsLeft(lim, json)
  {
    var probe := GetItem(json, "probe");
    if probe.Some? {
      FlagsBeforeAgrees(0, Children(probe.value));
    }
    if ConfsSpec(lim, json).Some? {
      var c1 := SectionSpec(lim, json, SecProcId, []);
      var c2 := AndThen(lim, c1, json, SecProcName);
      var c3 := AndThen(lim, c2, json, SecPod);
      var c4 := AndThen(lim, c3, json, SecContainer);
      assert SECTIONS[1..][1..][1..][1..][1..] == [];
      SectionBeforeAgrees(lim, json, SecGaussdb, c4.value);
    }
  }

  /** When a section parses, the list it leaves is the list it yields. */
  lemma SectionBeforeAgrees(lim: Limits, json: Json, sec: Section, confs: seq<SnooperConf>)
    ensures SectionSpec(lim, json, sec, confs).Some? ==> SectionSpec(lim, json, sec, confs).value == SectionBefore(lim, json, sec, confs)
  {
    var item := GetItem(json, SectionName(sec));
    if item.Some? {
      ExtendBeforeAgrees(lim, confs, sec, Children(item.value));
    }
  }

  /** A configuration list parse_snooper can leave behind: bounded, with no empty entry. */
  predicate Storable(r: Option<seq<SnooperConf>>)
  {
    r.Some? ==> |r.value| <= SNOOPER_MAX && forall k :: 0 <= k < |r.value| ==> !Skipped(r.value[k])
  }

  lemma AndThenStorable(lim: Limits, r: Option<seq<SnooperConf>>, json: Json, sec: Section)
    requires Storable(r)
    ensures Storable(AndThen(lim, r, json, sec))
  {
    if r.Some? {
      SectionKeeps(lim, json, sec, r.value);
      var out := AndThen(lim, r, json, sec);
      if out.Some? {
        var v := out.value;
        forall k | 0 <= k < |v| ensures !Skipped(v[k]) {
          if k < |r.value| {
            assert v[k] == v[..|r.value|][k] == r.value[k];
          }
        }
      }
    }
  }

  /** A description that parses yields at most SNOOPER_MAX configurations, none of them empty. */
  lemma ConfsSpecBounded(lim: Limits, json: Json)
    ensures Storable(ConfsSpec(lim, json))
  {
    var c1 := SectionSpec(lim, json, SecProcId, []);
    SectionKeeps(lim, json, SecProcId, []);
    AndThenStorable(lim, c1, json, SecProcName);
    var c2 := AndThen(lim, c1, json, SecProcName);
    AndThenStorable(lim, c2, json, SecPod);
    var c3 := AndThen(lim, c2, json, SecPod);
    AndThenStorable(lim, c3, json, SecContainer);
    var c4 := AndThen(lim, c3, json, SecContainer);
    AndThenStorable(lim, c4, json, SecGaussdb);
  }

  lemma SectionKeeps(lim: Limits, json: Json, sec: Section, confs: seq<SnooperConf>)
    requires |confs| <= SNOOPER_MAX
    ensures var r := SectionSpec(lim, json, sec, confs);
      r.Some? ==> (|confs| <= |r.value| <= SNOOPER_MAX && r.value[..|confs|] == confs
        && forall k :: |confs| <= k < |r.value| ==> !Skipped(r.value[k]))
  {
    var item := GetItem(json, SectionName(sec));
    if item.Some? {
      ExtendKeeps(lim, confs, sec, Children(item.value));
    }
  }

  /** The section a configuration is printed in and parsed from. */
  function SectionOf(c: SnooperConf): Section
  {
    match c
    case ConfProcId(_) => SecProcId
    case ConfApp(_, _, _) => SecProcName
    case ConfPod(_) => SecPod
    case ConfContainer(_) => SecContainer
    case ConfGaussdb(_, _, _, _, _) => SecGaussdb
  }

  /** cJSON_CreateNumber's valueint: the value, saturated at INT_MAX. */
  function ValueInt(v: nat): int
  {
    if v >= 0x7fff_ffff then 0x7fff_ffff else v
  }

  function OrEmpty(s: Option<string>): string
  {
    if s.Some? then s.value else ""
  }

  /** The array element print_snooper_* writes for one configuration; absent strings print as "". */
  function ConfJson(c: SnooperConf): Json
  {
    match c
    case ConfProcId(pid) => JNumber(ValueInt(pid))
    case ConfApp(comm, cmdline, dbgdir) =>
      JObject([("comm", JString(comm)), ("cmdline", JString(OrEmpty(cmdline))), ("debugging_dir", JString(OrEmpty(dbgdir)))])
    case ConfPod(pod) => JString(pod)
    case ConfContainer(id) => JString(id)
    case ConfGaussdb(ip, dbname, usr, pass, port) =>
      JObject([("dbip", JString(OrEmpty(ip))), ("dbport", JNumber(ValueInt(port))), ("dbname", JString(OrEmpty(dbname))),
        ("dbuser", JString(OrEmpty(usr))), ("dbpass", JString(OrEmpty(pass)))])
  }

  /** The configurations of one section, in table order. */
  function Only(sec: Section, cs: seq<SnooperConf>): (r: seq<SnooperConf>)
    ensures |r| <= |cs|
  {
    if |cs| == 0 then []
    else (if SectionOf(cs[0]) == sec then [cs[0]] else []) + Only(sec, cs[1..])
  }

  /** The array print_snooper writes for one section. */
  function Printed(sec: Section, cs: seq<SnooperConf>): seq<Json>
  {
    if |cs| == 0 then []
    else (if SectionOf(cs[0]) == sec then [ConfJson(cs[0])] else []) + Printed(sec, cs[1..])
  }

  /** print_snooper: the probe's range names, then one array per section. */
  function PrintSnooper(probeType: ProbeType, flags: bv32, cs: seq<SnooperConf>): Json
  {
    PrintedJson(PrintedRanges(probeType, flags), cs)
  }

  function PrintedJson(ranges: seq<string>, cs: seq<SnooperConf>): Json
  {
    SnooperObject(JArray(seq(|ranges|, k requires 0 <= k < |ranges| => JString(ranges[k]))),
      JArray(Printed(SecProcId, cs)), JArray(Printed(SecProcName, cs)), JArray(Printed(SecPod, cs)),
      JArray(Printed(SecContainer, cs)), JArray(Printed(SecGaussdb, cs)))
  }

  /** The object print_snooper builds, member by member. */
  function SnooperObject(probe: Json, procId: Json, procName: Json, pod: Json, containerId: Json, gaussdb: Json): Json
  {
    JObject([("probe", probe), ("proc_id", procId), ("proc_name", procName), ("pod", pod),
      ("container_id", containerId), ("gaussdb", gaussdb)])
  }

  /** The configurations print_snooper's output describes again: one kind after another. */
  function Grouped(cs: seq<SnooperConf>): seq<SnooperConf>
  {
    Only(SecProcId, cs) + Only(SecProcName, cs) + Only(SecPod, cs) + Only(SecContainer, cs) + Only(SecGaussdb, cs)
  }

  /** A configuration the parser can store: no empty name, no empty optional string, numbers that fit an int. */
  predicate Storable1(c: SnooperConf)
  {
    match c
    case ConfProcId(pid) => pid <= 0x7fff_ffff
    case ConfApp(comm, cmdline, dbgdir) => comm != "" && cmdline != Some("") && dbgdir != Some("")
    case ConfPod(pod) => pod != ""
    case ConfContainer(id) => id != ""
    case ConfGaussdb(ip, dbname, usr, pass, port) =>
      ip != Some("") && dbname != Some("") && usr != Some("") && pass != Some("") && port <= 0x7fff_ffff
  }

  function NonEmptyOr(s: Option<string>): Option<string>
  {
    NonEmpty(OrEmpty(s))
  }

  /** Passing over a member whose key does not match. */
  lemma FindMemberSkip(ms: seq<(string, Json)>, name: string)
    requires |ms| > 0 && !EqualsIgnoreCase(ms[0].0, name)
    ensures FindMember(ms, name) == FindMember(ms[1..], name)
  {
  }

  /** A present optional string printed as itself, an absent one as "", reads back as it was. */
  lemma OptTextOrEmpty(x: Option<string>)
    requires x != Some("")
    ensures OptText(Some(JString(OrEmpty(x)))) == x
  {
  }

  lemma AppComm(comm: string, cmdline: Option<string>, dbgdir: Option<string>)
    ensures GetItem(ConfJson(ConfApp(comm, cmdline, dbgdir)), "comm") == Some(JString(comm))
  {
    var ms := ConfJson(ConfApp(comm, cmdline, dbgdir)).members;
    EqualsIgnoreCaseRefl("comm");
  }

  lemma AppCmdline(comm: string, cmdline: Option<string>, dbgdir: Option<string>)
    ensures GetItem(ConfJson(ConfApp(comm, cmdline, dbgdir)), "cmdline") == Some(JString(OrEmpty(cmdline)))
  {
    var ms := ConfJson(ConfApp(comm, cmdline, dbgdir)).members;
    EqualsIgnoreCaseRefl("cmdline");
    FindMemberSkip(ms, "cmdline");
  }

  lemma AppDbgdir(comm: string, cmdline: Option<string>, dbgdir: Option<string>)
    ensures GetItem(ConfJson(ConfApp(comm, cmdline, dbgdir)), "debugging_dir") == Some(JString(OrEmpty(dbgdir)))
  {
    var ms := ConfJson(ConfApp(comm, cmdline, dbgdir)).members;
    EqualsIgnoreCaseRefl("debugging_dir");
    FindMemberSkip(ms, "debugging_dir");
    FindMemberSkip(ms[1..], "debugging_dir");
  }

  lemma GaussdbIp(ip: Option<string>, dbname: Option<string>, usr: Option<string>, pass: Option<string>, port: nat)
    ensures GetItem(ConfJson(ConfGaussdb(ip, dbname, usr, pass, port)), "dbip") == Some(JString(OrEmpty(ip)))
  {
    var ms := ConfJson(ConfGaussdb(ip, dbname, usr, pass, port)).members;
    EqualsIgnoreCaseRefl("dbip");
  }

  lemma GaussdbPort(ip: Option<string>, dbname: Option<string>, usr: Option<string>, pass: Option<string>, port: nat)
    ensures GetItem(ConfJson(ConfGaussdb(ip, dbname, usr, pass, port)), "dbport") == Some(JNumber(ValueInt(port)))
  {
    var ms := ConfJson(ConfGaussdb(ip, dbname, usr, pass, port)).members;
    EqualsIgnoreCaseRefl("dbport");
    FindMemberSkip(ms, "dbport");
  }

  lemma GaussdbName(ip: Option<string>, dbname: Option<string>, usr: Option<string>, pass: Option<string>, port: nat)
    ensures GetItem(ConfJson(ConfGaussdb(ip, dbname, usr, pass, port)), "dbname") == Some(JString(OrEmpty(dbname)))
  {
    var ms := ConfJson(ConfGaussdb(ip, dbname, usr, pass, port)).members;
    EqualsIgnoreCaseRefl("dbname");
    NotEqualsIgnoreCaseAt("dbport", "dbname", 2);
    FindMemberSkip(ms, "dbname");
    FindMemberSkip(ms[1..], "dbname");
  }

  lemma GaussdbUser(ip: Option<string>, dbname: Option<string>, usr: Option<string>, pass: Option<string>, port: nat)
    ensures GetItem(ConfJson(ConfGaussdb(ip, dbname, usr, pass, port)), "dbuser") == Some(JString(OrEmpty(usr)))
  {
    var ms := ConfJson(ConfGaussdb(ip, dbname, usr, pass, port)).members;
    EqualsIgnoreCaseRefl("dbuser");
    NotEqualsIgnoreCaseAt("dbport", "dbuser", 2);
    NotEqualsIgnoreCaseAt("dbname", "dbuser", 2);
    FindMemberSkip(ms, "dbuser");
    FindMemberSkip(ms[1..], "dbuser");
    FindMemberSkip(ms[1..][1..], "dbuser");
  }

  lemma GaussdbPass(ip: Option<string>, dbname: Option<string>, usr: Option<string>, pass: Option<string>, port: nat)
    ensures GetItem(ConfJson(ConfGaussdb(ip, dbname, usr, pass, port)), "dbpass") == Some(JString(OrEmpty(pass)))
  {
    var ms := ConfJson(ConfGaussdb(ip, dbname, usr, pass, port)).members;
    EqualsIgnoreCaseRefl("dbpass");
    NotEqualsIgnoreCaseAt("dbport", "dbpass", 3);
    NotEqualsIgnoreCaseAt("dbname", "dbpass", 2);
    NotEqualsIgnoreCaseAt("dbuser", "dbpass", 2);
    FindMemberSkip(ms, "dbpass");
    FindMemberSkip(ms[1..], "dbpass");
    FindMemberSkip(ms[1..][1..], "dbpass");
    FindMemberSkip(ms[1..][1..][1..], "dbpass");
  }

  /** The element printed for a storable configuration parses back to it. */
  lemma ConfJsonParses(c: SnooperConf)
    requires Storable1(c)
    ensures ConfOf(SectionOf(c), ConfJson(c)) == Some(c)
  {
    match c
    case ConfProcId(pid) =>
    case ConfApp(comm, cmdline, dbgdir) =>
      AppComm(comm, cmdline, dbgdir);
      AppCmdline(comm, cmdline, dbgdir);
      AppDbgdir(comm, cmdline, dbgdir);
      OptTextOrEmpty(cmdline);
      OptTextOrEmpty(dbgdir);
    case ConfPod(_) =>
    case ConfContainer(_) =>
    case ConfGaussdb(ip, dbname, usr, pass, port) =>
      GaussdbIp(ip, dbname, usr, pass, port);
      GaussdbPort(ip, dbname, usr, pass, port);
      GaussdbName(ip, dbname, usr, pass, port);
      GaussdbUser(ip, dbname, usr, pass, port);
      GaussdbPass(ip, dbname, usr, pass, port);
  }

  /** Parsing one printed section appends that section's configurations. */
  lemma {:induction false} ExtendPrinted(lim: Limits, confs: seq<SnooperConf>, sec: Section, cs: seq<SnooperConf>)
    requires forall k :: 0 <= k < |cs| ==> Storable1(cs[k]) && Fits(lim, cs[k])
    requires |confs| + |Only(sec, cs)| <= SNOOPER_MAX
    ensures Extend(lim, confs, sec, Printed(sec, cs)) == Some(confs + Only(sec, cs))
    decreases |cs|
  {
    if |cs| > 0 {
      var c := cs[0];
      assert forall k :: 1 <= k < |cs| ==> cs[k] == cs[1..][k - 1];
      if SectionOf(c) == sec {
        ConfJsonParses(c);
        var items := Printed(sec, cs);
        assert items == [ConfJson(c)] + Printed(sec, cs[1..]);
        assert items[0] == ConfJson(c) && items[1..] == Printed(sec, cs[1..]);
        assert Only(sec, cs) == [c] + Only(sec, cs[1..]);
        assert !Skipped(c) && Stored(lim, c) == c;
        ExtendPrinted(lim, confs + [c], sec, cs[1..]);
        assert confs + [c] + Only(sec, cs[1..]) == confs + Only(sec, cs);
      } else {
        assert Printed(sec, cs) == Printed(sec, cs[1..]) && Only(sec, cs) == Only(sec, cs[1..]);
        ExtendPrinted(lim, confs, sec, cs[1..]);
      }
    } else {
      assert confs + [] == confs;
    }
  }

  /** Every configuration belongs to exactly one section. */
  lemma {:induction false} GroupedLength(cs: seq<SnooperConf>)
    ensures |Grouped(cs)| == |cs|
  {
    if |cs| > 0 {
      GroupedLength(cs[1..]);
    }
  }

  lemma PrintedSection(ranges: seq<string>, cs: seq<SnooperConf>, sec: Section)
    ensures GetItem(PrintedJson(ranges, cs), SectionName(sec)) == Some(JArray(Printed(sec, cs)))
  {
    var probe := JArray(seq(|ranges|, k requires 0 <= k < |ranges| => JString(ranges[k])));
    var p1, p2, p3 := JArray(Printed(SecProcId, cs)), JArray(Printed(SecProcName, cs)), JArray(Printed(SecPod, cs));
    var p4, p5 := JArray(Printed(SecContainer, cs)), JArray(Printed(SecGaussdb, cs));
    match sec
    case SecProcId => KeyProcId(probe, p1, p2, p3, p4, p5);
    case SecProcName => KeyProcName(probe, p1, p2, p3, p4, p5);
    case SecPod => KeyPod(probe, p1, p2, p3, p4, p5);
    case SecContainer => KeyContainer(probe, p1, p2, p3, p4, p5);
    case SecGaussdb => KeyGaussdb(probe, p1, p2, p3, p4, p5);
  }

  lemma KeyProcId(probe: Json, procId: Json, procName: Json, pod: Json, containerId: Json, gaussdb: Json)
    ensures GetItem(SnooperObject(probe, procId, procName, pod, containerId, gaussdb), "proc_id") == Some(procId)
  {
    var ms := SnooperObject(probe, procId, procName, pod, containerId, gaussdb).members;
    EqualsIgnoreCaseRefl("proc_id");
    FindMemberSkip(ms, "proc_id");
  }

  lemma KeyProcName(probe: Json, procId: Json, procName: Json, pod: Json, containerId: Json, gaussdb: Json)
    ensures GetItem(SnooperObject(probe, procId, procName, pod, containerId, gaussdb), "proc_name") == Some(procName)
  {
    var ms := SnooperObject(probe, procId, procName, pod, containerId, gaussdb).members;
    EqualsIgnoreCaseRefl("proc_name");
    FindMemberSkip(ms, "proc_name");
    FindMemberSkip(ms[1..], "proc_name");
  }

  lemma KeyPod(probe: Json, procId: Json, procName: Json, pod: Json, containerId: Json, gaussdb: Json)
    ensures GetItem(SnooperObject(probe, procId, procName, pod, containerId, gaussdb), "pod") == Some(pod)
  {
    var ms := SnooperObject(probe, procId, procName, pod, containerId, gaussdb).members;
    EqualsIgnoreCaseRefl("pod");
    FindMemberSkip(ms, "pod");
    FindMemberSkip(ms[1..], "pod");
    FindMemberSkip(ms[1..][1..], "pod");
  }

  lemma KeyContainer(probe: Json, procId: Json, procName: Json, pod: Json, containerId: Json, gaussdb: Json)
    ensures GetItem(SnooperObject(probe, procId, procName, pod, containerId, gaussdb), "container_id") == Some(containerId)
  {
    var ms := SnooperObject(probe, procId, procName, pod, containerId, gaussdb).members;
    EqualsIgnoreCaseRefl("container_id");
    FindMemberSkip(ms, "container_id");
    FindMemberSkip(ms[1..], "container_id");
    FindMemberSkip(ms[1..][1..], "container_id");
    FindMemberSkip(ms[1..][1..][1..], "container_id");
  }

  lemma KeyGaussdb(probe: Json, procId: Json, procName: Json, pod: Json, containerId: Json, gaussdb: Json)
    ensures GetItem(SnooperObject(probe, procId, procName, pod, containerId, gaussdb), "gaussdb") == Some(gaussdb)
  {
    var ms := SnooperObject(probe, procId, procName, pod, containerId, gaussdb).members;
    EqualsIgnoreCaseRefl("gaussdb");
    NotEqualsIgnoreCaseAt("proc_id", "gaussdb", 0);
    FindMemberSkip(ms, "gaussdb");
    FindMemberSkip(ms[1..], "gaussdb");
    FindMemberSkip(ms[1..][1..], "gaussdb");
    FindMemberSkip(ms[1..][1..][1..], "gaussdb");
    FindMemberSkip(ms[1..][1..][1..][1..], "gaussdb");
  }

  lemma PrintedProbe(ranges: seq<string>, cs: seq<SnooperConf>)
    ensures GetItem(PrintedJson(ranges, cs), "probe") == Some(PrintedJson(ranges, cs).members[0].1)
  {
    EqualsIgnoreCaseRefl("probe");
  }

  /**
   * Printing a probe's snooper description and parsing it again gives back
   * its configurations, grouped by kind in section order with the order
   * inside each kind kept; the range list parses without error.
   */
  lemma PrintParses(lim: Limits, ranges: seq<string>, cs: seq<SnooperConf>)
    requires |cs| <= SNOOPER_MAX && forall k :: 0 <= k < |cs| ==> Storable1(cs[k]) && Fits(lim, cs[k])
    ensures FlagsSpec(PrintedJson(ranges, cs)).Some?
    ensures ConfsSpec(lim, PrintedJson(ranges, cs)) == Some(Grouped(cs))
  {
    var j := PrintedJson(ranges, cs);
    PrintedProbe(ranges, cs);
    ProbeFlagsGrow(0, Children(j.members[0].1));
    GroupedLength(cs);
    var o1 := Only(SecProcId, cs);
    var o2 := Only(SecProcName, cs);
    var o3 := Only(SecPod, cs);
    var o4 := Only(SecContainer, cs);
    PrintedSection(ranges, cs, SecProcId);
    ExtendPrinted(lim, [], SecProcId, cs);
    assert [] + o1 == o1;
    PrintedSection(ranges, cs, SecProcName);
    ExtendPrinted(lim, o1, SecProcName, cs);
    PrintedSection(ranges, cs, SecPod);
    ExtendPrinted(lim, o1 + o2, SecPod, cs);
    PrintedSection(ranges, cs, SecContainer);
    ExtendPrinted(lim, o1 + o2 + o3, SecContainer, cs);
    PrintedSection(ranges, cs, SecGaussdb);
    ExtendPrinted(lim, o1 + o2 + o3 + o4, SecGaussdb, cs);
  }

  /** The round trip for print_snooper's own output, whose range names are all strings. */
  lemma PrintSnooperParses(lim: Limits, probeType: ProbeType, flags: bv32, cs: seq<SnooperConf>)
    requires |cs| <= SNOOPER_MAX && forall k :: 0 <= k < |cs| ==> Storable1(cs[k]) && Fits(lim, cs[k])
    ensures FlagsSpec(PrintSnooper(probeType, flags, cs)).Some?
    ensures ConfsSpec(lim, PrintSnooper(probeType, flags, cs)) == Some(Grouped(cs))
  {
    PrintParses(lim, PrintedRanges(probeType, flags), cs);
  }

  /** An object the probe snoops on. */
  datatype SnooperObj =
    | ObjProc(procId: nat)
    | ObjCgrp(knid: nat)
    | ObjGaussdb(ip: Option<string>, dbname: Option<string>, usr: Option<string>, pass: Option<string>, port: nat)

  /** The lowest empty slot of an object table. */
  function FirstIdle(t: seq<Option<SnooperObj>>): (r: Option<nat>)
    ensures r.Some? ==> r.value < |t| && t[r.value].None? && forall j :: 0 <= j < r.value ==> t[j].Some?
    ensures r.None? ==> forall j :: 0 <= j < |t| ==> t[j].Some?
  {
    if |t| == 0 then None
    else if t[0].None? then Some(0)
    else
      var r := FirstIdle(t[1..]);
      assert forall j :: 1 <= j < |t| ==> t[j] == t[1..][j - 1];
      if r.None? then None else Some(r.value + 1)
  }

  /** The table after add_snooper_obj_* places o in the lowest empty slot, if any. */
  function Placed(t: seq<Option<SnooperObj>>, o: SnooperObj): (r: seq<Option<SnooperObj>>)
  {
    match FirstIdle(t)
    case None => t
    case Some(p) => t[p := Some(o)]
  }

  /** A table whose objects fill the slots from 0 without gaps. */
  function Table(list: seq<SnooperObj>): (t: seq<Option<SnooperObj>>)
    requires |list| <= SNOOPER_MAX
    ensures |t| == SNOOPER_MAX
  {
    seq(SNOOPER_MAX, i requires 0 <= i < SNOOPER_MAX => if i < |list| then Some(list[i]) else None)
  }

  /** Placing into a gap-free table appends to its list, or fails when it is full. */
  lemma PlacedTable(list: seq<SnooperObj>, o: SnooperObj)
    requires |list| <= SNOOPER_MAX
    ensures FirstIdle(Table(list)).Some? <==> |list| < SNOOPER_MAX
    ensures |list| < SNOOPER_MAX ==> Placed(Table(list), o) == Table(list + [o])
    ensures |list| == SNOOPER_MAX ==> Placed(Table(list), o) == Table(list)
  {
    var t := Table(list);
    if |list| < SNOOPER_MAX {
      assert t[|list|].None?;
      var r := FirstIdle(t);
      assert r.Some? && r.value == |list|;
      assert t[|list| := Some(o)] == Table(list + [o]);
    } else {
      assert FirstIdle(t).None?;
    }
  }

  /** A /proc directory entry: its name, and its comm and cmdline when they can be read. */
  datatype ProcEntry = ProcEntry(name: string, comm: Option<string>, cmdline: Option<string>)

  /** A container of get_all_container: its abbreviated id, and its pod when get_container_pod succeeds. */
  datatype ContainerEntry = ContainerEntry(abbrId: string, pod: Option<string>)

  /** What the generators read from the system, as inputs. */
  datatype Env = Env(
    /** The entries of /proc, or None when it cannot be opened. */
    procDir: Option<seq<ProcEntry>>,
    /** The container table, or None when it cannot be built. */
    containers: Option<seq<ContainerEntry>>,
    /** get_container_cpucg_inode, None on failure. */
    containerInode: string -> Option<nat>,
    /** __chk_snooper_pattern(pattern, comm). */
    commMatches: (string, string) -> bool)

  /**
   * gen_snooper_by_procname's test of one /proc entry: a process
   * directory whose comm matches the pattern and, when the configuration
   * has one, whose cmdline contains the configured cmdline.
   */
  predicate AppMatches(c: SnooperConf, e: ProcEntry, env: Env)
    requires c.ConfApp?
  {
    IsProcDir(e.name) && AppMatchesAsWritten(c, e, env)
  }

  /** The same test as the source writes it: the directory-name test can never skip an entry. */
  predicate AppMatchesAsWritten(c: SnooperConf, e: ProcEntry, env: Env)
    requires c.ConfApp?
  {
    e.comm.Some? && env.commMatches(c.comm, e.comm.value)
    && (c.cmdline.Some? ==> e.cmdline.Some? && FindFrom(e.cmdline.value, c.cmdline.value, 0).Some?)
  }

  /** The process objects gen_snooper_by_procname adds: one per matching entry, pid (u32)atoi(name). */
  function AppObjs(c: SnooperConf, entries: seq<ProcEntry>, env: Env): (os: seq<SnooperObj>)
    requires c.ConfApp?
    ensures |os| <= |entries|
  {
    if |entries| == 0 then []
    else
      (if AppMatches(c, entries[0], env) then [ObjProc(U32(CAtoi(entries[0].name)))] else [])
      + AppObjs(c, entries[1..], env)
  }

  function AppObjsAsWritten(c: SnooperConf, entries: seq<ProcEntry>, env: Env): (os: seq<SnooperObj>)
    requires c.ConfApp?
    ensures |os| <= |entries|
  {
    if |entries| == 0 then []
    else
      (if AppMatchesAsWritten(c, entries[0], env) then [ObjProc(U32(CAtoi(entries[0].name)))] else [])
      + AppObjsAsWritten(c, entries[1..], env)
  }

  /** Every object the intended scan adds is a process named by a /proc directory, with a positive pid. */
  lemma {:induction false} AppObjsFromProcDirs(c: SnooperConf, entries: seq<ProcEntry>, env: Env)
    requires c.ConfApp?
    ensures forall o :: o in AppObjs(c, entries, env) ==>
      exists e :: e in entries && IsProcDir(e.name) && o == ObjProc(U32(CAtoi(e.name)))
        && (|e.name| <= 9 ==> U32(CAtoi(e.name)) >= 1)
  {
    if |entries| > 0 {
      AppObjsFromProcDirs(c, entries[1..], env);
      if IsProcDir(entries[0].name) && |entries[0].name| <= 9 {
        ShortNumberInRange(entries[0].name);
      }
    }
  }

  /**
   * As written, the "self" entry of /proc passes the directory test. Its
   * comm is read by running cat on /proc/self/comm, so it is the comm of
   * that cat process: a configuration whose pattern matches "cat" adds
   * process 0.
   */
  lemma SelfEntryAsWritten()
    ensures var c := ConfApp("cat", None, None);
      var env := Env(Some([ProcEntry("self", Some("cat"), None)]), None, _ => None, (p, comm) => p == comm);
      AppObjsAsWritten(c, env.procDir.value, env) == [ObjProc(0)] && AppObjs(c, env.procDir.value, env) == []
  {
    var c := ConfApp("cat", None, None);
    var env := Env(Some([ProcEntry("self", Some("cat"), None)]), None, _ => None, (p, comm) => p == comm);
    var e := ProcEntry("self", Some("cat"), None);
    assert AppMatchesAsWritten(c, e, env);
    assert !IsDigit(e.name[0]) && !IsSpace(e.name[0]);
    assert DigitRun(e.name) == 0;
    assert Atoi(e.name) == 0 && CAtoi(e.name) == 0;
    assert [e][1..] == [];
  }

  /** The cgroup objects gen_snooper_by_pod adds: containers of the pod (ignoring case) whose inode resolves. */
  function PodObjs(pod: string, cs: seq<ContainerEntry>, env: Env): (os: seq<SnooperObj>)
    ensures |os| <= |cs|
  {
    if |cs| == 0 then []
    else
      var ce := cs[0];
      var inode := env.containerInode(ce.abbrId);
      (if ce.pod.Some? && EqualsIgnoreCase(ce.pod.value, pod) && inode.Some? then [ObjCgrp(inode.value)] else [])
      + PodObjs(pod, cs[1..], env)
  }

  /** Objects added one by one, ignoring the adds that fail because the table is full. */
  function AddAll(list: seq<SnooperObj>, os: seq<SnooperObj>): (r: seq<SnooperObj>)
    requires |list| <= SNOOPER_MAX
    ensures |list| <= |r| <= SNOOPER_MAX && r[..|list|] == list
    ensures |r| == if |list| + |os| <= SNOOPER_MAX then |list| + |os| else SNOOPER_MAX
    decreases |os|
  {
    if |os| == 0 then list
    else
      var next := if |list| < SNOOPER_MAX then list + [os[0]] else list;
      var r := AddAll(next, os[1..]);
      assert r[..|list|] == next[..|list|];
      r
  }

  /** One add that reports failure when the table is full. */
  function AddOne(list: seq<SnooperObj>, o: SnooperObj): (seq<SnooperObj>, bool)
  {
    if |list| < SNOOPER_MAX then (list + [o], true) else (list, false)
  }

  /** The generator for one configuration: the object list after it and whether it succeeded. */
  function Generate(list: seq<SnooperObj>, c: SnooperConf, env: Env): (r: (seq<SnooperObj>, bool))
    requires |list| <= SNOOPER_MAX
    ensures |list| <= |r.0| <= SNOOPER_MAX && r.0[..|list|] == list
  {
    match c
    case ConfApp(_, _, _) =>
      (match env.procDir
       case None => (list, false)
       case Some(entries) => (AddAll(list, AppObjs(c, entries, env)), true))
    case ConfGaussdb(ip, dbname, usr, pass, port) => AddOne(list, ObjGaussdb(ip, dbname, usr, pass, port))
    case ConfProcId(pid) => AddOne(list, ObjProc(pid))
    case ConfPod(pod) =>
      (match env.containers
       case None => (list, true)
       case Some(cs) => (AddAll(list, PodObjs(pod, cs, env)), true))
    case ConfContainer(id) =>
      if id == "" then (list, true)
      else match env.containerInode(id)
        case None => (list, false)
        case Some(inode) => AddOne(list, ObjCgrp(inode))
  }

  /** refresh_snooper_obj's object list: the generators in configuration order, up to the first failure. */
  function GenerateAll(list: seq<SnooperObj>, confs: seq<SnooperConf>, env: Env): (r: seq<SnooperObj>)
    requires |list| <= SNOOPER_MAX
    ensures |list| <= |r| <= SNOOPER_MAX && r[..|list|] == list
    decreases |confs|
  {
    if |confs| == 0 then list
    else
      var g := Generate(list, confs[0], env);
      if g.1 then
        var r := GenerateAll(g.0, confs[1..], env);
        assert r[..|list|] == g.0[..|list|];
        r
      else g.0
  }

  /** The table after __rcv_snooper_proc_exit: every process object of pid is gone. */
  function DropPid(t: seq<Option<SnooperObj>>, pid: nat): (r: seq<Option<SnooperObj>>)
    ensures |r| == |t|
  {
    seq(|t|, j requires 0 <= j < |t| => if t[j] == Some(ObjProc(pid)) then None else t[j])
  }

  /**
   * After a process exits no slot refers to it, every other slot is as it
   * was, and a second exit notification changes nothing.
   */
  lemma DropPidExact(t: seq<Option<SnooperObj>>, pid: nat)
    ensures Some(ObjProc(pid)) !in DropPid(t, pid)
    ensures forall j :: 0 <= j < |t| && t[j] != Some(ObjProc(pid)) ==> DropPid(t, pid)[j] == t[j]
    ensures DropPid(DropPid(t, pid), pid) == DropPid(t, pid)
  {
  }

  /** The configurations s[..n] of a slot table whose first n slots are filled. */
  function ConfsOf(s: seq<Option<SnooperConf>>, n: nat): (r: seq<SnooperConf>)
    requires n <= |s| && forall i :: 0 <= i < n ==> s[i].Some?
    ensures |r| == n && forall i :: 0 <= i < n ==> r[i] == s[i].value
  {
    if n == 0 then [] else ConfsOf(s, n - 1) + [s[n - 1].value]
  }

  /** A probe's snooper state: the range flags and the configuration and object tables. */
  class Probe {
    const probeType: ProbeType
    /** The configuration buffers' sizes. */
    const lim: Limits
    var rangeFlags: bv32
    var confNum: nat
    const confs: array<Option<SnooperConf>>
    const objs: array<Option<SnooperObj>>

    ghost predicate Valid()
      reads this, confs
    {
      confs.Length == SNOOPER_MAX && objs.Length == SNOOPER_MAX && confNum <= SNOOPER_MAX
      && forall i :: 0 <= i < confNum ==> confs[i].Some?
    }

    /** The configurations in table order. */
    function ConfList(): (r: seq<SnooperConf>)
      reads this, confs
      requires Valid()
      ensures |r| == confNum
    {
      ConfsOf(confs[..], confNum)
    }

    constructor(t: ProbeType, lim: Limits)
      ensures Valid() && probeType == t && this.lim == lim && rangeFlags == 0 && ConfList() == []
      ensures objs[..] == Table([])
      ensures fresh(confs) && fresh(objs)
    {
      probeType := t;
      this.lim := lim;
      rangeFlags := 0;
      confNum := 0;
      confs := new Option<SnooperConf>[SNOOPER_MAX](_ => None);
      objs := new Option<SnooperObj>[SNOOPER_MAX](_ => None);
      new;
      assert objs[..] == Table([]);
    }

    /**
     * add_snooper_conf_procid/_procname/_pod/_container/_gaussdb: fails
     * when the table is full, accepts an empty comm, pod or container id
     * without storing it, and otherwise stores c in the next slot, its
     * comm and container id cut to their buffers.
     */
    method AddConf(c: SnooperConf) returns (ret: int)
      requires Valid()
      modifies this, confs
      ensures Valid() && rangeFlags == old(rangeFlags)
      ensures ret == 0 || ret == -1
      ensures ret == -1 <==> old(confNum) >= SNOOPER_MAX
      ensures ConfList() == if ret == -1 || Skipped(c) then old(ConfList()) else old(ConfList()) + [Stored(lim, c)]
    {
      if confNum >= SNOOPER_MAX {
        return -1;
      }
      if Skipped(c) {
        return 0;
      }
      ghost var before := ConfList();
      confs[confNum] := Some(Stored(lim, c));
      confNum := confNum + 1;
      assert ConfList() == before + [Stored(lim, c)] by {
        assert forall i :: 0 <= i < |before| ==> confs[i].value == before[i];
      }
      return 0;
    }

    /**
     * parse_snooper_probe: ORs in the flag of every listed range; fails at
     * a non-string element, keeping the flags of the elements before it.
     */
    method ParseProbe(json: Json) returns (ret: int)
      requires Valid()
      modifies this
      ensures Valid() && ConfList() == old(ConfList())
      ensures ret == 0 || ret == -1
      ensures var item := GetItem(json, "probe");
        var r := if item.None? then Some(old(rangeFlags)) else ProbeFlags(old(rangeFlags), Children(item.value));
        && (ret == 0 <==> r.Some?) && (ret == 0 ==> rangeFlags == r.value)
        && rangeFlags == if item.None? then old(rangeFlags) else FlagsBefore(old(rangeFlags), Children(item.value))
    {
      var item := GetItem(json, "probe");
      if item.None? {
        return 0;
      }
      var items := Children(item.value);
      var i := 0;
      while i < |items|
        invariant 0 <= i <= |items|
        invariant ProbeFlags(rangeFlags, items[i..]) == ProbeFlags(old(rangeFlags), items)
        invariant FlagsBefore(rangeFlags, items[i..]) == FlagsBefore(old(rangeFlags), items)
        invariant Valid() && ConfList() == old(ConfList())
      {
        assert items[i..][1..] == items[i + 1..];
        if !items[i].JString? {
          return -1;
        }
        rangeFlags := rangeFlags | GetProbeRange(items[i].s);
        i := i + 1;
      }
      return 0;
    }

    /**
     * parse_snooper_procid/_procname/_pod_container/_gaussdb: one
     * section's elements, in order; a failure keeps the configurations
     * added before it.
     */
    method ParseSection(json: Json, sec: Section) returns (ret: int)
      requires Valid()
      modifies this, confs
      ensures Valid() && rangeFlags == old(rangeFlags)
      ensures ret == 0 || ret == -1
      ensures var r := SectionSpec(lim, json, sec, old(ConfList()));
        (ret == 0 <==> r.Some?) && (ret == 0 ==> ConfList() == r.value)
      ensures ConfList() == SectionBefore(lim, json, sec, old(ConfList()))
    {
      var item := GetItem(json, SectionName(sec));
      if item.None? {
        return 0;
      }
      var items := Children(item.value);
      var i := 0;
      while i < |items|
        invariant 0 <= i <= |items|
        invariant Valid() && rangeFlags == old(rangeFlags)
        invariant Extend(lim, ConfList(), sec, items[i..]) == Extend(lim, old(ConfList()), sec, items)
        invariant ExtendBefore(lim, ConfList(), sec, items[i..]) == ExtendBefore(lim, old(ConfList()), sec, items)
      {
        assert items[i..][1..] == items[i + 1..];
        var c := ConfOf(sec, items[i]);
        if c.None? {
          return -1;
        }
        var r := AddConf(c.value);
        if r != 0 {
          return -1;
        }
        i := i + 1;
      }
      return 0;
    }

    /**
     * The sections of parse_snooper in order: the first failing section
     * stops it, and each section sees the list the previous left.
     */
    method ParseSections(json: Json) returns (ret: int)
      requires Valid() && ConfList() == []
      modifies this, confs
      ensures Valid() && rangeFlags == old(rangeFlags)
      ensures ret == 0 || ret == -1
      ensures (ret == 0 <==> ConfsSpec(lim, json).Some?) && (ret == 0 ==> ConfList() == ConfsSpec(lim, json).value)
      ensures ConfList() == ConfsLeft(lim, json)
    {
      ghost var secs := SECTIONS;
      ret := ParseSection(json, SecProcId);
      if ret != 0 {
        return;
      }
      secs := secs[1..];
      ret := ParseSection(json, SecProcName);
      if ret != 0 {
        return;
      }
      secs := secs[1..];
      ret := ParseSection(json, SecPod);
      if ret != 0 {
        return;
      }
      secs := secs[1..];
      ret := ParseSection(json, SecContainer);
      if ret != 0 {
        return;
      }
      secs := secs[1..];
      ret := ParseSection(json, SecGaussdb);
      assert secs[1..] == [];
    }

    /**
     * parse_snooper: drops every configuration, clears the range flags,
     * parses the sections in order and, when all succeed, regenerates the
     * objects. A failure keeps what was parsed before it and leaves the
     * objects as they were.
     */
    method ParseSnooper(json: Json, env: Env) returns (ret: int)
      requires Valid()
      modifies this, confs, objs
      ensures Valid()
      ensures ret == 0 || ret == -1
      ensures ret == 0 <==> FlagsSpec(json).Some? && ConfsSpec(lim, json).Some?
      ensures ret == 0 ==>
        rangeFlags == FlagsSpec(json).value && ConfList() == ConfsSpec(lim, json).value
        && objs[..] == Table(GenerateAll([], ConfList(), env))
      ensures rangeFlags == FlagsLeft(json)
      ensures ConfList() == if FlagsSpec(json).None? then [] else ConfsLeft(lim, json)
      ensures ret == -1 ==> objs[..] == old(objs[..])
    {
      var i := 0;
      while i < confNum
        invariant 0 <= i <= confNum <= SNOOPER_MAX
        invariant confs.Length == SNOOPER_MAX && objs.Length == SNOOPER_MAX
        invariant objs[..] == old(objs[..])
      {
        confs[i] := None;
        i := i + 1;
      }
      confNum := 0;
      rangeFlags := 0;
      ret := ParseProbe(json);
      if ret != 0 {
        return;
      }
      ret := ParseSections(json);
      if ret != 0 {
        return;
      }
      RefreshObjs(env);
    }

    /** __get_snooper_obj_idle: the lowest empty object slot, or -1. */
    method IdleSlot() returns (pos: int)
      requires Valid()
      ensures pos == match FirstIdle(objs[..]) case Some(p) => p case None => -1
    {
      var i := 0;
      while i < objs.Length
        invariant 0 <= i <= objs.Length
        invariant forall j :: 0 <= j < i ==> objs[j].Some?
      {
        if objs[i].None? {
          assert FirstIdle(objs[..]) == Some(i);
          return i;
        }
        i := i + 1;
      }
      return -1;
    }

    /** add_snooper_obj_procid/_cgrp/_gaussdb: o in the lowest empty slot, or -1 when the table is full. */
    method AddObj(o: SnooperObj) returns (ret: int)
      requires Valid()
      modifies objs
      ensures ret == 0 || ret == -1
      ensures ret == 0 <==> FirstIdle(old(objs[..])).Some?
      ensures objs[..] == Placed(old(objs[..]), o)
    {
      var pos := IdleSlot();
      if pos < 0 {
        return -1;
      }
      objs[pos] := Some(o);
      return 0;
    }

    /** Adds every object, ignoring the adds that fail. */
    method AddEach(os: seq<SnooperObj>, ghost list: seq<SnooperObj>)
      requires Valid() && |list| <= SNOOPER_MAX && objs[..] == Table(list)
      modifies objs
      ensures objs[..] == Table(AddAll(list, os))
    {
      var k := 0;
      ghost var cur := list;
      while k < |os|
        invariant 0 <= k <= |os| && |cur| <= SNOOPER_MAX
        invariant objs[..] == Table(cur)
        invariant AddAll(cur, os[k..]) == AddAll(list, os)
      {
        assert os[k..][1..] == os[k + 1..];
        PlacedTable(cur, os[k]);
        var _ := AddObj(os[k]);
        if |cur| < SNOOPER_MAX {
          cur := cur + [os[k]];
        }
        k := k + 1;
      }
    }

    /** Runs the generator matching the configuration's type. */
    method RunGenerator(c: SnooperConf, env: Env, ghost list: seq<SnooperObj>) returns (ok: bool)
      requires Valid() && |list| <= SNOOPER_MAX && objs[..] == Table(list)
      modifies objs
      ensures (objs[..], ok) == (Table(Generate(list, c, env).0), Generate(list, c, env).1)
    {
      match c
      case ConfApp(_, _, _) =>
        if env.procDir.None? {
          return false;
        }
        AddEach(AppObjs(c, env.procDir.value, env), list);
        return true;
      case ConfGaussdb(ip, dbname, usr, pass, port) =>
        PlacedTable(list, ObjGaussdb(ip, dbname, usr, pass, port));
        var r := AddObj(ObjGaussdb(ip, dbname, usr, pass, port));
        return r == 0;
      case ConfProcId(pid) =>
        PlacedTable(list, ObjProc(pid));
        var r := AddObj(ObjProc(pid));
        return r == 0;
      case ConfPod(pod) =>
        if env.containers.Some? {
          AddEach(PodObjs(pod, env.containers.value, env), list);
        }
        return true;
      case ConfContainer(id) =>
        if id == "" {
          return true;
        }
        var inode := env.containerInode(id);
        if inode.None? {
          return false;
        }
        PlacedTable(list, ObjCgrp(inode.value));
        var r := AddObj(ObjCgrp(inode.value));
        return r == 0;
    }

    /**
     * refresh_snooper_obj: empties every object slot, then runs the
     * generators in configuration order, stopping at the first failure.
     */
    method RefreshObjs(env: Env)
      requires Valid()
      modifies objs
      ensures objs[..] == Table(GenerateAll([], ConfList(), env))
    {
      var i := 0;
      while i < objs.Length
        invariant 0 <= i <= objs.Length
        invariant forall j :: 0 <= j < i ==> objs[j].None?
      {
        objs[i] := None;
        i := i + 1;
      }
      assert objs[..] == Table([]);
      ghost var cs := ConfList();
      ghost var list: seq<SnooperObj> := [];
      var k := 0;
      while k < confNum
        invariant 0 <= k <= confNum && |list| <= SNOOPER_MAX
        invariant objs[..] == Table(list)
        invariant GenerateAll(list, cs[k..], env) == GenerateAll([], cs, env)
      {
        assert cs[k..][1..] == cs[k + 1..];
        var ok := RunGenerator(confs[k].value, env, list);
        list := Generate(list, cs[k], env).0;
        if !ok {
          return;
        }
        k := k + 1;
      }
    }

    /**
     * __rcv_snooper_proc_exec for this probe: a process object for pid in
     * a free slot for every application configuration whose comm pattern
     * matches.
     */
    method ProcExec(comm: string, pid: nat, env: Env)
      requires Valid()
      modifies objs
      ensures objs[..] == PlacedN(old(objs[..]), ObjProc(pid), MatchCount(ConfList(), comm, env, confNum))
    {
      var j := 0;
      ghost var cs := ConfList();
      ghost var n := 0;
      while j < confNum
        invariant 0 <= j <= confNum
        invariant n == MatchCount(cs, comm, env, j)
        invariant objs[..] == PlacedN(old(objs[..]), ObjProc(pid), n)
      {
        ExecConf(j, comm, pid, env);
        if CommMatches(cs[j], comm, env) {
          n := n + 1;
        }
        j := j + 1;
      }
    }

    /** One configuration of __rcv_snooper_proc_exec: an application whose comm pattern matches adds pid. */
    method ExecConf(j: nat, comm: string, pid: nat, env: Env)
      requires Valid() && j < confNum
      modifies objs
      ensures var c := ConfList()[j];
        objs[..] == if CommMatches(c, comm, env) then Placed(old(objs[..]), ObjProc(pid)) else old(objs[..])
    {
      var c := confs[j].value;
      if c.ConfApp? && env.commMatches(c.comm, comm) {
        var _ := AddObj(ObjProc(pid));
      }
    }

    /** __rcv_snooper_proc_exit for this probe: every process object of pid leaves its slot. */
    method ProcExit(pid: nat)
      requires Valid()
      modifies objs
      ensures objs[..] == DropPid(old(objs[..]), pid)
    {
      var j := 0;
      while j < objs.Length
        invariant 0 <= j <= objs.Length
        invariant forall k :: 0 <= k < j ==> objs[k] == DropPid(old(objs[..]), pid)[k]
        invariant forall k :: j <= k < objs.Length ==> objs[k] == old(objs[k])
      {
        if objs[j].Some? && objs[j].value.ObjProc? && objs[j].value.procId == pid {
          objs[j] := None;
        }
        j := j + 1;
      }
    }
  }

  /** An application configuration whose comm pattern matches comm. */
  predicate CommMatches(c: SnooperConf, comm: string, env: Env)
  {
    c.ConfApp? && env.commMatches(c.comm, comm)
  }

  /** The number of application configurations among the first j whose comm pattern matches comm. */
  function MatchCount(cs: seq<SnooperConf>, comm: string, env: Env, j: nat): nat
    requires j <= |cs|
  {
    if j == 0 then 0
    else MatchCount(cs, comm, env, j - 1) + (if CommMatches(cs[j - 1], comm, env) then 1 else 0)
  }

  /** The table after n adds of the same object. */
  function PlacedN(t: seq<Option<SnooperObj>>, o: SnooperObj, n: nat): seq<Option<SnooperObj>>
  {
    if n == 0 then t else Placed(PlacedN(t, o, n - 1), o)
  }

  /** __is_proc_dir: a directory name that starts with a digit 1-9. */
  predicate IsProcDir(name: string)
  {
    |name| > 0 && '1' <= name[0] <= '9'
  }
}
