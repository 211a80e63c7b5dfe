/**
 * The stack-sampling profiler's user-space core: the bounded buffer of
 * raw samples handed over by the BPF programs, the per-process symbol
 * cache with its FIFO ageing mirror, the folded-stack string of a
 * sample, the per-flame-graph histograms of folded stacks, the walk of
 * a stack map entry into symbols, the period timer, the statistics
 * reset and the even/odd choice between the two stack maps.  Symbol
 * tables, the BPF maps and the clock reach the model as values.
 */
module StackProbe {
  import opened Wrappers
  import opened CStr

  // ---------------------------------------------------------------------
  // Samples, frames and statistics
  // ---------------------------------------------------------------------

  /** The process a sample belongs to (stack_pid_s). */
  datatype StackPid = StackPid(procId: int, comm: string)

  /** One raw sample: its process and the ids of its user and kernel stacks (-1: none). */
  datatype StackId = StackId(pid: StackPid, userStackId: int, kernStackId: int)

  /** One resolved frame: its address, its symbol if one was found, and its module name. */
  datatype AddrSymb = AddrSymb(orignAddr: nat, sym: Option<string>, mod: string)

  /** The zero-filled frame slot every conversion starts from. */
  const NO_SYMB: AddrSymb := AddrSymb(0, None, "")

  /** What a symbol lookup finds for an address: the symbol name if any, and the module. */
  datatype Symb = Symb(sym: Option<string>, mod: string)

  /** A loaded symbol table (the kernel's, or one process's), as the lookup sees it. */
  type SymbTable = map<nat, Symb>

  /**
   * The statistics counters of a period (stack_stats_s), one per column
   * of the periodic report, in its order.
   */
  datatype Stats = Stats(
    raw: nat, loss: nat, histoErr: nat, histoFolded: nat, id2Symbs: nat, pcacheDel: nat, pcacheCrt: nat,
    kernAddrErr: nat, usrAddrErr: nat, mapLkupErr: nat, kernAddr: nat, usrAddr: nat, usrKernAddr: nat,
    pCache: nat, symbCache: nat)

  /** Every counter zero, as create_stack_trace leaves them. */
  const ZERO_STATS: Stats := Stats(0, 0, 0, 0, 0, 0, 0, 0, 0, 0, 0, 0, 0, 0, 0)

  /** The counters after the reset of clear_running_ctx: all zero except the two cache counters. */
  function ResetStats(s: Stats): Stats
  {
    ZERO_STATS.(pcacheDel := s.pcacheDel, pcacheCrt := s.pcacheCrt)
  }

  // ---------------------------------------------------------------------
  // Folded-stack strings
  // ---------------------------------------------------------------------

  /** The name a frame is printed with: its symbol, else its module. */
  function SymbName(a: AddrSymb): string
  {
    if a.sym.Some? then a.sym.value else a.mod
  }

  /** The text a frame contributes: its name, after "; " unless it is the first. */
  function Piece(a: AddrSymb, first: bool): string
  {
    (if first then "" else "; ") + SymbName(a)
  }

  /**
   * __stack_addrsymbs2string: the length written when the piece fits
   * in size bytes with its terminator and is not empty, else -1; in
   * both cases the characters snprintf leaves in the buffer.
   */
  function AddrSymbString(a: AddrSymb, first: bool, size: int): (r: (int, string))
    ensures r.0 >= 0 <==> (size > 0 && 0 < |Piece(a, first)| < size)
    ensures r.0 >= 0 ==> r.0 == |r.1| && r.1 == Piece(a, first)
    ensures IsPrefix(r.1, Piece(a, first)) && (r.1 == "" || |r.1| < size)
  {
    if size <= 0 then (-1, "")
    else
      var p := Piece(a, first);
      var w := if |p| < size then p else p[..size - 1];
      if 0 < |p| < size then (|p|, w) else (-1, w)
  }

  /** The conversion state: no failure yet, text written, first-name flag, room left. */
  datatype Fold = Fold(ok: bool, text: string, first: bool, remain: int)

  /** The state before the first frame, with a buffer of size bytes. */
  function Start(size: int): Fold
  {
    Fold(true, "", true, size)
  }

  /** One frame of __stack_symbs2string: frames with address 0 are skipped, a failure is final. */
  function Step(s: Fold, a: AddrSymb): Fold
  {
    if !s.ok || a.orignAddr == 0 then s
    else
      var r := AddrSymbString(a, s.first, s.remain);
      if r.0 < 0 then s.(ok := false, text := s.text + r.1)
      else Fold(true, s.text + r.1, false, s.remain - r.0)
  }

  /** The state after a run of frames. */
  function FoldAll(frames: seq<AddrSymb>, s: Fold): Fold
    decreases |frames|
  {
    if |frames| == 0 then s else Step(FoldAll(frames[..|frames| - 1], s), frames[|frames| - 1])
  }

  /** The state after the user frames and then the kernel frames. */
  function Folded(user: seq<AddrSymb>, kern: seq<AddrSymb>, size: int): Fold
  {
    FoldAll(kern, FoldAll(user, Start(size)))
  }

  /** The names of the frames with a non-zero address, in order. */
  function LiveNames(frames: seq<AddrSymb>): seq<string>
    decreases |frames|
  {
    if |frames| == 0 then []
    else
      var last := frames[|frames| - 1];
      LiveNames(frames[..|frames| - 1]) + (if last.orignAddr != 0 then [SymbName(last)] else [])
  }

  /** Names joined with "; ", the folded form of a stack. */
  function Joined(names: seq<string>): string
    decreases |names|
  {
    if |names| == 0 then ""
    else if |names| == 1 then names[0]
    else Joined(names[..|names| - 1]) + "; " + names[|names| - 1]
  }

  /** The whole folded stack fits: no names, or a non-empty first name and room for the terminator. */
  predicate Fits(names: seq<string>, size: int)
  {
    names == [] || (names[0] != "" && |Joined(names)| < size)
  }

  lemma JoinedSnoc(ns: seq<string>, n: string)
    ensures Joined(ns + [n]) == if ns == [] then n else Joined(ns) + "; " + n
    ensures (ns + [n])[0] == if ns == [] then n else ns[0]
  {
    assert (ns + [n])[..|ns|] == ns;
  }

  lemma FoldFailedStays(frames: seq<AddrSymb>, s: Fold)
    requires !s.ok
    ensures FoldAll(frames, s) == s
    decreases |frames|
  {
    if |frames| > 0 {
      FoldFailedStays(frames[..|frames| - 1], s);
    }
  }

  lemma {:induction false} FoldAllAppend(a: seq<AddrSymb>, b: seq<AddrSymb>, s: Fold)
    ensures FoldAll(a + b, s) == FoldAll(b, FoldAll(a, s))
    decreases |b|
  {
    if |b| == 0 {
      assert a + b == a;
    } else {
      assert (a + b)[..|a + b| - 1] == a + b[..|b| - 1];
      FoldAllAppend(a, b[..|b| - 1], s);
    }
  }

  /** What the conversion state says about the names folded so far. */
  predicate FoldInv(s: Fold, ns: seq<string>, size: int)
  {
    && (s.ok <==> Fits(ns, size))
    && (s.ok ==> s.text == Joined(ns) && s.first == (ns == []) && s.remain == size - |s.text|)
    && IsPrefix(s.text, Joined(ns))
    && (s.text == "" || |s.text| < size)
  }

  lemma FoldInvStep(s: Fold, ns: seq<string>, size: int, a: AddrSymb)
    requires FoldInv(s, ns, size) && a.orignAddr != 0
    ensures FoldInv(Step(s, a), ns + [SymbName(a)], size)
  {
    var n := SymbName(a);
    var ns2 := ns + [n];
    JoinedSnoc(ns, n);
    if !s.ok {
      assert IsPrefix(Joined(ns), Joined(ns2)) by {
        if ns != [] {
          PrefixAppend(Joined(ns), "", "; " + n);
        }
      }
      PrefixTrans(s.text, Joined(ns), Joined(ns2));
    } else {
      var p := Piece(a, s.first);
      var r := AddrSymbString(a, s.first, s.remain);
      assert p == if ns == [] then n else "; " + n;
      assert Joined(ns2) == Joined(ns) + p;
      PrefixAppend(s.text, r.1, p);
    }
  }

  /**
   * The conversion succeeds exactly when the folded stack fits, and
   * then its text is the names of the non-zero frames joined with "; ";
   * on failure the text is a prefix of it.  Either way it fits the buffer.
   */
  lemma {:induction false} FoldAllSpec(frames: seq<AddrSymb>, size: int)
    ensures FoldInv(FoldAll(frames, Start(size)), LiveNames(frames), size)
    decreases |frames|
  {
    if |frames| > 0 {
      var f := frames[..|frames| - 1];
      var a := frames[|frames| - 1];
      FoldAllSpec(f, size);
      assert FoldAll(frames, Start(size)) == Step(FoldAll(f, Start(size)), a);
      if a.orignAddr != 0 {
        assert LiveNames(frames) == LiveNames(f) + [SymbName(a)];
        FoldInvStep(FoldAll(f, Start(size)), LiveNames(f), size, a);
      } else {
        assert LiveNames(frames) == LiveNames(f);
      }
    }
  }

  lemma PrefixTrans(a: string, b: string, c: string)
    requires IsPrefix(a, b) && IsPrefix(b, c)
    ensures IsPrefix(a, c)
  {
    assert c[..|a|] == c[..|b|][..|a|];
  }

  lemma PrefixAppend(t: string, w: string, p: string)
    requires IsPrefix(w, p)
    ensures IsPrefix(t + w, t + p)
  {
    assert (t + p)[..|t + w|] == t + p[..|w|];
  }

  /** __stack_symbs2string over the user frames and then the kernel frames. */
  lemma FoldedSpec(user: seq<AddrSymb>, kern: seq<AddrSymb>, size: int)
    ensures var s := Folded(user, kern, size); var ns := LiveNames(user + kern);
      && (s.ok <==> Fits(ns, size))
      && (s.ok ==> s.text == Joined(ns))
      && IsPrefix(s.text, Joined(ns))
      && (s.text == "" || |s.text| < size)
  {
    FoldAllAppend(user, kern, Start(size));
    FoldAllSpec(user + kern, size);
  }

  lemma {:induction false} FailedPrefix(frames: seq<AddrSymb>, j: nat, s: Fold)
    requires j <= |frames| && !FoldAll(frames[..j], s).ok
    ensures FoldAll(frames, s) == FoldAll(frames[..j], s)
  {
    assert frames[..j] + frames[j..] == frames;
    FoldAllAppend(frames[..j], frames[j..], s);
    FoldFailedStays(frames[j..], FoldAll(frames[..j], s));
  }

  /**
   * One of the two frame loops of __stack_symbs2string: each frame with
   * a non-zero address is written after the text so far; the loop stops
   * at the first frame that does not fit.
   */
  method WriteFrames(frames: seq<AddrSymb>, s0: Fold) returns (s: Fold)
    requires s0.ok
    ensures s == FoldAll(frames, s0)
  {
    var first, remain, text := s0.first, s0.remain, s0.text;
    var i := 0;
    while i < |frames|
      invariant 0 <= i <= |frames|
      invariant FoldAll(frames[..i], s0) == Fold(true, text, first, remain)
    {
      assert frames[..i + 1][..i] == frames[..i];
      if frames[i].orignAddr != 0 {
        var r := AddrSymbString(frames[i], first, remain);
        text := text + r.1;
        if r.0 < 0 {
          s := Fold(false, text, first, remain);
          FailedPrefix(frames, i + 1, s0);
          return;
        }
        remain := remain - r.0;
        first := false;
      }
      i := i + 1;
    }
    assert frames[..i] == frames;
    s := Fold(true, text, first, remain);
  }

  /**
   * __stack_symbs2string: 0 exactly when the whole folded stack (user
   * frames, then kernel frames) fits the buffer, and then the text is
   * that folded stack; -1 otherwise, with a prefix of it left behind.
   */
  method Symbs2String(user: seq<AddrSymb>, kern: seq<AddrSymb>, size: int) returns (ret: int, str: string)
    ensures ret == 0 || ret == -1
    ensures ret == 0 <==> Fits(LiveNames(user + kern), size)
    ensures ret == 0 ==> str == Joined(LiveNames(user + kern))
    ensures IsPrefix(str, Joined(LiveNames(user + kern))) && (str == "" || |str| < size)
    ensures str == Folded(user, kern, size).text
  {
    FoldedSpec(user, kern, size);
    var s := WriteFrames(user, Start(size));
    if !s.ok {
      FoldFailedStays(kern, s);
      return -1, s.text;
    }
    s := WriteFrames(kern, s);
    ret := if s.ok then 0 else -1;
    str := s.text;
  }

  // ---------------------------------------------------------------------
  // Histograms of folded stacks
  // ---------------------------------------------------------------------

  /** One histogram per flame graph; None where the flame graph is not enabled. */
  type Histos = seq<Option<map<string, nat>>>

  /** The first enabled histogram from index i on that already counts str. */
  function FirstHolder(hs: Histos, str: string, i: nat): (r: Option<nat>)
    requires i <= |hs|
    ensures r.Some? ==> i <= r.value < |hs| && hs[r.value].Some? && str in hs[r.value].value
    ensures r.Some? ==> forall j :: i <= j < r.value && hs[j].Some? ==> str !in hs[j].value
    ensures r.None? ==> forall j :: i <= j < |hs| && hs[j].Some? ==> str !in hs[j].value
    decreases |hs| - i
  {
    if i == |hs| then None
    else if hs[i].Some? && str in hs[i].value then Some(i)
    else FirstHolder(hs, str, i + 1)
  }

  /**
   * The histogram loop of add_stack_histo from index i on: the first
   * enabled histogram that already counts str gets one more and the loop
   * stops; each enabled histogram before it gets str with count 1.
   */
  function AddFrom(hs: Histos, str: string, i: nat): Histos
    requires i <= |hs|
    decreases |hs| - i
  {
    if i == |hs| then hs
    else if hs[i].None? then AddFrom(hs, str, i + 1)
    else if str in hs[i].value then hs[i := Some(hs[i].value[str := hs[i].value[str] + 1])]
    else AddFrom(hs[i := Some(hs[i].value[str := 1])], str, i + 1)
  }

  /** The histograms after one folded stack str is counted. */
  function HistoAdd(hs: Histos, str: string): Histos
  {
    AddFrom(hs, str, 0)
  }

  /** What histogram j holds after counting str, given the first holder from the scan's start. */
  function Counted(hs: Histos, str: string, j: nat, holder: Option<nat>): Option<map<string, nat>>
    requires j < |hs|
  {
    if hs[j].None? then None
    else if holder.Some? && j == holder.value && str in hs[j].value then Some(hs[j].value[str := hs[j].value[str] + 1])
    else if holder.Some? && j > holder.value then hs[j]
    else Some(hs[j].value[str := 1])
  }

  lemma FirstHolderSame(hs: Histos, hs2: Histos, str: string, i: nat)
    requires i <= |hs| == |hs2| && hs[i..] == hs2[i..]
    ensures FirstHolder(hs, str, i) == FirstHolder(hs2, str, i)
  {
    var a, b := FirstHolder(hs, str, i), FirstHolder(hs2, str, i);
    assert forall j :: i <= j < |hs| ==> hs[j] == hs2[j] by {
      forall j | i <= j < |hs| ensures hs[j] == hs2[j] {
        assert hs[j] == hs[i..][j - i];
      }
    }
  }

  lemma {:induction false} AddFromExact(hs: Histos, str: string, i: nat)
    requires i <= |hs|
    ensures var r := AddFrom(hs, str, i);
      && |r| == |hs| && r[..i] == hs[..i]
      && forall j :: i <= j < |hs| ==> r[j] == Counted(hs, str, j, FirstHolder(hs, str, i))
    decreases |hs| - i
  {
    if i < |hs| && hs[i].None? {
      AddFromExact(hs, str, i + 1);
    } else if i < |hs| && str !in hs[i].value {
      var hs2 := hs[i := Some(hs[i].value[str := 1])];
      AddFromExact(hs2, str, i + 1);
      assert hs2[i + 1..] == hs[i + 1..];
      FirstHolderSame(hs, hs2, str, i + 1);
      var r := AddFrom(hs, str, i);
      assert r[..i] == hs[..i] by {
        assert r[..i] == r[..i + 1][..i];
      }
    }
  }

  /**
   * add_stack_histo's counting, case by case: disabled histograms stay
   * disabled; if some histogram already counts str, the first such one
   * gets count + 1 with no new entry, the enabled ones before it get str
   * with count 1 and the ones after it are unchanged; otherwise every
   * enabled histogram gets str with count 1.
   */
  lemma HistoAddSpec(hs: Histos, str: string)
    ensures var r := HistoAdd(hs, str); var k := FirstHolder(hs, str, 0);
      && |r| == |hs|
      && (forall j :: 0 <= j < |hs| && hs[j].None? ==> r[j].None?)
      && (k.None? ==> forall j :: 0 <= j < |hs| && hs[j].Some? ==> r[j] == Some(hs[j].value[str := 1]))
      && (k.Some? ==> r[k.value] == Some(hs[k.value].value[str := hs[k.value].value[str] + 1]))
      && (k.Some? ==> forall j :: 0 <= j < k.value && hs[j].Some? ==> r[j] == Some(hs[j].value[str := 1]))
      && (k.Some? ==> forall j :: k.value < j < |hs| ==> r[j] == hs[j])
  {
    AddFromExact(hs, str, 0);
  }

  // ---------------------------------------------------------------------
  // The raw-sample buffer
  // ---------------------------------------------------------------------

  /** The samples of one period (raw_stack_trace_s): stackSize slots, the first count in use. */
  class RawStackTrace {
    const stackSize: nat
    const traces: array<StackId>
    var count: nat

    ghost predicate Valid()
      reads this
    {
      traces.Length == stackSize && count <= stackSize
    }

    /** The samples held, oldest first. */
    ghost function Samples(): seq<StackId>
      reads this, traces
      requires Valid()
    {
      traces[..count]
    }

    /** create_raw_stack_trace: room for cpusNum * percpuSampleCount samples, none held. */
    constructor (cpusNum: nat, percpuSampleCount: nat)
      ensures Valid() && stackSize == cpusNum * percpuSampleCount && count == 0
      ensures fresh(traces)
    {
      stackSize := cpusNum * percpuSampleCount;
      traces := new StackId[cpusNum * percpuSampleCount](_ => StackId(StackPid(0, ""), -1, -1));
      count := 0;
    }

    /**
     * add_raw_stack_id: a full buffer refuses the sample and nothing
     * changes; otherwise the sample goes into the next slot.
     */
    method Add(id: StackId) returns (ret: int)
      requires Valid()
      modifies this, traces
      ensures Valid()
      ensures old(count) >= stackSize ==> ret == -1 && count == old(count) && traces[..] == old(traces[..])
      ensures old(count) < stackSize ==> ret == 0 && Samples() == old(Samples()) + [id]
    {
      if count >= stackSize {
        return -1;
      }
      traces[count] := id;
      count := count + 1;
      return 0;
    }

    /** clear_raw_stack_trace: no sample is held any more. */
    method Clear()
      requires Valid()
      modifies this
      ensures Valid() && count == 0 && Samples() == []
    {
      count := 0;
    }
  }

  // ---------------------------------------------------------------------
  // The FIFO mirror of the process cache
  // ---------------------------------------------------------------------

  /** No element occurs twice. */
  predicate Distinct<T(==)>(s: seq<T>)
  {
    forall i, j :: 0 <= i < j < |s| ==> s[i] != s[j]
  }

  /**
   * The mirror after one more cache entry: appended below capacity; at
   * capacity the oldest leaves from the front and the new one goes last.
   */
  function MirrorAdd<T>(m: seq<T>, k: T, max: nat): (r: seq<T>)
    requires |m| <= max && max >= 1
    ensures 1 <= |r| <= max && r[|r| - 1] == k
  {
    if |m| < max then m + [k] else m[1..] + [k]
  }

  /** The newest max entries of a creation history, oldest first. */
  function Newest<T>(h: seq<T>, max: nat): (r: seq<T>)
    ensures |r| <= max && |r| <= |h|
  {
    if |h| <= max then h else h[|h| - max..]
  }

  /** The mirror always holds the newest entries ever created, in creation order. */
  lemma MirrorIsNewest<T>(h: seq<T>, k: T, max: nat)
    requires max >= 1
    ensures MirrorAdd(Newest(h, max), k, max) == Newest(h + [k], max)
  {
    if |h| >= max {
      assert (h + [k])[|h| + 1 - max..] == h[|h| - max..][1..] + [k];
    }
  }

  // ---------------------------------------------------------------------
  // Walking a stack-map entry
  // ---------------------------------------------------------------------

  /** The fill patterns of unused stack slots (IS_IEG_ADDR). */
  const FILL_CC: nat := 0xcccccccccccccccc
  const FILL_FF: nat := 0xffffffffffffffff

  /** A stack slot that holds a real return address. */
  predicate IsLiveAddr(a: nat)
  {
    a != 0 && a != FILL_CC && a != FILL_FF
  }

  /** The real addresses of a stack-map entry, deepest frame (last slot) first. */
  function LiveIps(ips: seq<nat>): (r: seq<nat>)
    ensures |r| <= |ips|
    decreases |ips|
  {
    if |ips| == 0 then [] else LiveIps(ips[1..]) + (if IsLiveAddr(ips[0]) then [ips[0]] else [])
  }

  /** Later slots come out first: the walk reads the entry from its end. */
  lemma {:induction false} LiveIpsAppend(a: seq<nat>, b: seq<nat>)
    ensures LiveIps(a + b) == LiveIps(b) + LiveIps(a)
    decreases |a|
  {
    if |a| == 0 {
      assert a + b == b;
    } else {
      assert (a + b)[1..] == a[1..] + b;
      LiveIpsAppend(a[1..], b);
    }
  }

  /** Exactly the real addresses of the entry come out. */
  lemma {:induction false} LiveIpsMembers(ips: seq<nat>, a: nat)
    ensures a in LiveIps(ips) <==> a in ips && IsLiveAddr(a)
    decreases |ips|
  {
    if |ips| > 0 {
      LiveIpsMembers(ips[1..], a);
      assert ips == [ips[0]] + ips[1..];
    }
  }

  lemma LiveIpsStep(ips: seq<nat>, i: nat)
    requires i < |ips|
    ensures LiveIps(ips[i..]) == LiveIps(ips[i + 1..]) + (if IsLiveAddr(ips[i]) then [ips[i]] else [])
  {
    assert ips[i..][1..] == ips[i + 1..];
  }

  /** The addresses walked before slot i come first in the whole walk. */
  lemma LiveIpsSplit(ips: seq<nat>, i: nat)
    requires i <= |ips|
    ensures LiveIps(ips) == LiveIps(ips[i..]) + LiveIps(ips[..i])
  {
    assert ips == ips[..i] + ips[i..];
    LiveIpsAppend(ips[..i], ips[i..]);
  }

  lemma CountKnownSnoc(table: SymbTable, addrs: seq<nat>, a: nat)
    ensures CountKnown(table, addrs + [a]) == CountKnown(table, addrs) + (if a in table then 1 else 0)
  {
    assert (addrs + [a])[..|addrs|] == addrs;
  }

  /** The slot the kernel lookup fills for an address: its symbol, or an unnamed frame. */
  function KernSlot(ksyms: SymbTable, a: nat): (r: AddrSymb)
    ensures r.orignAddr == a
  {
    if a in ksyms then AddrSymb(a, ksyms[a].sym, ksyms[a].mod) else AddrSymb(a, None, "")
  }

  /**
   * The slot stack_id2symbs_user leaves for an address: the process's
   * symbol; for an address its table lacks, the command as module; and
   * when the process has no symbols at all, the lookup writes nothing,
   * so the slot keeps the zero address of the cleared buffer with the
   * command as module, and the folding skips it.
   */
  function UserSlot(table: Option<SymbTable>, comm: string, a: nat): (r: AddrSymb)
    ensures r.mod == comm || (table.Some? && a in table.value)
    ensures r.orignAddr == 0 <==> table.None? || a == 0
  {
    if table.None? then AddrSymb(0, None, comm)
    else if a in table.value then AddrSymb(a, table.value[a].sym, table.value[a].mod)
    else AddrSymb(a, None, comm)
  }

  /** The slots the kernel walk fills for a run of addresses, in order. */
  function KernSlots(ksyms: SymbTable, addrs: seq<nat>): (r: seq<AddrSymb>)
    ensures |r| == |addrs|
    decreases |addrs|
  {
    if |addrs| == 0 then [] else KernSlots(ksyms, addrs[..|addrs| - 1]) + [KernSlot(ksyms, addrs[|addrs| - 1])]
  }

  /** The slots the user walk fills for a run of addresses, in order. */
  function UserSlots(table: Option<SymbTable>, comm: string, addrs: seq<nat>): (r: seq<AddrSymb>)
    ensures |r| == |addrs|
    decreases |addrs|
  {
    if |addrs| == 0 then [] else UserSlots(table, comm, addrs[..|addrs| - 1]) + [UserSlot(table, comm, addrs[|addrs| - 1])]
  }

  lemma {:induction false} KernSlotsIndex(ksyms: SymbTable, addrs: seq<nat>)
    ensures forall j :: 0 <= j < |addrs| ==> KernSlots(ksyms, addrs)[j] == KernSlot(ksyms, addrs[j])
    decreases |addrs|
  {
    if |addrs| > 0 {
      KernSlotsIndex(ksyms, addrs[..|addrs| - 1]);
    }
  }

  lemma {:induction false} UserSlotsIndex(table: Option<SymbTable>, comm: string, addrs: seq<nat>)
    ensures forall j :: 0 <= j < |addrs| ==> UserSlots(table, comm, addrs)[j] == UserSlot(table, comm, addrs[j])
    decreases |addrs|
  {
    if |addrs| > 0 {
      UserSlotsIndex(table, comm, addrs[..|addrs| - 1]);
    }
  }

  /**
   * The slot the user lookup was evidently meant to leave: the process's
   * symbol, or else a frame of its own address named after the command,
   * also when the process has no symbols.
   */
  function UserSlotNamed(table: Option<SymbTable>, comm: string, a: nat): (r: AddrSymb)
    ensures r.orignAddr == a
    ensures table.None? ==> SymbName(r) == comm
  {
    if table.Some? && a in table.value then AddrSymb(a, table.value[a].sym, table.value[a].mod)
    else AddrSymb(a, None, comm)
  }

  /** The intended slots of a run of user addresses, in order. */
  function NamedSlots(table: Option<SymbTable>, comm: string, addrs: seq<nat>): (r: seq<AddrSymb>)
    ensures |r| == |addrs|
    decreases |addrs|
  {
    if |addrs| == 0 then [] else NamedSlots(table, comm, addrs[..|addrs| - 1]) + [UserSlotNamed(table, comm, addrs[|addrs| - 1])]
  }

  lemma {:induction false} LiveNamesAppend(a: seq<AddrSymb>, b: seq<AddrSymb>)
    ensures LiveNames(a + b) == LiveNames(a) + LiveNames(b)
    decreases |b|
  {
    if |b| == 0 {
      assert a + b == a;
    } else {
      assert (a + b)[..|a + b| - 1] == a + b[..|b| - 1];
      LiveNamesAppend(a, b[..|b| - 1]);
    }
  }

  /** As written, the user frames of a process without symbols leave no name in the folded stack. */
  lemma {:induction false} NoSymbolsFramesVanish(comm: string, addrs: seq<nat>)
    ensures LiveNames(UserSlots(None, comm, addrs)) == []
    decreases |addrs|
  {
    if |addrs| > 0 {
      var f := UserSlots(None, comm, addrs);
      assert f[..|f| - 1] == UserSlots(None, comm, addrs[..|addrs| - 1]);
      NoSymbolsFramesVanish(comm, addrs[..|addrs| - 1]);
    }
  }

  /**
   * With the intended slots every real user frame keeps its place in
   * the folded stack, under its symbol, or under the command when the
   * process has no symbols.
   */
  lemma {:induction false} NamedFramesKept(table: Option<SymbTable>, comm: string, addrs: seq<nat>)
    requires forall j :: 0 <= j < |addrs| ==> addrs[j] != 0
    ensures var ns := LiveNames(NamedSlots(table, comm, addrs));
      && |ns| == |addrs|
      && (forall j :: 0 <= j < |addrs| ==> ns[j] == SymbName(UserSlotNamed(table, comm, addrs[j])))
      && (table.None? ==> forall j :: 0 <= j < |addrs| ==> ns[j] == comm)
    decreases |addrs|
  {
    if |addrs| > 0 {
      var init := addrs[..|addrs| - 1];
      var f, g := NamedSlots(table, comm, addrs), NamedSlots(table, comm, init);
      var last := UserSlotNamed(table, comm, addrs[|addrs| - 1]);
      assert f[..|f| - 1] == g;
      assert LiveNames(f) == LiveNames(g) + [SymbName(last)];
      assert forall j :: 0 <= j < |init| ==> init[j] == addrs[j];
      NamedFramesKept(table, comm, init);
    }
  }

  /**
   * Two unresolved user frames of a process without symbols, above one
   * kernel frame "k": the code folds "k" alone, where the intended slots
   * fold "app; app; k".
   */
  lemma NoSymbolsFolding()
    ensures Joined(LiveNames(UserSlots(None, "app", [2, 1]) + [AddrSymb(3, Some("k"), "")])) == "k"
    ensures Joined(LiveNames(NamedSlots(None, "app", [2, 1]) + [AddrSymb(3, Some("k"), "")])) == "app; app; k"
  {
    var kern := [AddrSymb(3, Some("k"), "")];
    assert LiveNames(kern) == ["k"] by {
      assert kern[..0] == [];
    }
    NoSymbolsFramesVanish("app", [2, 1]);
    LiveNamesAppend(UserSlots(None, "app", [2, 1]), kern);
    NamedFramesKept(None, "app", [2, 1]);
    LiveNamesAppend(NamedSlots(None, "app", [2, 1]), kern);
    var ns := LiveNames(NamedSlots(None, "app", [2, 1]));
    assert ns == ["app", "app"];
    assert ns + ["k"] == ["app", "app", "k"];
    assert ["app", "app", "k"][..2] == ["app", "app"];
    assert ["app", "app"][..1] == ["app"];
  }

  /** __is_cpu_idle: the frame is the idle loop. */
  predicate IsIdle(a: AddrSymb)
  {
    a.sym == Some("do_idle")
  }

  /** Some frame is the idle loop. */
  predicate HasIdle(slots: seq<AddrSymb>)
  {
    exists j :: 0 <= j < |slots| && IsIdle(slots[j])
  }

  /** The first |slots| cells hold slots and the rest are as before. */
  predicate SlotsWritten(now: seq<AddrSymb>, before: seq<AddrSymb>, slots: seq<AddrSymb>)
  {
    |now| == |before| && |slots| <= |now| && now[..|slots|] == slots && now[|slots|..] == before[|slots|..]
  }

  /** What stack_id2symbs makes of one sample. */
  datatype Outcome =
    | Abort                                        // a stack id missing from the stack map
    | Skip                                         // the kernel stack is in the idle loop
    | Frames(user: seq<AddrSymb>, kern: seq<AddrSymb>)

  /** What the walk of one stack of a sample gives. */
  datatype Part =
    | Missing                                      // the stack id is not in the stack map
    | Idle                                         // a frame is the idle loop (kernel stacks only)
    | Walked(slots: seq<AddrSymb>)

  /** The kernel stack kid of the stack map m, resolved through the kernel symbols. */
  function KernPart(m: map<int, seq<nat>>, ksyms: SymbTable, kid: int): Part
  {
    if kid !in m then Missing
    else
      var slots := KernSlots(ksyms, LiveIps(m[kid]));
      if HasIdle(slots) then Idle else Walked(slots)
  }

  /** The user stack uid of the stack map m, resolved through the process's symbols (if any). */
  function UserPart(m: map<int, seq<nat>>, table: Option<SymbTable>, comm: string, uid: int): Part
  {
    if uid !in m then Missing else Walked(UserSlots(table, comm, LiveIps(m[uid])))
  }

  /**
   * The outcome of a sample against the selected stack map, the kernel
   * symbols and the process's symbol table (if any): kernel stack first,
   * then user stack; a stack id below 0 means the sample has no such
   * stack, which gives no slots.
   */
  function SampleOutcome(m: map<int, seq<nat>>, ksyms: SymbTable, table: Option<SymbTable>, sid: StackId): Outcome
  {
    var k := if sid.kernStackId >= 0 then KernPart(m, ksyms, sid.kernStackId) else Walked([]);
    var u := if sid.userStackId >= 0 then UserPart(m, table, sid.pid.comm, sid.userStackId) else Walked([]);
    if k.Missing? then Abort
    else if k.Idle? then Skip
    else if u.Missing? then Abort
    else Frames(u.slots, k.slots)
  }

  /**
   * The progress of a conversion: whether a sample failed, the
   * histograms, and the ID2SYMBS counter.
   */
  datatype Run = Run(aborted: bool, histos: Histos, converted: nat)

  /** The histograms after one folded stack; an empty one is not counted. */
  function Record(hs: Histos, text: string): Histos
  {
    if text == "" then hs else HistoAdd(hs, text)
  }

  /**
   * One sample of the conversion: after a failure nothing changes; a
   * failed sample stops the conversion, an idle one is skipped, and any
   * other is counted and its folded stack recorded.
   */
  function Apply(r: Run, o: Outcome, size: int): Run
  {
    if r.aborted then r
    else match o
      case Abort => r.(aborted := true)
      case Skip => r
      case Frames(us, ks) => Run(false, Record(r.histos, Folded(us, ks, size).text), r.converted + 1)
  }

  /** The symbol table the loader gives for a process, if any. */
  function TableOf(loads: map<StackPid, SymbTable>, pid: StackPid): Option<SymbTable>
  {
    if pid in loads then Some(loads[pid]) else None
  }

  /**
   * The conversion of a period's samples, oldest first, with the symbol
   * tables the loader gives.
   */
  function RunSamples(m: map<int, seq<nat>>, ksyms: SymbTable, loads: map<StackPid, SymbTable>, size: int,
                      samples: seq<StackId>, r0: Run): Run
    decreases |samples|
  {
    if |samples| == 0 then r0
    else
      var sid := samples[|samples| - 1];
      Apply(RunSamples(m, ksyms, loads, size, samples[..|samples| - 1], r0),
            SampleOutcome(m, ksyms, TableOf(loads, sid.pid), sid), size)
  }

  /** One more sample of the conversion. */
  lemma RunStep(m: map<int, seq<nat>>, ksyms: SymbTable, loads: map<StackPid, SymbTable>, size: int,
                samples: seq<StackId>, i: nat, r0: Run, before: Run, after: Run)
    requires i < |samples| && RunSamples(m, ksyms, loads, size, samples[..i], r0) == before
    requires Apply(before, SampleOutcome(m, ksyms, TableOf(loads, samples[i].pid), samples[i]), size) == after
    ensures RunSamples(m, ksyms, loads, size, samples[..i + 1], r0) == after
  {
    assert samples[..i + 1][..i] == samples[..i];
  }

  /** Once a sample has failed, the later ones change nothing. */
  lemma {:induction false} RunAbortStays(m: map<int, seq<nat>>, ksyms: SymbTable, loads: map<StackPid, SymbTable>,
                                         size: int, samples: seq<StackId>, j: nat, r0: Run)
    requires j <= |samples| && RunSamples(m, ksyms, loads, size, samples[..j], r0).aborted
    ensures RunSamples(m, ksyms, loads, size, samples, r0) == RunSamples(m, ksyms, loads, size, samples[..j], r0)
    decreases |samples|
  {
    if j < |samples| {
      var p := samples[..|samples| - 1];
      assert p[..j] == samples[..j];
      RunAbortStays(m, ksyms, loads, size, p, j, r0);
    } else {
      assert samples[..j] == samples;
    }
  }

  /** Which flame graphs are enabled: the shape of the histograms. */
  function Enabled(hs: Histos): seq<bool>
  {
    seq(|hs|, i requires 0 <= i < |hs| => hs[i].Some?)
  }

  /** clear_stack_histo on every enabled flame graph: each keeps its place and counts nothing. */
  function Cleared(hs: Histos): (r: Histos)
    ensures Enabled(r) == Enabled(hs)
    ensures forall i :: 0 <= i < |r| && r[i].Some? ==> r[i].value == map[]
  {
    seq(|hs|, i requires 0 <= i < |hs| => if hs[i].Some? then Some(map[]) else None)
  }

  /** Clearing depends only on which flame graphs are enabled. */
  lemma ClearedByShape(a: Histos, b: Histos)
    requires Enabled(a) == Enabled(b)
    ensures Cleared(a) == Cleared(b)
  {
    assert |a| == |Enabled(a)| == |b|;
    forall i | 0 <= i < |a| ensures Cleared(a)[i] == Cleared(b)[i] {
      assert Enabled(a)[i] == Enabled(b)[i];
    }
  }

  /** Counting a folded stack neither enables nor disables a flame graph. */
  lemma RecordKeepsEnabled(hs: Histos, text: string)
    ensures Enabled(Record(hs, text)) == Enabled(hs)
  {
    if text != "" {
      HistoAddSpec(hs, text);
      var r := HistoAdd(hs, text);
      forall j | 0 <= j < |hs| ensures r[j].Some? == hs[j].Some? {
      }
    }
  }

  /** A whole conversion keeps the flame graphs that are enabled. */
  lemma {:induction false} RunKeepsEnabled(m: map<int, seq<nat>>, ksyms: SymbTable, loads: map<StackPid, SymbTable>,
                                           size: int, samples: seq<StackId>, r0: Run)
    ensures Enabled(RunSamples(m, ksyms, loads, size, samples, r0).histos) == Enabled(r0.histos)
    decreases |samples|
  {
    if |samples| > 0 {
      var sid := samples[|samples| - 1];
      var before := RunSamples(m, ksyms, loads, size, samples[..|samples| - 1], r0);
      RunKeepsEnabled(m, ksyms, loads, size, samples[..|samples| - 1], r0);
      var o := SampleOutcome(m, ksyms, TableOf(loads, sid.pid), sid);
      if !before.aborted && o.Frames? {
        RecordKeepsEnabled(before.histos, Folded(o.user, o.kern, size).text);
      }
    }
  }

  /** An even conversion count selects map A. */
  predicate Even(n: nat)
  {
    n % 2 == 0
  }

  /** is_tmout's test: the clock is past the last conversion by at least a period. */
  predicate TimedOut(last: int, now: int, period: int)
  {
    now > last && now - last >= period
  }

  /** Frames with address 0 leave the conversion state as it is. */
  lemma {:induction false} FoldAllBlank(frames: seq<AddrSymb>, s: Fold)
    requires forall j :: 0 <= j < |frames| ==> frames[j].orignAddr == 0
    ensures FoldAll(frames, s) == s
    decreases |frames|
  {
    if |frames| > 0 {
      FoldAllBlank(frames[..|frames| - 1], s);
    }
  }

  /**
   * Slots written over a blank (zeroed) buffer fold to the same text as
   * the slots alone: the blank cells left behind are skipped.
   */
  lemma BlankPadding(us: seq<AddrSymb>, u0: seq<AddrSymb>, u1: seq<AddrSymb>, size: int,
                     ks: seq<AddrSymb>, k0: seq<AddrSymb>, k1: seq<AddrSymb>)
    requires SlotsWritten(u1, u0, us) && SlotsWritten(k1, k0, ks)
    requires forall j :: 0 <= j < |u0| ==> u0[j] == NO_SYMB
    requires forall j :: 0 <= j < |k0| ==> k0[j] == NO_SYMB
    ensures Folded(u1, k1, size) == Folded(us, ks, size)
  {
    assert u1 == us + u0[|us|..];
    assert k1 == ks + k0[|ks|..];
    FoldAllAppend(us, u0[|us|..], Start(size));
    FoldAllBlank(u0[|us|..], FoldAll(us, Start(size)));
    FoldAllAppend(ks, k0[|ks|..], FoldAll(us, Start(size)));
    FoldAllBlank(k0[|ks|..], FoldAll(ks, FoldAll(us, Start(size))));
  }

  /** The state of the kernel frame loop with slot i next: done holds the walked addresses. */
  predicate KernWalkInv(ksyms: SymbTable, ips: seq<nat>, i: int, index: nat, done: seq<nat>, found: nat,
                        outs: seq<AddrSymb>, orig: seq<AddrSymb>)
  {
    && -1 <= i < |ips| && |outs| == |orig| == |ips|
    && done == LiveIps(ips[i + 1..]) && index == |done| <= |ips| - (i + 1)
    && (forall j :: 0 <= j < index ==> outs[j] == KernSlot(ksyms, done[j]) && !IsIdle(outs[j]))
    && (forall j :: index <= j < |outs| ==> outs[j] == orig[j])
    && found == CountKnown(ksyms, done)
  }

  /** How many of the addresses a table that may be missing resolves. */
  function KnownCount(table: Option<SymbTable>, addrs: seq<nat>): (n: nat)
    ensures n <= |addrs|
  {
    if table.Some? then CountKnown(table.value, addrs) else 0
  }

  /** The state of the user frame loop with slot i next: done holds the walked addresses. */
  predicate UserWalkInv(table: Option<SymbTable>, comm: string, ips: seq<nat>, i: int, index: nat, done: seq<nat>,
                        ok: nat, outs: seq<AddrSymb>, orig: seq<AddrSymb>)
  {
    && -1 <= i < |ips| && |outs| == |orig| == |ips|
    && done == LiveIps(ips[i + 1..]) && index == |done| <= |ips| - (i + 1)
    && (forall j :: 0 <= j < index ==> outs[j] == UserSlot(table, comm, done[j]))
    && (forall j :: index <= j < |outs| ==> outs[j] == orig[j])
    && ok == KnownCount(table, done)
  }

  lemma UserWalkLive(table: Option<SymbTable>, comm: string, ips: seq<nat>, i: int, index: nat, done: seq<nat>,
                     ok: nat, outs: seq<AddrSymb>, orig: seq<AddrSymb>)
    requires UserWalkInv(table, comm, ips, i, index, done, ok, outs, orig) && i >= 0 && index < |outs|
    requires IsLiveAddr(ips[i])
    ensures UserWalkInv(table, comm, ips, i - 1, index + 1, done + [ips[i]],
                        ok + (if table.Some? && ips[i] in table.value then 1 else 0),
                        outs[index := UserSlot(table, comm, ips[i])], orig)
  {
    LiveIpsStep(ips, i);
    if table.Some? {
      CountKnownSnoc(table.value, done, ips[i]);
    }
  }

  lemma UserWalkDead(table: Option<SymbTable>, comm: string, ips: seq<nat>, i: int, index: nat, done: seq<nat>,
                     ok: nat, outs: seq<AddrSymb>, orig: seq<AddrSymb>)
    requires UserWalkInv(table, comm, ips, i, index, done, ok, outs, orig) && i >= 0
    requires !IsLiveAddr(ips[i])
    ensures UserWalkInv(table, comm, ips, i - 1, index, done, ok, outs, orig)
  {
    LiveIpsStep(ips, i);
  }

  lemma UserWalkEnd(table: Option<SymbTable>, comm: string, ips: seq<nat>, i: int, index: nat, done: seq<nat>,
                    ok: nat, outs: seq<AddrSymb>, orig: seq<AddrSymb>)
    requires UserWalkInv(table, comm, ips, i, index, done, ok, outs, orig) && !(i >= 0 && index < |outs|)
    ensures done == LiveIps(ips)
    ensures SlotsWritten(outs, orig, UserSlots(table, comm, LiveIps(ips)))
    ensures ok == KnownCount(table, LiveIps(ips))
  {
    assert i == -1;
    assert ips[0..] == ips;
    UserSlotsIndex(table, comm, done);
    assert outs[..index] == UserSlots(table, comm, done);
  }

  lemma KernWalkLive(ksyms: SymbTable, ips: seq<nat>, i: int, index: nat, done: seq<nat>, found: nat,
                     outs: seq<AddrSymb>, orig: seq<AddrSymb>)
    requires KernWalkInv(ksyms, ips, i, index, done, found, outs, orig) && i >= 0 && index < |outs|
    requires IsLiveAddr(ips[i]) && !IsIdle(KernSlot(ksyms, ips[i]))
    ensures KernWalkInv(ksyms, ips, i - 1, index + 1, done + [ips[i]],
                        found + (if ips[i] in ksyms then 1 else 0), outs[index := KernSlot(ksyms, ips[i])], orig)
  {
    LiveIpsStep(ips, i);
    CountKnownSnoc(ksyms, done, ips[i]);
  }

  lemma KernWalkDead(ksyms: SymbTable, ips: seq<nat>, i: int, index: nat, done: seq<nat>, found: nat,
                     outs: seq<AddrSymb>, orig: seq<AddrSymb>)
    requires KernWalkInv(ksyms, ips, i, index, done, found, outs, orig) && i >= 0
    requires !IsLiveAddr(ips[i])
    ensures KernWalkInv(ksyms, ips, i - 1, index, done, found, outs, orig)
  {
    LiveIpsStep(ips, i);
  }

  lemma KernWalkEnd(ksyms: SymbTable, ips: seq<nat>, i: int, index: nat, done: seq<nat>, found: nat,
                    outs: seq<AddrSymb>, orig: seq<AddrSymb>)
    requires KernWalkInv(ksyms, ips, i, index, done, found, outs, orig) && !(i >= 0 && index < |outs|)
    ensures !HasIdle(KernSlots(ksyms, LiveIps(ips)))
    ensures SlotsWritten(outs, orig, KernSlots(ksyms, LiveIps(ips)))
    ensures found == CountKnown(ksyms, LiveIps(ips))
  {
    assert i == -1;
    assert ips[0..] == ips;
    KernSlotsIndex(ksyms, done);
    assert outs[..index] == KernSlots(ksyms, done);
  }

  /** An idle frame met during the walk is a frame of the whole entry. */
  lemma IdleInWalk(ksyms: SymbTable, ips: seq<nat>, i: nat)
    requires i < |ips| && IsLiveAddr(ips[i]) && IsIdle(KernSlot(ksyms, ips[i]))
    ensures HasIdle(KernSlots(ksyms, LiveIps(ips)))
  {
    LiveIpsStep(ips, i);
    LiveIpsSplit(ips, i);
    var j := |LiveIps(ips[i + 1..])|;
    assert LiveIps(ips)[j] == ips[i];
    KernSlotsIndex(ksyms, LiveIps(ips));
    assert KernSlots(ksyms, LiveIps(ips))[j] == KernSlot(ksyms, ips[i]);
  }

  /** How many of the addresses the table resolves. */
  function CountKnown(table: SymbTable, addrs: seq<nat>): (n: nat)
    ensures n <= |addrs|
    decreases |addrs|
  {
    if |addrs| == 0 then 0
    else CountKnown(table, addrs[..|addrs| - 1]) + (if addrs[|addrs| - 1] in table then 1 else 0)
  }

  /** The symbols a process's lookups use: the cached table, else a fresh load, if any. */
  function SymbsFor(cache: map<StackPid, SymbTable>, loads: map<StackPid, SymbTable>, pid: StackPid): Option<SymbTable>
  {
    if pid in cache then Some(cache[pid]) else if pid in loads then Some(loads[pid]) else None
  }

  /**
   * How one process's lookups may change the cache: they keep seeing
   * the same table, and every entry is an old one or that process's
   * freshly loaded table (entries may have been aged out).
   */
  predicate CacheGrew(c0: map<StackPid, SymbTable>, c1: map<StackPid, SymbTable>,
                      loads: map<StackPid, SymbTable>, pid: StackPid)
  {
    && SymbsFor(c1, loads, pid) == SymbsFor(c0, loads, pid)
    && (forall k :: k in c1 ==>
          (k in c0 && c1[k] == c0[k]) || (k == pid && pid !in c0 && pid in loads && c1[k] == loads[pid]))
  }

  /** Every cached table is the one the loader gives for that process. */
  predicate CacheAgrees(cache: map<StackPid, SymbTable>, loads: map<StackPid, SymbTable>)
  {
    forall k :: k in cache ==> k in loads && loads[k] == cache[k]
  }

  lemma CacheGrewTrans(c0: map<StackPid, SymbTable>, c1: map<StackPid, SymbTable>, c2: map<StackPid, SymbTable>,
                       loads: map<StackPid, SymbTable>, pid: StackPid)
    requires CacheGrew(c0, c1, loads, pid) && CacheGrew(c1, c2, loads, pid)
    ensures CacheGrew(c0, c2, loads, pid)
    ensures SymbsFor(c1, loads, pid) == SymbsFor(c0, loads, pid)
  {
  }

  /** A cache that agrees with the loader keeps agreeing, and lookups then see the loader's table. */
  lemma CacheGrewAgrees(c0: map<StackPid, SymbTable>, c1: map<StackPid, SymbTable>,
                        loads: map<StackPid, SymbTable>, pid: StackPid)
    requires CacheGrew(c0, c1, loads, pid) && CacheAgrees(c0, loads)
    ensures CacheAgrees(c1, loads)
    ensures SymbsFor(c0, loads, pid) == if pid in loads then Some(loads[pid]) else None
  {
  }

  // ---------------------------------------------------------------------
  // The profiler's running state
  // ---------------------------------------------------------------------

  /** The profiler's running state (stack_trace_s). */
  datatype PeriodState = PeriodState(runningTimes: int, convertStackCount: nat, rawCount: nat, histos: Histos,
                                     stats: Stats, stackmapA: map<int, seq<nat>>, stackmapB: map<int, seq<nat>>,
                                     procCache: map<StackPid, SymbTable>)

  class StackTrace {
    /** The raw samples of the current period. */
    const raw: RawStackTrace
    /** PROC_CACHE_MAX_COUNT: how many processes the symbol cache holds. */
    const cacheMax: nat
    /** proc_cache_mirro: the cached processes in creation order, the first mirrorCount slots in use. */
    const mirror: array<StackPid>
    var mirrorCount: nat
    /** proc_cache: the loaded symbol table of each cached process. */
    var procCache: map<StackPid, SymbTable>
    /** The kernel symbol table. */
    const ksyms: SymbTable
    /** PERF_MAX_STACK_DEPTH: the slots of one stack-map entry. */
    const depth: nat
    /** STACK_SYMBS_LEN: the buffer a folded stack is written into. */
    const symbsLen: int
    /** The histogram of each flame graph; None where that flame graph is off. */
    var histos: Histos
    var stats: Stats
    /** TMOUT_PERIOD: seconds between two conversions. */
    const tmoutPeriod: int
    var runningTimes: int
    var convertStackCount: nat
    var isStackmapA: bool
    const stackmapAFd: int
    const stackmapBFd: int
    /** The two stack maps the BPF programs fill, stack id to return addresses. */
    var stackmapA: map<int, seq<nat>>
    var stackmapB: map<int, seq<nat>>

    /**
     * create_stack_trace: everything zero, a raw buffer for cpusNum CPUs,
     * the kernel symbols loaded, the clock read into runningTimes and map
     * A selected (the conversion count is 0, which is even).  svgOn says
     * which flame graphs are enabled; each starts with an empty histogram.
     */
    constructor (cpusNum: nat, percpuSampleCount: nat, cacheMax: nat, ksyms: SymbTable, depth: nat,
                 symbsLen: int, svgOn: seq<bool>, tmoutPeriod: int, now: int, fdA: int, fdB: int)
      requires cacheMax >= 1
      ensures Valid() && fresh(raw) && fresh(raw.traces) && fresh(mirror)
      ensures raw.stackSize == cpusNum * percpuSampleCount && raw.count == 0
      ensures mirrorCount == 0 && procCache == map[]
      ensures |histos| == |svgOn| && forall i :: 0 <= i < |svgOn| ==> histos[i] == if svgOn[i] then Some(map[]) else None
      ensures stats == ZERO_STATS
      ensures runningTimes == now && convertStackCount == 0 && isStackmapA
      ensures stackmapA == map[] && stackmapB == map[]
    {
      raw := new RawStackTrace(cpusNum, percpuSampleCount);
      this.cacheMax := cacheMax;
      mirror := new StackPid[cacheMax](_ => StackPid(0, ""));
      mirrorCount := 0;
      procCache := map[];
      this.ksyms := ksyms;
      this.depth := depth;
      this.symbsLen := symbsLen;
      histos := seq(|svgOn|, i requires 0 <= i < |svgOn| => if svgOn[i] then Some(map[]) else None);
      stats := ZERO_STATS;
      this.tmoutPeriod := tmoutPeriod;
      runningTimes := now;
      convertStackCount := 0;
      isStackmapA := true;  // the conversion count 0 is even
      stackmapAFd := fdA;
      stackmapBFd := fdB;
      stackmapA := map[];
      stackmapB := map[];
    }

    /** The cache and its mirror hold the same processes, each once. */
    ghost predicate CacheValid()
      reads this`mirrorCount, this`procCache, mirror
    {
      && mirror.Length == cacheMax && cacheMax >= 1 && mirrorCount <= cacheMax
      && Mirrors(procCache, mirror[..mirrorCount])
    }

    /** Every stack-map entry has depth slots. */
    ghost predicate MapsValid()
      reads this`stackmapA, this`stackmapB
    {
      && (forall id :: id in stackmapA ==> |stackmapA[id]| == depth)
      && (forall id :: id in stackmapB ==> |stackmapB[id]| == depth)
    }

    ghost predicate Valid()
      reads this, raw, mirror
    {
      raw.Valid() && CacheValid() && MapsValid()
    }

    /** The cached processes, oldest first. */
    ghost function Mirror(): seq<StackPid>
      reads this`mirrorCount, mirror
      requires mirrorCount <= mirror.Length
    {
      mirror[..mirrorCount]
    }

    /** The state one conversion period accumulates, and the clock and count that end it. */
    ghost function Period(): PeriodState
      reads this`runningTimes, this`convertStackCount, raw, this`histos, this`stats, this`stackmapA, this`stackmapB,
        this`procCache
    {
      PeriodState(runningTimes, convertStackCount, raw.count, histos, stats, stackmapA, stackmapB, procCache)
    }

    /** get_stack_map_fd: map A's descriptor while A is selected, else map B's. */
    function GetStackMapFd(): (fd: int)
      reads this
      ensures isStackmapA ==> fd == stackmapAFd
      ensures !isStackmapA ==> fd == stackmapBFd
    {
      if isStackmapA then stackmapAFd else stackmapBFd
    }

    /** The contents of the selected stack map. */
    function CurrentMap(): map<int, seq<nat>>
      reads this`isStackmapA, this`stackmapA, this`stackmapB
    {
      if isStackmapA then stackmapA else stackmapB
    }

    /** The cache holds at most cacheMax processes. */
    lemma CacheBounded()
      requires CacheValid()
      ensures |procCache| <= cacheMax
    {
      var m := mirror[..mirrorCount];
      assert procCache.Keys == set x | x in m;
      ElementsCard(m);
    }

    /**
     * __aging_proc_cache: a cached process is removed and counted in
     * PCACHE_DEL, giving 0; an absent one gives -1 and nothing changes.
     */
    method AgingProcCache(aged: StackPid) returns (ret: int)
      modifies this`procCache, this`stats
      ensures aged in old(procCache) ==>
        ret == 0 && procCache == old(procCache) - {aged} && stats == old(stats).(pcacheDel := old(stats).pcacheDel + 1)
      ensures aged !in old(procCache) ==> ret == -1 && procCache == old(procCache) && stats == old(stats)
    {
      if aged in procCache {
        stats := stats.(pcacheDel := stats.pcacheDel + 1);
        procCache := procCache - {aged};
        return 0;
      }
      return -1;
    }

    /**
     * __add_proc_cache_mirro: below capacity the process is appended;
     * at capacity the oldest is taken from the front, the rest move one
     * slot down, the new one goes last and the oldest is aged out of the
     * cache.
     */
    method AddProcCacheMirror(key: StackPid) returns (ret: int)
      requires mirror.Length == cacheMax >= 1 && mirrorCount <= cacheMax
      modifies this`mirrorCount, mirror, this`procCache, this`stats
      ensures mirrorCount <= cacheMax
      ensures Mirror() == MirrorAdd(old(Mirror()), key, cacheMax)
      ensures procCache == Evict(old(procCache), old(Mirror()), cacheMax)
      ensures ret == if old(mirrorCount) == cacheMax && old(mirror[0]) !in old(procCache) then -1 else 0
      ensures stats == old(stats).(pcacheDel := stats.pcacheDel)
      ensures stats.pcacheDel == old(stats).pcacheDel + if old(mirrorCount) == cacheMax && old(mirror[0]) in old(procCache) then 1 else 0
    {
      if mirrorCount < cacheMax {
        mirror[mirrorCount] := key;
        mirrorCount := mirrorCount + 1;
        return 0;
      }
      var aged := mirror[0];
      ghost var m0 := Mirror();
      ShiftMirror(key);
      assert Mirror() == m0[1..] + [key];
      ret := AgingProcCache(aged);
    }

    /**
     * __create_proc_cache: when the process's symbols load, they are
     * cached and counted in PCACHE_CRT and the process joins the mirror
     * (which may age the oldest process out); when they do not, nothing
     * changes.  The cache and the mirror keep holding the same processes.
     */
    method CreateProcCache(key: StackPid, loaded: Option<SymbTable>) returns (item: Option<SymbTable>)
      requires CacheValid() && key !in procCache
      modifies this`mirrorCount, mirror, this`procCache, this`stats
      ensures CacheValid() && item == loaded
      ensures loaded.None? ==> procCache == old(procCache) && stats == old(stats) && Mirror() == old(Mirror())
      ensures loaded.Some? ==> Mirror() == MirrorAdd(old(Mirror()), key, cacheMax)
      ensures loaded.Some? ==> procCache == Evict(old(procCache)[key := loaded.value], old(Mirror()), cacheMax)
      ensures loaded.Some? ==> stats == old(stats).(pcacheCrt := stats.pcacheCrt, pcacheDel := stats.pcacheDel)
      ensures loaded.Some? ==> stats.pcacheCrt == old(stats).pcacheCrt + 1
      ensures loaded.Some? ==> stats.pcacheDel == old(stats).pcacheDel + if old(mirrorCount) == cacheMax then 1 else 0
    {
      if loaded.None? {
        return None;
      }
      ghost var m := Mirror();
      ghost var c := procCache;
      if mirrorCount == cacheMax {
        assert m[0] in c;
      }
      procCache := procCache[key := loaded.value];
      stats := stats.(pcacheCrt := stats.pcacheCrt + 1);
      ghost var s1, n0 := stats, mirrorCount;
      MirrorAddValid(m, c, key, loaded.value, cacheMax);
      var added := AddProcCacheMirror(key);
      assert Mirror() == MirrorAdd(m, key, cacheMax) && procCache == Evict(c[key := loaded.value], m, cacheMax);
      return loaded;
    }

    /**
     * search_user_addr_symb: the process's cached symbols, else freshly
     * loaded ones (which are then cached), looked up at addr; hasSymbs
     * is false, and nothing is found, when neither exists (the early -1
     * that writes no slot).
     */
    method SearchUserAddrSymb(pid: StackPid, addr: nat, loads: map<StackPid, SymbTable>)
      returns (r: Option<Symb>, hasSymbs: bool)
      requires CacheValid()
      modifies this`mirrorCount, mirror, this`procCache, this`stats
      ensures CacheValid()
      ensures var t := SymbsFor(old(procCache), loads, pid);
        && (hasSymbs <==> t.Some?)
        && r == if t.Some? && addr in t.value then Some(t.value[addr]) else None
      ensures CacheGrew(old(procCache), procCache, loads, pid)
      ensures stats == old(stats).(pcacheCrt := stats.pcacheCrt, pcacheDel := stats.pcacheDel)
    {
      var table: Option<SymbTable>;
      if pid in procCache {
        table := Some(procCache[pid]);
      } else {
        table := CreateProcCache(pid, if pid in loads then Some(loads[pid]) else None);
      }
      if table.None? {
        return None, false;
      }
      r := if addr in table.value then Some(table.value[addr]) else None;
      hasSymbs := true;
    }

    /**
     * One real frame of stack_id2symbs_user: the symbol found through
     * the process's symbols, else the command's name in place of a
     * module, in the slot of the frame's own address when the process
     * has symbols and in the untouched zero-address slot when it has none.
     */
    method UserFrame(pid: StackPid, a: nat, loads: map<StackPid, SymbTable>) returns (slot: AddrSymb, known: bool)
      requires CacheValid()
      modifies this`mirrorCount, mirror, this`procCache, this`stats
      ensures CacheValid()
      ensures var t := SymbsFor(old(procCache), loads, pid);
        slot == UserSlot(t, pid.comm, a) && (known <==> t.Some? && a in t.value)
      ensures CacheGrew(old(procCache), procCache, loads, pid)
      ensures stats == old(stats).(pcacheCrt := stats.pcacheCrt, pcacheDel := stats.pcacheDel)
    {
      var r, hasSymbs := SearchUserAddrSymb(pid, a, loads);
      slot := if r.Some? then AddrSymb(a, r.value.sym, r.value.mod)
              else if hasSymbs then AddrSymb(a, None, pid.comm)
              else NO_SYMB.(mod := pid.comm);
      known := r.Some?;
    }

    /**
     * stack_id2symbs_kern: an id missing from the selected stack map
     * counts in MAP_LKUP_ERR and gives -1.  Otherwise the entry's real
     * addresses are resolved deepest first into consecutive slots of
     * out; 1 as soon as a frame is the idle loop, else 0 with every
     * resolved frame counted in KERN_ADDR.
     */
    method Id2SymbsKern(kernStackId: int, out: array<AddrSymb>) returns (ret: int)
      requires MapsValid() && out.Length == depth
      modifies this`stats, out
      ensures var k := KernPart(CurrentMap(), ksyms, kernStackId);
        && (ret == -1 <==> k.Missing?) && (ret == 1 <==> k.Idle?) && (ret == 0 <==> k.Walked?)
        && (k.Walked? ==> SlotsWritten(out[..], old(out[..]), k.slots))
        && (k.Missing? ==> stats == old(stats).(mapLkupErr := old(stats).mapLkupErr + 1) && out[..] == old(out[..]))
        && (!k.Missing? ==> stats == old(stats).(kernAddr := stats.kernAddr))
        && (k.Walked? ==> stats.kernAddr == old(stats).kernAddr + CountKnown(ksyms, LiveIps(CurrentMap()[kernStackId])))
    {
      var m := CurrentMap();
      if kernStackId !in m {
        stats := stats.(mapLkupErr := stats.mapLkupErr + 1);
        return -1;
      }
      var found;
      ret, found := KernWalk(m[kernStackId], out);
      stats := stats.(kernAddr := stats.kernAddr + found);
    }

    /**
     * The frame loop of stack_id2symbs_kern over one stack-map entry:
     * the slots written, whether the idle loop stopped the walk, and how
     * many frames the kernel symbols resolved.
     */
    method KernWalk(ips: seq<nat>, out: array<AddrSymb>) returns (ret: int, found: nat)
      requires |ips| == out.Length
      modifies out
      ensures ret == 0 || ret == 1
      ensures ret == 1 <==> HasIdle(KernSlots(ksyms, LiveIps(ips)))
      ensures ret == 0 ==> SlotsWritten(out[..], old(out[..]), KernSlots(ksyms, LiveIps(ips)))
      ensures ret == 0 ==> found == CountKnown(ksyms, LiveIps(ips))
    {
      var index := 0;
      var i := |ips| - 1;
      found := 0;
      ghost var done: seq<nat> := [];
      ghost var orig := out[..];
      while i >= 0 && index < out.Length
        invariant KernWalkInv(ksyms, ips, i, index, done, found, out[..], orig)
      {
        var a := ips[i];
        if IsLiveAddr(a) {
          var slot := KernSlot(ksyms, a);
          if IsIdle(slot) {
            IdleInWalk(ksyms, ips, i);
            out[index] := slot;
            // only a resolved frame can be the idle loop, so it counts as found
            return 1, found + 1;
          }
          KernWalkLive(ksyms, ips, i, index, done, found, out[..], orig);
          out[index] := slot;
          if a in ksyms {
            found := found + 1;
          }
          index := index + 1;
          done := done + [a];
        } else {
          KernWalkDead(ksyms, ips, i, index, done, found, out[..], orig);
        }
        i := i - 1;
      }
      KernWalkEnd(ksyms, ips, i, index, done, found, out[..], orig);
      return 0, found;
    }

    /**
     * stack_id2symbs_user: an id missing from the selected stack map
     * counts in MAP_LKUP_ERR and gives -1.  Otherwise the entry's real
     * addresses are resolved deepest first, through the process's cached
     * or freshly loaded symbols, into consecutive slots of out; a frame
     * that does not resolve gets the command as module and counts in
     * USER_ERR (for a process without symbols its slot keeps address 0,
     * so the folded stack leaves it out), one that does counts in
     * USER_OK; the result is 0.
     */
    method Id2SymbsUser(sid: StackId, loads: map<StackPid, SymbTable>, out: array<AddrSymb>) returns (ret: int)
      requires CacheValid() && MapsValid() && out.Length == depth
      modifies this`mirrorCount, mirror, this`procCache, this`stats, out
      ensures CacheValid()
      ensures CacheGrew(old(procCache), procCache, loads, sid.pid)
      ensures var table := SymbsFor(old(procCache), loads, sid.pid);
        var u := UserPart(CurrentMap(), table, sid.pid.comm, sid.userStackId);
        && (ret == -1 <==> u.Missing?) && (ret == 0 <==> u.Walked?)
        && (u.Walked? ==> SlotsWritten(out[..], old(out[..]), u.slots))
        && (u.Missing? ==> stats == old(stats).(mapLkupErr := old(stats).mapLkupErr + 1) && out[..] == old(out[..]) && procCache == old(procCache))
        && (u.Walked? ==>
              var addrs := LiveIps(CurrentMap()[sid.userStackId]);
              && stats == old(stats).(usrAddr := stats.usrAddr, usrAddrErr := stats.usrAddrErr,
                                     pcacheCrt := stats.pcacheCrt, pcacheDel := stats.pcacheDel)
              && stats.usrAddr == old(stats).usrAddr + KnownCount(table, addrs)
              && stats.usrAddrErr == old(stats).usrAddrErr + (|addrs| - KnownCount(table, addrs)))
    {
      var m := CurrentMap();
      if sid.userStackId !in m {
        stats := stats.(mapLkupErr := stats.mapLkupErr + 1);
        return -1;
      }
      var ok, err := UserWalk(sid.pid, m[sid.userStackId], loads, out);
      stats := stats.(usrAddr := stats.usrAddr + ok, usrAddrErr := stats.usrAddrErr + err);
      return 0;
    }

    /**
     * The frame loop of stack_id2symbs_user over one stack-map entry:
     * the slots written and how many frames resolved and did not.
     */
    method UserWalk(pid: StackPid, ips: seq<nat>, loads: map<StackPid, SymbTable>, out: array<AddrSymb>)
      returns (ok: nat, err: nat)
      requires CacheValid() && |ips| == out.Length
      modifies this`mirrorCount, mirror, this`procCache, this`stats, out
      ensures CacheValid() && CacheGrew(old(procCache), procCache, loads, pid)
      ensures stats == old(stats).(pcacheCrt := stats.pcacheCrt, pcacheDel := stats.pcacheDel)
      ensures var table := SymbsFor(old(procCache), loads, pid);
        && SlotsWritten(out[..], old(out[..]), UserSlots(table, pid.comm, LiveIps(ips)))
        && ok == KnownCount(table, LiveIps(ips)) && ok + err == |LiveIps(ips)|
    {
      var index := 0;
      var i := |ips| - 1;
      ok, err := 0, 0;
      ghost var done: seq<nat> := [];
      ghost var orig := out[..];
      ghost var c0 := procCache;
      ghost var table := SymbsFor(c0, loads, pid);
      while i >= 0 && index < out.Length
        invariant UserWalkInv(table, pid.comm, ips, i, index, done, ok, out[..], orig) && ok + err == |done|
        invariant CacheValid() && CacheGrew(c0, procCache, loads, pid)
        invariant stats == old(stats).(pcacheCrt := stats.pcacheCrt, pcacheDel := stats.pcacheDel)
      {
        var a := ips[i];
        if IsLiveAddr(a) {
          ghost var c1 := procCache;
          var slot, known := UserFrame(pid, a, loads);
          CacheGrewTrans(c0, c1, procCache, loads, pid);
          UserWalkLive(table, pid.comm, ips, i, index, done, ok, out[..], orig);
          out[index] := slot;
          if known {
            ok := ok + 1;
          } else {
            err := err + 1;
          }
          index := index + 1;
          done := done + [a];
        } else {
          UserWalkDead(table, pid.comm, ips, i, index, done, ok, out[..], orig);
        }
        i := i - 1;
      }
      UserWalkEnd(table, pid.comm, ips, i, index, done, ok, out[..], orig);
    }

    /**
     * add_stack_histo's scan of the histograms for one non-empty folded
     * stack str: the first enabled histogram holding str counts it once
     * more; every enabled histogram before it gets str with count 1.
     */
    method CountStack(str: string)
      requires str != ""
      modifies this`histos, this`stats
      ensures histos == HistoAdd(old(histos), str)
      ensures stats == old(stats).(histoFolded := stats.histoFolded)
      ensures stats.histoFolded == old(stats).histoFolded + (if FirstHolder(old(histos), str, 0).Some? then 1 else 0)
    {
      var i := 0;
      while i < |histos|
        invariant 0 <= i <= |histos| == |old(histos)|
        invariant AddFrom(histos, str, i) == HistoAdd(old(histos), str)
        invariant FirstHolder(histos, str, i) == FirstHolder(old(histos), str, 0)
        invariant stats == old(stats)
      {
        if histos[i].None? {
          i := i + 1;
          continue;
        }
        if str in histos[i].value {
          stats := stats.(histoFolded := stats.histoFolded + 1);
          histos := histos[i := Some(histos[i].value[str := histos[i].value[str] + 1])];
          return;
        }
        ghost var hs := histos;
        histos := histos[i := Some(histos[i].value[str := 1])];
        assert histos[i + 1..] == hs[i + 1..];
        FirstHolderSame(hs, histos, str, i + 1);
        i := i + 1;
      }
    }

    /**
     * add_stack_histo: the sample's folded stack is built (a failed
     * build counts in HISTO_ERR but what was written is still used); an
     * empty one gives -1 and nothing is counted; otherwise it is counted
     * in the histograms, and in HISTO_FOLD when some histogram already
     * held it.
     */
    method AddStackHisto(user: seq<AddrSymb>, kern: seq<AddrSymb>) returns (ret: int)
      modifies this`histos, this`stats
      ensures var f := Folded(user, kern, symbsLen);
        && (ret == if f.text == "" then -1 else 0)
        && histos == Record(old(histos), f.text)
        && stats == old(stats).(histoErr := stats.histoErr, histoFolded := stats.histoFolded)
        && stats.histoErr == old(stats).histoErr + (if f.ok then 0 else 1)
        && stats.histoFolded == old(stats).histoFolded +
             (if f.text != "" && FirstHolder(old(histos), f.text, 0).Some? then 1 else 0)
    {
      var r, str := Symbs2String(user, kern, symbsLen);
      FoldedSpec(user, kern, symbsLen);
      if r != 0 {
        stats := stats.(histoErr := stats.histoErr + 1);
      }
      if str == "" {
        return -1;
      }
      CountStack(str);
      return 0;
    }

    /**
     * stack_id2symbs: the kernel stack first (when the sample has one),
     * whose failure or idle result is passed on, then the user stack
     * (when it has one), whose failure gives -1; a sample with both
     * counts in USER_KERN; the slots written are those of the outcome.
     */
    method Id2Symbs(sid: StackId, loads: map<StackPid, SymbTable>, user: array<AddrSymb>, kern: array<AddrSymb>)
      returns (ret: int)
      requires CacheValid() && MapsValid()
      requires user.Length == depth && kern.Length == depth && user != kern
      modifies this`mirrorCount, mirror, this`procCache, this`stats, user, kern
      ensures CacheValid()
      ensures CacheGrew(old(procCache), procCache, loads, sid.pid)
      ensures var o := SampleOutcome(CurrentMap(), ksyms, SymbsFor(old(procCache), loads, sid.pid), sid);
        && (ret == -1 <==> o.Abort?) && (ret == 1 <==> o.Skip?) && (ret == 0 <==> o.Frames?)
        && (o.Frames? ==> SlotsWritten(user[..], old(user[..]), o.user))
        && (o.Frames? ==> SlotsWritten(kern[..], old(kern[..]), o.kern))
      ensures stats == old(stats).(kernAddr := stats.kernAddr, usrAddr := stats.usrAddr, usrAddrErr := stats.usrAddrErr,
                                   mapLkupErr := stats.mapLkupErr, usrKernAddr := stats.usrKernAddr,
                                   pcacheCrt := stats.pcacheCrt, pcacheDel := stats.pcacheDel)
    {
      if sid.kernStackId >= 0 {
        ret := Id2SymbsKern(sid.kernStackId, kern);
        if ret != 0 {
          return;
        }
      }
      if sid.userStackId >= 0 {
        ret := Id2SymbsUser(sid, loads, user);
        if ret != 0 {
          return -1;
        }
      }
      if sid.userStackId >= 0 && sid.kernStackId >= 0 {
        stats := stats.(usrKernAddr := stats.usrKernAddr + 1);
      }
      return 0;
    }

    /**
     * stack_id2histogram: every raw sample of the period is resolved into
     * fresh, blank slots; an idle sample is skipped, a failed one ends the
     * conversion with -1, and every other one counts in ID2SYMBS and goes
     * into the histograms.  At the end P_CACHE is the number of cached
     * processes.  While the cache holds what the loader gives, the
     * histograms are those of the period's samples, whatever was cached.
     */
    method Id2Histogram(loads: map<StackPid, SymbTable>) returns (ret: int)
      requires Valid()
      modifies this`mirrorCount, mirror, this`procCache, this`stats, this`histos
      ensures Valid() && (ret == 0 || ret == -1)
      ensures ret == 0 ==> stats.pCache == |procCache|
      ensures old(CacheAgrees(procCache, loads)) ==>
        && CacheAgrees(procCache, loads)
        && RunSamples(CurrentMap(), ksyms, loads, symbsLen, raw.Samples(), Run(false, old(histos), old(stats).id2Symbs))
           == Run(ret == -1, histos, stats.id2Symbs)
    {
      ghost var agrees := CacheAgrees(procCache, loads);
      ghost var samples := raw.Samples();
      ghost var r0 := Run(false, histos, stats.id2Symbs);
      ghost var m := CurrentMap();
      var i := 0;
      while i < raw.count
        invariant 0 <= i <= raw.count && Valid() && CurrentMap() == m
        invariant agrees ==> CacheAgrees(procCache, loads)
        invariant agrees ==> RunSamples(m, ksyms, loads, symbsLen, samples[..i], r0) == Run(false, histos, stats.id2Symbs)
      {
        var sid := raw.traces[i];
        ghost var c, before := procCache, Run(false, histos, stats.id2Symbs);
        var r := ConvertSample(sid, loads);
        if agrees {
          CacheGrewAgrees(c, procCache, loads, sid.pid);
          RunStep(m, ksyms, loads, symbsLen, samples, i, r0, before, Run(r == -1, histos, stats.id2Symbs));
        }
        if r < 0 {
          if agrees {
            RunAbortStays(m, ksyms, loads, symbsLen, samples, i + 1, r0);
          }
          return -1;
        }
        i := i + 1;
      }
      assert samples[..i] == samples;
      stats := stats.(pCache := |procCache|);
      return 0;
    }

    /** A sample's slots, zeroed as stack_id2histogram's memset leaves them. */
    static method BlankSlots(n: nat) returns (a: array<AddrSymb>)
      ensures fresh(a) && a.Length == n
      ensures forall j :: 0 <= j < n ==> a[j] == NO_SYMB
    {
      a := new AddrSymb[n](_ => NO_SYMB);
    }

    /** A sample that resolved: it is counted and its folded stack recorded. */
    method RecordSample(us: seq<AddrSymb>, ks: seq<AddrSymb>)
      modifies this`histos, this`stats
      ensures histos == Record(old(histos), Folded(us, ks, symbsLen).text)
      ensures stats.id2Symbs == old(stats).id2Symbs + 1
    {
      stats := stats.(id2Symbs := stats.id2Symbs + 1);
      var _ := AddStackHisto(us, ks);
    }

    /**
     * One sample of stack_id2histogram: resolved into fresh, blank slots;
     * -1 when a stack id is missing, 1 when the sample is in the idle
     * loop, else 0 with the sample counted in ID2SYMBS and its folded
     * stack recorded.
     */
    method ConvertSample(sid: StackId, loads: map<StackPid, SymbTable>) returns (ret: int)
      requires CacheValid() && MapsValid()
      modifies this`mirrorCount, mirror, this`procCache, this`stats, this`histos
      ensures CacheValid()
      ensures CacheGrew(old(procCache), procCache, loads, sid.pid)
      ensures var o := SampleOutcome(CurrentMap(), ksyms, SymbsFor(old(procCache), loads, sid.pid), sid);
        && (ret == -1 <==> o.Abort?) && (ret == 1 <==> o.Skip?) && (ret == 0 <==> o.Frames?)
        && Apply(Run(false, old(histos), old(stats).id2Symbs), o, symbsLen) == Run(ret == -1, histos, stats.id2Symbs)
    {
      var user := BlankSlots(depth);
      var kern := BlankSlots(depth);
      ghost var u0, k0 := user[..], kern[..];
      ghost var m := CurrentMap();
      ghost var o := SampleOutcome(m, ksyms, SymbsFor(procCache, loads, sid.pid), sid);
      ghost var n := stats.id2Symbs;
      ret := Id2Symbs(sid, loads, user, kern);
      if ret != 0 {
        return;
      }
      var us, ks := user[..], kern[..];
      ghost var c1 := procCache;
      BlankPadding(o.user, u0, us, symbsLen, o.kern, k0, ks);
      RecordSample(us, ks);
      assert procCache == c1;
    }

    /**
     * is_tmout: with the clock at now, a period since the last
     * conversion has passed, and then the last conversion moves to now;
     * otherwise nothing changes.
     */
    method IsTmout(now: int) returns (r: bool)
      modifies this`runningTimes
      ensures r == TimedOut(old(runningTimes), now, tmoutPeriod)
      ensures runningTimes == if r then now else old(runningTimes)
    {
      if now > runningTimes {
        var secs := now - runningTimes;
        if secs >= tmoutPeriod {
          runningTimes := now;
          return true;
        }
      }
      return false;
    }

    /** process_loss_data: the samples the perf buffer dropped count as LOSS. */
    method ProcessLossData(cnt: nat)
      modifies this`stats
      ensures stats == old(stats).(loss := old(stats).loss + cnt)
    {
      stats := stats.(loss := stats.loss + cnt);
    }

    /**
     * process_raw_stack_trace: a sample joins the raw buffer and counts
     * as RAW; when the buffer is full it is dropped and counts as LOSS.
     */
    method ProcessRawStackTrace(id: StackId)
      requires raw.Valid()
      modifies raw, raw.traces, this`stats
      ensures raw.Valid()
      ensures old(raw.count) < raw.stackSize ==>
        raw.Samples() == old(raw.Samples()) + [id] && stats == old(stats).(raw := old(stats).raw + 1)
      ensures old(raw.count) >= raw.stackSize ==>
        raw.count == old(raw.count) && raw.traces[..] == old(raw.traces[..])
        && stats == old(stats).(loss := old(stats).loss + 1)
    {
      var r := raw.Add(id);
      if r != 0 {
        stats := stats.(loss := stats.loss + 1);
      } else {
        stats := stats.(raw := stats.raw + 1);
      }
    }

    /**
     * clear_running_ctx: the raw buffer and the selected stack map are
     * emptied, every enabled histogram counts nothing, and every counter
     * but PCACHE_DEL and PCACHE_CRT is zero.
     */
    method ClearRunningCtx()
      requires raw.Valid() && MapsValid()
      modifies raw, this`stackmapA, this`stackmapB, this`histos, this`stats
      ensures raw.Valid() && MapsValid() && raw.count == 0
      ensures CurrentMap() == map[]
      ensures isStackmapA ==> stackmapB == old(stackmapB)
      ensures !isStackmapA ==> stackmapA == old(stackmapA)
      ensures histos == Cleared(old(histos))
      ensures stats == ResetStats(old(stats))
    {
      raw.Clear();
      if isStackmapA {
        stackmapA := map[];
      } else {
        stackmapB := map[];
      }
      ghost var h0 := histos;
      for i := 0 to |histos|
        modifies this`histos
        invariant |histos| == |h0|
        invariant forall j :: 0 <= j < i ==> histos[j] == Cleared(h0)[j]
        invariant forall j :: i <= j < |h0| ==> histos[j] == h0[j]
      {
        if histos[i].Some? {
          histos := histos[i := Some(map[])];
        }
      }
      stats := ResetStats(stats);
    }

    /**
     * switch_stackmap: the selected map follows the parity of the
     * conversion count.  Before a period has passed nothing else
     * changes.  After it, the count moves on, so the next switch selects
     * the other map, and the selected map's samples are converted into
     * the histograms; then the period's state is cleared: when the cache
     * shows the loader's tables, the histograms end up cleared in the
     * same shape, the raw buffer and the converted map empty, the other
     * map untouched and the counters reset.
     */
    method SwitchStackmap(now: int, loads: map<StackPid, SymbTable>)
      requires Valid()
      modifies this`isStackmapA, this`runningTimes, this`convertStackCount, this`mirrorCount, mirror,
        this`procCache, this`stats, this`histos, this`stackmapA, this`stackmapB, raw
      ensures Valid()
      ensures isStackmapA == Even(old(convertStackCount))
      ensures !TimedOut(old(runningTimes), now, tmoutPeriod) ==> Period() == old(Period())
      ensures TimedOut(old(runningTimes), now, tmoutPeriod) ==>
        && runningTimes == now && convertStackCount == old(convertStackCount) + 1
        && isStackmapA != Even(convertStackCount)
        && raw.count == 0 && CurrentMap() == map[]
        && (isStackmapA ==> stackmapB == old(stackmapB)) && (!isStackmapA ==> stackmapA == old(stackmapA))
        && stats == ZERO_STATS.(pcacheDel := stats.pcacheDel, pcacheCrt := stats.pcacheCrt)
        && (old(CacheAgrees(procCache, loads)) ==> histos == Cleared(old(histos)))
    {
      isStackmapA := Even(convertStackCount);
      var t := IsTmout(now);
      if !t {
        return;
      }
      convertStackCount := convertStackCount + 1;
      ConvertPeriod(loads);
    }

    /**
     * The conversion half of switch_stackmap: the selected map's samples
     * go into the histograms, then the period's state is cleared.
     */
    method ConvertPeriod(loads: map<StackPid, SymbTable>)
      requires Valid()
      modifies this`mirrorCount, mirror, this`procCache, this`stats, this`histos, this`stackmapA, this`stackmapB, raw
      ensures Valid() && raw.count == 0 && CurrentMap() == map[]
      ensures isStackmapA ==> stackmapB == old(stackmapB)
      ensures !isStackmapA ==> stackmapA == old(stackmapA)
      ensures stats == ZERO_STATS.(pcacheDel := stats.pcacheDel, pcacheCrt := stats.pcacheCrt)
      ensures old(CacheAgrees(procCache, loads)) ==> histos == Cleared(old(histos))
    {
      ghost var h0, m, agrees := histos, CurrentMap(), CacheAgrees(procCache, loads);
      ghost var samples, n0 := raw.Samples(), stats.id2Symbs;
      var _ := Id2Histogram(loads);
      if agrees {
        RunKeepsEnabled(m, ksyms, loads, symbsLen, samples, Run(false, h0, n0));
        ClearedByShape(histos, h0);
      }
      ClearRunningCtx();
    }

    /** The shift of a full mirror: every process moves one slot down and key takes the last slot. */
    method ShiftMirror(key: StackPid)
      requires mirror.Length == cacheMax >= 1
      modifies mirror
      ensures forall j :: 0 <= j < cacheMax - 1 ==> mirror[j] == old(mirror[j + 1])
      ensures mirror[cacheMax - 1] == key
    {
      var i := 1;
      while i < cacheMax
        invariant 1 <= i <= cacheMax
        invariant forall j :: 0 <= j < i - 1 ==> mirror[j] == old(mirror[j + 1])
        invariant forall j :: i - 1 <= j < cacheMax ==> mirror[j] == old(mirror[j])
      {
        mirror[i - 1] := mirror[i];
        i := i + 1;
      }
      mirror[cacheMax - 1] := key;
    }
  }

  lemma ElementsCard<T>(s: seq<T>)
    ensures |set x | x in s| <= |s|
  {
    if |s| > 0 {
      var t := s[..|s| - 1];
      ElementsCard(t);
      assert (set x | x in s) == (set x | x in t) + {s[|s| - 1]};
    }
  }


  /** The cache after a full mirror ages its oldest process out; unchanged below capacity. */
  function Evict(c: map<StackPid, SymbTable>, m: seq<StackPid>, max: nat): map<StackPid, SymbTable>
  {
    if |m| == max && |m| > 0 then c - {m[0]} else c
  }

  /** The mirror m lists the processes of cache c, each once. */
  ghost predicate Mirrors(c: map<StackPid, SymbTable>, m: seq<StackPid>)
  {
    Distinct(m) && forall k :: k in c <==> k in m
  }

  /** Adding a process that is not cached keeps the cache and its mirror in step. */
  lemma MirrorAddValid(m: seq<StackPid>, c: map<StackPid, SymbTable>, key: StackPid, v: SymbTable, max: nat)
    requires max >= 1 && |m| <= max && Mirrors(c, m) && key !in c
    ensures Mirrors(Evict(c[key := v], m, max), MirrorAdd(m, key, max))
  {
    if |m| == max {
      assert m == [m[0]] + m[1..];
      assert m[0] !in m[1..];
    }
  }
}
