/** What the live ranges of one block are in terms of its register usages: which version each write
    defines, and which version each read finds. */
module BlockUsages {
  import opened B = BlockLiveness
  import opened BlockEvents

  predicate Touches(u: Usage, reg: Register) {
    u.regVar == reg.regVar && u.rstart <= reg.index < u.rend
  }

  /** When the register is written, or read, before the end of the block: by usages a up to b that reach
      it, in their order. A write that fills no instruction field counts as a read. */
  function UsedAt(us: seq<Usage>, a: nat, b: nat, end: nat, reg: Register, write: bool): seq<nat>
    requires a <= b <= |us|
  {
    if a == b then []
    else
      var u := us[b - 1];
      UsedAt(us, a, b - 1, end, reg, write)
      + if u.offset < end && Touches(u, reg) && (u.writes && u.hasField) == write then [u.offset] else []
  }

  /** The version that a register has after its k-th write in the block. */
  predicate IsVersion(reg: Register, k: nat, info: SsaInfo, ssaId: nat) {
    if reg.regVar.Direct? then ssaId == 0
    else
      && (k == 0 ==> ssaId == info.ssaIdBefore)
      && (k == 1 ==> ssaId == info.ssaIdFirst)
      && (2 <= k < info.ssaIdChange ==> ssaId == info.ssaId + k - 1)
      && (k >= 2 && k >= info.ssaIdChange ==> ssaId == info.ssaIdLast)
  }

  /** Some write defines the version, and p is the point behind it. */
  ghost predicate BehindWrite(written: seq<nat>, reg: Register, info: SsaInfo, ssaId: nat, p: int) {
    exists k :: 1 <= k <= |written| && IsVersion(reg, k, info, ssaId) && p == written[k - 1] + 1
  }

  /** Some read finds the version, which c earlier writes have led to, and p lies between the last of
      these, or the start of the block, and the read. */
  ghost predicate BeforeRead(written: seq<nat>, readAt: seq<nat>, start: nat, reg: Register, info: SsaInfo, ssaId: nat,
                             p: int)
  {
    exists j, c :: 0 <= j < |readAt| && 0 <= c <= |written| && Finds(written, readAt[j], c, start, p)
                   && IsVersion(reg, c, info, ssaId)
  }

  /** Exactly the first c writes come before the time of a read, and p is not before any of these. */
  predicate Finds(written: seq<nat>, time: nat, c: nat, start: nat, p: int)
    requires c <= |written|
  {
    && start <= p <= time
    && (forall i | 0 <= i < c :: written[i] < p)
    && (forall i | c <= i < |written| :: written[i] >= time)
  }

  // ----- the times of events -----

  function TimesOf(evs: seq<Event>, reg: Register, write: bool): seq<nat> {
    if evs == [] then []
    else
      var ev := evs[|evs| - 1];
      TimesOf(evs[..|evs| - 1], reg, write)
      + if ev.reg == reg && ev.access.Write? == write then [ev.access.time] else []
  }

  lemma TimesSnoc(evs: seq<Event>, reg: Register, write: bool)
    requires evs != []
    ensures var n := |evs| - 1; var before := TimesOf(evs[..n], reg, write);
      TimesOf(evs, reg, write)
      == if evs[n].reg == reg && evs[n].access.Write? == write then before + [evs[n].access.time] else before
  {
  }

  lemma {:induction false} TimesAppend(x: seq<Event>, y: seq<Event>, reg: Register, write: bool)
    ensures TimesOf(x + y, reg, write) == TimesOf(x, reg, write) + TimesOf(y, reg, write)
  {
    if y == [] {
      assert x + y == x;
    } else {
      var n := |y| - 1;
      assert (x + y)[..|x + y| - 1] == x + y[..n];
      TimesAppend(x, y[..n], reg, write);
    }
  }

  predicate IsAt(ev: Event, reg: Register, write: bool, t: nat) {
    ev.reg == reg && ev.access.Write? == write && ev.access.time == t
  }

  lemma {:induction false} TimesAre(evs: seq<Event>, reg: Register, write: bool, t: nat)
    ensures t in TimesOf(evs, reg, write)
            <==> exists i :: 0 <= i < |evs| && IsAt(evs[i], reg, write, t)
  {
    if evs != [] {
      var n := |evs| - 1;
      TimesAre(evs[..n], reg, write, t);
      if i :| 0 <= i < n && IsAt(evs[..n][i], reg, write, t) {
        assert IsAt(evs[i], reg, write, t);
      }
      if i :| 0 <= i < |evs| && IsAt(evs[i], reg, write, t) {
        if i < n { assert IsAt(evs[..n][i], reg, write, t); }
      }
    }
  }

  lemma {:induction false} WritesAreTimes(evs: seq<Event>, reg: Register)
    ensures |TimesOf(evs, reg, true)| == WritesTo(evs, reg)
  {
    if evs != [] {
      WritesAreTimes(evs[..|evs| - 1], reg);
    }
  }

  // ----- events come from usages -----

  /** The first k registers of a usage. */
  lemma {:induction false} RegisterTimes(u: Usage, k: nat, reg: Register, access: Access)
    requires k <= |Registers(u)|
    ensures TimesOf(Timed(Registers(u)[..k], access), reg, access.Write?)
            == if u.regVar == reg.regVar && u.rstart <= reg.index < u.rstart + k then [access.time] else []
    ensures TimesOf(Timed(Registers(u)[..k], access), reg, !access.Write?) == []
  {
    var evs := Timed(Registers(u)[..k], access);
    if k > 0 {
      assert evs[..k - 1] == Timed(Registers(u)[..k - 1], access);
      assert evs[k - 1] == Event(Register(u.regVar, u.rstart + k - 1), access);
      hide Registers, Timed, TimesOf;
      RegisterTimes(u, k - 1, reg, access);
      TimesSnoc(evs, reg, true);
      TimesSnoc(evs, reg, false);
    }
  }

  lemma UsageTimes(u: Usage, reg: Register, access: Access)
    ensures TimesOf(Timed(Registers(u), access), reg, access.Write?) == if Touches(u, reg) then [access.time] else []
    ensures TimesOf(Timed(Registers(u), access), reg, !access.Write?) == []
  {
    RegisterTimes(u, |Registers(u)|, reg, access);
    assert Registers(u)[..|Registers(u)|] == Registers(u);
  }

  lemma TimedAppend(x: seq<Register>, y: seq<Register>, access: Access)
    ensures Timed(x + y, access) == Timed(x, access) + Timed(y, access)
  {
  }

  /** The registers that the usages of one instruction write, or read. */
  lemma {:induction false} AccessingTimes(us: seq<Usage>, a: nat, b: nat, end: nat, reg: Register, access: Access)
    requires a <= b <= |us| && access.time < end
    requires forall i | a <= i < b :: us[i].offset == access.time
    ensures var evs := Timed(Accessing(us, a, b, access.Write?), access);
      && TimesOf(evs, reg, access.Write?) == UsedAt(us, a, b, end, reg, access.Write?)
      && TimesOf(evs, reg, !access.Write?) == []
  {
    hide Registers, Timed, Touches;
    if a < b {
      var before, now := Accessing(us, a, b - 1, access.Write?), Registers(us[b - 1]);
      AccessingTimes(us, a, b - 1, end, reg, access);
      if WritesSsa(us[b - 1]) == access.Write? {
        TimedAppend(before, now, access);
        UsageTimes(us[b - 1], reg, access);
        TimesAppend(Timed(before, access), Timed(now, access), reg, access.Write?);
        TimesAppend(Timed(before, access), Timed(now, access), reg, !access.Write?);
      } else {
        assert before + [] == before;
      }
    } else {
      NoTimes(reg, access);
    }
  }

  lemma NoTimes(reg: Register, access: Access)
    ensures TimesOf(Timed([], access), reg, true) == TimesOf(Timed([], access), reg, false) == []
  {
  }

  lemma InstructionTimes(us: seq<Usage>, a: nat, b: nat, t: nat, end: nat, reg: Register, write: bool)
    requires a <= b <= |us| && t < end && forall i | a <= i < b :: us[i].offset == t
    ensures TimesOf(Instruction(us, a, b, t), reg, write) == UsedAt(us, a, b, end, reg, write)
  {
    hide Accessing, Timed, UsedAt, TimesOf;
    AccessingTimes(us, a, b, end, reg, Read(t));
    AccessingTimes(us, a, b, end, reg, Write(t));
    TimesAppend(Timed(Accessing(us, a, b, false), Read(t)), Timed(Accessing(us, a, b, true), Write(t)), reg, write);
  }

  lemma {:induction false} UsedSplit(us: seq<Usage>, a: nat, b: nat, c: nat, end: nat, reg: Register, write: bool)
    requires a <= b <= c <= |us|
    ensures UsedAt(us, a, c, end, reg, write) == UsedAt(us, a, b, end, reg, write) + UsedAt(us, b, c, end, reg, write)
  {
    hide Touches;
    if b < c {
      UsedSplit(us, a, b, c - 1, end, reg, write);
    }
  }

  lemma {:induction false} UsedBehind(us: seq<Usage>, a: nat, b: nat, end: nat, reg: Register, write: bool)
    requires a <= b <= |us| && forall i | a <= i < b :: us[i].offset >= end
    ensures UsedAt(us, a, b, end, reg, write) == []
  {
    if a < b {
      UsedBehind(us, a, b - 1, end, reg, write);
    }
  }

  /** The events are the uses: every register of every usage before the end of the block gives one event,
      a write exactly when the usage writes and has a field. */
  lemma {:induction false} EventsAreUses(us: seq<Usage>, a: nat, end: nat, reg: Register, write: bool)
    requires a <= |us| && Sorted(us)
    ensures TimesOf(Events(us, a, end), reg, write) == UsedAt(us, a, |us|, end, reg, write)
    decreases |us| - a
  {
    hide UsedAt, TimesOf, Instruction;
    if a < |us| && us[a].offset < end {
      var t := us[a].offset;
      var b := GroupEnd(us, a + 1, t);
      EventsAreUses(us, b, end, reg, write);
      InstructionTimes(us, a, b, t, end, reg, write);
      TimesAppend(Instruction(us, a, b, t), Events(us, b, end), reg, write);
      UsedSplit(us, a, b, |us|, end, reg, write);
    } else {
      UsedBehind(us, a, |us|, end, reg, write);
      NoEventTimes(reg, write);
    }
  }

  lemma NoEventTimes(reg: Register, write: bool)
    ensures TimesOf([], reg, write) == []
  {
  }

  // ----- live points in terms of times -----

  lemma VersionIs(reg: Register, k: nat, info: SsaInfo, ssaId: nat)
    ensures VersionAfter(reg, k, info) == Version(reg, ssaId) <==> IsVersion(reg, k, info, ssaId)
  {
  }

  /** The value that the current version holds was defined by the last write to the register. */
  lemma {:induction false} DefinedByLast(evs: seq<Event>, reg: Register, infos: Infos, start: nat, p: int)
    requires AllKnown(evs, infos) && EventsInOrder(evs, start) && reg in infos
    ensures var written := TimesOf(evs, reg, true);
      Definition(AccessesTo(evs, Current(evs, reg, infos), infos), start) <= p
      <==> start <= p && forall i | 0 <= i < |written| :: written[i] < p
  {
    if evs != [] {
      var n := |evs| - 1;
      var ev := evs[n];
      var version := Current(evs, reg, infos);
      var before := AccessesTo(evs[..n], version, infos);
      DefinedByLast(evs[..n], reg, infos, start, p);
      AccessesSnoc(evs, version, infos);
      assert (before + [ev.access])[..|before|] == before;
      TimesSnoc(evs, reg, true);
      if ev.reg == reg && ev.access.Write? {
        WriteLast(evs, reg, start);
        DefinedNow(TimesOf(evs[..n], reg, true), TimesOf(evs, reg, true), ev.access.time, start, p);
      }
    }
  }

  lemma DefinedNow(before: seq<nat>, written: seq<nat>, t: nat, start: nat, p: int)
    requires written == before + [t] && t >= start && forall i | 0 <= i < |before| :: before[i] <= t
    ensures t + 1 <= p <==> start <= p && forall i | 0 <= i < |written| :: written[i] < p
  {
    assert written[|before|] == t;
  }

  /** Events do not come after the last one. */
  lemma WriteLast(evs: seq<Event>, reg: Register, start: nat)
    requires EventsInOrder(evs, start) && evs != []
    ensures var n := |evs| - 1; var before := evs[..n]; var t := evs[n].access.time;
      && t >= start
      && (forall i | 0 <= i < |TimesOf(before, reg, true)| ::
            TimesOf(before, reg, true)[i] <= t && (evs[n].access.Read? ==> TimesOf(before, reg, true)[i] < t))
      && (forall i | 0 <= i < |TimesOf(before, reg, false)| :: TimesOf(before, reg, false)[i] <= t)
  {
    var n := |evs| - 1;
    var before := evs[..n];
    forall write, i | 0 <= i < |TimesOf(before, reg, write)|
      ensures TimesOf(before, reg, write)[i] <= evs[n].access.time
      ensures write && evs[n].access.Read? ==> TimesOf(before, reg, write)[i] < evs[n].access.time
    {
      TimesAre(before, reg, write, TimesOf(before, reg, write)[i]);
      var k :| 0 <= k < n && IsAt(before[k], reg, write, TimesOf(before, reg, write)[i]);
      assert Before(evs[k].access, evs[n].access);
    }
  }

  /** The points where a version is live, by the times of its register. */
  ghost predicate LiveByTimes(written: seq<nat>, readAt: seq<nat>, start: nat, version: Version, info: SsaInfo,
                              p: int)
  {
    || BehindWrite(written, version.reg, info, version.ssaId, p)
    || BeforeRead(written, readAt, start, version.reg, info, version.ssaId, p)
  }

  lemma FindsAtMost(written: seq<nat>, time: nat, c: nat, start: nat, p: int, i: nat)
    requires c <= |written| && Finds(written, time, c, start, p) && i < |written| && written[i] >= time
    ensures c <= i
  {
  }

  lemma OthersBehind(written: seq<nat>, time: nat, c: nat, start: nat, p: int)
    requires c < |written| && Finds(written, time, c, start, p)
    ensures written[c] >= time
  {
  }

  lemma NewWrite(written: seq<nat>, readAt: seq<nat>, t: nat, start: nat, version: Version, info: SsaInfo, p: int)
    requires forall i | 0 <= i < |readAt| :: readAt[i] <= t
    ensures LiveByTimes(written + [t], readAt, start, version, info, p)
            <==> LiveByTimes(written, readAt, start, version, info, p)
                 || (p == t + 1 && IsVersion(version.reg, |written| + 1, info, version.ssaId))
  {
    hide IsVersion;
    var reg, ssaId, after := version.reg, version.ssaId, written + [t];
    assert forall i | 0 <= i < |written| :: after[i] == written[i];
    assert after[|written|] == t;
    if j, c :| 0 <= j < |readAt| && 0 <= c <= |written| && Finds(written, readAt[j], c, start, p)
               && IsVersion(reg, c, info, ssaId) {
      assert Finds(after, readAt[j], c, start, p);
    }
    if j, c :| 0 <= j < |readAt| && 0 <= c <= |after| && Finds(after, readAt[j], c, start, p)
               && IsVersion(reg, c, info, ssaId) {
      FindsAtMost(after, readAt[j], c, start, p, |written|);
      assert Finds(written, readAt[j], c, start, p);
    }
    if k :| 1 <= k <= |written| && p == written[k - 1] + 1 && IsVersion(reg, k, info, ssaId) {
      assert p == after[k - 1] + 1;
    }
    if k :| 1 <= k <= |after| && p == after[k - 1] + 1 && IsVersion(reg, k, info, ssaId) {
      if k <= |written| { assert p == written[k - 1] + 1; }
    }
  }

  lemma NewRead(written: seq<nat>, readAt: seq<nat>, t: nat, start: nat, version: Version, info: SsaInfo, p: int)
    requires forall i | 0 <= i < |written| :: written[i] < t
    ensures LiveByTimes(written, readAt + [t], start, version, info, p)
            <==> LiveByTimes(written, readAt, start, version, info, p)
                 || (start <= p <= t && (forall i | 0 <= i < |written| :: written[i] < p)
                     && IsVersion(version.reg, |written|, info, version.ssaId))
  {
    hide IsVersion;
    var reg, ssaId, after := version.reg, version.ssaId, readAt + [t];
    assert forall i | 0 <= i < |readAt| :: after[i] == readAt[i];
    assert after[|readAt|] == t;
    if start <= p <= t && (forall i | 0 <= i < |written| :: written[i] < p) {
      assert Finds(written, after[|readAt|], |written|, start, p);
    }
    if j, c :| 0 <= j < |after| && 0 <= c <= |written| && Finds(written, after[j], c, start, p)
               && IsVersion(reg, c, info, ssaId) {
      if j < |readAt| {
        assert Finds(written, readAt[j], c, start, p);
      } else {
        if c < |written| {
          OthersBehind(written, after[j], c, start, p);
        }
        assert c == |written|;
      }
    }
    if j, c :| 0 <= j < |readAt| && 0 <= c <= |written| && Finds(written, readAt[j], c, start, p)
               && IsVersion(reg, c, info, ssaId) {
      assert Finds(written, after[j], c, start, p);
    }
  }

  /** A version is live exactly behind the writes that define it, and before the reads that find it. */
  lemma {:induction false} LiveIsByTimes(evs: seq<Event>, version: Version, infos: Infos, start: nat, p: int)
    requires AllKnown(evs, infos) && EventsInOrder(evs, start) && version.reg in infos
    ensures var written, readAt := TimesOf(evs, version.reg, true), TimesOf(evs, version.reg, false);
      LiveAt(AccessesTo(evs, version, infos), start, p)
      <==> LiveByTimes(written, readAt, start, version, infos[version.reg], p)
  {
    hide LiveByTimes, VersionAfter, IsVersion;
    var reg := version.reg;
    if evs == [] {
      NothingLive(start, version, infos[reg], p);
    } else {
      var n := |evs| - 1;
      LiveIsByTimes(evs[..n], version, infos, start, p);
      LiveNext(evs, version, infos, start, p);
      WriteLast(evs, reg, start);
      WritesAreTimes(evs[..n], reg);
      TimesSnoc(evs, reg, true);
      TimesSnoc(evs, reg, false);
      VersionOf(evs[n].reg, WritesTo(evs, evs[n].reg), infos[evs[n].reg]);
      var written, readAt := TimesOf(evs[..n], reg, true), TimesOf(evs[..n], reg, false);
      if evs[n].reg == reg {
        VersionIs(reg, WritesTo(evs, reg), infos[reg], version.ssaId);
        if evs[n].access.Write? {
          NewWrite(written, readAt, evs[n].access.time, start, version, infos[reg], p);
        } else {
          NewRead(written, readAt, evs[n].access.time, start, version, infos[reg], p);
          DefinedByLast(evs[..n], reg, infos, start, p);
        }
      }
    }
  }

  lemma VersionOf(reg: Register, k: nat, info: SsaInfo)
    ensures VersionAfter(reg, k, info).reg == reg
  {
  }

  lemma NothingLive(start: nat, version: Version, info: SsaInfo, p: int)
    ensures !LiveByTimes([], [], start, version, info, p)
  {
  }

  /** What one event more adds to the live points of a version. */
  lemma LiveNext(evs: seq<Event>, version: Version, infos: Infos, start: nat, p: int)
    requires evs != [] && AllKnown(evs, infos)
    ensures var n := |evs| - 1; var ev := evs[n];
      LiveAt(AccessesTo(evs, version, infos), start, p)
      <==> LiveAt(AccessesTo(evs[..n], version, infos), start, p)
           || (Current(evs, ev.reg, infos) == version
               && match ev.access
                  case Write(t) => p == t + 1
                  case Read(t) => Definition(AccessesTo(evs[..n], version, infos), start) <= p <= t)
  {
    hide LiveAt;
    var n := |evs| - 1;
    var before := AccessesTo(evs[..n], version, infos);
    AccessesSnoc(evs, version, infos);
    if Current(evs, evs[n].reg, infos) == version {
      var after := before + [evs[n].access];
      assert after[..|after| - 1] == before;
      LiveSnoc(after, start, p);
    }
  }

  lemma {:induction false} UnknownNotAccessed(evs: seq<Event>, version: Version, infos: Infos)
    requires AllKnown(evs, infos) && version.reg !in infos
    ensures AccessesTo(evs, version, infos) == []
  {
    if evs != [] {
      UnknownNotAccessed(evs[..|evs| - 1], version, infos);
    }
  }

  /** The live points of a version, by the usages of its register. */
  lemma LiveByUsages(us: seq<Usage>, version: Version, infos: Infos, start: nat, end: nat, p: int)
    requires Sorted(us) && AllKnown(Events(us, 0, end), infos) && EventsInOrder(Events(us, 0, end), start)
    ensures LiveAt(AccessesTo(Events(us, 0, end), version, infos), start, p)
            <==> && version.reg in infos
                 && LiveByTimes(UsedAt(us, 0, |us|, end, version.reg, true),
                                UsedAt(us, 0, |us|, end, version.reg, false), start, version, infos[version.reg], p)
  {
    hide Events, LiveByTimes, AllKnown, EventsInOrder, UsedAt;
    EventsAreUses(us, 0, end, version.reg, true);
    EventsAreUses(us, 0, end, version.reg, false);
    if version.reg in infos {
      LiveIsByTimes(Events(us, 0, end), version, infos, start, p);
    } else {
      UnknownNotAccessed(Events(us, 0, end), version, infos);
    }
  }
}
