/** The accesses of one block in program order, the SSA versions that they belong to, and the live ranges
    that they add up to. */
module BlockEvents {
  import opened L = Liveness
  import opened B = BlockLiveness

  datatype RegVar = Direct | Var(id: nat)

  datatype Register = Register(regVar: RegVar, index: nat)

  /** Registers rstart up to rend of one variable, accessed by the instruction at offset. A
      write that fills no instruction field counts as a read. */
  datatype Usage = Usage(offset: nat, regVar: RegVar, rstart: nat, rend: nat, writes: bool, hasField: bool)

  datatype SsaInfo = SsaInfo(ssaIdBefore: nat, ssaIdFirst: nat, ssaId: nat, ssaIdChange: nat, ssaIdLast: nat)

  /** One SSA version of one register. */
  datatype Version = Version(reg: Register, ssaId: nat)

  type Infos = map<Register, SsaInfo>

  /** The version that a register has behind its n-th write in the block. */
  function VersionAfter(reg: Register, n: nat, info: SsaInfo): Version {
    Version(reg,
            if reg.regVar.Direct? then 0
            else if n == 0 then info.ssaIdBefore
            else if n == 1 then info.ssaIdFirst
            else if n < info.ssaIdChange then info.ssaId + n - 1
            else info.ssaIdLast)
  }

  predicate WritesSsa(u: Usage) {
    u.writes && u.hasField
  }

  function Registers(u: Usage): (rs: seq<Register>)
    ensures forall r | r in rs :: r.regVar == u.regVar && u.rstart <= r.index < u.rend
  {
    if u.rstart >= u.rend then [] else seq(u.rend - u.rstart, i requires 0 <= i => Register(u.regVar, u.rstart + i))
  }

  predicate Sorted(us: seq<Usage>) {
    forall i, j | 0 <= i < j < |us| :: us[i].offset <= us[j].offset
  }

  /** Every register that is accessed before the end of the block has SSA infos there; usages of the
      code behind the block may follow. */
  ghost predicate Known(us: seq<Usage>, end: nat, infos: Infos) {
    forall i, index | 0 <= i < |us| && us[i].offset < end && us[i].rstart <= index < us[i].rend ::
      Register(us[i].regVar, index) in infos
  }

  // ----- the accesses of the block in program order -----

  datatype Event = Event(reg: Register, access: Access)

  /** Where the instruction that usage a belongs to ends. */
  function GroupEnd(us: seq<Usage>, a: nat, t: nat): (b: nat)
    requires a <= |us|
    ensures a <= b <= |us|
    ensures forall i | a <= i < b :: us[i].offset <= t
    ensures b < |us| ==> us[b].offset > t
    decreases |us| - a
  {
    if a == |us| || us[a].offset > t then a else GroupEnd(us, a + 1, t)
  }

  function Accessing(us: seq<Usage>, a: nat, b: nat, write: bool): seq<Register>
    requires a <= b <= |us|
  {
    if a == b then []
    else Accessing(us, a, b - 1, write) + if WritesSsa(us[b - 1]) == write then Registers(us[b - 1]) else []
  }

  function Timed(regs: seq<Register>, access: Access): (evs: seq<Event>)
    ensures |evs| == |regs|
    ensures forall i | 0 <= i < |evs| :: evs[i] == Event(regs[i], access)
  {
    seq(|regs|, i requires 0 <= i < |regs| => Event(regs[i], access))
  }

  /** One instruction reads its registers before it writes. */
  function Instruction(us: seq<Usage>, a: nat, b: nat, t: nat): seq<Event>
    requires a <= b <= |us|
  {
    Timed(Accessing(us, a, b, false), Read(t)) + Timed(Accessing(us, a, b, true), Write(t))
  }

  /** All accesses from usage a on that lie before the end of the block. */
  function Events(us: seq<Usage>, a: nat, end: nat): seq<Event>
    requires a <= |us|
    decreases |us| - a
  {
    if a == |us| || us[a].offset >= end then []
    else
      var t := us[a].offset;
      var b := GroupEnd(us, a + 1, t);
      Instruction(us, a, b, t) + Events(us, b, end)
  }

  // ----- the versions that the accesses belong to -----

  function WritesTo(evs: seq<Event>, reg: Register): nat {
    if evs == [] then 0
    else
      var ev := evs[|evs| - 1];
      WritesTo(evs[..|evs| - 1], reg) + if ev.reg == reg && ev.access.Write? then 1 else 0
  }

  predicate AllKnown(evs: seq<Event>, infos: Infos) {
    forall i | 0 <= i < |evs| :: evs[i].reg in infos
  }

  function Current(evs: seq<Event>, reg: Register, infos: Infos): Version
    requires reg in infos
  {
    VersionAfter(reg, WritesTo(evs, reg), infos[reg])
  }

  /** The accesses to one version. */
  function AccessesTo(evs: seq<Event>, version: Version, infos: Infos): seq<Access>
    requires AllKnown(evs, infos)
  {
    if evs == [] then []
    else
      var n := |evs| - 1;
      AccessesTo(evs[..n], version, infos)
      + if Current(evs, evs[n].reg, infos) == version then [evs[n].access] else []
  }

  /** Access a may come before access b. */
  predicate Before(a: Access, b: Access) {
    a.time <= b.time && (a.Write? && b.Read? ==> a.time < b.time)
  }

  predicate EventsInOrder(evs: seq<Event>, start: nat) {
    && (forall i | 0 <= i < |evs| :: evs[i].access.time >= start)
    && (forall i, j | 0 <= i < j < |evs| :: Before(evs[i].access, evs[j].access))
  }

  // ----- the state of the loop -----

  datatype State = State(indices: map<Register, nat>, ranges: map<Version, seq<Interval>>)

  function RangeOf(ranges: map<Version, seq<Interval>>, version: Version): seq<Interval> {
    if version in ranges then ranges[version] else []
  }

  ghost predicate Proper(s: State) {
    forall v | v in s.ranges :: Separate(s.ranges[v])
  }

  function Step(s: State, ev: Event, infos: Infos, start: nat): (s': State)
    requires Proper(s) && ev.reg in infos && ev.access.time >= start
    ensures Proper(s')
  {
    var index := if ev.reg in s.indices then s.indices[ev.reg] else 0;
    match ev.access
    case Read(_) =>
      var v := VersionAfter(ev.reg, index, infos[ev.reg]);
      State(s.indices[ev.reg := index],
            s.ranges[v := Accessed(RangeOf(s.ranges, v), ev.reg !in s.indices, ev.access, start)])
    case Write(_) =>
      var index' := if ev.reg.regVar.Direct? then index else index + 1;
      var v := VersionAfter(ev.reg, index', infos[ev.reg]);
      State(s.indices[ev.reg := index'],
            s.ranges[v := Accessed(RangeOf(s.ranges, v), false, ev.access, start)])
  }

  function Walk(evs: seq<Event>, infos: Infos, start: nat): (s: State)
    requires AllKnown(evs, infos) && EventsInOrder(evs, start)
    ensures Proper(s)
  {
    if evs == [] then State(map[], map[])
    else
      var n := |evs| - 1;
      Step(Walk(evs[..n], infos, start), evs[n], infos, start)
  }

  // ----- every version collects its own accesses -----

  lemma {:induction false} AccessesBefore(evs: seq<Event>, version: Version, infos: Infos, a: Access, start: nat)
    requires AllKnown(evs, infos)
    requires forall i | 0 <= i < |evs| :: Before(evs[i].access, a) && evs[i].access.time >= start
    ensures forall i | 0 <= i < |AccessesTo(evs, version, infos)| ::
              Before(AccessesTo(evs, version, infos)[i], a) && AccessesTo(evs, version, infos)[i].time >= start
  {
    if evs != [] {
      AccessesBefore(evs[..|evs| - 1], version, infos, a, start);
    }
  }

  lemma {:induction false} AccessesInOrder(evs: seq<Event>, version: Version, infos: Infos, start: nat)
    requires AllKnown(evs, infos) && EventsInOrder(evs, start)
    ensures InOrder(AccessesTo(evs, version, infos), start)
  {
    if evs != [] {
      var n := |evs| - 1;
      AccessesInOrder(evs[..n], version, infos, start);
      AccessesBefore(evs[..n], version, infos, evs[n].access, start);
    }
  }

  predicate Mentions(evs: seq<Event>, reg: Register) {
    exists i :: 0 <= i < |evs| && evs[i].reg == reg
  }

  lemma MentionsSnoc(evs: seq<Event>, reg: Register)
    requires evs != []
    ensures Mentions(evs, reg) <==> Mentions(evs[..|evs| - 1], reg) || evs[|evs| - 1].reg == reg
  {
    var n := |evs| - 1;
    if Mentions(evs, reg) {
      var i :| 0 <= i < |evs| && evs[i].reg == reg;
      if i < n { assert evs[..n][i].reg == reg; }
    }
    if Mentions(evs[..n], reg) {
      var i :| 0 <= i < n && evs[..n][i].reg == reg;
      assert evs[i].reg == reg;
    }
  }

  /** A register that was accessed at all was accessed under its current version, so the first
      access to a version is a read only when it is the first access to the register. */
  lemma {:induction false} CurrentWasAccessed(evs: seq<Event>, reg: Register, infos: Infos)
    requires AllKnown(evs, infos) && reg in infos
    ensures Mentions(evs, reg) <==> AccessesTo(evs, Current(evs, reg, infos), infos) != []
  {
    if evs != [] {
      var n := |evs| - 1;
      MentionsSnoc(evs, reg);
      if evs[n].reg != reg {
        CurrentWasAccessed(evs[..n], reg, infos);
      }
    }
  }

  ghost predicate Tracks(s: State, evs: seq<Event>, infos: Infos, start: nat)
    requires AllKnown(evs, infos) && EventsInOrder(evs, start)
  {
    && (forall r :: r in s.indices <==> Mentions(evs, r))
    && (forall r | r in s.indices :: s.indices[r] == if r.regVar.Direct? then 0 else WritesTo(evs, r))
  }

  lemma StepTracks(s: State, evs: seq<Event>, infos: Infos, start: nat)
    requires evs != [] && AllKnown(evs, infos) && EventsInOrder(evs, start) && Proper(s)
    requires Tracks(s, evs[..|evs| - 1], infos, start)
    ensures Tracks(Step(s, evs[|evs| - 1], infos, start), evs, infos, start)
  {
    hide Accessed, Mentions, VersionAfter;
    var n := |evs| - 1;
    var s' := Step(s, evs[n], infos, start);
    UnmentionedUnwritten(evs[..n], evs[n].reg);
    forall r ensures r in s'.indices <==> Mentions(evs, r) {
      MentionsSnoc(evs, r);
    }
  }

  lemma NothingTracked(infos: Infos, start: nat)
    ensures Tracks(Walk([], infos, start), [], infos, start)
  {
  }

  lemma {:induction false} WalkTracks(evs: seq<Event>, infos: Infos, start: nat)
    requires AllKnown(evs, infos) && EventsInOrder(evs, start)
    ensures Tracks(Walk(evs, infos, start), evs, infos, start)
  {
    hide Tracks, Step, Mentions, Proper;
    if evs == [] {
      NothingTracked(infos, start);
    } else {
      var n := |evs| - 1;
      WalkTracks(evs[..n], infos, start);
      StepTracks(Walk(evs[..n], infos, start), evs, infos, start);
    }
  }

  lemma {:induction false} UnmentionedUnwritten(evs: seq<Event>, reg: Register)
    ensures !Mentions(evs, reg) ==> WritesTo(evs, reg) == 0
  {
    if evs != [] {
      MentionsSnoc(evs, reg);
      UnmentionedUnwritten(evs[..|evs| - 1], reg);
    }
  }

  lemma StepRange(s: State, evs: seq<Event>, version: Version, infos: Infos, start: nat)
    requires evs != [] && AllKnown(evs, infos) && EventsInOrder(evs, start) && Proper(s)
    requires Tracks(s, evs[..|evs| - 1], infos, start)
    ensures var n := |evs| - 1; var reg := evs[n].reg; var before := RangeOf(s.ranges, version);
      RangeOf(Step(s, evs[n], infos, start).ranges, version) ==
        if Current(evs, reg, infos) != version then before
        else Accessed(before, evs[n].access.Read? && !Mentions(evs[..n], reg), evs[n].access, start)
  {
    hide Accessed, Mentions, EventsInOrder, AllKnown;
    var n := |evs| - 1;
    UnmentionedUnwritten(evs[..n], evs[n].reg);
  }

  lemma RangesSnoc(before: seq<Access>, access: Access, start: nat)
    requires InOrder(before, start) && InOrder(before + [access], start)
    ensures access.time >= start
    ensures Ranges(before + [access], start) == Accessed(Ranges(before, start), before == [], access, start)
  {
    var after := before + [access];
    assert after[..|after| - 1] == before && after[|before|] == access;
    hide Accessed, Separate;
  }

  /** A version's accesses grow by the accesses made under that version; the first of them is
      a read only when the register was not accessed before. */
  lemma AccessesSnoc(evs: seq<Event>, version: Version, infos: Infos)
    requires evs != [] && AllKnown(evs, infos)
    ensures var n := |evs| - 1; var before := AccessesTo(evs[..n], version, infos);
      AccessesTo(evs, version, infos) ==
        if Current(evs, evs[n].reg, infos) == version then before + [evs[n].access] else before
    ensures var n := |evs| - 1;
      Current(evs, evs[n].reg, infos) == version && evs[n].access.Read?
      ==> (Mentions(evs[..n], evs[n].reg) <==> AccessesTo(evs[..n], version, infos) != [])
  {
    var n := |evs| - 1;
    var reg := evs[n].reg;
    if Current(evs, reg, infos) == version && evs[n].access.Read? {
      assert Current(evs[..n], reg, infos) == version;
      CurrentWasAccessed(evs[..n], reg, infos);
    }
  }

  lemma StepProjects(s: State, evs: seq<Event>, version: Version, infos: Infos, start: nat)
    requires evs != [] && AllKnown(evs, infos) && EventsInOrder(evs, start) && Proper(s)
    requires Tracks(s, evs[..|evs| - 1], infos, start)
    requires InOrder(AccessesTo(evs[..|evs| - 1], version, infos), start)
    requires InOrder(AccessesTo(evs, version, infos), start)
    requires RangeOf(s.ranges, version) == Ranges(AccessesTo(evs[..|evs| - 1], version, infos), start)
    ensures RangeOf(Step(s, evs[|evs| - 1], infos, start).ranges, version)
            == Ranges(AccessesTo(evs, version, infos), start)
  {
    hide Accessed, Mentions, Tracks, Step, Proper, InOrder, AccessesTo, Ranges, Separate, VersionAfter, WritesTo;
    var n := |evs| - 1;
    var access := evs[n].access;
    var before := AccessesTo(evs[..n], version, infos);
    StepRange(s, evs, version, infos, start);
    AccessesSnoc(evs, version, infos);
    if Current(evs, evs[n].reg, infos) == version {
      RangesSnoc(before, access, start);
      if access.Write? {
        WriteIgnoresFirst(Ranges(before, start), access, start);
      }
    }
  }

  lemma WriteIgnoresFirst(l: seq<Interval>, access: Access, start: nat)
    requires Separate(l) && access.Write? && access.time >= start
    ensures Accessed(l, true, access, start) == Accessed(l, false, access, start)
  {
  }

  lemma NothingAccessed(version: Version, infos: Infos, start: nat)
    ensures Ranges(AccessesTo([], version, infos), start) == RangeOf(Walk([], infos, start).ranges, version) == []
  {
  }

  /** What the loop holds for a version depends on the accesses to that version alone. */
  lemma {:induction false} WalkProjects(evs: seq<Event>, version: Version, infos: Infos, start: nat)
    requires AllKnown(evs, infos) && EventsInOrder(evs, start)
    ensures InOrder(AccessesTo(evs, version, infos), start)
    ensures RangeOf(Walk(evs, infos, start).ranges, version) == Ranges(AccessesTo(evs, version, infos), start)
  {
    hide Tracks, Step, Ranges, InOrder, AccessesTo, Proper;
    AccessesInOrder(evs, version, infos, start);
    if evs == [] {
      NothingAccessed(version, infos, start);
    } else {
      var n := |evs| - 1;
      WalkProjects(evs[..n], version, infos, start);
      WalkTracks(evs[..n], infos, start);
      StepProjects(Walk(evs[..n], infos, start), evs, version, infos, start);
    }
  }

  // ----- the accesses of a block are in order -----

  lemma {:induction false} AccessingKnown(us: seq<Usage>, a: nat, b: nat, write: bool, end: nat, infos: Infos)
    requires a <= b <= |us| && Known(us, end, infos)
    requires forall i | a <= i < b :: us[i].offset < end
    ensures forall i | 0 <= i < |Accessing(us, a, b, write)| :: Accessing(us, a, b, write)[i] in infos
  {
    if a < b {
      AccessingKnown(us, a, b - 1, write, end, infos);
      assert forall r | r in Registers(us[b - 1]) :: r in infos;
    }
  }

  ghost predicate TimesFrom(evs: seq<Event>, lo: nat, end: nat) {
    forall i | 0 <= i < |evs| :: lo <= evs[i].access.time < end
  }

  lemma InstructionKnown(us: seq<Usage>, a: nat, b: nat, t: nat, end: nat, infos: Infos)
    requires a <= b <= |us| && Known(us, end, infos)
    requires forall i | a <= i < b :: us[i].offset < end
    ensures AllKnown(Instruction(us, a, b, t), infos)
  {
    AccessingKnown(us, a, b, false, end, infos);
    AccessingKnown(us, a, b, true, end, infos);
  }

  lemma AppendInOrder(x: seq<Event>, y: seq<Event>, start: nat, t: nat, lo: nat, end: nat)
    requires EventsInOrder(x, start) && EventsInOrder(y, start)
    requires TimesFrom(x, t, t + 1) && TimesFrom(y, lo, end) && t < lo && t < end
    ensures EventsInOrder(x + y, start) && TimesFrom(x + y, t, end)
  {
  }

  lemma NoEvents(infos: Infos, start: nat, lo: nat, end: nat)
    ensures EventsInOrder([], start) && AllKnown([], infos) && TimesFrom([], lo, end)
  {
  }

  lemma KnownBoth(x: seq<Event>, y: seq<Event>, infos: Infos)
    requires AllKnown(x, infos) && AllKnown(y, infos)
    ensures AllKnown(x + y, infos)
  {
  }

  lemma {:induction false} EventsShape(us: seq<Usage>, a: nat, end: nat, infos: Infos, start: nat)
    requires a <= |us| && Sorted(us) && Known(us, end, infos)
    requires a < |us| ==> us[a].offset >= start
    ensures EventsInOrder(Events(us, a, end), start) && AllKnown(Events(us, a, end), infos)
    ensures a < |us| ==> TimesFrom(Events(us, a, end), us[a].offset, end)
    ensures a == |us| ==> Events(us, a, end) == []
    decreases |us| - a
  {
    hide Instruction, EventsInOrder, AllKnown, TimesFrom, Known;
    if a < |us| && us[a].offset < end {
      var t := us[a].offset;
      var b := GroupEnd(us, a + 1, t);
      var now := Instruction(us, a, b, t);
      EventsShape(us, b, end, infos, start);
      InstructionKnown(us, a, b, t, end, infos);
      InstructionInOrder(us, a, b, t, start, end);
      KnownBoth(now, Events(us, b, end), infos);
      if b < |us| {
        AppendInOrder(now, Events(us, b, end), start, t, us[b].offset, end);
      } else {
        assert now + [] == now;
      }
    } else {
      NoEvents(infos, start, if a < |us| then us[a].offset else 0, end);
    }
  }

  lemma InstructionInOrder(us: seq<Usage>, a: nat, b: nat, t: nat, start: nat, end: nat)
    requires a <= b <= |us| && start <= t < end
    ensures var now := Instruction(us, a, b, t);
      EventsInOrder(now, start) && TimesFrom(now, t, t + 1) && TimesFrom(now, t, end)
  {
  }

  // ----- distinct versions -----

  ghost predicate ReadFrom(accesses: seq<Access>, p: int) {
    exists i :: 0 <= i < |accesses| && accesses[i].Read? && accesses[i].time >= p
  }

  predicate ReadsOnly(accesses: seq<Access>) {
    forall i | 0 <= i < |accesses| :: accesses[i].Read?
  }

  predicate WrittenFirst(accesses: seq<Access>) {
    accesses != [] && accesses[0].Write? && ReadsOnly(accesses[1..])
  }

  /** No two of the versions behind the first n writes are the same. */
  ghost predicate DistinctVersions(reg: Register, n: nat, info: SsaInfo) {
    forall a, b | 0 <= a < b <= n :: VersionAfter(reg, a, info) != VersionAfter(reg, b, info)
  }

  /** With distinct versions, the live-in version is only read, and every other version is
      written once and then only read. */
  lemma {:induction false} DistinctShape(evs: seq<Event>, reg: Register, c: nat, n: nat, infos: Infos)
    requires AllKnown(evs, infos) && reg in infos
    requires c <= n && WritesTo(evs, reg) <= n && DistinctVersions(reg, n, infos[reg])
    ensures var accesses := AccessesTo(evs, VersionAfter(reg, c, infos[reg]), infos);
      && (c == 0 ==> ReadsOnly(accesses))
      && (0 < c <= WritesTo(evs, reg) ==> WrittenFirst(accesses))
      && (c > WritesTo(evs, reg) ==> accesses == [])
  {
    if evs != [] {
      var m := |evs| - 1;
      var version := VersionAfter(reg, c, infos[reg]);
      DistinctShape(evs[..m], reg, c, n, infos);
      var before := AccessesTo(evs[..m], version, infos);
      var current := WritesTo(evs, reg);
      assert Current(evs, reg, infos) == version <==> c == current by {
        assert VersionAfter(reg, c, infos[reg]) == VersionAfter(reg, current, infos[reg]) <==> c == current;
      }
      if evs[m].reg == reg && c == current && before != [] {
        assert (before + [evs[m].access])[1..] == before[1..] + [evs[m].access];
      }
    }
  }

  lemma {:induction false} LiveInDefinition(accesses: seq<Access>, start: nat)
    requires ReadsOnly(accesses)
    ensures Definition(accesses, start) == start
  {
    if accesses != [] {
      LiveInDefinition(accesses[..|accesses| - 1], start);
    }
  }

  lemma {:induction false} WrittenDefinition(accesses: seq<Access>, start: nat)
    requires WrittenFirst(accesses)
    ensures Definition(accesses, start) == accesses[0].time + 1
  {
    var n := |accesses| - 1;
    if n > 0 {
      assert accesses[1..][n - 1] == accesses[n];
      assert accesses[..n][1..] == accesses[1..][..n - 1];
      WrittenDefinition(accesses[..n], start);
    }
  }

  /** A live-in version is live up to its last read. A version written in the block is live
      right behind its write, and from there to its last read. */
  lemma DistinctVersionsExact(evs: seq<Event>, reg: Register, c: nat, infos: Infos, start: nat, p: int)
    requires AllKnown(evs, infos) && EventsInOrder(evs, start) && reg in infos
    requires c <= WritesTo(evs, reg) && DistinctVersions(reg, WritesTo(evs, reg), infos[reg])
    ensures var accesses := AccessesTo(evs, VersionAfter(reg, c, infos[reg]), infos);
      if c == 0 then
        LiveAt(accesses, start, p) <==> p >= start && ReadFrom(accesses, p)
      else
        accesses != [] && accesses[0].Write?
        && (LiveAt(accesses, start, p)
            <==> p == accesses[0].time + 1 || (p > accesses[0].time && ReadFrom(accesses, p)))
  {
    var accesses := AccessesTo(evs, VersionAfter(reg, c, infos[reg]), infos);
    DistinctShape(evs, reg, c, WritesTo(evs, reg), infos);
    if c == 0 {
      LiveInExact(accesses, start, p);
    } else {
      WrittenExact(accesses, start, p);
    }
  }

  lemma LiveInExact(accesses: seq<Access>, start: nat, p: int)
    requires ReadsOnly(accesses)
    ensures LiveAt(accesses, start, p) <==> p >= start && ReadFrom(accesses, p)
  {
    forall i | 0 <= i < |accesses| ensures LiveFor(accesses, start, i, p) <==> start <= p <= accesses[i].time {
      LiveInDefinition(accesses[..i], start);
    }
  }

  lemma WrittenExact(accesses: seq<Access>, start: nat, p: int)
    requires WrittenFirst(accesses)
    ensures LiveAt(accesses, start, p)
            <==> p == accesses[0].time + 1 || (p > accesses[0].time && ReadFrom(accesses, p))
  {
    var t := accesses[0].time;
    assert LiveFor(accesses, start, 0, p) <==> p == t + 1;
    forall i | 0 < i < |accesses|
      ensures accesses[i].Read? && (LiveFor(accesses, start, i, p) <==> t < p <= accesses[i].time)
    {
      assert accesses[1..][i - 1] == accesses[i];
      assert accesses[..i][1..] == accesses[1..][..i - 1];
      WrittenDefinition(accesses[..i], start);
    }
  }
}
