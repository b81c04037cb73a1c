/** The loop that fills the live ranges of the versions in one block. */
module BlockLoop {
  import opened L = Liveness
  import opened B = BlockLiveness
  import opened BlockEvents
  import opened BlockUsages

  lemma WalkNext(evs: seq<Event>, k: nat, infos: Infos, start: nat)
    requires k < |evs| && EventsInOrder(evs, start) && AllKnown(evs, infos)
    ensures EventsInOrder(evs[..k], start) && AllKnown(evs[..k], infos)
    ensures EventsInOrder(evs[..k + 1], start) && AllKnown(evs[..k + 1], infos)
    ensures evs[k].reg in infos && evs[k].access.time >= start
    ensures Walk(evs[..k + 1], infos, start) == Step(Walk(evs[..k], infos, start), evs[k], infos, start)
  {
    assert evs[..k + 1][..k] == evs[..k];
    hide Step;
  }

  lemma RangeSeparate(s: State, v: Version)
    requires Proper(s)
    ensures Separate(RangeOf(s.ranges, v))
  {
  }

  /** Adds the reads and then the writes of one instruction. */
  method Apply(s: State, readRegs: seq<Register>, writtenRegs: seq<Register>, t: nat, infos: Infos,
               start: nat, ghost evs: seq<Event>, ghost done: nat)
    returns (s': State)
    requires AllKnown(evs, infos) && EventsInOrder(evs, start)
    requires done + |readRegs| + |writtenRegs| <= |evs|
    requires forall i | 0 <= i < |readRegs| :: evs[done + i] == Event(readRegs[i], Read(t))
    requires forall i | 0 <= i < |writtenRegs| :: evs[done + |readRegs| + i] == Event(writtenRegs[i], Write(t))
    requires EventsInOrder(evs[..done], start) && AllKnown(evs[..done], infos)
    requires s == Walk(evs[..done], infos, start)
    ensures var n := done + |readRegs| + |writtenRegs|;
      EventsInOrder(evs[..n], start) && AllKnown(evs[..n], infos) && s' == Walk(evs[..n], infos, start)
  {
    hide EventsInOrder, AllKnown, Walk, Inserted, Expanded, Separate;
    var indices, ranges := s.indices, s.ranges;
    ghost var k := done;
    for i := 0 to |readRegs|
      invariant k == done + i
      invariant EventsInOrder(evs[..k], start) && AllKnown(evs[..k], infos)
      invariant State(indices, ranges) == Walk(evs[..k], infos, start)
    {
      var reg := readRegs[i];
      WalkNext(evs, k, infos, start);
      var first := reg !in indices;
      if first {
        indices := indices[reg := 0];
      }
      var v := VersionAfter(reg, indices[reg], infos[reg]);
      RangeSeparate(State(indices, ranges), v);
      // the first access begins a range at the start of the block
      var l := if first then Inserted(RangeOf(ranges, v), start, t + 1) else Expanded(RangeOf(ranges, v), t + 1);
      ranges := ranges[v := l];
      k := k + 1;
    }
    for i := 0 to |writtenRegs|
      invariant k == done + |readRegs| + i
      invariant EventsInOrder(evs[..k], start) && AllKnown(evs[..k], infos)
      invariant State(indices, ranges) == Walk(evs[..k], infos, start)
    {
      var reg := writtenRegs[i];
      WalkNext(evs, k, infos, start);
      if reg !in indices {
        indices := indices[reg := 0];
      }
      if reg.regVar.Var? {
        indices := indices[reg := indices[reg] + 1];
      }
      var v := VersionAfter(reg, indices[reg], infos[reg]);
      RangeSeparate(State(indices, ranges), v);
      ranges := ranges[v := Inserted(RangeOf(ranges, v), t + 1, t + 2)];
      k := k + 1;
    }
    s' := State(indices, ranges);
  }

  lemma EventsNext(us: seq<Usage>, a: nat, b: nat, end: nat)
    requires a < b <= |us| && us[a].offset < end
    requires forall i | a <= i < b :: us[i].offset <= us[a].offset
    requires b < |us| ==> us[b].offset > us[a].offset
    ensures Events(us, a, end) == Instruction(us, a, b, us[a].offset) + Events(us, b, end)
  {
    assert GroupEnd(us, a + 1, us[a].offset) == b;
  }

  lemma WalkNothing(evs: seq<Event>, infos: Infos, start: nat)
    ensures EventsInOrder(evs[..0], start) && AllKnown(evs[..0], infos)
    ensures Walk(evs[..0], infos, start) == State(map[], map[])
  {
  }

  lemma InstructionAt(us: seq<Usage>, a: nat, b: nat, t: nat, evs: seq<Event>, done: nat, rest: seq<Event>)
    requires a <= b <= |us| && done <= |evs| && evs[done..] == Instruction(us, a, b, t) + rest
    ensures var rs := Accessing(us, a, b, false); var ws := Accessing(us, a, b, true);
      && done + |rs| + |ws| <= |evs|
      && (forall i | 0 <= i < |rs| :: evs[done + i] == Event(rs[i], Read(t)))
      && (forall i | 0 <= i < |ws| :: evs[done + |rs| + i] == Event(ws[i], Write(t)))
      && evs[done + |rs| + |ws|..] == rest
  {
    var rs := Accessing(us, a, b, false);
    var ws := Accessing(us, a, b, true);
    var all := Instruction(us, a, b, t);
    assert |all| == |rs| + |ws|;
    forall i | 0 <= i < |all| ensures evs[done + i] == all[i] {
      assert evs[done..][i] == evs[done + i];
    }
    assert evs[done..][|all|..] == evs[done + |all|..];
    hide Accessing;
  }

  /** Adds the single registers of a usage. */
  method Collect(regs: seq<Register>, u: Usage) returns (regs': seq<Register>)
    ensures regs' == regs + Registers(u)
  {
    regs' := regs;
    var rindex := u.rstart;
    while rindex < u.rend
      invariant u.rstart <= u.rend ==> u.rstart <= rindex <= u.rend
      invariant u.rstart > u.rend ==> rindex == u.rstart
      invariant regs' == regs + Registers(u)[..rindex - u.rstart]
    {
      regs' := regs' + [Register(u.regVar, rindex)];
      rindex := rindex + 1;
    }
  }

  lemma EventsNone(us: seq<Usage>, a: nat, end: nat)
    requires a <= |us| && (a < |us| ==> us[a].offset >= end)
    ensures Events(us, a, end) == []
  {
  }

  lemma AccessingNone(us: seq<Usage>)
    ensures Accessing(us, 0, 0, false) == Accessing(us, 0, 0, true) == []
  {
  }

  lemma AccessingNext(us: seq<Usage>, a: nat, b: nat, write: bool)
    requires a <= b < |us|
    ensures Accessing(us, b, b, write) == []
    ensures Accessing(us, a, b + 1, write)
            == if WritesSsa(us[b]) == write then Accessing(us, a, b, write) + Registers(us[b])
               else Accessing(us, a, b, write)
  {
  }

  /** The first done events are in s, and the usages from a on yield the others. */
  ghost predicate Applied(us: seq<Usage>, a: nat, start: nat, end: nat, infos: Infos, evs: seq<Event>, done: nat,
                          s: State)
    requires a <= |us|
  {
    && done <= |evs| && evs[done..] == Events(us, a, end)
    && EventsInOrder(evs[..done], start) && AllKnown(evs[..done], infos)
    && s == Walk(evs[..done], infos, start)
  }

  /** Applies the accesses collected from the usages a up to b, which have one offset. */
  method ApplyCollected(ghost us: seq<Usage>, ghost a: nat, ghost b: nat, start: nat, ghost end: nat, infos: Infos,
                        ghost evs: seq<Event>, ghost done: nat, s: State, readRegs: seq<Register>,
                        writtenRegs: seq<Register>, oldOffset: nat)
    returns (s': State)
    requires a < b <= |us| && Applied(us, a, start, end, infos, evs, done, s)
    requires us[a].offset == oldOffset < end && (b < |us| ==> us[b].offset > oldOffset)
    requires forall i | a <= i < b :: us[i].offset <= oldOffset
    requires EventsInOrder(evs, start) && AllKnown(evs, infos)
    requires readRegs == Accessing(us, a, b, false) && writtenRegs == Accessing(us, a, b, true)
    ensures Applied(us, b, start, end, infos, evs, done + |readRegs| + |writtenRegs|, s')
  {
    hide EventsInOrder, AllKnown, Walk, Instruction, Events, Accessing;
    EventsNext(us, a, b, end);
    InstructionAt(us, a, b, oldOffset, evs, done, Events(us, b, end));
    s' := Apply(s, readRegs, writtenRegs, oldOffset, infos, start, evs, done);
  }

  lemma NothingApplied(us: seq<Usage>, start: nat, end: nat, infos: Infos)
    ensures Applied(us, 0, start, end, infos, Events(us, 0, end), 0, State(map[], map[]))
  {
    hide EventsInOrder, AllKnown, Walk, Events;
    var evs := Events(us, 0, end);
    assert evs[0..] == evs;
    WalkNothing(evs, infos, start);
  }

  lemma AllApplied(us: seq<Usage>, a: nat, start: nat, end: nat, infos: Infos, evs: seq<Event>, done: nat, s: State)
    requires a <= |us| && (a < |us| ==> us[a].offset >= end)
    requires Applied(us, a, start, end, infos, evs, done, s)
    requires EventsInOrder(evs, start) && AllKnown(evs, infos)
    ensures s == Walk(evs, infos, start)
  {
    hide EventsInOrder, AllKnown, Walk, Events;
    EventsNone(us, a, end);
    assert evs[..done] == evs;
  }

  method Scan(us: seq<Usage>, start: nat, end: nat, infos: Infos) returns (s: State)
    requires Sorted(us) && Known(us, end, infos)
    requires us != [] ==> us[0].offset >= start
    ensures AllKnown(Events(us, 0, end), infos) && EventsInOrder(Events(us, 0, end), start)
    ensures s == Walk(Events(us, 0, end), infos, start)
  {
    hide EventsInOrder, AllKnown, Walk, Instruction, Events, Known, Registers, Accessing, WritesSsa, Applied;
    AccessingNone(us);
    ghost var evs := Events(us, 0, end);
    EventsShape(us, 0, end, infos, start);
    s := State(map[], map[]);
    var readRegs: seq<Register> := [];
    var writtenRegs: seq<Register> := [];
    var pos: nat := 0;
    var oldOffset := if us != [] then start else end;
    var first := true;
    // the pending accesses come from usages a up to pos, the first done events are in s
    ghost var a: nat, done: nat := 0, 0;
    NothingApplied(us, start, end, infos);
    while true
      invariant a <= pos <= |us|
      invariant readRegs == Accessing(us, a, pos, false) && writtenRegs == Accessing(us, a, pos, true)
      invariant Applied(us, a, start, end, infos, evs, done, s)
      invariant first ==> a == pos == 0 && oldOffset == if us != [] then start else end
      invariant !first ==> a < pos && oldOffset == us[a].offset < end
      invariant forall i | a <= i < pos :: us[i].offset <= oldOffset
      decreases |us| - pos
    {
      var hasNext := pos < |us| && oldOffset < end;
      var rvu := Usage(0, Direct, 0, 0, false, false);
      if hasNext {
        rvu := us[pos];
        pos := pos + 1;
        if first {
          oldOffset := rvu.offset;
          first := false;
        }
      }
      ghost var b := if hasNext then pos - 1 else pos;
      if (!hasNext || rvu.offset > oldOffset) && oldOffset < end {
        s := ApplyCollected(us, a, b, start, end, infos, evs, done, s, readRegs, writtenRegs, oldOffset);
        done := done + |readRegs| + |writtenRegs|;
        a := b;
        readRegs, writtenRegs := [], [];
        if !hasNext {
          break;
        }
        oldOffset := rvu.offset;
      }
      if oldOffset >= end {
        break;
      }
      AccessingNext(us, a, pos - 1, false);
      AccessingNext(us, a, pos - 1, true);
      if WritesSsa(rvu) {
        writtenRegs := Collect(writtenRegs, rvu);
      } else {
        readRegs := Collect(readRegs, rvu);
      }
    }
    AllApplied(us, a, start, end, infos, evs, done, s);
  }

  /** MAIN: starting from empty ranges, the loop gives every version of every register just the points where
      it is live: behind the writes that define it, and before the reads that find it. */
  method ProcessBlock(us: seq<Usage>, start: nat, end: nat, infos: Infos)
    returns (ranges: map<Version, seq<Interval>>)
    requires Sorted(us) && Known(us, end, infos)
    requires us != [] ==> us[0].offset >= start
    ensures AllKnown(Events(us, 0, end), infos) && EventsInOrder(Events(us, 0, end), start)
    ensures forall version, p ::
      Covers(RangeOf(ranges, version), p) <==> LiveAt(AccessesTo(Events(us, 0, end), version, infos), start, p)
    ensures forall reg, ssaId, p ::
      Covers(RangeOf(ranges, Version(reg, ssaId)), p) <==>
        && reg in infos
        && var written, readAt := UsedAt(us, 0, |us|, end, reg, true), UsedAt(us, 0, |us|, end, reg, false);
        || BehindWrite(written, reg, infos[reg], ssaId, p)
        || BeforeRead(written, readAt, start, reg, infos[reg], ssaId, p)
  {
    hide *;
    var s := Scan(us, start, end, infos);
    ranges := s.ranges;
    forall version, p
      ensures Covers(RangeOf(ranges, version), p) <==> LiveAt(AccessesTo(Events(us, 0, end), version, infos), start, p)
    {
      WalkProjects(Events(us, 0, end), version, infos, start);
      RangesAreExact(AccessesTo(Events(us, 0, end), version, infos), start);
    }
    forall reg, ssaId, p
      ensures Covers(RangeOf(ranges, Version(reg, ssaId)), p) <==>
        && reg in infos
        && var written, readAt := UsedAt(us, 0, |us|, end, reg, true), UsedAt(us, 0, |us|, end, reg, false);
        || BehindWrite(written, reg, infos[reg], ssaId, p)
        || BeforeRead(written, readAt, start, reg, infos[reg], ssaId, p)
    {
      LiveByUsages(us, Version(reg, ssaId), infos, start, end, p);
      LiveTimesAre(us, reg, ssaId, infos, start, end, p);
    }
  }

  lemma LiveTimesAre(us: seq<Usage>, reg: Register, ssaId: nat, infos: Infos, start: nat, end: nat, p: int)
    ensures reg in infos ==>
      var written, readAt := UsedAt(us, 0, |us|, end, reg, true), UsedAt(us, 0, |us|, end, reg, false);
      LiveByTimes(written, readAt, start, Version(reg, ssaId), infos[reg], p)
      <==> || BehindWrite(written, reg, infos[reg], ssaId, p)
           || BeforeRead(written, readAt, start, reg, infos[reg], ssaId, p)
  {
    hide UsedAt, BehindWrite, BeforeRead;
  }
}
