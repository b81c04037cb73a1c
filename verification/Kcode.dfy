/** Register accounting of kernels under .kcode. */
module Kcode {
  import opened Bounds

  // One register counter is shared by all kernels: it is saved, reset, joined and restored as
  // selections of kernels come and go.

  type KernelId = nat

  datatype Current = Global | Kernel(id: KernelId)

  /** Registers per register type, and register flags. */
  datatype Usage = Usage(regs: seq<nat>, flags: set<nat>)

  function None(types: nat): Usage {
    Usage(seq(types, _ => 0), {})
  }

  function Join(a: Usage, b: Usage): Usage
    requires |a.regs| == |b.regs|
  {
    Usage(seq(|a.regs|, i requires 0 <= i < |a.regs| => Max(a.regs[i], b.regs[i])), a.flags + b.flags)
  }

  lemma JoinLaws(a: Usage, b: Usage, c: Usage)
    requires |a.regs| == |b.regs| == |c.regs|
    ensures Join(a, b) == Join(b, a)
    ensures Join(Join(a, b), c) == Join(a, Join(b, c))
    ensures Join(a, a) == a
    ensures Join(a, None(|a.regs|)) == a
  {
  }

  // ----- what happens -----

  /** An argument of .kcode. */
  datatype SelArg = Add(k: KernelId) | Remove(k: KernelId) | All | NotFound | Malformed

  /** Events outside the code section have no effect, except that kernels are added wherever they are
      declared. A label is Global when it names no kernel. */
  datatype Event =
    | Use(u: Usage)
    | Label(k: Current, inCode: bool)
    | KCode(args: seq<SelArg>, inCode: bool)
    | KCodeEnd(inCode: bool)
    | AddKernel

  function AllKernels(kernels: nat): set<KernelId> {
    if kernels == 0 then {} else AllKernels(kernels - 1) + {kernels - 1}
  }

  lemma {:induction false} AllKernelsAre(kernels: nat)
    ensures forall k: KernelId :: k in AllKernels(kernels) <==> k < kernels
  {
    if kernels > 0 {
      AllKernelsAre(kernels - 1);
    }
  }

  /** The selection that .kcode arguments ask for; '+' takes all kernels and ends the list. */
  function Select(sel: set<KernelId>, args: seq<SelArg>, kernels: nat): set<KernelId>
    decreases |args|
  {
    if args == [] then sel
    else
      match args[0]
      case Add(k) => Select(sel + {k}, args[1..], kernels)
      case Remove(k) => Select(sel - {k}, args[1..], kernels)
      case All => sel + AllKernels(kernels)
      case NotFound => Select(sel, args[1..], kernels)
      case Malformed => Select(sel, args[1..], kernels)
  }

  predicate WellFormedArgs(args: seq<SelArg>) {
    args != [] && forall i | 0 <= i < |args| :: args[i] != Malformed
  }

  /** Arguments name existing kernels; a '+' without a name can only end the line. */
  predicate KnownArgs(args: seq<SelArg>, kernels: nat) {
    && (forall i | 0 <= i < |args| :: args[i].Add? || args[i].Remove? ==> args[i].k < kernels)
    && (forall i | 0 <= i < |args| - 1 :: args[i] != All)
  }

  predicate KnownEvent(e: Event, types: nat, kernels: nat) {
    match e
    case Use(u) => |u.regs| == types
    case Label(k, inCode) => k.Kernel? ==> k.id < kernels
    case KCode(args, inCode) => KnownArgs(args, kernels)
    case KCodeEnd(inCode) => true
    case AddKernel => true
  }

  function KernelsAfter(e: Event, kernels: nat): nat {
    if e.AddKernel? then kernels + 1 else kernels
  }

  lemma {:induction false} SelectKnown(sel: set<KernelId>, args: seq<SelArg>, kernels: nat)
    requires KnownArgs(args, kernels) && forall k | k in sel :: k < kernels
    ensures forall k | k in Select(sel, args, kernels) :: k < kernels
    decreases |args|
  {
    if args != [] {
      match args[0]
      case Add(k) => SelectKnown(sel + {k}, args[1..], kernels);
      case Remove(k) => SelectKnown(sel - {k}, args[1..], kernels);
      case All => AllKernelsAre(kernels);
      case NotFound => SelectKnown(sel, args[1..], kernels);
      case Malformed => SelectKnown(sel, args[1..], kernels);
    }
  }

  predicate Names(arg: SelArg, k: KernelId) {
    arg == Add(k) || arg == Remove(k)
  }

  /** The last argument that names the kernel adds it. */
  predicate AddedLast(args: seq<SelArg>, k: KernelId) {
    exists i :: 0 <= i < |args| && args[i] == Add(k) && forall j | i < j < |args| :: !Names(args[j], k)
  }

  /** What .kcode arguments ask for: all kernels, when they end with '+'; or else a kernel is selected
      as the last argument that names it says, or stays as it was when none does. */
  predicate Asked(selected: bool, args: seq<SelArg>, kernels: nat, k: KernelId) {
    || (args != [] && args[|args| - 1] == All && k < kernels)
    || AddedLast(args, k)
    || (selected && forall i | 0 <= i < |args| :: !Names(args[i], k))
  }

  lemma AskedNext(selected: bool, args: seq<SelArg>, kernels: nat, k: KernelId)
    requires args != [] && args[0] != All
    ensures var now := if args[0] == Add(k) then true else if args[0] == Remove(k) then false else selected;
      Asked(selected, args, kernels, k) <==> Asked(now, args[1..], kernels, k)
  {
    var rest := args[1..];
    assert forall i | 0 < i < |args| :: args[i] == rest[i - 1];
    if AddedLast(rest, k) {
      var i :| 0 <= i < |rest| && rest[i] == Add(k) && forall j | i < j < |rest| :: !Names(rest[j], k);
      assert args[i + 1] == Add(k);
    }
    if AddedLast(args, k) {
      var i :| 0 <= i < |args| && args[i] == Add(k) && forall j | i < j < |args| :: !Names(args[j], k);
      assert i > 0 ==> rest[i - 1] == Add(k);
    }
  }

  /** The loop over the arguments selects what they ask for. */
  lemma {:induction false} SelectIsAsked(sel: set<KernelId>, args: seq<SelArg>, kernels: nat, k: KernelId)
    requires forall i | 0 <= i < |args| - 1 :: args[i] != All
    ensures k in Select(sel, args, kernels) <==> Asked(k in sel, args, kernels, k)
    decreases |args|
  {
    if args != [] {
      if args[0] == All {
        AllKernelsAre(kernels);
        assert forall i | 0 <= i < |args| :: !Names(args[i], k);
      } else {
        AskedNext(k in sel, args, kernels, k);
        hide Asked;
        match args[0]
        case Add(n) => SelectIsAsked(sel + {n}, args[1..], kernels, k);
        case Remove(n) => SelectIsAsked(sel - {n}, args[1..], kernels, k);
        case NotFound => SelectIsAsked(sel, args[1..], kernels, k);
        case Malformed => SelectIsAsked(sel, args[1..], kernels, k);
      }
    }
  }

  // ----- the reference: who is charged -----

  /** Kernels are charged for the uses made while they are active: the selected ones inside
      .kcode, the labelled one outside. */
  datatype Reference = Reference(
    current: Current, selection: set<KernelId>, outer: seq<set<KernelId>>, charged: seq<Usage>)

  predicate Active(r: Reference, k: KernelId) {
    if r.outer == [] then r.current == Kernel(k) else k in r.selection
  }

  function RefStep(e: Event, r: Reference, types: nat): Reference
    requires forall i | 0 <= i < |r.charged| :: |r.charged[i].regs| == types
    requires e.Use? ==> |e.u.regs| == types
  {
    match e
    case Use(u) =>
      r.(charged := seq(|r.charged|, k requires 0 <= k < |r.charged| =>
           if Active(r, k) then Join(r.charged[k], u) else r.charged[k]))
    case Label(k, inCode) =>
      if k == Global || !inCode || r.selection != {} then r else r.(current := k)
    case KCode(args, inCode) =>
      if !WellFormedArgs(args) || !inCode then r
      else r.(selection := Select(r.selection, args, |r.charged|), outer := r.outer + [r.selection])
    case KCodeEnd(inCode) =>
      if r.outer == [] || !inCode then r
      else r.(selection := r.outer[|r.outer| - 1], outer := r.outer[..|r.outer| - 1])
    case AddKernel => r.(charged := r.charged + [None(types)])
  }

  // ----- the implementation's state -----

  /** One register counter (isa) shared by all kernels; kernels hold their saved counts. */
  datatype Impl = Impl(
    current: Current, selection: set<KernelId>, outer: seq<set<KernelId>>,
    isa: Usage, kernels: seq<Usage>)

  /** Joins the counter into the selected kernels. */
  function JoinInto(kernels: seq<Usage>, sel: set<KernelId>, isa: Usage): seq<Usage>
    requires forall k | 0 <= k < |kernels| :: |kernels[k].regs| == |isa.regs|
  {
    seq(|kernels|, k requires 0 <= k < |kernels| =>
      if k in sel then Join(kernels[k], isa) else kernels[k])
  }

  ghost predicate Shaped(s: Impl) {
    && (forall k | 0 <= k < |s.kernels| :: |s.kernels[k].regs| == |s.isa.regs|)
    && (s.current.Kernel? ==> s.current.id < |s.kernels|)
    && (forall k | k in s.selection :: k < |s.kernels|)
    && (forall i, k | 0 <= i < |s.outer| && k in s.outer[i] :: k < |s.kernels|)
    && (if s.outer == [] then s.selection == {} else s.outer[0] == {})
  }

  /** saveKcodeCurrentAllocRegs */
  function Save(s: Impl): Impl
    requires s.current.Kernel? ==> s.current.id < |s.kernels|
  {
    if s.current == Global then s else s.(kernels := s.kernels[s.current.id := s.isa])
  }

  /** restoreKcodeCurrentAllocRegs */
  function Restore(s: Impl): Impl
    requires s.current.Kernel? ==> s.current.id < |s.kernels|
  {
    if s.current == Global then s else s.(isa := s.kernels[s.current.id])
  }

  /** updateKCodeSel: the counter goes to the given kernels and starts anew. */
  function Update(s: Impl, sel: set<KernelId>): Impl
    requires forall k | 0 <= k < |s.kernels| :: |s.kernels[k].regs| == |s.isa.regs|
  {
    s.(kernels := JoinInto(s.kernels, sel, s.isa), isa := None(|s.isa.regs|))
  }

  function ImplStep(e: Event, s: Impl): Impl
    requires Shaped(s) && KnownEvent(e, |s.isa.regs|, |s.kernels|)
  {
    match e
    case Use(u) => s.(isa := Join(s.isa, u))
    case Label(k, inCode) =>
      if k == Global || !inCode || s.selection != {} then s
      else Restore(Save(s).(current := k))
    case KCode(args, inCode) =>
      if !WellFormedArgs(args) || !inCode then s
      else
        var s1 := if s.outer == [] then Save(s) else s;
        var s2 := s1.(selection := Select(s.selection, args, |s.kernels|), outer := s.outer + [s.selection]);
        Update(s2, s.selection)
    case KCodeEnd(inCode) =>
      if s.outer == [] || !inCode then s
      else
        var s1 := Update(s, s.selection);
        var s2 := s1.(selection := s.outer[|s.outer| - 1], outer := s.outer[..|s.outer| - 1]);
        if s2.outer == [] then Restore(s2) else s2
    case AddKernel => s.(kernels := s.kernels + [None(|s.isa.regs|)])
  }

  /** prepareKcodeState: closes whatever .kcode is still open. */
  function Prepare(s: Impl): Impl
    requires Shaped(s)
    decreases |s.outer|
  {
    if s.outer == [] then Save(s) else Drain(s)
  }

  function Drain(s: Impl): Impl
    requires Shaped(s)
    decreases |s.outer|
  {
    if s.outer == [] then s
    else
      var n := |s.outer| - 1;
      Drain(Update(s, s.selection).(selection := s.outer[n], outer := s.outer[..n]))
  }

  // ----- exactness -----

  /** The counts held by the implementation are the charges: the counter belongs to the
      active kernels, the rest is saved with the kernels. */
  ghost predicate Exact(s: Impl, r: Reference) {
    && s.current == r.current && s.selection == r.selection && s.outer == r.outer
    && |s.kernels| == |r.charged|
    && (forall k | 0 <= k < |s.kernels| :: |s.kernels[k].regs| == |s.isa.regs|)
    && (forall k | 0 <= k < |r.charged| ::
          r.charged[k] == (
            if s.outer == [] then (if s.current == Kernel(k) then s.isa else s.kernels[k])
            else if k in s.selection then Join(s.kernels[k], s.isa) else s.kernels[k]))
  }

  /** A kernel label is harmless outside .kcode and under a selection. Inside .kcode with
      nothing selected it saves the counter over the current kernel's count. */
  predicate LabelKeeps(s: Impl, k: Current, inCode: bool)
    requires s.current.Kernel? ==> s.current.id < |s.kernels|
  {
    || k == Global || !inCode || s.outer == [] || s.selection != {}
    || s.current == Global || s.isa == s.kernels[s.current.id]
  }

  lemma {:induction false} ShapedStep(e: Event, s: Impl)
    requires Shaped(s) && KnownEvent(e, |s.isa.regs|, |s.kernels|)
    ensures Shaped(ImplStep(e, s))
    ensures |ImplStep(e, s).kernels| == KernelsAfter(e, |s.kernels|)
    ensures |ImplStep(e, s).isa.regs| == |s.isa.regs|
  {
    if e.KCode? {
      SelectKnown(s.selection, e.args, |s.kernels|);
    }
  }

  lemma UseExact(u: Usage, s: Impl, r: Reference)
    requires Shaped(s) && Exact(s, r) && |u.regs| == |s.isa.regs|
    ensures Exact(ImplStep(Use(u), s), RefStep(Use(u), r, |s.isa.regs|))
  {
    forall k | 0 <= k < |s.kernels|
      ensures Join(Join(s.kernels[k], s.isa), u) == Join(s.kernels[k], Join(s.isa, u))
    {
      JoinLaws(s.kernels[k], s.isa, u);
    }
  }

  /** Exactly the labels that LabelKeeps names keep the accounting exact. */
  lemma LabelExact(k: Current, inCode: bool, s: Impl, r: Reference)
    requires Shaped(s) && Exact(s, r) && (k.Kernel? ==> k.id < |s.kernels|)
    ensures Exact(ImplStep(Label(k, inCode), s), RefStep(Label(k, inCode), r, |s.isa.regs|))
            <==> LabelKeeps(s, k, inCode)
  {
    var s', r' := ImplStep(Label(k, inCode), s), RefStep(Label(k, inCode), r, |s.isa.regs|);
    if !LabelKeeps(s, k, inCode) {
      var c := s.current.id;
      assert s'.kernels[c] == s.isa && r'.charged[c] == s.kernels[c];
    }
  }

  lemma JoinNone(kernels: seq<Usage>, types: nat)
    requires forall k | 0 <= k < |kernels| :: |kernels[k].regs| == types
    ensures forall k | 0 <= k < |kernels| :: Join(kernels[k], None(types)) == kernels[k]
  {
    forall k | 0 <= k < |kernels| ensures Join(kernels[k], None(types)) == kernels[k] {
      JoinLaws(kernels[k], kernels[k], kernels[k]);
    }
  }

  lemma KCodeExact(args: seq<SelArg>, inCode: bool, s: Impl, r: Reference)
    requires Shaped(s) && Exact(s, r) && KnownArgs(args, |s.kernels|)
    ensures Exact(ImplStep(KCode(args, inCode), s), RefStep(KCode(args, inCode), r, |s.isa.regs|))
  {
    var s' := ImplStep(KCode(args, inCode), s);
    ShapedStep(KCode(args, inCode), s);
    JoinNone(s'.kernels, |s.isa.regs|);
  }

  lemma KCodeEndExact(inCode: bool, s: Impl, r: Reference)
    requires Shaped(s) && Exact(s, r)
    ensures Exact(ImplStep(KCodeEnd(inCode), s), RefStep(KCodeEnd(inCode), r, |s.isa.regs|))
  {
    var s' := ImplStep(KCodeEnd(inCode), s);
    ShapedStep(KCodeEnd(inCode), s);
    JoinNone(s'.kernels, |s.isa.regs|);
  }

  lemma StepExact(e: Event, s: Impl, r: Reference)
    requires Shaped(s) && Exact(s, r) && KnownEvent(e, |s.isa.regs|, |s.kernels|)
    ensures Exact(ImplStep(e, s), RefStep(e, r, |s.isa.regs|)) <==> (e.Label? ==> LabelKeeps(s, e.k, e.inCode))
  {
    match e
    case Use(u) => UseExact(u, s, r);
    case Label(k, inCode) => LabelExact(k, inCode, s, r);
    case KCode(args, inCode) => KCodeExact(args, inCode, s, r);
    case KCodeEnd(inCode) => KCodeEndExact(inCode, s, r);
    case AddKernel =>
  }

  lemma {:induction false} DrainExact(s: Impl, r: Reference)
    requires Shaped(s) && Exact(s, r) && s.outer != []
    ensures Drain(s).kernels == r.charged
    decreases |s.outer|
  {
    var n := |s.outer| - 1;
    var s' := Update(s, s.selection).(selection := s.outer[n], outer := s.outer[..n]);
    JoinNone(s'.kernels, |s.isa.regs|);
    assert s'.kernels == r.charged;
    if n > 0 {
      DrainExact(s', r.(selection := s.outer[n], outer := s.outer[..n]));
    }
  }

  // ----- whole runs -----

  predicate KnownEvents(es: seq<Event>, types: nat, kernels: nat) {
    es == [] || (KnownEvent(es[0], types, kernels) && KnownEvents(es[1..], types, KernelsAfter(es[0], kernels)))
  }

  ghost function ImplRun(es: seq<Event>, s: Impl): (s': Impl)
    requires Shaped(s) && KnownEvents(es, |s.isa.regs|, |s.kernels|)
    ensures Shaped(s') && |s'.isa.regs| == |s.isa.regs|
  {
    if es == [] then s
    else
      ShapedStep(es[0], s);
      ImplRun(es[1..], ImplStep(es[0], s))
  }

  ghost function RefRun(es: seq<Event>, r: Reference, types: nat): Reference
    requires forall k | 0 <= k < |r.charged| :: |r.charged[k].regs| == types
    requires KnownEvents(es, types, |r.charged|)
  {
    if es == [] then r else RefRun(es[1..], RefStep(es[0], r, types), types)
  }

  /** Every kernel label of the run is met in a state that it leaves exact. */
  ghost predicate LabelsKeep(es: seq<Event>, s: Impl)
    requires Shaped(s) && KnownEvents(es, |s.isa.regs|, |s.kernels|)
  {
    es == [] ||
    ((es[0].Label? ==> LabelKeeps(s, es[0].k, es[0].inCode)) &&
     (ShapedStep(es[0], s);
      LabelsKeep(es[1..], ImplStep(es[0], s))))
  }

  function InitialImpl(kernels: nat, types: nat): Impl {
    Impl(Global, {}, [], None(types), seq(kernels, _ => None(types)))
  }

  function InitialReference(kernels: nat, types: nat): Reference {
    Reference(Global, {}, [], seq(kernels, _ => None(types)))
  }

  lemma {:induction false} RunExactFrom(es: seq<Event>, s: Impl, r: Reference)
    requires Shaped(s) && Exact(s, r) && KnownEvents(es, |s.isa.regs|, |s.kernels|)
    requires LabelsKeep(es, s)
    ensures forall k | 0 <= k < |r.charged| :: |r.charged[k].regs| == |s.isa.regs|
    ensures Exact(ImplRun(es, s), RefRun(es, r, |s.isa.regs|))
  {
    if es != [] {
      StepExact(es[0], s, r);
      ShapedStep(es[0], s);
      RunExactFrom(es[1..], ImplStep(es[0], s), RefStep(es[0], r, |s.isa.regs|));
    }
  }

  /** MAIN: after any run, prepareKcodeState leaves with every kernel exactly the registers
      and flags used while it was active. */
  lemma AccountingIsExact(es: seq<Event>, kernels: nat, types: nat)
    requires KnownEvents(es, types, kernels)
    requires LabelsKeep(es, InitialImpl(kernels, types))
    ensures Prepare(ImplRun(es, InitialImpl(kernels, types))).kernels ==
            RefRun(es, InitialReference(kernels, types), types).charged
  {
    var s, r := InitialImpl(kernels, types), InitialReference(kernels, types);
    RunExactFrom(es, s, r);
    var s', r' := ImplRun(es, s), RefRun(es, r, types);
    if s'.outer == [] {
      assert Prepare(s').kernels == r'.charged;
    } else {
      DrainExact(s', r');
    }
  }

  lemma RunNext(e: Event, es: seq<Event>, s: Impl, r: Reference)
    requires Shaped(s) && KnownEvents([e] + es, |s.isa.regs|, |s.kernels|) && |r.charged| == |s.kernels|
    requires forall k | 0 <= k < |r.charged| :: |r.charged[k].regs| == |s.isa.regs|
    ensures KnownEvent(e, |s.isa.regs|, |s.kernels|) && Shaped(ImplStep(e, s))
    ensures KnownEvents(es, |s.isa.regs|, KernelsAfter(e, |s.kernels|))
    ensures |ImplStep(e, s).kernels| == KernelsAfter(e, |s.kernels|) && |ImplStep(e, s).isa.regs| == |s.isa.regs|
    ensures ImplRun([e] + es, s) == ImplRun(es, ImplStep(e, s))
    ensures var r' := RefStep(e, r, |s.isa.regs|);
      && |r'.charged| == KernelsAfter(e, |r.charged|)
      && (forall k | 0 <= k < |r'.charged| :: |r'.charged[k].regs| == |s.isa.regs|)
      && RefRun([e] + es, r, |s.isa.regs|) == RefRun(es, r', |s.isa.regs|)
  {
    assert ([e] + es)[1..] == es;
    assert ([e] + es)[0] == e;
    ShapedStep(e, s);
  }

  const FIVE := Usage([5], {})

  /** A run that loses registers, with the states before each of its events. */
  function LosingEvent(i: nat): Event {
    if i == 0 then Label(Kernel(0), true)
    else if i == 1 then Use(FIVE)
    else if i == 2 then KCode([Remove(0)], true)
    else Label(Kernel(1), true)
  }

  function LosingState(i: nat): Impl {
    if i == 0 then InitialImpl(2, 1)
    else if i == 1 then Impl(Kernel(0), {}, [], None(1), [None(1), None(1)])
    else if i == 2 then Impl(Kernel(0), {}, [], FIVE, [None(1), None(1)])
    else if i == 3 then Impl(Kernel(0), {}, [{}], None(1), [FIVE, None(1)])
    else Impl(Kernel(1), {}, [{}], None(1), [None(1), None(1)])
  }

  function LosingReference(i: nat): Reference {
    if i == 0 then InitialReference(2, 1)
    else if i == 1 then Reference(Kernel(0), {}, [], [None(1), None(1)])
    else if i == 2 then Reference(Kernel(0), {}, [], [FIVE, None(1)])
    else if i == 3 then Reference(Kernel(0), {}, [{}], [FIVE, None(1)])
    else Reference(Kernel(1), {}, [{}], [FIVE, None(1)])
  }

  lemma LosingShape(i: nat)
    requires i < 4
    ensures var s := LosingState(i);
      && Shaped(s) && |s.isa.regs| == 1 && |s.kernels| == 2 && KnownEvent(LosingEvent(i), 1, 2)
      && |LosingReference(i).charged| == 2
      && forall k | 0 <= k < 2 :: |LosingReference(i).charged[k].regs| == 1
  {
  }

  lemma AddsNone(i: nat)
    requires i < 4
    ensures KernelsAfter(LosingEvent(i), 2) == 2
    ensures LosingEvents(i)[0] == LosingEvent(i) && LosingEvents(i)[1..] == LosingEvents(i + 1)
  {
    assert ([LosingEvent(i)] + LosingEvents(i + 1))[1..] == LosingEvents(i + 1);
  }

  lemma LosingStep(i: nat)
    requires i < 4
    ensures Shaped(LosingState(i)) && KnownEvent(LosingEvent(i), |LosingState(i).isa.regs|, |LosingState(i).kernels|)
    ensures ImplStep(LosingEvent(i), LosingState(i)) == LosingState(i + 1)
  {
    LosingShape(i);
    if i == 1 {
      assert Join(None(1), FIVE) == FIVE;
    } else if i == 2 {
      assert [Remove(0)][1..] == [];
      assert Select({}, [Remove(0)], 2) == {};
    }
  }

  lemma LosingReferenceStep(i: nat)
    requires i < 4
    ensures forall k | 0 <= k < |LosingReference(i).charged| :: |LosingReference(i).charged[k].regs| == 1
    ensures RefStep(LosingEvent(i), LosingReference(i), 1) == LosingReference(i + 1)
  {
    LosingShape(i);
    if i == 1 {
      assert Join(None(1), FIVE) == FIVE;
    } else if i == 2 {
      assert [Remove(0)][1..] == [];
      assert Select({}, [Remove(0)], 2) == {};
    }
  }

  function LosingEvents(i: nat): seq<Event>
    requires i <= 4
    decreases 4 - i
  {
    if i == 4 then [] else [LosingEvent(i)] + LosingEvents(i + 1)
  }

  lemma {:induction false} LosingRun(i: nat)
    requires i <= 4
    ensures KnownEvents(LosingEvents(i), 1, 2)
    ensures Shaped(LosingState(i)) && |LosingState(i).isa.regs| == 1 && |LosingState(i).kernels| == 2
    ensures ImplRun(LosingEvents(i), LosingState(i)) == LosingState(4)
    ensures |LosingReference(i).charged| == 2
    ensures forall k | 0 <= k < 2 :: |LosingReference(i).charged[k].regs| == 1
    ensures RefRun(LosingEvents(i), LosingReference(i), 1) == LosingReference(4)
    decreases 4 - i
  {
    if i < 4 {
      LosingRun(i + 1);
      LosingShape(i);
      LosingStep(i);
      LosingReferenceStep(i);
      AddsNone(i);
      hide LosingState, LosingReference, LosingEvent, Shaped, ImplStep, RefStep, KnownEvent;
      RunNext(LosingEvent(i), LosingEvents(i + 1), LosingState(i), LosingReference(i));
    }
  }

  /** A kernel label inside .kcode with nothing selected can lose registers: kernel 0 used five,
      but is left with none. */
  lemma LabelCanLoseRegisters()
    ensures var es := LosingEvents(0);
      && KnownEvents(es, 1, 2)
      && Prepare(ImplRun(es, InitialImpl(2, 1))).kernels == [None(1), None(1)]
      && RefRun(es, InitialReference(2, 1), 1).charged == [FIVE, None(1)]
  {
    LosingRun(0);
    LosingRun(4);
    JoinLaws(None(1), None(1), None(1));
    hide ImplRun, RefRun, LosingEvents;
  }

  // ----- the handler -----

  function SetOf(s: seq<KernelId>): set<KernelId> {
    set k | k in s
  }

  lemma InSetOf(s: seq<KernelId>, n: nat)
    ensures (forall k | k in SetOf(s) :: k < n) <==> (forall i | 0 <= i < |s| :: s[i] < n)
    ensures SetOf(s) == {} <==> s == []
  {
    assert forall i | 0 <= i < |s| :: s[i] in SetOf(s);
    if s != [] {
      assert s[0] in SetOf(s);
    }
  }

  function SetsOf(stack: seq<seq<KernelId>>): seq<set<KernelId>> {
    seq(|stack|, i requires 0 <= i < |stack| => SetOf(stack[i]))
  }

  lemma SetsOfEnds(stack: seq<seq<KernelId>>, s: seq<KernelId>)
    ensures SetsOf(stack + [s]) == SetsOf(stack) + [SetOf(s)]
    ensures stack != [] ==>
              SetsOf(stack[..|stack| - 1]) == SetsOf(stack)[..|stack| - 1] &&
              SetOf(stack[|stack| - 1]) == SetsOf(stack)[|stack| - 1]
  {
  }

  /** The kernels of a set in rising order, as a selection is stored. */
  method Sorted(sel: set<KernelId>, kernelsNum: nat) returns (r: seq<KernelId>)
    requires forall k | k in sel :: k < kernelsNum
    ensures SetOf(r) == sel
    ensures forall i, j | 0 <= i < j < |r| :: r[i] < r[j]
  {
    r := [];
    for n := 0 to kernelsNum
      invariant forall k :: k in r <==> k in sel && k < n
      invariant forall i, j | 0 <= i < j < |r| :: r[i] < r[j]
    {
      if n in sel {
        assert forall i | 0 <= i < |r| :: r[i] in r;
        r := r + [n];
      }
    }
  }

  class KcodeHandler {
    var kcodeSelection: seq<KernelId>
    var kcodeSelStack: seq<seq<KernelId>>
    var currentKcodeKernel: Current
    var isaRegs: Usage
    var kernels: seq<Usage>

    ghost function State(): Impl
      reads this
    {
      Impl(currentKcodeKernel, SetOf(kcodeSelection), SetsOf(kcodeSelStack), isaRegs, kernels)
    }

    ghost predicate Valid()
      reads this
    {
      Shaped(State())
    }

    constructor (kernelsNum: nat, types: nat)
      ensures Valid() && State() == InitialImpl(kernelsNum, types)
    {
      kcodeSelection, kcodeSelStack, currentKcodeKernel := [], [], Global;
      isaRegs := None(types);
      kernels := seq(kernelsNum, _ => None(types));
    }

    method UseRegisters(u: Usage)
      requires Valid() && |u.regs| == |isaRegs.regs|
      modifies this`isaRegs
      ensures Valid() && State() == ImplStep(Use(u), old(State()))
    {
      isaRegs := Join(isaRegs, u);
    }

    /** Adds a kernel without registers. */
    method AddKernel()
      requires Valid()
      modifies this`kernels
      ensures Valid() && State() == ImplStep(Event.AddKernel, old(State()))
    {
      kernels := kernels + [None(|isaRegs.regs|)];
    }

    method SaveCurrentAllocRegs()
      requires currentKcodeKernel.Kernel? ==> currentKcodeKernel.id < |kernels|
      modifies this`kernels
      ensures State() == Save(old(State()))
    {
      if currentKcodeKernel != Global {
        kernels := kernels[currentKcodeKernel.id := isaRegs];
      }
    }

    method RestoreCurrentAllocRegs()
      requires currentKcodeKernel.Kernel? ==> currentKcodeKernel.id < |kernels|
      modifies this`isaRegs
      ensures State() == Restore(old(State()))
    {
      if currentKcodeKernel != Global {
        isaRegs := kernels[currentKcodeKernel.id];
      }
    }

    /** Joins the counter into the kernels of a selection, one after the other. */
    method UpdateKCodeSel(oldset: seq<KernelId>)
      requires forall k | 0 <= k < |kernels| :: |kernels[k].regs| == |isaRegs.regs|
      requires forall i | 0 <= i < |oldset| :: oldset[i] < |kernels|
      modifies this`kernels, this`isaRegs
      ensures State() == Update(old(State()), SetOf(oldset))
    {
      ghost var before := kernels;
      for i := 0 to |oldset|
        invariant isaRegs == old(isaRegs)
        invariant kernels == JoinInto(before, SetOf(oldset[..i]), isaRegs)
      {
        var k := oldset[i];
        JoinLaws(before[k], isaRegs, isaRegs);
        JoinLaws(isaRegs, isaRegs, isaRegs);
        assert SetOf(oldset[..i + 1]) == SetOf(oldset[..i]) + {k};
        kernels := kernels[k := Join(kernels[k], isaRegs)];
      }
      assert oldset[..|oldset|] == oldset;
      isaRegs := None(|isaRegs.regs|);
    }

    method HandleLabel(kernel: Current, inCode: bool)
      requires Valid() && (kernel.Kernel? ==> kernel.id < |kernels|)
      modifies this
      ensures Valid() && State() == ImplStep(Label(kernel, inCode), old(State()))
      ensures currentKcodeKernel == if inCode && kernel != Global && old(kcodeSelection) == [] then kernel
                                    else old(currentKcodeKernel)
      ensures kcodeSelection == old(kcodeSelection) && kcodeSelStack == old(kcodeSelStack)
    {
      ShapedStep(Label(kernel, inCode), State());
      InSetOf(kcodeSelection, |kernels|);
      if !inCode || kernel == Global || kcodeSelection != [] {
        return;
      }
      SaveCurrentAllocRegs();
      currentKcodeKernel := kernel;
      RestoreCurrentAllocRegs();
    }

    method DoKCode(args: seq<SelArg>, inCode: bool)
      requires Valid() && KnownArgs(args, |kernels|)
      modifies this
      ensures Valid() && State() == ImplStep(KCode(args, inCode), old(State()))
      ensures currentKcodeKernel == old(currentKcodeKernel)
      ensures if inCode && args != [] && forall i | 0 <= i < |args| :: args[i] != Malformed then
                && kcodeSelStack == old(kcodeSelStack) + [old(kcodeSelection)]
                && (forall k :: k in kcodeSelection <==> Asked(k in old(kcodeSelection), args, |kernels|, k))
                && (forall i, j | 0 <= i < j < |kcodeSelection| :: kcodeSelection[i] < kcodeSelection[j])
              else kcodeSelStack == old(kcodeSelStack) && kcodeSelection == old(kcodeSelection)
    {
      hide Asked;
      ghost var before := State();
      ShapedStep(KCode(args, inCode), before);
      if args == [] {
        return;
      }
      var newSel := SetOf(kcodeSelection);
      var good := true;
      var i := 0;
      ghost var whole := Select(newSel, args, |kernels|);
      assert args[0..] == args;
      while i < |args|
        invariant 0 <= i <= |args|
        invariant Select(newSel, args[i..], |kernels|) == whole
        invariant good <==> forall j | 0 <= j < i :: args[j] != Malformed
      {
        assert args[i..][1..] == args[i + 1..];
        match args[i] {
          case Add(k) => newSel := newSel + {k};
          case Remove(k) => newSel := newSel - {k};
          case All => newSel := newSel + AllKernels(|kernels|);
          case NotFound =>
          case Malformed => good := false;
        }
        i := i + 1;
        if args[i - 1] == All {
          break;
        }
      }
      if !good || !inCode {
        return;
      }
      SelectKnown(SetOf(kcodeSelection), args, |kernels|);
      forall k ensures k in newSel <==> Asked(k in kcodeSelection, args, |kernels|, k) {
        SelectIsAsked(SetOf(kcodeSelection), args, |kernels|, k);
      }
      if kcodeSelStack == [] {
        SaveCurrentAllocRegs();
      }
      var oldSelection := kcodeSelection;
      SetsOfEnds(kcodeSelStack, kcodeSelection);
      InSetOf(kcodeSelection, |kernels|);
      kcodeSelStack := kcodeSelStack + [kcodeSelection];
      kcodeSelection := Sorted(newSel, |kernels|);
      UpdateKCodeSel(oldSelection);
    }

    method DoKCodeEnd(inCode: bool)
      requires Valid()
      modifies this
      ensures Valid() && State() == ImplStep(KCodeEnd(inCode), old(State()))
      ensures currentKcodeKernel == old(currentKcodeKernel)
      ensures if inCode && old(kcodeSelStack) != [] then
                kcodeSelStack + [kcodeSelection] == old(kcodeSelStack)
              else kcodeSelStack == old(kcodeSelStack) && kcodeSelection == old(kcodeSelection)
    {
      ShapedStep(KCodeEnd(inCode), State());
      if !inCode || kcodeSelStack == [] {
        return;
      }
      InSetOf(kcodeSelection, |kernels|);
      SetsOfEnds(kcodeSelStack, []);
      UpdateKCodeSel(kcodeSelection);
      kcodeSelection := kcodeSelStack[|kcodeSelStack| - 1];
      kcodeSelStack := kcodeSelStack[..|kcodeSelStack| - 1];
      if kcodeSelStack == [] {
        RestoreCurrentAllocRegs();
      }
    }

    method PrepareKcodeState()
      requires Valid()
      modifies this
      ensures State() == Prepare(old(State()))
      ensures kcodeSelStack == [] && currentKcodeKernel == old(currentKcodeKernel)
    {
      if kcodeSelStack == [] {
        SaveCurrentAllocRegs();
      } else {
        while kcodeSelStack != []
          invariant Valid()
          invariant Drain(State()) == Drain(old(State())) && currentKcodeKernel == old(currentKcodeKernel)
          decreases |kcodeSelStack|
        {
          ghost var s := State();
          InSetOf(kcodeSelection, |kernels|);
          SetsOfEnds(kcodeSelStack, []);
          UpdateKCodeSel(kcodeSelection);
          kcodeSelection := kcodeSelStack[|kcodeSelStack| - 1];
          kcodeSelStack := kcodeSelStack[..|kcodeSelStack| - 1];
          assert State() == Update(s, s.selection).(selection := s.outer[|s.outer| - 1],
                                                    outer := s.outer[..|s.outer| - 1]);
        }
      }
    }
  }
}
