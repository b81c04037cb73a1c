/** Forms whose sections are moved to the head of their relocation space: every section stands for the
    head of its space, multiples of one space are added up, and the offset moves along. Arguments, sums,
    negations and multiples of moved forms are moved forms, and forms without sections in relocation
    spaces stay as they are. */
module MovedForms {
  import opened Words
  import opened Operators
  import opened LinearForms
  import opened RelativeMachine
  import opened RelativeSoundness

  /** Preparation gives the sections of the relocation spaces their relative addresses. */
  ghost predicate Prepares(before: Layout, after: Layout) {
    && ValidLayout(before) && ValidLayout(after) && !before.prepared && after.prepared
    && |before.sections| == |after.sections|
    && forall s | 0 <= s < |after.sections| :: before.sections[s].space == after.sections[s].space
  }

  ghost predicate Prepared(lay: Layout) {
    ValidLayout(lay) && lay.prepared
  }

  predicate Inside(lay: Layout, s: SectionId) {
    s < |lay.sections| && InSpace(lay, s)
  }

  /** The section that stands for all sections of its relocation space. */
  function Head(lay: Layout, s: SectionId): (h: SectionId)
    requires Prepared(lay)
    ensures Inside(lay, s) <==> Inside(lay, h)
    ensures !Inside(lay, s) ==> h == s
    ensures Inside(lay, s) ==> lay.sections[h].space == lay.sections[s].space
  {
    if Inside(lay, s) then lay.spaces[lay.sections[s].space][0] else s
  }

  lemma HeadOfHead(lay: Layout, s: SectionId)
    requires Prepared(lay)
    ensures Head(lay, Head(lay, s)) == Head(lay, s)
  {
  }

  /** The distance from the head of a section's space. */
  function Delta(lay: Layout, s: SectionId): int
    requires Prepared(lay)
  {
    if Inside(lay, s) then lay.sections[s].relAddress - lay.sections[Head(lay, s)].relAddress else 0
  }

  ghost function Deltas(lay: Layout): Bases
    requires Prepared(lay)
  {
    (s: SectionId) => Delta(lay, s)
  }

  /** Places every section with head h at one and all others at zero: sums count multiples of h. */
  ghost function Counts(lay: Layout, h: SectionId): Bases
    requires Prepared(lay)
  {
    (s: SectionId) => if Head(lay, s) == h then 1 else 0
  }

  // ----- a form before and after -----

  predicate IsHeadOf(lay: Layout, rels: Relatives, h: SectionId)
    requires Prepared(lay)
  {
    exists i :: 0 <= i < |rels| && Head(lay, rels[i].section) == h
  }

  /** The later multiples belong to heads of the earlier ones, and none outside of relocation
      spaces is lost. */
  ghost predicate Folded(lay: Layout, rels: Relatives, rels': Relatives)
    requires Prepared(lay)
  {
    && (forall j | 0 <= j < |rels'| :: IsHeadOf(lay, rels, rels'[j].section))
    && (forall i | 0 <= i < |rels| && !Inside(lay, rels[i].section) :: Has(rels', rels[i].section))
  }

  ghost predicate SameCounts(lay: Layout, rels: Relatives, rels': Relatives)
    requires Prepared(lay)
  {
    forall h: SectionId :: Cong(Sum(rels', Counts(lay, h)), Sum(rels, Counts(lay, h)))
  }

  /** f with every section replaced by the head of its space, and its offset moved along. */
  ghost predicate Related(lay: Layout, f: Form, g: Form)
    requires Prepared(lay)
  {
    && FormOk(lay, f) && FormOk(lay, g)
    && g.value == Denotes(f, Deltas(lay))
    && SameCounts(lay, f.rels, g.rels)
    && Folded(lay, f.rels, g.rels)
  }

  lemma {:induction false} NoCount(lay: Layout, rels: Relatives, h: SectionId)
    requires Prepared(lay) && !IsHeadOf(lay, rels, h)
    ensures Sum(rels, Counts(lay, h)) == 0
  {
    if rels != [] {
      forall i | 0 <= i < |rels[1..]| ensures Head(lay, rels[1..][i].section) != h {
        assert rels[1..][i] == rels[i + 1];
      }
      NoCount(lay, rels[1..], h);
      assert Head(lay, rels[0].section) != h;
    }
  }

  /** The only multiple with a head is that head's count. */
  lemma {:induction false} CountOfOne(lay: Layout, rels: Relatives, i: nat)
    requires Prepared(lay) && i < |rels|
    requires forall j | 0 <= j < |rels| && j != i :: Head(lay, rels[j].section) != Head(lay, rels[i].section)
    ensures Sum(rels, Counts(lay, Head(lay, rels[i].section))) == rels[i].multiply
  {
    var h := Head(lay, rels[i].section);
    var rest := rels[1..];
    if i == 0 {
      forall j | 0 <= j < |rest| ensures Head(lay, rest[j].section) != h {
        assert rest[j] == rels[j + 1];
      }
      NoCount(lay, rest, h);
    } else {
      forall j | 0 <= j < |rest| && j != i - 1 ensures Head(lay, rest[j].section) != h {
        assert rest[j] == rels[j + 1];
      }
      CountOfOne(lay, rest, i - 1);
      assert Head(lay, rels[0].section) != h;
    }
  }

  /** Every section is its own head, as in all forms after the preparation. */
  ghost predicate Heads(lay: Layout, rels: Relatives)
    requires Prepared(lay)
  {
    forall i | 0 <= i < |rels| :: Head(lay, rels[i].section) == rels[i].section
  }

  lemma FoldedHeads(lay: Layout, rels: Relatives, rels': Relatives)
    requires Prepared(lay) && Folded(lay, rels, rels')
    ensures Heads(lay, rels')
  {
    forall j | 0 <= j < |rels'| ensures Head(lay, rels'[j].section) == rels'[j].section {
      assert IsHeadOf(lay, rels, rels'[j].section);
      var i :| 0 <= i < |rels| && Head(lay, rels[i].section) == rels'[j].section;
      HeadOfHead(lay, rels[i].section);
    }
  }

  lemma HeadCount(lay: Layout, rels: Relatives, i: nat)
    requires Prepared(lay) && Proper(rels) && Heads(lay, rels) && i < |rels|
    ensures Sum(rels, Counts(lay, rels[i].section)) == rels[i].multiply
  {
    CountOfOne(lay, rels, i);
  }

  lemma OutsideCount(lay: Layout, rels: Relatives, i: nat)
    requires Prepared(lay) && Proper(rels) && i < |rels| && !Inside(lay, rels[i].section)
    ensures Sum(rels, Counts(lay, rels[i].section)) == rels[i].multiply
  {
    forall j | 0 <= j < |rels| && j != i ensures Head(lay, rels[j].section) != rels[i].section {
      assert rels[j].section != rels[i].section;
      assert Inside(lay, Head(lay, rels[j].section)) == Inside(lay, rels[j].section);
    }
    CountOfOne(lay, rels, i);
  }

  lemma WordsCong(a: Word, b: Word)
    requires Cong(a, b)
    ensures a == b
  {
    WrapIs(a, 0, a);
    WrapIs(b, 0, b);
  }

  /** Without vanished multiples, equal counts are enough. */
  lemma FoldedByCounts(lay: Layout, rels: Relatives, rels': Relatives)
    requires Prepared(lay) && Proper(rels) && Proper(rels') && Heads(lay, rels') && SameCounts(lay, rels, rels')
    requires forall r | r in rels :: r.multiply != 0
    requires forall r | r in rels' :: r.multiply != 0
    ensures Folded(lay, rels, rels')
  {
    forall j | 0 <= j < |rels'| ensures IsHeadOf(lay, rels, rels'[j].section) {
      var h := rels'[j].section;
      HeadCount(lay, rels', j);
      assert rels'[j] in rels';
      assert Cong(Sum(rels', Counts(lay, h)), Sum(rels, Counts(lay, h)));
      if !IsHeadOf(lay, rels, h) {
        NoCount(lay, rels, h);
        WordsCong(rels'[j].multiply, 0);
      }
    }
    forall i | 0 <= i < |rels| && !Inside(lay, rels[i].section) ensures Has(rels', rels[i].section) {
      var s := rels[i].section;
      OutsideCount(lay, rels, i);
      assert rels[i] in rels;
      assert Cong(Sum(rels', Counts(lay, s)), Sum(rels, Counts(lay, s)));
      if !Has(rels', s) {
        forall j | 0 <= j < |rels'| ensures Head(lay, rels'[j].section) != s {
        }
        NoCount(lay, rels', s);
        WordsCong(0, rels[i].multiply);
      }
    }
  }

  // ----- forms that are the same before and after -----

  lemma ConstantRelated(lay: Layout, v: Word)
    requires Prepared(lay)
    ensures Related(lay, Form(v, []), Form(v, []))
  {
    DenotesConstant(Form(v, []), Deltas(lay));
  }

  lemma EmptyStays(lay: Layout, f: Form, g: Form)
    requires Prepared(lay) && Related(lay, f, g) && f.rels == []
    ensures g == f
  {
    DenotesConstant(f, Deltas(lay));
    var h := if g.rels == [] then 0 else g.rels[0].section;
    assert !IsHeadOf(lay, f.rels, h);
  }

  lemma {:induction false} OutsideDelta(lay: Layout, rels: Relatives)
    requires Prepared(lay) && forall i | 0 <= i < |rels| :: !Inside(lay, rels[i].section)
    ensures Sum(rels, Deltas(lay)) == 0
  {
    if rels != [] {
      forall i | 0 <= i < |rels[1..]| ensures !Inside(lay, rels[1..][i].section) {
        assert rels[1..][i] == rels[i + 1];
      }
      OutsideDelta(lay, rels[1..]);
      assert !Inside(lay, rels[0].section);
    }
  }

  lemma {:induction false} ProperOccurs(rels: Relatives, r: RelMultiply)
    requires Proper(rels)
    ensures multiset(rels)[r] == if r in rels then 1 else 0
  {
    if rels != [] {
      var rest := rels[1..];
      assert rels == [rels[0]] + rest;
      assert Proper(rest);
      ProperOccurs(rest, r);
      forall i | 0 <= i < |rest| ensures rest[i] != rels[0] {
        assert rels[i + 1].section != rels[0].section;
      }
    }
  }

  /** Multiples outside of relocation spaces are kept with their sections. */
  lemma OutsideKept(lay: Layout, f: Form, g: Form, i: nat)
    requires Prepared(lay) && Related(lay, f, g) && i < |f.rels| && !Inside(lay, f.rels[i].section)
    ensures f.rels[i] in g.rels
  {
    var s := f.rels[i].section;
    assert Has(g.rels, s);
    var j :| 0 <= j < |g.rels| && g.rels[j].section == s;
    FoldedHeads(lay, f.rels, g.rels);
    HeadCount(lay, g.rels, j);
    OutsideCount(lay, f.rels, i);
    assert Cong(Sum(g.rels, Counts(lay, s)), Sum(f.rels, Counts(lay, s)));
    WordsCong(g.rels[j].multiply, f.rels[i].multiply);
  }

  lemma OutsideCame(lay: Layout, f: Form, g: Form, j: nat)
    requires Prepared(lay) && Related(lay, f, g) && j < |g.rels|
    requires forall i | 0 <= i < |f.rels| :: !Inside(lay, f.rels[i].section)
    ensures g.rels[j] in f.rels
  {
    assert IsHeadOf(lay, f.rels, g.rels[j].section);
    var i :| 0 <= i < |f.rels| && Head(lay, f.rels[i].section) == g.rels[j].section;
    assert !Inside(lay, f.rels[i].section);
    OutsideKept(lay, f, g, i);
    var k :| 0 <= k < |g.rels| && g.rels[k] == f.rels[i];
    assert g.rels[k].section == g.rels[j].section;
  }

  lemma SameMembers(rels: Relatives, rels': Relatives)
    requires Proper(rels) && Proper(rels') && forall r :: r in rels <==> r in rels'
    ensures multiset(rels) == multiset(rels')
  {
    forall r: RelMultiply ensures multiset(rels)[r] == multiset(rels')[r] {
      ProperOccurs(rels, r);
      ProperOccurs(rels', r);
    }
  }

  lemma OutsideStays(lay: Layout, f: Form, g: Form)
    requires Prepared(lay) && Related(lay, f, g)
    requires forall i | 0 <= i < |f.rels| :: !Inside(lay, f.rels[i].section)
    ensures g.value == f.value && multiset(g.rels) == multiset(f.rels)
  {
    hide Cong, Sum, SameCounts, Proper, Heads;
    RelatedParts(lay, f, g);
    OutsideDelta(lay, f.rels);
    forall r | r in f.rels ensures r in g.rels {
      var i :| 0 <= i < |f.rels| && f.rels[i] == r;
      OutsideKept(lay, f, g, i);
    }
    forall j | 0 <= j < |g.rels| ensures g.rels[j] in f.rels {
      OutsideCame(lay, f, g, j);
    }
    SameMembers(f.rels, g.rels);
  }

  // ----- operators -----

  lemma ArgRelated(before: Layout, after: Layout, v: Word, s: SectionId)
    requires Prepares(before, after) && (s == ASMSECT_ABS || s < |after.sections|)
    ensures Related(after, ArgForm(before, v, s), ArgForm(after, v, s))
  {
    if s == ASMSECT_ABS {
      ConstantRelated(after, v);
    } else {
      var h := Head(after, s);
      var f, g := [RelMultiply(1, s)], [RelMultiply(1, h)];
      ArgFormOk(after, v, s);
      assert ArgForm(before, v, s) == Form(v, f);
      assert ArgForm(after, v, s) == Form(Wrap(v + Delta(after, s)), g) by {
        WrapIs(v, 0, v);
      }
      SumOfOne(f[0], Deltas(after));
      HeadOfHead(after, s);
      forall k: SectionId ensures Cong(Sum(g, Counts(after, k)), Sum(f, Counts(after, k))) {
        SumOfOne(f[0], Counts(after, k));
        SumOfOne(g[0], Counts(after, k));
      }
      assert Head(after, f[0].section) == g[0].section;
      assert IsHeadOf(after, f, g[0].section);
      assert !Inside(after, s) ==> g[0].section == s;
    }
  }

  lemma NegateFolded(lay: Layout, rels: Relatives, rels': Relatives)
    requires Prepared(lay) && SameCounts(lay, rels, rels') && Folded(lay, rels, rels')
    ensures SameCounts(lay, NegateAll(rels), NegateAll(rels')) && Folded(lay, NegateAll(rels), NegateAll(rels'))
  {
    forall h: SectionId
      ensures Cong(Sum(NegateAll(rels'), Counts(lay, h)), Sum(NegateAll(rels), Counts(lay, h)))
    {
      NegateSum(rels, Counts(lay, h));
      NegateSum(rels', Counts(lay, h));
      assert Cong(Sum(rels', Counts(lay, h)), Sum(rels, Counts(lay, h)));
      CongAdd(0, 0, Sum(rels', Counts(lay, h)), Sum(rels, Counts(lay, h)));
    }
    SectionsFolded(lay, rels, rels', NegateAll(rels), NegateAll(rels'));
  }

  /** Folding speaks of sections only. */
  lemma SectionsFolded(lay: Layout, rels: Relatives, rels': Relatives, out: Relatives, out': Relatives)
    requires Prepared(lay) && Folded(lay, rels, rels') && |out| == |rels| && |out'| == |rels'|
    requires forall i | 0 <= i < |rels| :: out[i].section == rels[i].section
    requires forall i | 0 <= i < |rels'| :: out'[i].section == rels'[i].section
    ensures Folded(lay, out, out')
  {
    forall j | 0 <= j < |out'| ensures IsHeadOf(lay, out, out'[j].section) {
      assert IsHeadOf(lay, rels, rels'[j].section);
      var i :| 0 <= i < |rels| && Head(lay, rels[i].section) == rels'[j].section;
      assert Head(lay, out[i].section) == out'[j].section;
    }
    forall i | 0 <= i < |out| && !Inside(lay, out[i].section) ensures Has(out', out[i].section) {
      assert Has(rels', rels[i].section);
      var j :| 0 <= j < |rels'| && rels'[j].section == rels[i].section;
      assert out'[j].section == out[i].section;
    }
  }

  lemma NegateRelated(lay: Layout, f: Form, g: Form)
    requires Prepared(lay) && Related(lay, f, g)
    ensures Related(lay, Form(Negate(f.value), NegateAll(f.rels)), Form(Negate(g.value), NegateAll(g.rels)))
    ensures Related(lay, Form(Not(f.value), NegateAll(f.rels)), Form(Not(g.value), NegateAll(g.rels)))
  {
    NegateFolded(lay, f.rels, g.rels);
    NegateSound(f, Deltas(lay));
    NotSound(f, Deltas(lay));
    ScaleOk(lay, f, 0, 0);
    ScaleOk(lay, g, 0, 0);
    hide Denotes, SameCounts, Folded, NegateAll, Scale;
  }

  lemma ScaleFolded(lay: Layout, rels: Relatives, rels': Relatives, k: Word)
    requires Prepared(lay) && SameCounts(lay, rels, rels') && Folded(lay, rels, rels')
    ensures SameCounts(lay, Scale(rels, k), Scale(rels', k)) && Folded(lay, Scale(rels, k), Scale(rels', k))
  {
    forall h: SectionId
      ensures Cong(Sum(Scale(rels', k), Counts(lay, h)), Sum(Scale(rels, k), Counts(lay, h)))
    {
      ScaleSum(rels, k, Counts(lay, h));
      ScaleSum(rels', k, Counts(lay, h));
      assert Cong(Sum(rels', Counts(lay, h)), Sum(rels, Counts(lay, h)));
      CongMul(Sum(rels', Counts(lay, h)), Sum(rels, Counts(lay, h)), k);
    }
    SectionsFolded(lay, rels, rels', Scale(rels, k), Scale(rels', k));
  }

  lemma ScaleRelated(lay: Layout, f: Form, g: Form, k: Word)
    requires Prepared(lay) && Related(lay, f, g)
    ensures Related(lay, Form(Wrap(f.value * k), Scale(f.rels, k)), Form(Wrap(g.value * k), Scale(g.rels, k)))
  {
    ScaleFolded(lay, f.rels, g.rels, k);
    ScaleSound(f, k, Deltas(lay));
    ScaleOk(lay, f, Wrap(f.value * k), k);
    ScaleOk(lay, g, Wrap(g.value * k), k);
    hide Denotes, SameCounts, Folded, NegateAll, Scale;
  }

  function Merged(rels: Relatives, rels2: Relatives): Relatives {
    DropZeros(AddRelatives(rels, rels2))
  }

  lemma MergedHeads(lay: Layout, rels: Relatives, rels2: Relatives)
    requires Prepared(lay) && Proper(rels) && Proper(rels2) && Heads(lay, rels) && Heads(lay, rels2)
    ensures Heads(lay, Merged(rels, rels2))
  {
    var all := AddRelatives(rels, rels2);
    AddRelativesSections(rels, rels2);
    DropZerosKeeps(all);
    var out := DropZeros(all);
    forall i | 0 <= i < |out| ensures Head(lay, out[i].section) == out[i].section {
      assert out[i] in all;
      var j :| 0 <= j < |all| && all[j] == out[i];
      assert all[j].section in SectionsOf(all);
    }
  }

  lemma MergedCounts(lay: Layout, rels: Relatives, rels2: Relatives, rels': Relatives, rels2': Relatives)
    requires Prepared(lay) && Proper(rels) && Proper(rels2) && Proper(rels') && Proper(rels2')
    requires SameCounts(lay, rels, rels') && SameCounts(lay, rels2, rels2')
    ensures SameCounts(lay, Merged(rels, rels2), Merged(rels', rels2'))
  {
    hide Sum, AddRelatives, DropZeros, Proper, Counts, Wrap;
    forall h: SectionId
      ensures Cong(Sum(Merged(rels', rels2'), Counts(lay, h)), Sum(Merged(rels, rels2), Counts(lay, h)))
    {
      var c := Counts(lay, h);
      MergeSum(rels, rels2, c);
      MergeSum(rels', rels2', c);
      assert Cong(Sum(rels', c), Sum(rels, c)) && Cong(Sum(rels2', c), Sum(rels2, c));
      CongAdd(Sum(rels', c), Sum(rels, c), Sum(rels2', c), Sum(rels2, c));
    }
  }

  lemma MergedOk(lay: Layout, f2: Form, f1: Form)
    requires FormOk(lay, f2) && FormOk(lay, f1)
    ensures FormOk(lay, Form(Wrap(f2.value + f1.value), Merged(f1.rels, f2.rels)))
    ensures Proper(Merged(f1.rels, f2.rels)) && forall r | r in Merged(f1.rels, f2.rels) :: r.multiply != 0
  {
    hide DropZeros, AddRelatives;
    AddFormsOk(lay, ADDITION, f2, f1);
    DropZerosKeeps(AddRelatives(f1.rels, f2.rels));
  }

  lemma RelatedParts(lay: Layout, f: Form, g: Form)
    requires Prepared(lay) && Related(lay, f, g)
    ensures FormOk(lay, f) && FormOk(lay, g) && Proper(f.rels) && Proper(g.rels)
    ensures g.value == Denotes(f, Deltas(lay)) && SameCounts(lay, f.rels, g.rels) && Heads(lay, g.rels)
  {
    FoldedHeads(lay, f.rels, g.rels);
  }

  lemma SumRelated(lay: Layout, f2: Form, f1: Form, g2: Form, g1: Form)
    requires Prepared(lay) && Related(lay, f2, g2) && Related(lay, f1, g1)
    ensures Related(lay, Form(Wrap(f2.value + f1.value), Merged(f1.rels, f2.rels)),
                    Form(Wrap(g2.value + g1.value), Merged(g1.rels, g2.rels)))
  {
    hide Denotes, SameCounts, Folded, DropZeros, AddRelatives, Proper, Heads, FormOk, Deltas, Prepared, Wrap;
    RelatedParts(lay, f2, g2);
    RelatedParts(lay, f1, g1);
    MergedHeads(lay, g1.rels, g2.rels);
    MergedCounts(lay, f1.rels, f2.rels, g1.rels, g2.rels);
    MergedOk(lay, f2, f1);
    MergedOk(lay, g2, g1);
    FoldedByCounts(lay, Merged(f1.rels, f2.rels), Merged(g1.rels, g2.rels));
    SumSound(f2, f1, Deltas(lay));
  }

  lemma AddRelated(lay: Layout, b: BinaryOp, f2: Form, f1: Form, g2: Form, g1: Form)
    requires Prepared(lay) && Related(lay, f2, g2) && Related(lay, f1, g1)
    ensures Related(lay, AddForms(b, f2, f1).form, AddForms(b, g2, g1).form)
  {
    hide Related;
    if b == SUBTRACT {
      NegateRelated(lay, f1, g1);
      SumRelated(lay, f2, Form(Negate(f1.value), NegateAll(f1.rels)), g2, Form(Negate(g1.value), NegateAll(g1.rels)));
    } else {
      SumRelated(lay, f2, f1, g2, g1);
    }
  }
}
