/** The relative machine agrees with the absolute one under every placement of sections. */
module RelativeSoundness {
  import opened Words
  import opened Operators
  import opened LinearForms
  import opened RelativeMachine

  lemma DenotesConstant(f: Form, base: Bases)
    requires f.rels == []
    ensures Denotes(f, base) == f.value
  {
  }

  // ----- ordering comparisons -----

  /** Words biased so that signed order becomes unsigned order. */
  function Bias(x: Word): Word {
    if x < SIGN_BIT then x + SIGN_BIT else x - SIGN_BIT
  }

  /** Adding s to x leaves the 64-bit range, read as the comparison reads words. */
  predicate Carries(b: BinaryOp, x: Word, s: int) {
    (if IsSignedOrdering(b) then Bias(x) else x) + Wrap(s) >= MODULUS
  }

  /** A comparison of two words survives adding the same amount to both exactly when the
      words are equal or both sums wrap or neither does. */
  lemma TranslationKeepsOrder(b: BinaryOp, x: Word, y: Word, s: int)
    requires IsSignedOrdering(b) || IsUnsignedOrdering(b)
    ensures Compare(b, x, y) == Compare(b, Wrap(x + s), Wrap(y + s))
            <==> x == y || Carries(b, x, s) == Carries(b, y, s)
  {
    var t := Wrap(s);
    WrapInside(s, x);
    WrapInside(s, y);
    if IsSignedOrdering(b) {
      SignedTranslation(x, y, t);
    } else {
      UnsignedTranslation(x, y, t);
    }
  }

  lemma WrapInside(a: int, b: int)
    ensures Wrap(Wrap(a) + b) == Wrap(a + b) == Wrap(b + Wrap(a))
  {
    CongWrap(a);
    CongAdd(Wrap(a), a, b, b);
  }

  lemma WrapSum(x: Word, t: Word)
    ensures Wrap(x + t) == if x + t >= MODULUS then x + t - MODULUS else x + t
  {
    WrapIs(x + t, if x + t >= MODULUS then 1 else 0, if x + t >= MODULUS then x + t - MODULUS else x + t);
  }

  lemma SignedTranslation(x: Word, y: Word, t: Word)
    ensures x == y <==> Signed(Wrap(x + t)) == Signed(Wrap(y + t))
    ensures x == y <==> Signed(x) == Signed(y)
    ensures (Signed(x) < Signed(y)) == (Signed(Wrap(x + t)) < Signed(Wrap(y + t)))
            <==> x == y || (Bias(x) + t >= MODULUS) == (Bias(y) + t >= MODULUS)
  {
    WrapSum(x, t);
    WrapSum(y, t);
  }

  lemma UnsignedTranslation(x: Word, y: Word, t: Word)
    ensures x == y <==> Wrap(x + t) == Wrap(y + t)
    ensures (x < y) == (Wrap(x + t) < Wrap(y + t))
            <==> x == y || (x + t >= MODULUS) == (y + t >= MODULUS)
    ensures (y < x) == (Wrap(y + t) < Wrap(x + t))
            <==> x == y || (x + t >= MODULUS) == (y + t >= MODULUS)
  {
    WrapSum(x, t);
    WrapSum(y, t);
  }

  /** The condition under which a comparison of two relative forms is right. */
  predicate OrderKept(b: BinaryOp, f2: Form, f1: Form, base: Bases) {
    WordsOrderKept(b, f2.value, f1.value, Sum(f1.rels, base))
  }

  predicate WordsOrderKept(b: BinaryOp, x: Word, y: Word, s: int) {
    IsSignedOrdering(b) || IsUnsignedOrdering(b) ==> x == y || Carries(b, x, s) == Carries(b, y, s)
  }

  lemma CompareTranslated(b: BinaryOp, x: Word, y: Word, s: int)
    requires IsComparison(b)
    ensures Compare(b, x, y) == Compare(b, Wrap(x + s), Wrap(y + s)) <==> WordsOrderKept(b, x, y, s)
  {
    if b == EQUAL || b == NOT_EQUAL {
      SameTranslation(x, y, s);
    } else {
      TranslationKeepsOrder(b, x, y, s);
    }
  }

  lemma SameTranslation(x: Word, y: Word, s: int)
    ensures x == y <==> Wrap(x + s) == Wrap(y + s)
  {
    WrapInside(s, x);
    WrapInside(s, y);
    WrapSum(x, Wrap(s));
    WrapSum(y, Wrap(s));
  }

  // ----- one operator -----

  lemma NegateSound(f: Form, base: Bases)
    ensures Denotes(Form(Negate(f.value), NegateAll(f.rels)), base) == Negate(Denotes(f, base))
  {
    NegateSum(f.rels, base);
    NegateWords(f.value, Sum(f.rels, base), Sum(NegateAll(f.rels), base));
  }

  lemma NegateWords(v: Word, s: int, n: int)
    requires Cong(n, 0 - s)
    ensures Wrap(Negate(v) + n) == Negate(Wrap(v + s))
    ensures Wrap(Not(v) + n) == Not(Wrap(v + s))
  {
    CongAdd(Negate(v), Negate(v), n, 0 - s);
    CongAdd(Not(v), Not(v), n, 0 - s);
    var w, k := Wrap(v + s), (v + s) / MODULUS;
    NegateIs(v);
    NegateIs(w);
    WrapIs(Negate(v) - s, (if v == 0 then 0 else 1) - k - (if w == 0 then 0 else 1), Negate(w));
    WrapIs(Not(v) - s, 0 - k, Not(w));
  }

  lemma NotSound(f: Form, base: Bases)
    ensures Denotes(Form(Not(f.value), NegateAll(f.rels)), base) == Not(Denotes(f, base))
  {
    NegateSum(f.rels, base);
    NegateWords(f.value, Sum(f.rels, base), Sum(NegateAll(f.rels), base));
  }

  lemma UnarySound(u: UnaryOp, f: Form, base: Bases)
    requires !UnaryForm(u, f).failed
    ensures Denotes(UnaryForm(u, f).form, base) == UnaryWord(u, Denotes(f, base))
  {
    match u
    case NEGATE => NegateSound(f, base);
    case BIT_NOT => NotSound(f, base);
    case LOGICAL_NOT => DenotesConstant(f, base);
    case PLUS =>
  }

  lemma SumOfWords(v: Word, s: int, w: Word, t: int, all: int)
    requires Cong(all, t + s)
    ensures Wrap(Wrap(v + w) + all) == Wrap(Wrap(v + s) + Wrap(w + t))
  {
    WrapInside(all, Wrap(v + w));
    WrapInside(t + s, Wrap(v + w));
    WrapInside(v + w, t + s);
    WrapInside(v + s, Wrap(w + t));
    WrapInside(w + t, v + s);
  }

  lemma SubtractWords(v: Word, w: Word)
    ensures Wrap(v + Negate(w)) == Wrap(v - w)
  {
    WrapInside(0 - w, v);
  }

  lemma SumSound(f2: Form, g: Form, base: Bases)
    requires Proper(f2.rels) && Proper(g.rels)
    ensures Denotes(Form(Wrap(f2.value + g.value), DropZeros(AddRelatives(g.rels, f2.rels))), base)
            == Wrap(Denotes(f2, base) + Denotes(g, base))
  {
    hide AddRelatives, DropZeros, Sum, Proper, Wrap;
    MergeSum(g.rels, f2.rels, base);
    SumOfWords(f2.value, Sum(f2.rels, base), g.value, Sum(g.rels, base),
               Sum(DropZeros(AddRelatives(g.rels, f2.rels)), base));
  }

  lemma SubtractSound(f2: Form, f1: Form, base: Bases)
    requires Proper(f2.rels) && Proper(f1.rels)
    ensures Denotes(AddForms(SUBTRACT, f2, f1).form, base) == Wrap(Denotes(f2, base) - Denotes(f1, base))
  {
    var g := Form(Negate(f1.value), NegateAll(f1.rels));
    assert AddForms(SUBTRACT, f2, f1).form ==
           Form(Wrap(f2.value + g.value), DropZeros(AddRelatives(g.rels, f2.rels)));
    NegateProper(f1.rels);
    calc {
      Denotes(AddForms(SUBTRACT, f2, f1).form, base);
      { SumSound(f2, g, base); }
      Wrap(Denotes(f2, base) + Denotes(g, base));
      { NegateSound(f1, base); }
      Wrap(Denotes(f2, base) + Negate(Denotes(f1, base)));
      { SubtractWords(Denotes(f2, base), Denotes(f1, base)); }
      Wrap(Denotes(f2, base) - Denotes(f1, base));
    }
  }

  lemma ScaleSound(f: Form, k: Word, base: Bases)
    ensures Denotes(Form(Wrap(f.value * k), Scale(f.rels, k)), base) == Wrap(Denotes(f, base) * k)
  {
    hide Wrap, Sum, Scale;
    var s := Sum(f.rels, base);
    ScaleSum(f.rels, k, base);
    CongWrap(f.value * k);
    CongAdd(Wrap(f.value * k), f.value * k, Sum(Scale(f.rels, k), base), k * s);
    CongWrap(f.value + s);
    CongMul(Denotes(f, base), f.value + s, k);
    ProductOfSum(f.value, s, k);
    Commutes(s, k);
  }

  lemma MultiplySound(lay: Layout, f2: Form, f1: Form, base: Bases)
    requires FormOk(lay, f2) && FormOk(lay, f1)
    requires var a := MultiplyForms(lay, f2, f1); !a.failed && !a.later
    ensures Denotes(MultiplyForms(lay, f2, f1).form, base) ==
            Wrap(Denotes(f2, base) * Denotes(f1, base))
  {
    hide Proper, Denotes, Wrap;
    assert f1.rels == [] || f2.rels == [];
    if f2.rels == [] {
      DenotesConstant(f2, base);
      Commutes(f1.value, f2.value);
      Commutes(Denotes(f1, base), f2.value);
      ProductSound(f1, f2.value, base);
    } else {
      DenotesConstant(f1, base);
      ProductSound(f2, f1.value, base);
    }
  }

  lemma Commutes(x: int, y: int)
    ensures x * y == y * x
  {
  }

  lemma ProductSound(f: Form, k: Word, base: Bases)
    ensures Denotes(Form(Wrap(f.value * k), if k != 0 then Scale(f.rels, k) else []), base)
            == Wrap(Denotes(f, base) * k)
  {
    ScaleSound(f, k, base);
    if k == 0 {
      assert f.value * k == 0 && Denotes(f, base) * k == 0;
    }
  }

  lemma ShiftSound(lay: Layout, f2: Form, f1: Form, base: Bases)
    requires FormOk(lay, f2) && FormOk(lay, f1)
    requires var a := ShiftForms(lay, f2, f1); !a.failed && !a.later
    ensures Denotes(ShiftForms(lay, f2, f1).form, base) ==
            BinaryWord(SHIFT_LEFT, Denotes(f2, base), Denotes(f1, base)).value
  {
    assert f1.rels == [];
    DenotesConstant(f1, base);
    if f1.value < 64 {
      Pow2Below64(f1.value);
      ScaleSound(f2, Pow2(f1.value), base);
    }
  }

  /** The neutral and absorbing constants of the bitwise and logical operators. */
  lemma MaskIdentities(x: Word)
    ensures BinaryWord(BIT_AND, x, 0).value == 0 == BinaryWord(BIT_AND, 0, x).value
    ensures BinaryWord(BIT_AND, x, UINT64_MAX).value == x == BinaryWord(BIT_AND, UINT64_MAX, x).value
    ensures BinaryWord(BIT_OR, x, UINT64_MAX).value == UINT64_MAX == BinaryWord(BIT_OR, UINT64_MAX, x).value
    ensures BinaryWord(BIT_OR, x, 0).value == x == BinaryWord(BIT_OR, 0, x).value
    ensures BinaryWord(BIT_XOR, x, 0).value == x == BinaryWord(BIT_XOR, 0, x).value
    ensures BinaryWord(BIT_ORNOT, x, 0).value == UINT64_MAX == BinaryWord(BIT_ORNOT, UINT64_MAX, x).value
    ensures BinaryWord(BIT_ORNOT, x, UINT64_MAX).value == x
    ensures BinaryWord(BIT_ORNOT, 0, x).value == Not(x)
  {
    WordIdentities(x);
    WordIdentities(Not(x));
  }

  /** The rules rest on the constants being neutral or absorbing. */
  lemma RuleSound(b: BinaryOp, norel1: bool, norel2: bool, v2: Word, v: Word, d2: Word, d1: Word)
    requires IsMask(b)
    requires (norel1 ==> d1 == v) && (norel2 ==> d2 == v2)
    ensures BinaryWord(b, d2, d1) == Plain(BinaryWord(b, d2, d1).value)
    ensures match RuleFor(b, norel1, norel2, v2, v)
            case Absorbed(w) => BinaryWord(b, d2, d1).value == w
            case KeepSecond => BinaryWord(b, d2, d1).value == d2
            case KeepFirst => BinaryWord(b, d2, d1).value == if b == BIT_ORNOT then Not(d1) else d1
            case Refused => true
            case Computed => d1 == v && d2 == v2
  {
    MaskIdentities(d2);
    MaskIdentities(d1);
  }

  lemma MaskSound(b: BinaryOp, lay: Layout, f2: Form, f1: Form, base: Bases)
    requires FormOk(lay, f2) && FormOk(lay, f1)
    requires IsMask(b)
    requires var a := MaskForms(b, lay, f2, f1); !a.failed && !a.later
    ensures Denotes(MaskForms(b, lay, f2, f1).form, base) ==
            BinaryWord(b, Denotes(f2, base), Denotes(f1, base)).value
  {
    var norel1, norel2 := f1.rels == [], f2.rels == [];
    NotSound(f1, base);
    if norel1 { DenotesConstant(f1, base); }
    if norel2 { DenotesConstant(f2, base); }
    RuleSound(b, norel1, norel2, f2.value, f1.value, Denotes(f2, base), Denotes(f1, base));
    var g := MaskForms(b, lay, f2, f1).form;
    if g.rels == [] { DenotesConstant(g, base); }
  }

  lemma WordsOnlySound(b: BinaryOp, lay: Layout, f2: Form, f1: Form, base: Bases)
    requires FormOk(lay, f2) && FormOk(lay, f1)
    requires var a := WordsOnly(b, lay, f2, f1); !a.failed && !a.later && !a.trapped
    ensures f1.rels == [] && f2.rels == []
    ensures BinaryWord(b, Denotes(f2, base), Denotes(f1, base)) ==
            Plain(Denotes(WordsOnly(b, lay, f2, f1).form, base))
  {
    assert f1.rels == [] && f2.rels == [];
    DenotesConstant(f1, base);
    DenotesConstant(f2, base);
    DenotesConstant(WordsOnly(b, lay, f2, f1).form, base);
  }

  lemma CompareSound(b: BinaryOp, lay: Layout, f2: Form, f1: Form, base: Bases)
    requires FormOk(lay, f2) && FormOk(lay, f1) && IsComparison(b)
    requires var a := CompareForms(b, lay, f2, f1); !a.failed && !a.later
    ensures Denotes(CompareForms(b, lay, f2, f1).form, base) ==
            BinaryWord(b, Denotes(f2, base), Denotes(f1, base)).value
            <==> OrderKept(b, f2, f1, base)
  {
    hide Compare, Sum, WordsOrderKept, CheckRelativesEquality, Wrap;
    AcceptedMeansEqual(lay, f2, f1);
    SumOfMultiset(f1.rels, f2.rels, base);
    CompareTranslated(b, f2.value, f1.value, Sum(f1.rels, base));
    DenotesConstant(CompareForms(b, lay, f2, f1).form, base);
  }

  lemma AcceptedMeansEqual(lay: Layout, f2: Form, f1: Form)
    requires FormOk(lay, f2) && FormOk(lay, f1)
    requires var c := CheckRelativesEquality(lay, f1.rels, f2.rels); c.ok && !c.later
    ensures multiset(f1.rels) == multiset(f2.rels)
  {
    if lay.withDiffs && !lay.prepared {
      OutsideAll(lay, f1.rels);
      OutsideAll(lay, f2.rels);
    }
  }

  lemma {:induction false} OutsideAll(lay: Layout, rels: Relatives)
    requires KnownSections(lay, rels)
    ensures |OutsideSpaces(lay, rels)| <= |rels|
    ensures |OutsideSpaces(lay, rels)| == |rels| ==> OutsideSpaces(lay, rels) == rels
  {
    if rels != [] {
      OutsideAll(lay, rels[1..]);
    }
  }

  /** Only the division family can fail or trap. */
  lemma OnlyDivisionFails(b: BinaryOp, x: Word, y: Word)
    requires b !in {DIVISION, SIGNED_DIVISION, MODULO, SIGNED_MODULO}
    ensures BinaryWord(b, x, y) == Plain(BinaryWord(b, x, y).value)
  {
  }

  lemma BinarySound(b: BinaryOp, lay: Layout, f2: Form, f1: Form, base: Bases)
    requires FormOk(lay, f2) && FormOk(lay, f1)
    requires var a := BinaryForm(b, lay, f2, f1); !a.failed && !a.later && !a.trapped
    requires OrderKept(b, f2, f1, base)
    ensures BinaryWord(b, Denotes(f2, base), Denotes(f1, base)) ==
            Plain(Denotes(BinaryForm(b, lay, f2, f1).form, base))
  {
    if b == ADDITION || b == SUBTRACT || b == MULTIPLY || b == SHIFT_LEFT || IsMask(b) || IsComparison(b) {
      BinaryValueSound(b, lay, f2, f1, base);
      OnlyDivisionFails(b, Denotes(f2, base), Denotes(f1, base));
    } else {
      WordsOnlySound(b, lay, f2, f1, base);
    }
  }

  lemma BinaryValueSound(b: BinaryOp, lay: Layout, f2: Form, f1: Form, base: Bases)
    requires FormOk(lay, f2) && FormOk(lay, f1)
    requires b == ADDITION || b == SUBTRACT || b == MULTIPLY || b == SHIFT_LEFT || IsMask(b) || IsComparison(b)
    requires var a := BinaryForm(b, lay, f2, f1); !a.failed && !a.later
    requires OrderKept(b, f2, f1, base)
    ensures BinaryWord(b, Denotes(f2, base), Denotes(f1, base)).value ==
            Denotes(BinaryForm(b, lay, f2, f1).form, base)
  {
    hide Denotes, Compare, Proper, Pow2, Bits, NegateAll, AddRelatives, DropZeros;
    if b == ADDITION {
      SumSound(f2, f1, base);
    } else if b == SUBTRACT {
      SubtractSound(f2, f1, base);
    } else if b == MULTIPLY {
      MultiplySound(lay, f2, f1, base);
    } else if b == SHIFT_LEFT {
      ShiftSound(lay, f2, f1, base);
    } else if IsMask(b) {
      MaskSound(b, lay, f2, f1, base);
    } else {
      CompareSound(b, lay, f2, f1, base);
    }
  }
}
