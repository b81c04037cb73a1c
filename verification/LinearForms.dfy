/** Section-relative values: an offset plus multiples of unknown section bases. */
module LinearForms {
  import opened Words
  import opened Operators

  datatype RelMultiply = RelMultiply(multiply: Word, section: SectionId)

  type Relatives = seq<RelMultiply>

  datatype Form = Form(value: Word, rels: Relatives)

  /** Where sections lie. The absolute section lies at zero. */
  type Bases = SectionId -> int

  function BaseOf(base: Bases, s: SectionId): int {
    if s == ASMSECT_ABS then 0 else base(s)
  }

  function Sum(rels: Relatives, base: Bases): int {
    if rels == [] then 0 else rels[0].multiply * base(rels[0].section) + Sum(rels[1..], base)
  }

  /** The word a form stands for once the sections are placed. */
  function Denotes(f: Form, base: Bases): Word {
    Wrap(f.value + Sum(f.rels, base))
  }

  /** Each section occurs once, and the absolute section does not occur. */
  ghost predicate Proper(rels: Relatives) {
    && (forall i | 0 <= i < |rels| :: rels[i].section != ASMSECT_ABS)
    && (forall i, j | 0 <= i < j < |rels| :: rels[i].section != rels[j].section)
  }

  ghost function SectionsOf(rels: Relatives): set<SectionId> {
    set i | 0 <= i < |rels| :: rels[i].section
  }

  // ----- multiplying a form by a constant -----

  function Scale(rels: Relatives, k: Word): Relatives {
    seq(|rels|, i requires 0 <= i < |rels| => rels[i].(multiply := Wrap(rels[i].multiply * k)))
  }

  lemma {:induction false} ScaleSum(rels: Relatives, k: Word, base: Bases)
    ensures Cong(Sum(Scale(rels, k), base), k * Sum(rels, base))
  {
    hide Wrap;
    if rels != [] {
      var m, b := rels[0].multiply, base(rels[0].section);
      assert Scale(rels, k)[1..] == Scale(rels[1..], k);
      ScaleSum(rels[1..], k, base);
      CongWrap(m * k);
      CongMul(Wrap(m * k), m * k, b);
      CongAdd(Wrap(m * k) * b, m * k * b, Sum(Scale(rels[1..], k), base), k * Sum(rels[1..], base));
      assert m * k * b + k * Sum(rels[1..], base) == k * (m * b + Sum(rels[1..], base)) by {
        Distribute(k, m, b, Sum(rels[1..], base));
      }
    }
  }

  lemma Distribute(k: int, m: int, b: int, s: int)
    ensures m * k * b + k * s == k * (m * b + s)
  {
    assert m * k * b == k * (m * b);
    assert k * (m * b) + k * s == k * (m * b + s);
  }

  function NegateAll(rels: Relatives): Relatives {
    seq(|rels|, i requires 0 <= i < |rels| => rels[i].(multiply := Negate(rels[i].multiply)))
  }

  lemma NegateProper(rels: Relatives)
    requires Proper(rels)
    ensures Proper(NegateAll(rels))
  {
    var n := NegateAll(rels);
    assert forall i | 0 <= i < |rels| :: n[i].section == rels[i].section;
  }

  lemma {:induction false} NegateSum(rels: Relatives, base: Bases)
    ensures Cong(Sum(NegateAll(rels), base), 0 - Sum(rels, base))
  {
    if rels != [] {
      var m: int, b := rels[0].multiply, base(rels[0].section);
      assert NegateAll(rels)[1..] == NegateAll(rels[1..]);
      NegateSum(rels[1..], base);
      CongWrap(0 - m);
      CongMul(Wrap(0 - m), 0 - m, b);
      CongAdd(Wrap(0 - m) * b, (0 - m) * b, Sum(NegateAll(rels[1..]), base), 0 - Sum(rels[1..], base));
      assert (0 - m) * b == 0 - m * b;
    }
  }

  // ----- adding forms -----

  predicate Has(rels: Relatives, s: SectionId) {
    exists i | 0 <= i < |rels| :: rels[i].section == s
  }

  /** Adds one multiple: to the entry of the same section, or as a new entry. */
  function AddRelative(rels: Relatives, r: RelMultiply): Relatives {
    if Has(rels, r.section) then
      seq(|rels|, i requires 0 <= i < |rels| =>
        if rels[i].section == r.section
        then rels[i].(multiply := Wrap(rels[i].multiply + r.multiply)) else rels[i])
    else rels + [r]
  }

  function AddRelatives(rels: Relatives, rels2: Relatives): Relatives {
    if rels2 == [] then rels
    else AddRelative(AddRelatives(rels, rels2[..|rels2| - 1]), rels2[|rels2| - 1])
  }

  function DropZeros(rels: Relatives): Relatives {
    if rels == [] then []
    else (if rels[0].multiply == 0 then [] else [rels[0]]) + DropZeros(rels[1..])
  }

  /** The nested loop that adds the second operand's multiples to the first one's, followed
      by the removal of the multiples that vanished. */
  method Merge(rels: Relatives, rels2: Relatives) returns (out: Relatives)
    ensures out == DropZeros(AddRelatives(rels, rels2))
  {
    out := rels;
    for j := 0 to |rels2|
      invariant out == AddRelatives(rels, rels2[..j])
    {
      var r2 := rels2[j];
      ghost var before := out;
      var rfound := false;
      for i := 0 to |out|
        invariant |out| == |before|
        invariant rfound <==> exists k | 0 <= k < i :: before[k].section == r2.section
        invariant forall k | 0 <= k < |out| ::
                    out[k] == if k < i && before[k].section == r2.section
                              then before[k].(multiply := Wrap(before[k].multiply + r2.multiply))
                              else before[k]
      {
        if out[i].section == r2.section {
          out := out[i := out[i].(multiply := Wrap(out[i].multiply + r2.multiply))];
          rfound := true;
        }
      }
      if !rfound {
        assert out == before;
        out := out + [r2];
      }
      assert out == AddRelative(before, r2);
      assert rels2[..j + 1][..j] == rels2[..j];
    }
    assert rels2[..|rels2|] == rels2;
    out := RemoveZeros(out);
  }

  method RemoveZeros(rels: Relatives) returns (out: Relatives)
    ensures out == DropZeros(rels)
  {
    out := [];
    for i := 0 to |rels|
      invariant out + DropZeros(rels[i..]) == DropZeros(rels)
    {
      ghost var rest := DropZeros(rels[i + 1..]);
      ghost var none: Relatives := [];
      assert rels[i..][1..] == rels[i + 1..] && rels[i..][0] == rels[i];
      Regroup(out, [rels[i]], rest);
      Regroup(out, none, rest);
      if rels[i].multiply != 0 {
        out := out + [rels[i]];
      }
    }
  }

  lemma Regroup(a: Relatives, b: Relatives, c: Relatives)
    ensures a + (b + c) == a + b + c
    ensures b == [] ==> b + c == c
  {
  }

  lemma {:induction false} AddRelativeSum(rels: Relatives, r: RelMultiply, base: Bases)
    requires Proper(rels)
    ensures Cong(Sum(AddRelative(rels, r), base), Sum(rels, base) + r.multiply * base(r.section))
  {
    hide Wrap;
    if Has(rels, r.section) {
      var m, b := rels[0].multiply, base(rels[0].section);
      if rels[0].section == r.section {
        assert AddRelative(rels, r)[1..] == rels[1..];
        CongWrap(m + r.multiply);
        CongMul(Wrap(m + r.multiply), m + r.multiply, b);
        ProductOfSum(m, r.multiply, b);
        CongAdd(Wrap(m + r.multiply) * b, (m + r.multiply) * b, Sum(rels[1..], base), Sum(rels[1..], base));
      } else {
        assert rels[1..] != [] && Has(rels[1..], r.section) by {
          var i :| 0 <= i < |rels| && rels[i].section == r.section;
          assert rels[1..][i - 1].section == r.section;
        }
        assert AddRelative(rels, r)[1..] == AddRelative(rels[1..], r);
        AddRelativeSum(rels[1..], r, base);
        CongAdd(m * b, m * b, Sum(AddRelative(rels[1..], r), base),
                Sum(rels[1..], base) + r.multiply * base(r.section));
      }
    } else {
      SumSnoc(rels, r, base);
    }
  }

  lemma ProductOfSum(m: int, n: int, b: int)
    ensures (m + n) * b == m * b + n * b
  {
  }

  lemma {:induction false} SumSnoc(rels: Relatives, r: RelMultiply, base: Bases)
    ensures Sum(rels + [r], base) == Sum(rels, base) + r.multiply * base(r.section)
  {
    if rels != [] {
      assert (rels + [r])[1..] == rels[1..] + [r];
      SumSnoc(rels[1..], r, base);
    }
  }

  lemma {:induction false} AddRelativesSections(rels: Relatives, rels2: Relatives)
    requires Proper(rels) && Proper(rels2)
    ensures Proper(AddRelatives(rels, rels2))
    ensures SectionsOf(AddRelatives(rels, rels2)) == SectionsOf(rels) + SectionsOf(rels2)
  {
    hide AddRelative, SectionsOf, Wrap;
    if rels2 != [] {
      var n := |rels2| - 1;
      AddRelativesSections(rels, rels2[..n]);
      AddRelativeSections(AddRelatives(rels, rels2[..n]), rels2[n]);
      SectionsSnoc(rels2[..n], rels2[n]);
      assert rels2 == rels2[..n] + [rels2[n]];
    } else {
      NoSections();
    }
  }

  lemma NoSections()
    ensures SectionsOf([]) == {}
  {
  }

  lemma SectionsSnoc(rels: Relatives, r: RelMultiply)
    ensures SectionsOf(rels + [r]) == SectionsOf(rels) + {r.section}
  {
    var all := rels + [r];
    assert forall i | 0 <= i < |rels| :: all[i] == rels[i];
    forall s | s in SectionsOf(rels) + {r.section} ensures s in SectionsOf(all) {
      if s in SectionsOf(rels) {
        var i :| 0 <= i < |rels| && rels[i].section == s;
        assert all[i].section == s;
      } else {
        assert all[|rels|].section == s;
      }
    }
  }

  lemma {:induction false} AddRelativesSum(rels: Relatives, rels2: Relatives, base: Bases)
    requires Proper(rels) && Proper(rels2)
    ensures Cong(Sum(AddRelatives(rels, rels2), base), Sum(rels, base) + Sum(rels2, base))
  {
    hide Wrap, AddRelative;
    if rels2 != [] {
      var n := |rels2| - 1;
      var init, last := rels2[..n], rels2[n];
      AddRelativesSum(rels, init, base);
      AddRelativesSections(rels, init);
      AddRelativeSum(AddRelatives(rels, init), last, base);
      assert rels2 == init + [last];
      SumSnoc(init, last, base);
      var term := last.multiply * base(last.section);
      CongAdd(Sum(AddRelatives(rels, init), base), Sum(rels, base) + Sum(init, base), term, term);
    }
  }

  lemma AddRelativeSections(rels: Relatives, r: RelMultiply)
    requires Proper(rels) && r.section != ASMSECT_ABS
    ensures Proper(AddRelative(rels, r))
    ensures SectionsOf(AddRelative(rels, r)) == SectionsOf(rels) + {r.section}
  {
    var out := AddRelative(rels, r);
    assert forall i | 0 <= i < |rels| :: out[i].section == rels[i].section;
    forall s | s in SectionsOf(rels) + {r.section} ensures s in SectionsOf(out) {
      if s in SectionsOf(rels) {
        var i :| 0 <= i < |rels| && rels[i].section == s;
        assert out[i].section == s;
      } else {
        assert out[|rels|].section == s;
      }
    }
  }

  lemma {:induction false} DropZerosSum(rels: Relatives, base: Bases)
    ensures Sum(DropZeros(rels), base) == Sum(rels, base)
  {
    if rels != [] {
      var rest := DropZeros(rels[1..]);
      DropZerosSum(rels[1..], base);
      assert ([rels[0]] + rest)[1..] == rest;
      assert [] + rest == rest;
      assert rels[0].multiply == 0 ==> rels[0].multiply * base(rels[0].section) == 0;
    }
  }

  lemma {:induction false} DropZerosKeeps(rels: Relatives)
    ensures forall r :: r in DropZeros(rels) <==> r in rels && r.multiply != 0
    ensures Proper(rels) ==> Proper(DropZeros(rels))
  {
    if rels != [] {
      DropZerosKeeps(rels[1..]);
      assert rels == [rels[0]] + rels[1..];
      if Proper(rels) {
        var rest := DropZeros(rels[1..]);
        forall i | 0 <= i < |rest| ensures rest[i].section != rels[0].section {
          assert rest[i] in rels[1..];
        }
      }
    }
  }

  /** Merging adds the amounts, keeps sections apart and leaves no vanished multiple. */
  lemma MergeSum(rels: Relatives, rels2: Relatives, base: Bases)
    requires Proper(rels) && Proper(rels2)
    ensures var out := DropZeros(AddRelatives(rels, rels2));
      && Cong(Sum(out, base), Sum(rels, base) + Sum(rels2, base))
      && Proper(out) && forall r | r in out :: r.multiply != 0
  {
    hide AddRelatives, DropZeros, Proper, Sum, Cong;
    AddRelativesSum(rels, rels2, base);
    AddRelativesSections(rels, rels2);
    DropZerosSum(AddRelatives(rels, rels2), base);
    DropZerosKeeps(AddRelatives(rels, rels2));
  }

  lemma SumOfOne(r: RelMultiply, base: Bases)
    requires r.multiply == 1
    ensures Sum([r], base) == base(r.section)
  {
    assert [r][1..] == [];
  }

  // ----- comparing relatives -----

  /** Matches every entry of the second list with an unused entry of the first one, marking
      the used ones with the absolute section: decides equality as multisets. */
  method EqualRelatives(rels: Relatives, rels2: Relatives) returns (equal: bool)
    requires forall r | r in rels :: r.section != ASMSECT_ABS
    requires forall r | r in rels2 :: r.section != ASMSECT_ABS
    ensures equal <==> multiset(rels) == multiset(rels2)
  {
    hide Unused;
    if |rels2| != |rels| {
      assert |multiset(rels)| == |rels| && |multiset(rels2)| == |rels2|;
      return false;
    }
    var work := rels;
    var requals := 0;
    NoneUsed(rels);
    ghost var matched: multiset<RelMultiply> := multiset{};
    ghost var missing: RelMultiply := RelMultiply(0, 0);
    for i := 0 to |rels2|
      invariant |work| == |rels| && requals <= i
      invariant Unused(work, matched, rels)
      invariant requals == i ==> matched == multiset(rels2[..i])
      invariant |matched| == requals
      invariant requals < i ==> multiset(rels2)[missing] > multiset(rels)[missing]
    {
      var r := rels2[i];
      assert r in rels2;
      var k := FindUnused(work, r);
      PrefixCount(rels2, i);
      if k < |work| {
        MarkUsed(work, matched, rels, k);
        work := work[k := work[k].(section := ASMSECT_ABS)];
        requals := requals + 1;
        matched := matched + multiset{r};
      } else if requals == i {
        missing := r;
        MissingOne(work, matched, rels, rels2, i);
      }
    }
    assert rels2[..|rels2|] == rels2;
    equal := requals == |rels|;
    if equal {
      MatchedOnly(work, matched, rels);
      SameSize(matched, multiset(rels));
    }
  }

  method FindUnused(work: Relatives, r: RelMultiply) returns (k: nat)
    ensures k <= |work|
    ensures k < |work| ==> work[k] == r
    ensures k == |work| ==> r !in work
  {
    k := 0;
    while k < |work| && work[k] != r
      invariant k <= |work|
      invariant forall j | 0 <= j < k :: work[j] != r
    {
      k := k + 1;
    }
  }

  /** The entries not yet marked, together with the matched ones, are the original list. */
  ghost predicate Unused(work: Relatives, matched: multiset<RelMultiply>, rels: Relatives) {
    forall r: RelMultiply ::
      if r.section == ASMSECT_ABS then matched[r] == 0
      else multiset(work)[r] + matched[r] == multiset(rels)[r]
  }

  lemma NoneUsed(rels: Relatives)
    requires forall r | r in rels :: r.section != ASMSECT_ABS
    ensures Unused(rels, multiset{}, rels)
  {
  }

  lemma MissingOne(work: Relatives, matched: multiset<RelMultiply>, rels: Relatives, rels2: Relatives, i: nat)
    requires Unused(work, matched, rels) && i < |rels2| && matched == multiset(rels2[..i])
    requires rels2[i] !in work && rels2[i].section != ASMSECT_ABS
    requires multiset(rels2[..i]) + multiset{rels2[i]} <= multiset(rels2)
    ensures multiset(rels2)[rels2[i]] > multiset(rels)[rels2[i]]
  {
    assert multiset(work)[rels2[i]] == 0;
  }

  lemma MatchedOnly(work: Relatives, matched: multiset<RelMultiply>, rels: Relatives)
    requires Unused(work, matched, rels)
    ensures matched <= multiset(rels)
  {
  }

  lemma MarkUsed(work: Relatives, matched: multiset<RelMultiply>, rels: Relatives, k: nat)
    requires Unused(work, matched, rels) && k < |work| && work[k].section != ASMSECT_ABS
    ensures Unused(work[k := work[k].(section := ASMSECT_ABS)], matched + multiset{work[k]}, rels)
  {
    var work' := work[k := work[k].(section := ASMSECT_ABS)];
    assert multiset(work') == multiset(work) - multiset{work[k]} + multiset{work'[k]};
    assert work[k] in multiset(work);
  }

  lemma PrefixCount(s: Relatives, i: nat)
    requires i < |s|
    ensures multiset(s[..i + 1]) == multiset(s[..i]) + multiset{s[i]}
    ensures multiset(s[..i + 1]) <= multiset(s)
  {
    assert s[..i + 1] == s[..i] + [s[i]];
    assert s == s[..i + 1] + s[i + 1..];
  }

  lemma {:induction false} SameSize(a: multiset<RelMultiply>, b: multiset<RelMultiply>)
    requires a <= b && |a| == |b|
    ensures a == b
  {
    assert b == a + (b - a);
    assert |b| == |a| + |b - a|;
  }

  lemma {:induction false} SumOfMultiset(rels: Relatives, rels2: Relatives, base: Bases)
    requires multiset(rels) == multiset(rels2)
    ensures Sum(rels, base) == Sum(rels2, base)
    decreases |rels|
  {
    hide Sum;
    assert |multiset(rels)| == |rels| && |multiset(rels2)| == |rels2|;
    if rels != [] {
      var r := rels[0];
      SumMoved([], r, rels[1..], base);
      RemovedOne(rels, 0);
      assert [] + rels[1..] == rels[1..];
      assert r in multiset(rels2);
      var i :| 0 <= i < |rels2| && rels2[i] == r;
      RemovedOne(rels2, i);
      SumOfMultiset(rels[1..], rels2[..i] + rels2[i + 1..], base);
      SumMoved(rels2[..i], r, rels2[i + 1..], base);
    }
  }

  lemma RemovedOne(s: Relatives, i: nat)
    requires i < |s|
    ensures s == s[..i] + [s[i]] + s[i + 1..]
    ensures multiset(s[..i] + s[i + 1..]) == multiset(s) - multiset{s[i]}
  {
    assert s == s[..i] + [s[i]] + s[i + 1..];
  }

  lemma {:induction false} SumMoved(a: Relatives, r: RelMultiply, b: Relatives, base: Bases)
    ensures Sum(a + [r] + b, base) == r.multiply * base(r.section) + Sum(a + b, base)
  {
    if a == [] {
      assert (a + [r] + b)[1..] == a + b;
    } else {
      assert (a + [r] + b)[1..] == a[1..] + [r] + b;
      assert (a + b)[1..] == a[1..] + b;
      SumMoved(a[1..], r, b, base);
    }
  }
}
