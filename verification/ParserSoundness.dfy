/** What the parser accepts: the texts of expressions. */
module ParserSoundness {
  import opened ParserRoundTrip
  import opened ParserContexts
  import P = Parser

  lemma {:induction false} BadStaysBad(ts: seq<P.Token>, st: P.State)
    requires !st.good
    ensures P.Conclude(P.Feed(ts, st)).Rejected?
  {
    if ts != [] && !st.done {
      BadStaysBad(ts[1..], P.Advance(ts[0], st));
    }
  }

  lemma {:induction false} ScanPrefix(a: seq<P.Token>, b: seq<P.Token>)
    requires ChoicesClosed(a + b)
    ensures ChoicesClosed(a)
  {
    if b == [] {
      assert a + b == a;
    } else {
      var n := |b| - 1;
      assert a + b == (a + b[..n]) + [b[n]];
      ScanSnoc(a + b[..n], b[n]);
      ScanPrefix(a, b[..n]);
    }
  }

  lemma StepOutcome(st: P.State, ts: seq<P.Token>, t: P.Token)
    requires !st.done && st.good && Invariant(st, ts)
    requires t == P.RParen && st.parens > 0 ==> ChoicesClosed(ts + [t])
    ensures Outcome(P.Advance(t, st), ts, t)
  {
    if st.expected == P.XT_OP {
      var fs, e :| Holding(st, Sum(fs), e, ts) && Level(e) == 7;
      HoldStep(st, fs, e, ts, t);
    } else {
      var fs :| Waiting(st, Sum(fs), ts);
      WaitStep(st, fs, ts, t);
    }
  }

  lemma InvariantPos(st: P.State, ts: seq<P.Token>)
    requires Invariant(st, ts)
    ensures st.pos == |ts| && st.good && !st.done
  {
  }

  /** One step of a run over a text. */
  lemma RunStep(all: seq<P.Token>, i: nat, st: P.State)
    requires i < |all| && !st.done
    ensures P.Feed(all[i..], st) == P.Feed(all[i + 1..], P.Advance(all[i], st))
    ensures all[..i + 1] == all[..i] + [all[i]]
    ensures P.Advance(all[i], st).done ==> P.Feed(all[i..], st) == P.Advance(all[i], st)
  {
    assert all[i..][1..] == all[i + 1..];
  }

  lemma OuterCloseEnds(st: P.State, t: P.Token)
    requires !st.done && P.Advance(t, st).done
    ensures t == P.RParen ==> st.parens == 0
  {
  }

  lemma FeedNothing(st: P.State)
    ensures P.Feed([], st) == st
  {
  }

  /** The text is used up: what was held is the whole expression. */
  lemma TextEnds(st: P.State, ts: seq<P.Token>)
    requires Invariant(st, ts) && P.Conclude(st).Parsed? && ts != []
    ensures Sentence(P.Conclude(st).code, ts)
  {
    if st.expected == P.XT_OP {
      var fs, e0 :| Holding(st, Sum(fs), e0, ts) && Level(e0) == 7;
      var e := HoldEnd(st, fs, e0, ts);
      assert Sentence(P.Conclude(st).code, ts);
    } else {
      var fs :| Waiting(st, Sum(fs), ts);
      NothingRead(fs);
    }
  }

  /** From a state of the invariant, an accepted text is a sentence. */
  lemma {:induction false} RunIsSentence(all: seq<P.Token>, i: nat, st: P.State)
    requires i <= |all| && Invariant(st, all[..i])
    requires P.Conclude(P.Feed(all[i..], st)).Parsed?
    requires var n := P.Conclude(P.Feed(all[i..], st)).consumed;
             0 < n <= |all| && ChoicesClosed(all[..n])
    ensures var r := P.Conclude(P.Feed(all[i..], st)); Sentence(r.code, all[..r.consumed])
    decreases |all| - i
  {
    hide P.Advance, P.Feed, Invariant, Sentence, ScanAll;
    InvariantPos(st, all[..i]);
    P.FeedMoves(all[i..], st);
    if i == |all| {
      assert all[..i] == all && all[i..] == [];
      FeedNothing(st);
      TextEnds(st, all);
    } else {
      var t := all[i];
      var st' := P.Advance(t, st);
      var n := P.Conclude(P.Feed(all[i..], st)).consumed;
      P.AdvanceMoves(t, st);
      RunStep(all, i, st);
      P.FeedMoves(all[i + 1..], st');
      if !st'.good {
        BadStaysBad(all[i + 1..], st');
      } else if st'.done {
        OuterCloseEnds(st, t);
        StepOutcome(st, all[..i], t);
      } else {
        assert all[..n] == all[..i + 1] + all[i + 1..n];
        ScanPrefix(all[..i + 1], all[i + 1..n]);
        StepOutcome(st, all[..i], t);
        RunIsSentence(all, i + 1, st');
      }
    }
  }

  /** MAIN: whatever the parser accepts, if its choices are closed in their own groups, is
      the text of an expression with enough parentheses, and the code is its postfix. */
  lemma AcceptedIsSentence(ts: seq<P.Token>)
    requires P.ParseSpec(ts).Parsed? && P.ParseSpec(ts).consumed > 0
    requires ChoicesClosed(ts[..P.ParseSpec(ts).consumed])
    ensures Sentence(P.ParseSpec(ts).code, ts[..P.ParseSpec(ts).consumed])
  {
    assert Sum([]) == NOTHING;
    IsWaiting(P.START, [], []);
    assert ts[0..] == ts && ts[..0] == [];
    RunIsSentence(ts, 0, P.START);
  }
}
