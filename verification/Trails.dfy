/** One obligation along a run of events. */
module Trails {
  import opened Models
  import opened Session

  /** What an operation means for the obligation. */
  datatype Event = Event(clears: bool, proposes: bool, satisfies: bool)

  predicate Sensible(es: seq<Event>) {
    forall i | 0 <= i < |es| :: es[i].proposes ==> !es[i].clears && !es[i].satisfies
  }

  function NextState(s: Option<ObligationState>, e: Event): Option<ObligationState> {
    if e.clears then None
    else if s.None? && e.proposes then Some(Pending)
    else if s.Some? && e.satisfies then Some(Satisfied)
    else s
  }

  /** How the obligation stands before event j. */
  function Trail(es: seq<Event>, j: nat): Option<ObligationState>
    requires j <= |es|
  {
    if j == 0 then None else NextState(Trail(es, j - 1), es[j - 1])
  }

  predicate NoClear(es: seq<Event>, i: nat, j: nat)
    requires i <= j <= |es|
  {
    forall m | i <= m < j :: !es[m].clears
  }

  /** Event i proposed the obligation and nothing has cleared it since. */
  predicate ProposedSince(es: seq<Event>, i: nat, j: nat)
    requires i < j <= |es|
  {
    es[i].proposes && NoClear(es, i, j)
  }

  /** Proposed since the last clear. */
  predicate ProposedBefore(es: seq<Event>, j: nat)
    requires j <= |es|
  {
    exists i: nat :: i < j && ProposedSince(es, i, j)
  }

  /** Event m satisfied what event i had proposed, and nothing has cleared it since. */
  predicate SatisfiedSince(es: seq<Event>, i: nat, m: nat, j: nat)
    requires i < m < j <= |es|
  {
    ProposedSince(es, i, j) && es[m].satisfies
  }

  /** Listed exactly when proposed since the last clear. */
  lemma {:induction false} ListedExactly(es: seq<Event>, j: nat)
    requires j <= |es| && Sensible(es)
    ensures Trail(es, j).Some? <==> ProposedBefore(es, j)
  {
    if j > 0 {
      ListedExactly(es, j - 1);
      if i: nat :| i < j && ProposedSince(es, i, j) {
        assert i < j - 1 ==> ProposedSince(es, i, j - 1);
      }
      if Trail(es, j).Some? {
        if es[j - 1].proposes {
          assert ProposedSince(es, j - 1, j);
        } else {
          var i: nat :| i < j - 1 && ProposedSince(es, i, j - 1);
          assert ProposedSince(es, i, j);
        }
      }
    }
  }

  /** Satisfied exactly when, since the last clear, proposed and later satisfied. */
  lemma {:induction false} SatisfiedExactly(es: seq<Event>, j: nat)
    requires j <= |es| && Sensible(es)
    ensures Trail(es, j) == Some(Satisfied) <==> exists i: nat, m: nat :: i < m < j && SatisfiedSince(es, i, m, j)
  {
    if j > 0 {
      SatisfiedExactly(es, j - 1);
      ListedExactly(es, j - 1);
      if i: nat, m: nat :| i < m < j && SatisfiedSince(es, i, m, j) {
        assert ProposedSince(es, i, j - 1);
        assert m < j - 1 ==> SatisfiedSince(es, i, m, j - 1);
      }
      if Trail(es, j) == Some(Satisfied) {
        if Trail(es, j - 1) == Some(Satisfied) {
          var i: nat, m: nat :| i < m < j - 1 && SatisfiedSince(es, i, m, j - 1);
          assert SatisfiedSince(es, i, m, j);
        } else {
          var i: nat :| i < j - 1 && ProposedSince(es, i, j - 1);
          assert SatisfiedSince(es, i, j - 1, j);
        }
      }
    }
  }

  lemma {:induction false} SatisfiedStays(es: seq<Event>, i: nat, j: nat)
    requires i <= j <= |es| && NoClear(es, i, j) && Trail(es, i) == Some(Satisfied)
    ensures Trail(es, j) == Some(Satisfied)
  {
    if i < j {
      SatisfiedStays(es, i, j - 1);
    }
  }

  lemma {:induction false} PendingUntilSatisfied(es: seq<Event>, i: nat, j: nat)
    requires i <= j <= |es| && NoClear(es, i, j) && Trail(es, i) == Some(Pending)
    ensures Trail(es, j).Some? && (Trail(es, j) == Some(Satisfied) <==> exists m | i <= m < j :: es[m].satisfies)
  {
    if i < j {
      PendingUntilSatisfied(es, i, j - 1);
    }
  }

  /** By the end of event j, proposed and later satisfied, with no clear before event j. */
  predicate SettledBy(es: seq<Event>, j: nat)
    requires j < |es|
  {
    exists i: nat, m: nat :: i < m <= j && ProposedSince(es, i, j) && es[m].satisfies
  }

  lemma {:induction false} SettledByThen(es: seq<Event>, i: nat, m: nat, j: nat)
    requires i < m <= j < |es| && Sensible(es) && ProposedSince(es, i, j) && es[m].satisfies
    ensures Trail(es, j) == Some(Satisfied) || es[j].satisfies
  {
    SatisfiedExactly(es, j);
    assert m < j ==> SatisfiedSince(es, i, m, j);
  }

  lemma {:induction false} SettledNow(es: seq<Event>, j: nat)
    requires j < |es| && Sensible(es) && ProposedBefore(es, j) && (Trail(es, j) == Some(Satisfied) || es[j].satisfies)
    ensures SettledBy(es, j)
  {
    if es[j].satisfies {
      var i: nat :| i < j && ProposedSince(es, i, j);
      assert i < j <= j && ProposedSince(es, i, j) && es[j].satisfies;
    } else {
      SatisfiedExactly(es, j);
      var i: nat, m: nat :| i < m < j && SatisfiedSince(es, i, m, j);
      assert ProposedSince(es, i, j) && es[m].satisfies;
    }
  }

  /** What is proposed is settled by the end of event j exactly when it is not still pending then, or
      event j satisfies it. */
  lemma {:induction false} SettledExactly(es: seq<Event>, j: nat)
    requires j < |es| && Sensible(es)
    ensures (ProposedBefore(es, j) ==> SettledBy(es, j)) <==> (Trail(es, j) == Some(Pending) ==> es[j].satisfies)
  {
    ListedExactly(es, j);
    if ProposedBefore(es, j) {
      if SettledBy(es, j) {
        var i: nat, m: nat :| i < m <= j && ProposedSince(es, i, j) && es[m].satisfies;
        SettledByThen(es, i, m, j);
      } else if Trail(es, j) == Some(Satisfied) || es[j].satisfies {
        SettledNow(es, j);
      } else {
        assert Trail(es, j).value.Pending?;
      }
    }
  }
}
