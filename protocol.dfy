/**
 * The two error-sequencing policies of the facade, stated over the engine
 * calls an operation makes (its plan) and the calls it actually made, with
 * their outcomes (its trace).
 *
 * Fail-fast (MkFile, MkDir, Append, Unlink, Read, and Ls's stats): the steps
 * of the plan run in order until one does not pass; nothing after it runs,
 * and the code returned is that step's own code.
 *
 * Run-all (Rename): every step runs whatever the earlier ones returned, and
 * the code returned is the last step's.
 */
module Protocol {
  import opened Common
  import opened Engine

  /**
   * A call passes when its code is 0 and, for a write or a read, the whole
   * buffer was transferred (the facade checks `ub.Remain() != 0` after a write
   * and `n != len(hdata)` after a read).
   */
  predicate Passes(c: Call)
  {
    c.err == 0 && ((c.step.FsWrite? || c.step.FsRead?) ==> c.n == c.step.want)
  }

  /** The calls of `t` are the first Len(t) steps of `plan`, in order. */
  predicate Follows(plan: seq<Step>, t: Trace)
  {
    match t
    case Empty => true
    case Then(u, c) => Len(u) < |plan| && Follows(plan, u) && c.step == plan[Len(u)]
  }

  /** Every call of `t` passed. */
  predicate AllPass(t: Trace)
  {
    match t
    case Empty => true
    case Then(u, c) => AllPass(u) && Passes(c)
  }

  /** `t` is what the fail-fast policy runs of `plan`. */
  predicate FailFast(plan: seq<Step>, t: Trace)
  {
    && Follows(plan, t)
    && (t.Then? ==> AllPass(t.before))
    && (Len(t) < |plan| ==> t.Then? && !Passes(t.last))
  }

  /** `t` is what the run-all policy runs of `plan`. */
  predicate RunAll(plan: seq<Step>, t: Trace)
  {
    Len(t) == |plan| && Follows(plan, t)
  }

  /** Every step of the plan ran and passed. */
  predicate Completed(plan: seq<Step>, t: Trace)
  {
    Len(t) == |plan| && AllPass(t)
  }

  /** The code of the last call made: what both policies return. */
  function Code(t: Trace): Err
    requires t.Then?
  {
    t.last.err
  }

  /** `t` ran the first Len(t) steps of `plan`, and each passed. */
  predicate Ran(plan: seq<Step>, t: Trace)
  {
    Follows(plan, t) && AllPass(t)
  }

  lemma RanNothing(plan: seq<Step>)
    ensures Ran(plan, Empty)
  {
  }

  /** A passing next step extends what ran. */
  lemma RanNext(plan: seq<Step>, t: Trace, c: Call)
    requires Ran(plan, t) && Len(t) < |plan| && c.step == plan[Len(t)] && Passes(c)
    ensures Ran(plan, Then(t, c))
  {
  }

  /** A next step that does not pass ends a fail-fast run short of completion. */
  lemma StopsAt(plan: seq<Step>, t: Trace, c: Call)
    requires Ran(plan, t) && Len(t) < |plan| && c.step == plan[Len(t)] && !Passes(c)
    ensures FailFast(plan, Then(t, c)) && !Completed(plan, Then(t, c)) && Code(Then(t, c)) == c.err
  {
  }

  /** The last step ends a fail-fast run, completed exactly when it passes. */
  lemma EndsWith(plan: seq<Step>, t: Trace, c: Call)
    requires Ran(plan, t) && Len(t) + 1 == |plan| && c.step == plan[Len(t)]
    ensures FailFast(plan, Then(t, c)) && (Completed(plan, Then(t, c)) <==> Passes(c)) && Code(Then(t, c)) == c.err
  {
  }

  /** A run that has passed every step of the plan is a completed fail-fast run. */
  lemma RanAll(plan: seq<Step>, t: Trace)
    requires Ran(plan, t) && Len(t) == |plan|
    ensures FailFast(plan, t) && Completed(plan, t)
  {
  }

  /*
   * Reference forms of the policies over the sequence of calls made, stated
   * index by index.
   */

  /** Call i was step i of the plan, for every call made. */
  predicate StepsMatch(plan: seq<Step>, s: seq<Call>)
  {
    |s| <= |plan| && forall i :: 0 <= i < |s| ==> s[i].step == plan[i]
  }

  /** Every call in `s` passed. */
  predicate EachPassed(s: seq<Call>)
  {
    forall i :: 0 <= i < |s| ==> Passes(s[i])
  }

  /**
   * The fail-fast policy, call by call: the calls made are the plan's first
   * steps, in order; every call but the last passed; and when the run stopped
   * short of the plan, its last call did not pass.
   */
  predicate StopsAtFirstFailure(plan: seq<Step>, s: seq<Call>)
  {
    && StepsMatch(plan, s)
    && (forall i :: 0 <= i < |s| - 1 ==> Passes(s[i]))
    && (|s| < |plan| ==> 0 < |s| && !Passes(s[|s| - 1]))
  }

  lemma {:induction false} FollowsMeans(plan: seq<Step>, t: Trace)
    ensures Follows(plan, t) <==> StepsMatch(plan, Calls(t))
  {
    match t
    case Empty =>
    case Then(u, c) =>
      FollowsMeans(plan, u);
      var s := Calls(t);
      assert s == Calls(u) + [c];
      assert forall i :: 0 <= i < Len(u) ==> s[i] == Calls(u)[i];
      assert s[Len(u)] == c;
  }

  lemma {:induction false} AllPassMeans(t: Trace)
    ensures AllPass(t) <==> EachPassed(Calls(t))
  {
    match t
    case Empty =>
    case Then(u, c) =>
      AllPassMeans(u);
      var s := Calls(t);
      assert s == Calls(u) + [c];
      assert forall i :: 0 <= i < Len(u) ==> s[i] == Calls(u)[i];
      assert s[Len(u)] == c;
  }

  /** The recursive fail-fast policy agrees with its call-by-call form. */
  lemma FailFastMeans(plan: seq<Step>, t: Trace)
    ensures FailFast(plan, t) <==> StopsAtFirstFailure(plan, Calls(t))
  {
    FollowsMeans(plan, t);
    if t.Then? {
      var s, u := Calls(t), t.before;
      AllPassMeans(u);
      assert s == Calls(u) + [t.last];
      assert forall i :: 0 <= i < Len(u) ==> s[i] == Calls(u)[i];
    }
  }

  /** Completion, call by call: as many calls as steps, and every one passed. */
  lemma CompletedMeans(plan: seq<Step>, t: Trace)
    ensures Completed(plan, t) <==> |Calls(t)| == |plan| && EachPassed(Calls(t))
  {
    AllPassMeans(t);
  }

  /** A fail-fast run stops at the first step that does not pass, and returns its code. */
  lemma FirstFailureEndsRun(plan: seq<Step>, t: Trace, i: nat)
    requires FailFast(plan, t) && i < Len(t) && !Passes(Nth(t, i))
    ensures i == Len(t) - 1 && Code(t) == Nth(t, i).err
    ensures !Completed(plan, t)
  {
    FailFastMeans(plan, t);
    CompletedMeans(plan, t);
  }

  /**
   * A fail-fast run whose last step passes ran the whole plan; one that did
   * not complete stopped on a step that did not pass, after steps that all did.
   */
  lemma FailFastOutcome(plan: seq<Step>, t: Trace)
    requires FailFast(plan, t) && plan != []
    ensures t.Then?
    ensures Completed(plan, t) <==> Passes(t.last)
    ensures !Completed(plan, t) ==> !Passes(t.last) && forall i :: 0 <= i < Len(t) - 1 ==> Passes(Nth(t, i))
  {
    FailFastMeans(plan, t);
    CompletedMeans(plan, t);
  }

  /**
   * When no step of the plan transfers bytes, a fail-fast run returns 0
   * exactly when every step ran and passed.
   */
  lemma ZeroCodeIffCompleted(plan: seq<Step>, t: Trace)
    requires FailFast(plan, t) && plan != []
    requires forall k :: 0 <= k < |plan| ==> !plan[k].FsWrite? && !plan[k].FsRead?
    ensures t.Then?
    ensures Code(t) == 0 <==> Completed(plan, t)
  {
    FailFastOutcome(plan, t);
    FailFastMeans(plan, t);
  }

  /**
   * With a write or a read in the plan, a nonzero code still means the run did
   * not complete, but 0 no longer means it did: a short transfer with code 0
   * stops the run and returns 0.
   */
  lemma NonZeroCodeMeansIncomplete(plan: seq<Step>, t: Trace)
    requires FailFast(plan, t) && plan != []
    ensures t.Then?
    ensures Code(t) != 0 ==> !Completed(plan, t)
    ensures Completed(plan, t) ==> Code(t) == 0
  {
    FailFastOutcome(plan, t);
  }

  /**
   * A transfer step (a write or a read) that returns code 0 but moves fewer
   * bytes than asked ends a fail-fast run there, and the run returns 0.
   */
  lemma ShortTransferStops(plan: seq<Step>, t: Trace, i: nat)
    requires FailFast(plan, t) && i < Len(t) && i < |plan| && (plan[i].FsWrite? || plan[i].FsRead?)
    requires Nth(t, i).err == 0 && Nth(t, i).n != plan[i].want
    ensures Len(t) == i + 1 && Code(t) == 0 && !Completed(plan, t)
  {
    FailFastMeans(plan, t);
    assert Nth(t, i).step == plan[i];
    FirstFailureEndsRun(plan, t, i);
  }

  /**
   * A step that occurs only last in the plan is reached only after every
   * earlier step passed, and what the run returns is that step's code.
   */
  lemma LastStepOnlyAfterSuccess(plan: seq<Step>, t: Trace, i: nat)
    requires FailFast(plan, t) && i < Len(t) && 0 < |plan|
    requires forall k :: 0 <= k < |plan| - 1 ==> plan[k] != plan[|plan| - 1]
    requires Nth(t, i).step == plan[|plan| - 1]
    ensures i == Len(t) - 1 == |plan| - 1
    ensures forall k :: 0 <= k < i ==> Passes(Nth(t, k))
    ensures Code(t) == Nth(t, i).err
  {
    FailFastMeans(plan, t);
    assert Calls(t)[i].step == plan[i];
  }
}
