/** The transaction as a whole: apply the steps, roll back on the first failure. */
module TransactionRun {
  import opened Sequences
  import opened Transactions
  import opened Hierarchies
  import opened StepEffects
  import opened RollbackTheorems
  import opened RollbackSparing

  lemma Reversal(s0: Store, ops: seq<TxnOp>, ans: nat -> Answers, undo: nat -> Answers, k: nat, partial: Store)
    requires ValidStore(s0) && k < |ops| && After(s0, ops, ans, k).Some?
    ensures var (before, applied) := After(s0, ops, ans, k).value;
            && ((Hierarchy(s0.nodes) && AllRestorable(s0, ops, ans, undo, k, 0)
                 && partial.nodes == before.nodes && (forall u :: AllAcked(undo(u)))) ==>
                  Rollback(partial.nodes, applied, undo, 0) == s0.nodes)
            && (Tracks(partial.nodes, before) && MoveBacksLand(partial.nodes, applied, undo, 0) ==>
                  forall x :: x in s0.nodes && x in partial.nodes ==> x in Rollback(partial.nodes, applied, undo, 0))
  {
    hide AllRestorable;
    hide Tracks;
    hide MoveBacksLand;
    hide Rollback;
    hide After;
    var (before, applied) := After(s0, ops, ans, k).value;
    if Hierarchy(s0.nodes) && AllRestorable(s0, ops, ans, undo, k, 0)
       && partial.nodes == before.nodes && (forall u :: AllAcked(undo(u))) {
      RollbackRestores(s0, ops, ans, undo, k, 0);
    }
    if Tracks(partial.nodes, before) && MoveBacksLand(partial.nodes, applied, undo, 0) {
      MoveBacksSpare(s0, ops, ans, undo, k, partial.nodes, 0);
    }
  }

  lemma SparesIfIssued(s0: Store, ops: seq<TxnOp>, ans: nat -> Answers, undo: nat -> Answers, k: nat)
    requires ValidStore(s0) && k < |ops| && After(s0, ops, ans, k).Some?
    ensures var (before, applied) := After(s0, ops, ans, k).value;
            var partial := ApplyStep(before, ops[k], ans(k)).0;
            TargetsIssued(s0, ops) ==>
              forall x :: x in s0.nodes && x in partial.nodes ==> x in Rollback(partial.nodes, applied, undo, 0)
  {
    hide ApplyStep;
    hide After;
    hide Rollback;
    hide TargetsIssued;
    if TargetsIssued(s0, ops) {
      RollbackSpares(s0, ops, ans, undo, k);
    }
  }

  lemma StaysForest(s0: Store, ops: seq<TxnOp>, ans: nat -> Answers, undo: nat -> Answers, k: nat)
    requires ValidStore(s0) && k < |ops| && After(s0, ops, ans, k).Some?
    ensures var (before, applied) := After(s0, ops, ans, k).value;
            Hierarchy(s0.nodes) ==> Hierarchy(Rollback(ApplyStep(before, ops[k], ans(k)).0.nodes, applied, undo, 0))
  {
    hide ApplyStep;
    hide Hierarchy;
    hide Rollback;
    AfterValid(s0, ops, ans, k);
    if Hierarchy(s0.nodes) {
      var (before, applied) := After(s0, ops, ans, k).value;
      StepKeepsHierarchy(before, ops[k], ans(k));
      RollbackHierarchy(ApplyStep(before, ops[k], ans(k)).0.nodes, applied, undo, 0);
    }
  }

  lemma StoppedTrace(s0: Store, ops: seq<TxnOp>, ans: nat -> Answers, k: nat)
    requires ValidStore(s0) && k < |ops| && After(s0, ops, ans, k).Some?
    requires ApplyStep(After(s0, ops, ans, k).value.0, ops[k], ans(k)).1.StepFailed?
    ensures exists stores :: Trace(s0, ops, ans, k, stores) && !Accepted(stores[k], ops[k], ans(k))
  {
    hide ApplyStep;
    hide Accepted;
    var stores := RunTraced(s0, ops, ans, k);
    AfterValid(s0, ops, ans, k);
    StepEffect(stores[k], ops[k], ans(k));
  }

  datatype Outcome = InvalidInput | Applied | RolledBack(failedAt: nat)

  /** Run the steps; on the first failure undo the applied ones in reverse. */
  method RunTransaction(s0: Store, ops: seq<TxnOp>, ans: nat -> Answers, undo: nat -> Answers)
    returns (s: Store, outcome: Outcome)
    requires ValidStore(s0)
    ensures outcome.InvalidInput? <==> ops == []
    ensures outcome.InvalidInput? ==> s == s0
    ensures outcome.Applied? ==> After(s0, ops, ans, |ops|).Some? && s == After(s0, ops, ans, |ops|).value.0
    ensures outcome.RolledBack? ==>
              && outcome.failedAt < |ops|
              && After(s0, ops, ans, outcome.failedAt).Some?
              && var (before, applied) := After(s0, ops, ans, outcome.failedAt).value;
                 var (partial, result) := ApplyStep(before, ops[outcome.failedAt], ans(outcome.failedAt));
                 && result.StepFailed? && s.nodes == Rollback(partial.nodes, applied, undo, 0)
                 // nothing that was there is destroyed, whatever the replies, if moves name issued parents
                 && (TargetsIssued(s0, ops) ==> forall x :: x in s0.nodes && x in partial.nodes ==> x in s.nodes)
                 // atomicity: restorable steps, a failure that changed nothing, every inverse acknowledged
                 && ((Hierarchy(s0.nodes) && AllRestorable(s0, ops, ans, undo, outcome.failedAt, 0)
                      && partial.nodes == before.nodes && (forall u :: AllAcked(undo(u)))) ==> s.nodes == s0.nodes)
                 // otherwise too, if the failure moved nothing and every move-back lands
                 && (Tracks(partial.nodes, before) && MoveBacksLand(partial.nodes, applied, undo, 0) ==>
                     forall x :: x in s0.nodes && x in partial.nodes ==> x in s.nodes)
    // applied: every step was accepted and had its effect, in order
    ensures outcome.Applied? ==> exists stores :: Trace(s0, ops, ans, |ops|, stores) && stores[|ops|] == s
    // rolled back: so had all before the first that was not accepted
    ensures outcome.RolledBack? ==>
              exists stores ::
                && outcome.failedAt < |ops| && Trace(s0, ops, ans, outcome.failedAt, stores)
                && !Accepted(stores[outcome.failedAt], ops[outcome.failedAt], ans(outcome.failedAt))
    // applied or rolled back, the outline stays a forest
    ensures Hierarchy(s0.nodes) ==> Hierarchy(s.nodes)
  {
    hide ApplyStep;
    hide RunInverse;
    hide Hierarchy;
    hide AllRestorable;
    hide Tracks;
    hide MoveBacksLand;
    hide TargetsIssued;
    hide Trace;
    hide Accepted;
    s := s0;
    if ops == [] {
      return s, InvalidInput;
    }
    var applied: seq<Inverse> := [];
    var k := 0;
    while k < |ops|
      invariant 0 <= k <= |ops|
      invariant After(s0, ops, ans, k) == Some((s, applied))
    {
      var (next, result) := ApplyStep(s, ops[k], ans(k));
      match result {
        case Stepped(inverse) =>
          s := next;
          applied := Push(applied, inverse);
        case StepFailed =>
          var nodes := next.nodes;
          ghost var stack := applied;
          var j := 0;
          while applied != []
            invariant Rollback(nodes, applied, undo, j) == Rollback(next.nodes, stack, undo, 0)
            decreases |applied|
          {
            var last := |applied| - 1;
            var (undone, ok) := RunInverse(nodes, applied[last], undo(j));
            nodes, applied, j := undone, applied[..last], j + 1;
          }
          Reversal(s0, ops, ans, undo, k, next);
          SparesIfIssued(s0, ops, ans, undo, k);
          StaysForest(s0, ops, ans, undo, k);
          StoppedTrace(s0, ops, ans, k);
          return Store(nodes, next.used), RolledBack(k);
      }
      k := k + 1;
    }
    AfterValid(s0, ops, ans, k);
    ghost var stores := RunTraced(s0, ops, ans, k);
    outcome := Applied;
  }
}
