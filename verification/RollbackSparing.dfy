/** What a transaction's rollback never destroys. */
module RollbackSparing {
  import opened Sequences
  import opened Outlines
  import opened Transactions
  import opened Hierarchies
  import opened RollbackTheorems

  // ---------------------------------------------------------------------
  // Older nodes stay clear of newer ones
  // ---------------------------------------------------------------------

  /** No node of the given ids hangs under a node that is not one of them. */
  ghost predicate Rooted(nodes: Nodes, used: set<Id>) {
    forall x :: x in nodes && x in used && nodes[x].parent.Some? ==> nodes[x].parent.value in used
  }

  /** The step would move an older node under one that was created since. */
  predicate Catches(nodes: Nodes, used: set<Id>, op: TxnOp) {
    && ParseKind(op.op) == Some(Move) && op.nodeId.Some? && op.newParentId.Some?
    && op.nodeId.value in nodes && op.nodeId.value in used
    && op.newParentId.value in nodes && op.newParentId.value !in used
    && !Under(nodes, op.newParentId.value, op.nodeId.value)
  }

  /** The inverse deletes only a newer node, and moves an older one back under an older one. */
  predicate Harmless(inv: Inverse, used: set<Id>) {
    match inv
    case DeleteCreated(c) => c !in used
    case UnMove(x, parent, _) => x in used && parent.Some? ==> parent.value in used
    case _ => true
  }

  lemma StepKeepsRooted(s: Store, op: TxnOp, a: Answers, used: set<Id>)
    requires used <= s.used && Rooted(s.nodes, used) && !Catches(s.nodes, used, op)
    ensures Rooted(ApplyStep(s, op, a).0.nodes, used)
    ensures ApplyStep(s, op, a).1.Stepped? && ApplyStep(s, op, a).1.inverse.Some? ==>
              Harmless(ApplyStep(s, op, a).1.inverse.value, used)
  {
    hide Cascade;
    match ParseKind(op.op)
    case None =>
    case Some(Create) =>
    case Some(Edit) =>
      if op.nodeId.Some? {
        EditKeepsParents(s.nodes, op.nodeId.value, op.name, op.note, a);
        hide EditNode;
      }
    case Some(Delete) =>
      if op.nodeId.Some? {
        CascadeShrinks(s.nodes, op.nodeId.value);
      }
    case Some(Move) =>
    case Some(kind) =>
  }

  /** Climbing from an older node meets older nodes only. */
  lemma {:induction false} ClimbsStayOld(nodes: Nodes, used: set<Id>, x: Id, c: Id, k: nat)
    requires Rooted(nodes, used) && x in used && c !in used
    ensures !Climbs(nodes, x, c, k)
    decreases k
  {
    if k > 0 && x in nodes && nodes[x].parent.Some? {
      ClimbsStayOld(nodes, used, nodes[x].parent.value, c, k - 1);
    }
  }

  lemma CascadeSparesOld(nodes: Nodes, used: set<Id>, c: Id)
    requires Rooted(nodes, used) && c !in used
    ensures forall x :: x in used && x in nodes ==> x in Cascade(nodes, c)
  {
    forall x | x in used && x in nodes ensures x in Cascade(nodes, c) {
      forall k: nat ensures !Climbs(nodes, x, c, k) {
        ClimbsStayOld(nodes, used, x, c, k);
      }
    }
  }

  lemma UndoKeepsRooted(nodes: Nodes, inv: Inverse, u: Answers, used: set<Id>)
    requires Rooted(nodes, used) && Harmless(inv, used)
    ensures Rooted(RunInverse(nodes, inv, u).0, used)
    ensures forall x :: x in used && x in nodes ==> x in RunInverse(nodes, inv, u).0
  {
    match inv
    case DeleteCreated(c) =>
      CascadeShrinks(nodes, c);
      CascadeSparesOld(nodes, used, c);
      hide Cascade;
    case RestoreEdit(id, name, note) => EditKeepsParents(nodes, id, name, note, u);
    case UnMove(_, _, _) =>
    case RestoreCompletion(_, _) =>
  }

  ghost predicate AllHarmless(applied: seq<Inverse>, used: set<Id>) {
    forall i :: 0 <= i < |applied| ==> Harmless(applied[i], used)
  }

  /** However the inverses are answered, rolling back harmless inverses keeps every older node. */
  lemma {:induction false} HarmlessSpare(nodes: Nodes, applied: seq<Inverse>, undo: nat -> Answers, j: nat, used: set<Id>)
    requires Rooted(nodes, used) && AllHarmless(applied, used)
    ensures forall x :: x in used && x in nodes ==> x in Rollback(nodes, applied, undo, j)
    decreases |applied|
  {
    hide RunInverse;
    hide Rooted;
    hide Harmless;
    if applied != [] {
      var last := |applied| - 1;
      UndoKeepsRooted(nodes, applied[last], undo(j), used);
      HarmlessSpare(RunInverse(nodes, applied[last], undo(j)).0, applied[..last], undo, j + 1, used);
    }
  }

  // ---------------------------------------------------------------------
  // Whole runs
  // ---------------------------------------------------------------------

  /** Step i of the run catches an older node under a node the run created. */
  ghost predicate Caught(s0: Store, ops: seq<TxnOp>, ans: nat -> Answers, i: nat) {
    && i < |ops| && After(s0, ops, ans, i).Some?
    && Catches(After(s0, ops, ans, i).value.0.nodes, s0.used, ops[i])
  }

  lemma {:induction false} AfterRooted(s0: Store, ops: seq<TxnOp>, ans: nat -> Answers, k: nat)
    requires ValidStore(s0) && k <= |ops| && After(s0, ops, ans, k).Some?
    requires forall i: nat :: i < k ==> !Caught(s0, ops, ans, i)
    ensures Rooted(After(s0, ops, ans, k).value.0.nodes, s0.used)
    ensures AllHarmless(After(s0, ops, ans, k).value.1, s0.used)
  {
    hide Rooted;
    hide Harmless;
    hide ApplyStep;
    hide Catches;
    hide ValidStore;
    if k == 0 {
      StartRooted(s0);
    } else {
      AfterRooted(s0, ops, ans, k - 1);
      AfterValid(s0, ops, ans, k - 1);
      assert !Caught(s0, ops, ans, k - 1);
      StepKeepsRooted(After(s0, ops, ans, k - 1).value.0, ops[k - 1], ans(k - 1), s0.used);
    }
  }

  lemma StartRooted(s0: Store)
    requires ValidStore(s0)
    ensures Rooted(s0.nodes, s0.used)
  {
  }

  /** The rollback that starts after step k failed. */
  function Reverted(s0: Store, ops: seq<TxnOp>, ans: nat -> Answers, undo: nat -> Answers, k: nat): Nodes
    requires k < |ops| && After(s0, ops, ans, k).Some?
  {
    var (before, applied) := After(s0, ops, ans, k).value;
    Rollback(ApplyStep(before, ops[k], ans(k)).0.nodes, applied, undo, 0)
  }

  lemma UncaughtSpares(s0: Store, ops: seq<TxnOp>, ans: nat -> Answers, undo: nat -> Answers, k: nat)
    requires ValidStore(s0) && k < |ops| && After(s0, ops, ans, k).Some?
    requires forall i: nat :: i <= k ==> !Caught(s0, ops, ans, i)
    ensures var partial := ApplyStep(After(s0, ops, ans, k).value.0, ops[k], ans(k)).0;
            forall x :: x in s0.used && x in partial.nodes ==> x in Reverted(s0, ops, ans, undo, k)
  {
    hide ApplyStep;
    hide Rooted;
    hide AllHarmless;
    hide Rollback;
    var (before, applied) := After(s0, ops, ans, k).value;
    AfterRooted(s0, ops, ans, k);
    AfterValid(s0, ops, ans, k);
    assert !Caught(s0, ops, ans, k);
    StepKeepsRooted(before, ops[k], ans(k), s0.used);
    HarmlessSpare(ApplyStep(before, ops[k], ans(k)).0.nodes, applied, undo, 0, s0.used);
  }

  /** What a caller can check: a step that moves an existing node names a parent whose id had been
      issued before the transaction. */
  predicate TargetsIssued(s0: Store, ops: seq<TxnOp>) {
    forall i :: 0 <= i < |ops| ==> TargetIssued(s0, ops[i])
  }

  predicate TargetIssued(s0: Store, op: TxnOp) {
    ParseKind(op.op) == Some(Move) && op.nodeId.Some? && op.newParentId.Some? && op.nodeId.value in s0.used ==>
      op.newParentId.value in s0.used
  }

  /** Then the rollback destroys no node that existed before the first step and is still there when
      it starts, whatever pre-reads fail and however the inverses are answered. */
  lemma RollbackSpares(s0: Store, ops: seq<TxnOp>, ans: nat -> Answers, undo: nat -> Answers, k: nat)
    requires ValidStore(s0) && k < |ops| && After(s0, ops, ans, k).Some?
    requires TargetsIssued(s0, ops)
    ensures var partial := ApplyStep(After(s0, ops, ans, k).value.0, ops[k], ans(k)).0;
            forall x :: x in s0.nodes && x in partial.nodes ==> x in Reverted(s0, ops, ans, undo, k)
  {
    hide ApplyStep;
    hide Reverted;
    hide After;
    UncaughtSpares(s0, ops, ans, undo, k);
  }

  // ---------------------------------------------------------------------
  // Exactly when an older node can be destroyed
  // ---------------------------------------------------------------------

  /** In this run step k fails and the rollback destroys a node that existed before the run. */
  ghost predicate Destroys(s0: Store, ops: seq<TxnOp>, ans: nat -> Answers, undo: nat -> Answers, k: nat) {
    && k < |ops| && After(s0, ops, ans, k).Some?
    && var (partial, result) := ApplyStep(After(s0, ops, ans, k).value.0, ops[k], ans(k));
       result.StepFailed? && exists x :: x in s0.nodes && x in partial.nodes && x !in Reverted(s0, ops, ans, undo, k)
  }

  lemma OneAbove(nodes: Nodes, x: Id, c: Id)
    requires x in nodes && c in nodes && nodes[x].parent == Some(c)
    ensures x !in Cascade(nodes, c)
  {
    assert Climbs(nodes, c, c, 0);
    assert Climbs(nodes, x, c, 1);
    assert x in nodes.Keys;
    assert |nodes.Keys| > 0;
    assert Under(nodes, x, c);
  }

  /** A refused inverse changes nothing. */
  lemma RefusedKeeps(nodes: Nodes, inv: Inverse, u: Answers)
    requires u.first.Refused? && u.second.Refused?
    ensures RunInverse(nodes, inv, u).0 == nodes
  {
  }

  lemma {:induction false} RollbackShrinks(nodes: Nodes, applied: seq<Inverse>, undo: nat -> Answers, j: nat, x: Id)
    requires x !in nodes
    ensures x !in Rollback(nodes, applied, undo, j)
    decreases |applied|
  {
    if applied != [] {
      var last := |applied| - 1;
      InverseAddsNothing(nodes, applied[last], undo(j));
      hide RunInverse;
      RollbackShrinks(RunInverse(nodes, applied[last], undo(j)).0, applied[..last], undo, j + 1, x);
    }
  }

  lemma InverseAddsNothing(nodes: Nodes, inv: Inverse, u: Answers)
    ensures RunInverse(nodes, inv, u).0.Keys <= nodes.Keys
  {
    match inv
    case DeleteCreated(c) => CascadeShrinks(nodes, c);
    case RestoreEdit(id, name, note) => EditKeepsParents(nodes, id, name, note, u);
    case UnMove(_, _, _) =>
    case RestoreCompletion(_, _) =>
  }

  /** A node the run created has the deletion of it on the stack. */
  lemma {:induction false} CreatedOnStack(s0: Store, ops: seq<TxnOp>, ans: nat -> Answers, k: nat, c: Id)
    requires ValidStore(s0) && k <= |ops| && After(s0, ops, ans, k).Some?
    requires c in After(s0, ops, ans, k).value.0.nodes && c !in s0.used
    ensures DeleteCreated(c) in After(s0, ops, ans, k).value.1
  {
    if k > 0 {
      var (before, applied) := After(s0, ops, ans, k - 1).value;
      if c in before.nodes {
        CreatedOnStack(s0, ops, ans, k - 1, c);
        hide ApplyStep;
      } else {
        OnlyCreateAdds(before, ops[k - 1], ans(k - 1), c);
        hide ApplyStep;
      }
    }
  }

  lemma OnlyCreateAdds(s: Store, op: TxnOp, a: Answers, c: Id)
    requires ApplyStep(s, op, a).1.Stepped? && c in ApplyStep(s, op, a).0.nodes && c !in s.nodes
    ensures ApplyStep(s, op, a).1.inverse == Some(DeleteCreated(c))
  {
    match ParseKind(op.op)
    case Some(Create) =>
    case Some(Edit) => EditKeepsParents(s.nodes, op.nodeId.value, op.name, op.note, a);
    case Some(Delete) => CascadeShrinks(s.nodes, op.nodeId.value);
    case Some(Move) =>
    case Some(kind) =>
  }

  /** All inverses are refused until the one that deletes c is acknowledged. */
  lemma {:induction false} RollbackReaches(nodes: Nodes, applied: seq<Inverse>, undo: nat -> Answers, j: nat, p: nat,
                                           c: Id, x: Id)
    requires p < |applied| && applied[p] == DeleteCreated(c)
    requires c in nodes && x in nodes && nodes[x].parent == Some(c)
    requires forall i: nat :: j <= i < j + |applied| - 1 - p ==> undo(i).first.Refused? && undo(i).second.Refused?
    requires undo(j + |applied| - 1 - p).first.Acked?
    ensures x !in Rollback(nodes, applied, undo, j)
    decreases |applied|
  {
    var last := |applied| - 1;
    hide Rollback;
    assert Rollback(nodes, applied, undo, j)
           == Rollback(RunInverse(nodes, applied[last], undo(j)).0, applied[..last], undo, j + 1) by {
      RollbackOnce(nodes, applied, undo, j);
    }
    if p == last {
      OneAbove(nodes, x, c);
      hide Cascade;
      RollbackShrinks(Cascade(nodes, c), applied[..last], undo, j + 1, x);
    } else {
      RefusedKeeps(nodes, applied[last], undo(j));
      hide RunInverse;
      RollbackReaches(nodes, applied[..last], undo, j + 1, p, c, x);
    }
  }

  lemma RollbackOnce(nodes: Nodes, applied: seq<Inverse>, undo: nat -> Answers, j: nat)
    requires applied != []
    ensures Rollback(nodes, applied, undo, j)
            == Rollback(RunInverse(nodes, applied[|applied| - 1], undo(j)).0, applied[..|applied| - 1], undo, j + 1)
  {
    hide RunInverse;
  }

  /** The same answers, except that step k lands although it is reported as failed. */
  function LostAt(ans: nat -> Answers, k: nat): nat -> Answers {
    (i: nat) => if i == k then ans(i).(first := Lost) else ans(i)
  }

  /** A rollback in which only the reply at position p is not a refusal. */
  function OnlyAt(p: nat, a: Answers): nat -> Answers {
    (i: nat) => if i == p then a.(first := Acked) else a.(first := Refused, second := Refused)
  }

  lemma {:induction false} SameBefore(s0: Store, ops: seq<TxnOp>, ans: nat -> Answers, k: nat, i: nat)
    requires i <= k && k <= |ops|
    ensures After(s0, ops, LostAt(ans, k), i) == After(s0, ops, ans, i)
  {
    hide ApplyStep;
    if i > 0 {
      SameBefore(s0, ops, ans, k, i - 1);
    }
  }

  lemma LostMoveLands(s: Store, op: TxnOp, a: Answers, used: set<Id>)
    requires Catches(s.nodes, used, op) && a.first.Lost?
    ensures var (partial, result) := ApplyStep(s, op, a);
            && result.StepFailed? && op.nodeId.value in partial.nodes && op.newParentId.value in partial.nodes
            && partial.nodes[op.nodeId.value].parent == op.newParentId
  {
    hide ParseKind;
  }

  /** A run that catches an older node can go on to destroy it: the move lands but is reported as
      failed, so it has no inverse, and of the inverses only the deletion of the new parent is let
      through. */
  lemma CaughtDestroys(s0: Store, ops: seq<TxnOp>, ans: nat -> Answers, i: nat)
    requires ValidStore(s0) && Caught(s0, ops, ans, i)
    ensures exists undo :: Destroys(s0, ops, LostAt(ans, i), undo, i)
  {
    var lost := LostAt(ans, i);
    var (before, applied) := After(s0, ops, ans, i).value;
    var x, c := ops[i].nodeId.value, ops[i].newParentId.value;
    SameBefore(s0, ops, ans, i, i);
    CreatedOnStack(s0, ops, ans, i, c);
    OldStays(s0, ops, ans, i, x);
    LostMoveLands(before, ops[i], lost(i), s0.used);
    var p :| 0 <= p < |applied| && applied[p] == DeleteCreated(c);
    var undo := OnlyAt(|applied| - 1 - p, ans(i));
    hide ApplyStep;
    hide Catches;
    hide Rollback;
    RollbackReaches(ApplyStep(before, ops[i], lost(i)).0.nodes, applied, undo, 0, p, c, x);
    assert Destroys(s0, ops, lost, undo, i);
  }

  /** A node of an issued id was there from the start. */
  lemma {:induction false} OldStays(s0: Store, ops: seq<TxnOp>, ans: nat -> Answers, k: nat, x: Id)
    requires ValidStore(s0) && k <= |ops| && After(s0, ops, ans, k).Some?
    requires x in After(s0, ops, ans, k).value.0.nodes && x in s0.used
    ensures x in s0.nodes
  {
    if k > 0 {
      var before := After(s0, ops, ans, k - 1).value.0;
      AfterValid(s0, ops, ans, k - 1);
      if x !in before.nodes {
        OnlyCreateAdds(before, ops[k - 1], ans(k - 1), x);
        CreateIsFresh(before, ops[k - 1], ans(k - 1), x);
      }
      hide ApplyStep;
      OldStays(s0, ops, ans, k - 1, x);
    }
  }

  lemma CreateIsFresh(s: Store, op: TxnOp, a: Answers, c: Id)
    requires ApplyStep(s, op, a).1 == Stepped(Some(DeleteCreated(c)))
    ensures c !in s.used
  {
  }

  // ---------------------------------------------------------------------
  // Only the ids issued matter
  // ---------------------------------------------------------------------

  /** Everything succeeds; what is left to the server are the ids it issues. */
  function Plain(newId: Id): Answers {
    Answers(true, Acked, Acked, newId, None, true)
  }

  function Issuing(ids: seq<Id>): nat -> Answers {
    (i: nat) => Plain(if i < |ids| then ids[i] else WORKSPACE)
  }

  ghost predicate SameShape(s: Store, t: Store) {
    s.used == t.used && s.nodes.Keys == t.nodes.Keys && SameParents(s.nodes, t.nodes)
  }

  lemma UnderSame(s: Store, t: Store, x: Id, a: Id)
    requires SameShape(s, t)
    ensures Under(s.nodes, x, a) <==> Under(t.nodes, x, a)
  {
    assert |s.nodes| == |s.nodes.Keys| && |t.nodes| == |t.nodes.Keys|;
    forall k | 0 <= k <= |s.nodes| ensures Climbs(s.nodes, x, a, k) <==> Climbs(t.nodes, x, a, k) {
      if Climbs(s.nodes, x, a, k) {
        ClimbsLess(s.nodes, t.nodes, x, a, k);
      }
      if Climbs(t.nodes, x, a, k) {
        ClimbsLess(t.nodes, s.nodes, x, a, k);
      }
    }
  }

  lemma CascadeSame(s: Store, t: Store, a: Id)
    requires SameShape(s, t)
    ensures Cascade(s.nodes, a).Keys == Cascade(t.nodes, a).Keys
    ensures SameParents(Cascade(s.nodes, a), Cascade(t.nodes, a))
  {
    hide Under;
    forall x ensures Under(s.nodes, x, a) <==> Under(t.nodes, x, a) {
      UnderSame(s, t, x, a);
    }
  }

  /** A step that succeeds changes the outline's shape as it would with every reply favourable. */
  lemma PlainStep(s: Store, t: Store, op: TxnOp, a: Answers)
    requires SameShape(s, t) && ApplyStep(s, op, a).1.Stepped?
    ensures ApplyStep(t, op, Plain(a.newId)).1.Stepped?
    ensures SameShape(ApplyStep(s, op, a).0, ApplyStep(t, op, Plain(a.newId)).0)
  {
    hide Cascade;
    hide Under;
    match ParseKind(op.op)
    case Some(Create) =>
      PlainCreate(s, t, op, a);
      hide ApplyCreate;
    case Some(Edit) =>
      PlainEdit(s, t, op, a);
      hide EditNode;
    case Some(Delete) => CascadeSame(s, t, op.nodeId.value);
    case Some(Move) => UnderSame(s, t, op.newParentId.value, op.nodeId.value);
    case Some(kind) =>
  }

  lemma PlainCreate(s: Store, t: Store, op: TxnOp, a: Answers)
    requires SameShape(s, t) && op.name.Some? && ApplyCreate(s, op, a).1.Stepped?
    ensures ApplyCreate(t, op, Plain(a.newId)).1.Stepped?
    ensures SameShape(ApplyCreate(s, op, a).0, ApplyCreate(t, op, Plain(a.newId)).0)
  {
  }

  lemma PlainEdit(s: Store, t: Store, op: TxnOp, a: Answers)
    requires SameShape(s, t) && op.nodeId.Some? && EditNode(s.nodes, op.nodeId.value, op.name, op.note, a).1
    ensures var id, u := op.nodeId.value, Plain(a.newId);
            && EditNode(t.nodes, id, op.name, op.note, u).1
            && SameShape(Store(EditNode(s.nodes, id, op.name, op.note, a).0, s.used),
                         Store(EditNode(t.nodes, id, op.name, op.note, u).0, t.used))
  {
    EditKeepsParents(s.nodes, op.nodeId.value, op.name, op.note, a);
    EditKeepsParents(t.nodes, op.nodeId.value, op.name, op.note, Plain(a.newId));
  }

  function Issued(ans: nat -> Answers, n: nat): seq<Id> {
    seq(n, (i: nat) => ans(i).newId)
  }

  lemma {:induction false} PlainAfter(s0: Store, ops: seq<TxnOp>, ans: nat -> Answers, k: nat)
    requires k <= |ops| && After(s0, ops, ans, k).Some?
    ensures var plain := Issuing(Issued(ans, |ops|));
            After(s0, ops, plain, k).Some?
            && SameShape(After(s0, ops, ans, k).value.0, After(s0, ops, plain, k).value.0)
  {
    hide ApplyStep;
    if k > 0 {
      var plain := Issuing(Issued(ans, |ops|));
      PlainAfter(s0, ops, ans, k - 1);
      assert plain(k - 1) == Plain(ans(k - 1).newId);
      hide SameShape;
      PlainStep(After(s0, ops, ans, k - 1).value.0, After(s0, ops, plain, k - 1).value.0, ops[k - 1], ans(k - 1));
    }
  }

  lemma PlainCaught(s0: Store, ops: seq<TxnOp>, ans: nat -> Answers, i: nat)
    requires Caught(s0, ops, ans, i)
    ensures Caught(s0, ops, Issuing(Issued(ans, |ops|)), i)
  {
    hide ApplyStep;
    hide After;
    hide Under;
    hide ParseKind;
    PlainAfter(s0, ops, ans, i);
    UnderSame(After(s0, ops, ans, i).value.0, After(s0, ops, Issuing(Issued(ans, |ops|)), i).value.0,
              ops[i].newParentId.value, ops[i].nodeId.value);
  }

  /** Some server behaviour makes the rollback destroy an older node exactly when, for some choice of
      the ids it issues, the steps themselves, all succeeding, move an older node under one the run
      created. That needs a step that names, as the parent of a move, an id not issued before the run. */
  lemma DestroysExactly(s0: Store, ops: seq<TxnOp>)
    requires ValidStore(s0)
    ensures (exists ans, undo, k :: Destroys(s0, ops, ans, undo, k))
            <==> (exists ids, i :: |ids| == |ops| && Caught(s0, ops, Issuing(ids), i))
    ensures (exists ids, i :: Caught(s0, ops, Issuing(ids), i)) ==> !TargetsIssued(s0, ops)
  {
    hide Caught;
    hide Issuing;
    hide Issued;
    if ans, undo, k :| Destroys(s0, ops, ans, undo, k) {
      hide Destroys;
      DestroyedWasCaught(s0, ops, ans, undo, k);
      var i: nat :| Caught(s0, ops, ans, i);
      PlainCaught(s0, ops, ans, i);
      IssuedLength(ans, |ops|);
    }
    if ids, i :| Caught(s0, ops, Issuing(ids), i) {
      hide TargetsIssued;
      CaughtUnissued(s0, ops, Issuing(ids), i);
      CaughtDestroys(s0, ops, Issuing(ids), i);
    }
  }

  lemma IssuedLength(ans: nat -> Answers, n: nat)
    ensures |Issued(ans, n)| == n
  {
  }

  /** The guard is not idle: create a node, then move an existing one under an id not issued yet. If
      that is the id the server issues, the older node is caught. */
  lemma CreateThenMoveCaught(s0: Store, ops: seq<TxnOp>, a: Answers)
    requires ValidStore(s0) && |ops| >= 2
    requires ParseKind(ops[0].op) == Some(Create) && ops[0].name.Some?
    requires ops[0].parentId.Some? ==> ops[0].parentId.value in s0.nodes
    requires ops[0].parentId.Some? && ops[1].nodeId.Some? ==> !Under(s0.nodes, ops[0].parentId.value, ops[1].nodeId.value)
    requires ParseKind(ops[1].op) == Some(Move) && ops[1].nodeId.Some? && ops[1].nodeId.value in s0.nodes
    requires !TargetIssued(s0, ops[1])
    ensures exists ans :: Caught(s0, ops, ans, 1)
  {
    hide ParseKind;
    var c := ops[1].newParentId.value;
    var ans := Always(a.(first := Acked, newId := c));
    assert After(s0, ops, ans, 0) == Some((s0, []));
    var (after, result) := ApplyStep(s0, ops[0], ans(0));
    assert result.Stepped? && c in after.nodes && ops[1].nodeId.value in after.nodes;
    assert After(s0, ops, ans, 1) == Some((after, Push([], result.inverse)));
    NewNotUnder(s0, ops[0], ans(0), ops[1].nodeId.value);
    assert Caught(s0, ops, ans, 1);
  }

  /** A new node is below what its parent is below. */
  lemma NewNotUnder(s: Store, op: TxnOp, a: Answers, x: Id)
    requires ValidStore(s) && op.name.Some? && ApplyCreate(s, op, a).1.Stepped? && x != a.newId
    requires op.parentId.Some? ==> !Under(s.nodes, op.parentId.value, x)
    ensures !Under(ApplyCreate(s, op, a).0.nodes, a.newId, x)
  {
    var nodes, c := ApplyCreate(s, op, a).0.nodes, a.newId;
    assert nodes.Keys == s.nodes.Keys + {c};
    assert |nodes.Keys| == |nodes| && |s.nodes.Keys| == |s.nodes|;
    forall k | 0 <= k <= |nodes| ensures !Climbs(nodes, c, x, k) {
      if k > 0 && op.parentId.Some? {
        NotReached(s, op.parentId.value, c);
        ClimbsSame(s.nodes, nodes, c, op.parentId.value, x, k - 1);
      }
    }
  }

  lemma CaughtUnissued(s0: Store, ops: seq<TxnOp>, ans: nat -> Answers, i: nat)
    requires Caught(s0, ops, ans, i)
    ensures !TargetsIssued(s0, ops)
  {
  }

  lemma DestroyedWasCaught(s0: Store, ops: seq<TxnOp>, ans: nat -> Answers, undo: nat -> Answers, k: nat)
    requires ValidStore(s0) && Destroys(s0, ops, ans, undo, k)
    ensures exists i: nat :: Caught(s0, ops, ans, i)
  {
    hide Caught;
    hide ApplyStep;
    hide After;
    hide Reverted;
    if forall i: nat :: i <= k ==> !Caught(s0, ops, ans, i) {
      UncaughtSpares(s0, ops, ans, undo, k);
    }
  }

  // ---------------------------------------------------------------------
  // Runs that do catch: move-backs
  // ---------------------------------------------------------------------

  /** Every move on the stack is moved back, and the server acknowledges it. */
  predicate MoveBacksLand(nodes: Nodes, applied: seq<Inverse>, undo: nat -> Answers, j: nat)
    decreases |applied|
  {
    applied != [] ==>
      var last := |applied| - 1;
      var (undone, ok) := RunInverse(nodes, applied[last], undo(j));
      && (applied[last].UnMove? ==> applied[last].prevParent.Some? && ok)
      && MoveBacksLand(undone, applied[..last], undo, j + 1)
  }

  /** Of the ids issued by the time of s, those still present were present then and hang
      where they hung then. */
  ghost predicate Tracks(nodes: Nodes, s: Store) {
    forall x :: x in nodes && x in s.used ==> x in s.nodes && nodes[x].parent == s.nodes[x].parent
  }

  /** Nothing that existed before c was created has climbed under c. */
  lemma {:induction false} NotUnderNewer(nodes: Nodes, s: Store, x: Id, c: Id, k: nat)
    requires ValidStore(s) && Tracks(nodes, s) && x in s.used && c !in s.used
    ensures !Climbs(nodes, x, c, k)
    decreases k
  {
    if k > 0 && x in nodes && nodes[x].parent.Some? {
      NotUnderNewer(nodes, s, nodes[x].parent.value, c, k - 1);
    }
  }

  lemma CascadeSpares(nodes: Nodes, s: Store, c: Id)
    requires ValidStore(s) && Tracks(nodes, s) && c !in s.used
    ensures forall x :: x in s.used && x in nodes ==> x in Cascade(nodes, c)
  {
    forall x | x in s.used && x in nodes ensures x in Cascade(nodes, c) {
      forall k: nat ensures !Climbs(nodes, x, c, k) {
        NotUnderNewer(nodes, s, x, c, k);
      }
    }
  }

  /** Undoing the last step of a run brings its parents back to the store before the step and
      spares every node whose id had been issued by then. */
  lemma UndoSpares(before: Store, op: TxnOp, a: Answers, nodes: Nodes, u: Answers)
    requires ValidStore(before) && ApplyStep(before, op, a).1.Stepped?
    requires Tracks(nodes, ApplyStep(before, op, a).0)
    requires var inv := ApplyStep(before, op, a).1.inverse;
             inv.Some? && inv.value.UnMove? ==> inv.value.prevParent.Some? && RunInverse(nodes, inv.value, u).1
    ensures var undone := UndoStep(nodes, ApplyStep(before, op, a).1.inverse, u);
            Tracks(undone, before) && forall x :: x in before.used && x in nodes ==> x in undone
  {
    match ParseKind(op.op)
    case Some(Create) => UndoCreateSpares(before, op, a, nodes, u);
    case Some(Edit) =>
      EditKeepsParents(before.nodes, op.nodeId.value, op.name, op.note, a);
      var inv := ApplyStep(before, op, a).1.inverse;
      if inv.Some? {
        EditKeepsParents(nodes, inv.value.nodeId, inv.value.prevName, inv.value.prevNote, u);
      }
    case Some(Delete) => CascadeShrinks(before.nodes, op.nodeId.value);
    case Some(Move) =>
    case Some(kind) =>
  }

  lemma UndoCreateSpares(before: Store, op: TxnOp, a: Answers, nodes: Nodes, u: Answers)
    requires ValidStore(before) && op.name.Some? && ApplyCreate(before, op, a).1.Stepped?
    requires Tracks(nodes, ApplyCreate(before, op, a).0)
    ensures var undone := UndoStep(nodes, ApplyCreate(before, op, a).1.inverse, u);
            Tracks(undone, before) && forall x :: x in before.used && x in nodes ==> x in undone
  {
    assert Tracks(nodes, before);
    CascadeSpares(nodes, before, a.newId);
    CascadeShrinks(nodes, a.newId);
  }

  /** As long as every move-back is performed and lands, rolling back k steps destroys no node
      that existed before the first step and is still there when the rollback begins. */
  lemma {:induction false} MoveBacksSpare(s0: Store, ops: seq<TxnOp>, ans: nat -> Answers, undo: nat -> Answers,
                                          k: nat, nodes: Nodes, j: nat)
    requires ValidStore(s0) && k <= |ops| && After(s0, ops, ans, k).Some?
    requires Tracks(nodes, After(s0, ops, ans, k).value.0)
    requires MoveBacksLand(nodes, After(s0, ops, ans, k).value.1, undo, j)
    ensures forall x :: x in s0.nodes && x in nodes ==>
              x in Rollback(nodes, After(s0, ops, ans, k).value.1, undo, j)
    decreases k
  {
    hide ApplyStep;
    hide RunInverse;
    hide Tracks;
    if k > 0 {
      var (before, applied) := After(s0, ops, ans, k - 1).value;
      var (after, result) := ApplyStep(before, ops[k - 1], ans(k - 1));
      AfterValid(s0, ops, ans, k - 1);
      if result.inverse.Some? {
        assert Push(applied, result.inverse)[..|applied|] == applied;
        UndoSpares(before, ops[k - 1], ans(k - 1), nodes, undo(j));
        MoveBacksSpare(s0, ops, ans, undo, k - 1, UndoStep(nodes, result.inverse, undo(j)), j + 1);
      } else {
        UndoSpares(before, ops[k - 1], ans(k - 1), nodes, undo(j));
        MoveBacksSpare(s0, ops, ans, undo, k - 1, nodes, j);
      }
    }
  }
}
