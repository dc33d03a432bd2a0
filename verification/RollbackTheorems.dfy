/** What undoing transaction steps restores, and precisely when. */
module RollbackTheorems {
  import opened Sequences
  import opened Outlines
  import opened Transactions
  import opened Hierarchies

  // ---------------------------------------------------------------------
  // One step and its inverse
  // ---------------------------------------------------------------------

  /** Both writes acknowledged. */
  predicate AllAcked(a: Answers) {
    a.first.Acked? && a.second.Acked?
  }

  function UndoStep(nodes: Nodes, inverse: Option<Inverse>, u: Answers): Nodes {
    match inverse
    case Some(inv) => RunInverse(nodes, inv, u).0
    case None => nodes
  }

  /** What decides, before the step is taken, whether its inverse will restore the outline.
      An edit must not write a note where there was none; a move needs a parent and a 32-bit
      priority to go back to (or the server choosing to place it without one); a step whose
      pre-read fails must change nothing. A delete never qualifies. */
  predicate Restorable(nodes: Nodes, op: TxnOp, a: Answers, u: Answers) {
    match ParseKind(op.op)
    case None => true
    case Some(Create) => true
    case Some(Delete) => false
    case Some(Edit) =>
      op.nodeId.Some? && op.nodeId.value in nodes
      && var n := nodes[op.nodeId.value];
         if a.preRead then op.note.Some? ==> n.note.Some?
         else (op.name.Some? ==> op.name.value == n.name) && (op.note.Some? ==> op.note == n.note)
    case Some(Move) =>
      op.nodeId.Some? && op.nodeId.value in nodes
      && var n := nodes[op.nodeId.value];
         if a.preRead && n.parent.Some? then
           if n.priority.Some? then -2147483648 <= n.priority.value < 2147483648 else u.placed.None?
         else n.parent == op.newParentId && n.priority == (if op.priority.Some? then op.priority else a.placed)
    case Some(kind) =>
      op.nodeId.Some? && op.nodeId.value in nodes
      && (a.preRead || nodes[op.nodeId.value].completed == kind.Complete?)
  }

  lemma LeafCascade(nodes: Nodes, c: Id)
    requires c in nodes && forall x :: x in nodes ==> nodes[x].parent != Some(c)
    ensures Cascade(nodes, c) == map x | x in nodes && x != c :: nodes[x]
  {
    forall x, k: nat | x in nodes && Climbs(nodes, x, c, k) ensures x == c {
      LeafUnclimbed(nodes, x, c, k);
    }
    assert Climbs(nodes, c, c, 0);
  }

  lemma {:induction false} LeafUnclimbed(nodes: Nodes, x: Id, c: Id, k: nat)
    requires forall y :: y in nodes ==> nodes[y].parent != Some(c)
    requires Climbs(nodes, x, c, k)
    ensures k == 0 && x == c
    decreases k
  {
    if k > 0 {
      LeafUnclimbed(nodes, nodes[x].parent.value, c, k - 1);
    }
  }

  lemma CreateUndone(s: Store, op: TxnOp, a: Answers, u: Answers)
    requires ValidStore(s) && AllAcked(u) && op.name.Some?
    requires ApplyCreate(s, op, a).1.Stepped?
    ensures UndoStep(ApplyCreate(s, op, a).0.nodes, ApplyCreate(s, op, a).1.inverse, u) == s.nodes
  {
    var nodes := ApplyCreate(s, op, a).0.nodes;
    LeafCascade(nodes, a.newId);
    assert (map x | x in nodes && x != a.newId :: nodes[x]) == s.nodes;
  }

  /** The inverse of a step that succeeded restores the outline exactly when the step was
      restorable. */
  lemma StepUndoExact(s: Store, op: TxnOp, a: Answers, u: Answers)
    requires ValidStore(s) && Hierarchy(s.nodes) && AllAcked(u)
    requires ApplyStep(s, op, a).1.Stepped?
    ensures var (after, result) := ApplyStep(s, op, a);
            UndoStep(after.nodes, result.inverse, u) == s.nodes <==> Restorable(s.nodes, op, a, u)
  {
    match ParseKind(op.op)
    case Some(Create) => CreateUndone(s, op, a, u);
    case Some(Edit) => EditUndone(s, op, a, u);
    case Some(Delete) => DeleteKept(s, op, a, u);
    case Some(Move) => MoveUndone(s, op, a, u);
    case Some(kind) => CompletionUndone(s, op, a, u);
  }

  lemma EditUndone(s: Store, op: TxnOp, a: Answers, u: Answers)
    requires ValidStore(s) && AllAcked(u) && ParseKind(op.op) == Some(Edit)
    requires ApplyStep(s, op, a).1.Stepped?
    ensures var (after, result) := ApplyStep(s, op, a);
            UndoStep(after.nodes, result.inverse, u) == s.nodes <==> Restorable(s.nodes, op, a, u)
  {
    var id := op.nodeId.value;
    var n := s.nodes[id];
    var (after, result) := ApplyStep(s, op, a);
    var edited := n.(name := if op.name.Some? then op.name.value else n.name,
                     note := if op.note.Some? then op.note else n.note);
    assert after.nodes == s.nodes[id := edited];
    var undone := UndoStep(after.nodes, result.inverse, u);
    if a.preRead {
      var back := n.(note := if n.note.Some? then n.note else edited.note);
      assert undone == s.nodes[id := back];
    }
    SameAt(s.nodes, undone, id);
  }

  /** Outlines that agree off one id are equal exactly when they agree there too. */
  lemma SameAt(a: Nodes, b: Nodes, id: Id)
    requires id in a && id in b && b == a[id := b[id]]
    ensures a == b <==> a[id] == b[id]
  {
    if a[id] == b[id] {
      assert a[id := b[id]] == a;
    }
  }

  lemma DeleteKept(s: Store, op: TxnOp, a: Answers, u: Answers)
    requires ParseKind(op.op) == Some(Delete) && ApplyStep(s, op, a).1.Stepped?
    ensures var (after, result) := ApplyStep(s, op, a);
            UndoStep(after.nodes, result.inverse, u) != s.nodes
  {
    var id := op.nodeId.value;
    assert Climbs(s.nodes, id, id, 0);
    assert Under(s.nodes, id, id);
    assert id !in Cascade(s.nodes, id);
  }

  /** After a move the old parent is still not below the moved node. */
  lemma WayBack(before: Nodes, after: Nodes, id: Id)
    requires Hierarchy(before) && id in before && before[id].parent.Some? && AgreeOff(before, after, id)
    ensures before[id].parent.value in before && before[id].parent.value != id
    ensures !Under(after, before[id].parent.value, id)
  {
    var p := before[id].parent.value;
    assert !Reaches(before, p, id);
    assert !Climbs(before, p, id, 0);
    ReachesSame(before, after, id, p, id);
  }

  /** Narrowing keeps exactly the 32-bit integers. */
  lemma NarrowIs(p: int)
    ensures -2147483648 <= AsI32(p) < 2147483648 && (AsI32(p) - p) % 4294967296 == 0
    ensures AsI32(p) == p <==> -2147483648 <= p < 2147483648
  {
  }

  lemma MoveUndone(s: Store, op: TxnOp, a: Answers, u: Answers)
    requires ValidStore(s) && Hierarchy(s.nodes) && AllAcked(u) && ParseKind(op.op) == Some(Move)
    requires ApplyStep(s, op, a).1.Stepped?
    ensures var (after, result) := ApplyStep(s, op, a);
            UndoStep(after.nodes, result.inverse, u) == s.nodes <==> Restorable(s.nodes, op, a, u)
  {
    hide AsI32;
    hide Under;
    hide ParseKind;
    var id := op.nodeId.value;
    var n := s.nodes[id];
    if n.priority.Some? {
      NarrowIs(n.priority.value);
    }
    var (after, result) := ApplyStep(s, op, a);
    var moved := n.(parent := op.newParentId, priority := if op.priority.Some? then op.priority else a.placed);
    assert after.nodes == s.nodes[id := moved];
    var undone := UndoStep(after.nodes, result.inverse, u);
    if a.preRead && n.parent.Some? {
      WayBack(s.nodes, after.nodes, id);
      var p := NarrowPriority(n.priority);
      var back := n.(priority := if p.Some? then p else u.placed);
      assert undone == s.nodes[id := back];
    }
    SameAt(s.nodes, undone, id);
  }

  lemma CompletionUndone(s: Store, op: TxnOp, a: Answers, u: Answers)
    requires AllAcked(u) && ParseKind(op.op) in {Some(Complete), Some(Uncomplete)}
    requires ApplyStep(s, op, a).1.Stepped?
    ensures var (after, result) := ApplyStep(s, op, a);
            UndoStep(after.nodes, result.inverse, u) == s.nodes <==> Restorable(s.nodes, op, a, u)
  {
    var id := op.nodeId.value;
    var n := s.nodes[id];
    var (after, result) := ApplyStep(s, op, a);
    assert after.nodes == s.nodes[id := n.(completed := ParseKind(op.op).value.Complete?)];
    var undone := UndoStep(after.nodes, result.inverse, u);
    if a.preRead {
      assert undone == s.nodes[id := n];
    }
    SameAt(s.nodes, undone, id);
  }

  // ---------------------------------------------------------------------
  // Whole runs: a failed transaction leaves no trace
  // ---------------------------------------------------------------------

  /** The step's hypotheses in the caller's terms: it is no delete, its pre-read succeeds, it
      puts no note where there was none, and a moved node has a parent and a 32-bit priority. */
  predicate Safe(nodes: Nodes, op: TxnOp, a: Answers) {
    match ParseKind(op.op)
    case None => true
    case Some(Create) => true
    case Some(Delete) => false
    case Some(kind) =>
      op.nodeId.Some? && op.nodeId.value in nodes && a.preRead
      && var n := nodes[op.nodeId.value];
         && (kind.Edit? && op.note.Some? ==> n.note.Some?)
         && (kind.Move? ==> n.parent.Some? && n.priority.Some? && -2147483648 <= n.priority.value < 2147483648)
  }

  lemma SafeRestorable(nodes: Nodes, op: TxnOp, a: Answers, u: Answers)
    requires Safe(nodes, op, a)
    ensures Restorable(nodes, op, a, u)
    ensures ParseKind(op.op) != Some(Delete)
  {
  }

  /** Each of the first k steps is restorable where it is taken, given the replies that its own
      inverse will meet when the rollback starts at reply j. */
  ghost predicate AllRestorable(s0: Store, ops: seq<TxnOp>, ans: nat -> Answers, undo: nat -> Answers, k: nat, j: nat)
    requires k <= |ops|
    decreases k
  {
    k > 0 ==>
      && After(s0, ops, ans, k - 1).Some?
      && var before := After(s0, ops, ans, k - 1).value.0;
         && Restorable(before.nodes, ops[k - 1], ans(k - 1), undo(j))
         && AllRestorable(s0, ops, ans, undo, k - 1,
                          if ApplyStep(before, ops[k - 1], ans(k - 1)).1 == Stepped(None) then j else j + 1)
  }

  ghost predicate AllSafe(s0: Store, ops: seq<TxnOp>, ans: nat -> Answers, k: nat)
    requires k <= |ops|
  {
    k > 0 ==>
      && AllSafe(s0, ops, ans, k - 1)
      && After(s0, ops, ans, k - 1).Some?
      && Safe(After(s0, ops, ans, k - 1).value.0.nodes, ops[k - 1], ans(k - 1))
  }

  /** What a caller can check makes every step restorable, whatever the inverses will meet. */
  lemma {:induction false} SafeAllRestorable(s0: Store, ops: seq<TxnOp>, ans: nat -> Answers, undo: nat -> Answers,
                                             k: nat, j: nat)
    requires k <= |ops| && AllSafe(s0, ops, ans, k)
    ensures AllRestorable(s0, ops, ans, undo, k, j)
    decreases k
  {
    hide Safe;
    hide Restorable;
    hide ApplyStep;
    if k > 0 {
      var before := After(s0, ops, ans, k - 1).value.0;
      SafeRestorable(before.nodes, ops[k - 1], ans(k - 1), undo(j));
      SafeAllRestorable(s0, ops, ans, undo, k - 1,
                        if ApplyStep(before, ops[k - 1], ans(k - 1)).1 == Stepped(None) then j else j + 1);
    }
  }

  /** Undoing k restorable steps with every inverse acknowledged restores the outline. */
  lemma {:induction false} RollbackRestores(s0: Store, ops: seq<TxnOp>, ans: nat -> Answers, undo: nat -> Answers,
                                            k: nat, j: nat)
    requires ValidStore(s0) && Hierarchy(s0.nodes) && k <= |ops| && After(s0, ops, ans, k).Some?
    requires AllRestorable(s0, ops, ans, undo, k, j)
    requires forall u :: AllAcked(undo(u))
    ensures Rollback(After(s0, ops, ans, k).value.0.nodes, After(s0, ops, ans, k).value.1, undo, j) == s0.nodes
    decreases k
  {
    hide ApplyStep;
    hide RunInverse;
    hide Restorable;
    hide Hierarchy;
    hide ValidStore;
    if k > 0 {
      var (before, applied) := After(s0, ops, ans, k - 1).value;
      var (after, result) := ApplyStep(before, ops[k - 1], ans(k - 1));
      var rest := if result == Stepped(None) then j else j + 1;
      AfterValid(s0, ops, ans, k - 1);
      StepUndoExact(before, ops[k - 1], ans(k - 1), undo(j));
      RollbackRestores(s0, ops, ans, undo, k - 1, rest);
      if result.inverse.Some? {
        assert Push(applied, result.inverse)[..|applied|] == applied;
      }
    }
  }

  /** Restorable steps are enough for a whole run but not needed: a step that is not restorable can
      be masked by the inverse of an earlier one. Here the second edit loses its pre-read and
      pushes no inverse, and the first edit's inverse puts both of its fields back. */
  lemma EarlierInverseMasks(s: Store, first: TxnOp, second: TxnOp, x: Id, c: Id)
    requires ValidStore(s) && x in s.nodes && s.nodes[x].note.Some?
    requires ParseKind(first.op) == Some(Edit) && first.nodeId == Some(x) && first.name.Some? && first.note.None?
    requires ParseKind(second.op) == Some(Edit) && second.nodeId == Some(x) && second.name.None?
    requires second.note.Some? && second.note != s.nodes[x].note
    ensures var yes, blind := Answers(true, Acked, Acked, c, None, true), Answers(false, Acked, Acked, c, None, true);
            var (s1, r1) := ApplyStep(s, first, yes);
            var (s2, r2) := ApplyStep(s1, second, blind);
            && r1.Stepped? && r1.inverse.Some? && r2 == Stepped(None)
            && !Restorable(s1.nodes, second, blind, yes)
            && Rollback(s2.nodes, [r1.inverse.value], Always(yes), 0) == s.nodes
  {
    hide ParseKind;
    var yes, blind := Answers(true, Acked, Acked, c, None, true), Answers(false, Acked, Acked, c, None, true);
    var n := s.nodes[x];
    var (s1, r1) := ApplyStep(s, first, yes);
    var (s2, r2) := ApplyStep(s1, second, blind);
    assert s1.nodes == s.nodes[x := n.(name := first.name.value)];
    assert s2.nodes == s.nodes[x := n.(name := first.name.value, note := second.note)];
    var inv := RestoreEdit(x, Some(n.name), n.note);
    assert RunInverse(s2.nodes, inv, yes).0 == s2.nodes[x := n];
    assert s2.nodes[x := n] == s.nodes;
    OneInverse(s2.nodes, inv, Always(yes));
  }

  lemma OneInverse(nodes: Nodes, inv: Inverse, undo: nat -> Answers)
    ensures Rollback(nodes, [inv], undo, 0) == RunInverse(nodes, inv, undo(0)).0
  {
    hide RunInverse;
    assert [inv][..0] == [];
    assert Rollback(RunInverse(nodes, inv, undo(0)).0, [], undo, 1) == RunInverse(nodes, inv, undo(0)).0;
  }

  /** The server that answers the same each time. */
  function Always(a: Answers): nat -> Answers {
    (i: nat) => a
  }

  // ---------------------------------------------------------------------
  // Failing inputs
  // ---------------------------------------------------------------------

  /** A failing edit of name and note may leave the name changed: the step reports failure, pushes
      no inverse and does not change nothing. */
  lemma HalfEditRemains(s: Store, op: TxnOp, a: Answers)
    requires ParseKind(op.op) == Some(Edit) && op.nodeId.Some? && op.nodeId.value in s.nodes
    requires op.name.Some? && op.note.Some? && a.first.Acked? && !a.second.Acked?
    requires op.name.value != s.nodes[op.nodeId.value].name
    ensures ApplyStep(s, op, a).1.StepFailed? && ApplyStep(s, op, a).0.nodes != s.nodes
  {
    assert ApplyStep(s, op, a).0.nodes[op.nodeId.value].name == op.name.value;
  }

  /** A note put where there was none survives the rollback: the inverse has no way to clear it. */
  lemma NoteNotCleared(s: Store, op: TxnOp, a: Answers, u: Answers)
    requires ValidStore(s) && Hierarchy(s.nodes) && AllAcked(u)
    requires ParseKind(op.op) == Some(Edit) && ApplyStep(s, op, a).1.Stepped?
    requires op.note.Some? && s.nodes[op.nodeId.value].note.None?
    ensures UndoStep(ApplyStep(s, op, a).0.nodes, ApplyStep(s, op, a).1.inverse, u) != s.nodes
  {
    StepUndoExact(s, op, a, u);
  }
}
