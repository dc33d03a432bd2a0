/** The server's outline stays a forest: parents exist and no node is above itself. */
module Hierarchies {
  import opened Sequences
  import opened Outlines
  import opened Transactions

  /** The parent a move-back returns to still exists. */
  ghost predicate ParentsExist(nodes: Nodes) {
    forall x :: x in nodes && nodes[x].parent.Some? ==> nodes[x].parent.value in nodes
  }

  ghost predicate Reaches(nodes: Nodes, x: Id, a: Id) {
    exists k: nat :: Climbs(nodes, x, a, k)
  }

  ghost predicate Acyclic(nodes: Nodes) {
    forall x :: x in nodes && nodes[x].parent.Some? ==> !Reaches(nodes, nodes[x].parent.value, x)
  }

  ghost predicate Hierarchy(nodes: Nodes) {
    ParentsExist(nodes) && Acyclic(nodes)
  }

  // ---------------------------------------------------------------------
  // Climbing
  // ---------------------------------------------------------------------

  lemma {:induction false} ClimbsOn(nodes: Nodes, x: Id, y: Id, z: Id, i: nat, j: nat)
    requires Climbs(nodes, x, y, i)
    ensures Climbs(nodes, x, z, i + j) <==> Climbs(nodes, y, z, j)
    decreases i
  {
    if i > 0 {
      ClimbsOn(nodes, nodes[x].parent.value, y, z, i - 1, j);
    }
  }

  /** The same parents except at c. */
  ghost predicate AgreeOff(a: Nodes, b: Nodes, c: Id) {
    forall x :: x != c ==> (x in a <==> x in b) && (x in a ==> a[x].parent == b[x].parent)
  }

  /** A climb that never meets c does not depend on what is there. */
  lemma {:induction false} ClimbsSame(a: Nodes, b: Nodes, c: Id, x: Id, z: Id, k: nat)
    requires AgreeOff(a, b, c) && !Reaches(a, x, c)
    ensures Climbs(a, x, z, k) <==> Climbs(b, x, z, k)
    decreases k
  {
    assert !Climbs(a, x, c, 0);
    if k > 0 && x in a && a[x].parent.Some? {
      var p := a[x].parent.value;
      if Reaches(a, p, c) {
        var j: nat :| Climbs(a, p, c, j);
        assert Climbs(a, x, c, j + 1);
      }
      ClimbsSame(a, b, c, p, z, k - 1);
    }
  }

  lemma ReachesSame(a: Nodes, b: Nodes, c: Id, x: Id, z: Id)
    requires AgreeOff(a, b, c) && !Reaches(a, x, c)
    ensures Reaches(a, x, z) <==> Reaches(b, x, z)
  {
    forall k: nat ensures Climbs(a, x, z, k) <==> Climbs(b, x, z, k) {
      ClimbsSame(a, b, c, x, z, k);
    }
  }

  lemma {:induction false} ClimbsLess(a: Nodes, b: Nodes, x: Id, z: Id, k: nat)
    requires forall y :: y in a ==> y in b && a[y].parent == b[y].parent
    requires Climbs(a, x, z, k)
    ensures Climbs(b, x, z, k)
    decreases k
  {
    if k > 0 {
      ClimbsLess(a, b, a[x].parent.value, z, k - 1);
    }
  }

  /** Leaving nodes out closes no cycle. */
  lemma AcyclicLess(a: Nodes, b: Nodes)
    requires forall y :: y in a ==> y in b && a[y].parent == b[y].parent
    requires Acyclic(b)
    ensures Acyclic(a)
  {
    forall x | x in a && a[x].parent.Some? ensures !Reaches(a, a[x].parent.value, x) {
      assert !Reaches(b, b[x].parent.value, x);
      forall k: nat ensures !Climbs(a, a[x].parent.value, x, k) {
        if Climbs(a, a[x].parent.value, x, k) {
          ClimbsLess(a, b, a[x].parent.value, x, k);
        }
      }
    }
  }

  /** A climb that never meets c does without it. */
  lemma {:induction false} ClimbsWithout(nodes: Nodes, c: Id, x: Id, a: Id, k: nat)
    requires Climbs(nodes, x, a, k) && forall j: nat :: j < k ==> !Climbs(nodes, x, c, j)
    ensures Climbs(nodes - {c}, x, a, k)
    decreases k
  {
    if k > 0 {
      assert !Climbs(nodes, x, c, 0);
      var p := nodes[x].parent.value;
      forall j: nat | j < k - 1 ensures !Climbs(nodes, p, c, j) {
        assert !Climbs(nodes, x, c, j + 1);
      }
      ClimbsWithout(nodes, c, p, a, k - 1);
    }
  }

  /** The shortest climb meets each node once. */
  lemma {:induction false} ClimbsShort(nodes: Nodes, x: Id, a: Id, k: nat)
    requires Climbs(nodes, x, a, k) && forall j: nat :: j < k ==> !Climbs(nodes, x, a, j)
    ensures k <= |nodes|
    decreases k
  {
    if k > 0 {
      var p, rest := nodes[x].parent.value, nodes - {x};
      forall j: nat | j < k - 1 ensures !Climbs(nodes, p, x, j) {
        if Climbs(nodes, p, x, j) {
          ClimbsOn(nodes, p, x, a, j, k - 1 - j);
        }
      }
      ClimbsWithout(nodes, x, p, a, k - 1);
      forall j: nat | j < k - 1 ensures !Climbs(rest, p, a, j) {
        if Climbs(rest, p, a, j) {
          ClimbsLess(rest, nodes, p, a, j);
          assert Climbs(nodes, x, a, j + 1);
        }
      }
      ClimbsShort(rest, p, a, k - 1);
      assert nodes.Keys == rest.Keys + {x};
      assert |nodes.Keys| == |nodes| && |rest.Keys| == |rest|;
    }
  }

  lemma {:induction false} Shortest(nodes: Nodes, x: Id, a: Id, k: nat) returns (m: nat)
    requires Climbs(nodes, x, a, k)
    ensures m <= k && Climbs(nodes, x, a, m) && forall j: nat :: j < m ==> !Climbs(nodes, x, a, j)
    decreases k
  {
    m := k;
    if j: nat :| j < k && Climbs(nodes, x, a, j) {
      m := Shortest(nodes, x, a, j);
    }
  }

  lemma UnderReaches(nodes: Nodes, x: Id, a: Id)
    ensures Under(nodes, x, a) <==> Reaches(nodes, x, a)
  {
    if k: nat :| Climbs(nodes, x, a, k) {
      var m := Shortest(nodes, x, a, k);
      ClimbsShort(nodes, x, a, m);
    }
  }

  // ---------------------------------------------------------------------
  // What writes do to it
  // ---------------------------------------------------------------------

  ghost predicate SameParents(a: Nodes, b: Nodes) {
    forall x :: x in a ==> x in b && a[x].parent == b[x].parent
  }

  lemma EditKeepsParents(nodes: Nodes, id: Id, name: Option<string>, note: Option<string>, a: Answers)
    ensures EditNode(nodes, id, name, note, a).0.Keys == nodes.Keys
    ensures SameParents(EditNode(nodes, id, name, note, a).0, nodes)
  {
  }

  lemma SameHierarchy(a: Nodes, b: Nodes)
    requires a.Keys == b.Keys && SameParents(a, b) && Hierarchy(b)
    ensures Hierarchy(a)
  {
    AcyclicLess(a, b);
    hide Acyclic;
    forall x | x in a && a[x].parent.Some? ensures a[x].parent.value in a {
      assert b[x].parent.value in b.Keys;
    }
  }

  /** Hanging c under a node that is not below it closes no cycle. */
  lemma HangAcyclic(a: Nodes, b: Nodes, c: Id)
    requires Acyclic(a) && AgreeOff(a, b, c) && c in b
    requires b[c].parent.Some? ==> !Reaches(a, b[c].parent.value, c)
    ensures Acyclic(b)
  {
    forall x | x in b && b[x].parent.Some? ensures !Reaches(b, b[x].parent.value, x) {
      HangOne(a, b, c, x);
    }
  }

  lemma HangOne(a: Nodes, b: Nodes, c: Id, x: Id)
    requires Acyclic(a) && AgreeOff(a, b, c) && c in b
    requires b[c].parent.Some? ==> !Reaches(a, b[c].parent.value, c)
    requires x in b && b[x].parent.Some?
    ensures !Reaches(b, b[x].parent.value, x)
  {
    var p := b[x].parent.value;
    if b[c].parent.Some? {
      ReachesSame(a, b, c, b[c].parent.value, c);
    }
    if Reaches(b, p, x) {
      var k: nat :| Climbs(b, p, x, k);
      if j: nat :| Climbs(b, p, c, j) {
        assert Climbs(b, x, p, 1) by {
          assert Climbs(b, p, p, 0);
        }
        ClimbsOn(b, p, x, p, k, 1);
        ClimbsOn(b, p, p, c, k + 1, j);
        ClimbsOn(b, p, c, c, j, k + 1);
      } else {
        assert x != c;
        ReachesSame(b, a, c, p, x);
      }
    }
  }

  lemma CascadeShrinks(nodes: Nodes, id: Id)
    ensures Cascade(nodes, id).Keys <= nodes.Keys
    ensures forall x :: x in Cascade(nodes, id) ==> Cascade(nodes, id)[x] == nodes[x]
  {
  }

  lemma CascadeHierarchy(nodes: Nodes, id: Id)
    requires Hierarchy(nodes)
    ensures Hierarchy(Cascade(nodes, id))
  {
    var rest := Cascade(nodes, id);
    CascadeShrinks(nodes, id);
    AcyclicLess(rest, nodes);
    forall x | x in rest && rest[x].parent.Some? ensures rest[x].parent.value in rest {
      var p := rest[x].parent.value;
      UnderReaches(nodes, x, id);
      UnderReaches(nodes, p, id);
      if k: nat :| Climbs(nodes, p, id, k) {
        assert Climbs(nodes, x, id, k + 1);
        assert false;
      }
    }
  }

  lemma DeleteHierarchy(nodes: Nodes, id: Id, reply: WriteReply)
    requires Hierarchy(nodes)
    ensures Hierarchy(DeleteNode(nodes, id, reply).0)
  {
    CascadeHierarchy(nodes, id);
  }

  lemma MoveHierarchy(nodes: Nodes, id: Id, parent: Id, priority: Option<int>, a: Answers)
    requires Hierarchy(nodes)
    ensures Hierarchy(MoveNode(nodes, id, parent, priority, a).0)
  {
    var moved := MoveNode(nodes, id, parent, priority, a).0;
    if moved != nodes {
      UnderReaches(nodes, parent, id);
      HangAcyclic(nodes, moved, id);
    }
  }

  lemma CreateHierarchy(s: Store, op: TxnOp, a: Answers)
    requires ValidStore(s) && Hierarchy(s.nodes) && op.name.Some?
    ensures Hierarchy(ApplyCreate(s, op, a).0.nodes)
  {
    var nodes := ApplyCreate(s, op, a).0.nodes;
    if nodes != s.nodes {
      if op.parentId.Some? {
        NotReached(s, op.parentId.value, a.newId);
      }
      HangAcyclic(s.nodes, nodes, a.newId);
    }
  }

  /** An id never issued is above nothing. */
  lemma NotReached(s: Store, x: Id, c: Id)
    requires ValidStore(s) && c !in s.used && x in s.used
    ensures !Reaches(s.nodes, x, c)
  {
    forall k: nat ensures !Climbs(s.nodes, x, c, k) {
      NotClimbed(s, x, c, k);
    }
  }

  lemma {:induction false} NotClimbed(s: Store, x: Id, c: Id, k: nat)
    requires ValidStore(s) && c !in s.used && x in s.used
    ensures !Climbs(s.nodes, x, c, k)
    decreases k
  {
    if k > 0 && x in s.nodes && s.nodes[x].parent.Some? {
      NotClimbed(s, s.nodes[x].parent.value, c, k - 1);
    }
  }

  /** Each step keeps the outline a forest. */
  lemma StepKeepsHierarchy(s: Store, op: TxnOp, a: Answers)
    requires ValidStore(s) && Hierarchy(s.nodes)
    ensures Hierarchy(ApplyStep(s, op, a).0.nodes)
  {
    hide Hierarchy;
    match ParseKind(op.op)
    case None =>
    case Some(Create) =>
      if op.name.Some? {
        CreateHierarchy(s, op, a);
      }
    case Some(Edit) =>
      if op.nodeId.Some? {
        EditKeepsParents(s.nodes, op.nodeId.value, op.name, op.note, a);
        hide EditNode;
        SameHierarchy(EditNode(s.nodes, op.nodeId.value, op.name, op.note, a).0, s.nodes);
      }
    case Some(Delete) =>
      if op.nodeId.Some? {
        DeleteHierarchy(s.nodes, op.nodeId.value, a.first);
      }
    case Some(Move) =>
      if op.nodeId.Some? && op.newParentId.Some? {
        MoveHierarchy(s.nodes, op.nodeId.value, op.newParentId.value, op.priority, a);
      }
    case Some(kind) =>
      if op.nodeId.Some? {
        SameHierarchy(SetCompletion(s.nodes, op.nodeId.value, kind.Complete?, a).0, s.nodes);
      }
  }

  /** So does each inverse. */
  lemma InverseKeepsHierarchy(nodes: Nodes, inv: Inverse, u: Answers)
    requires Hierarchy(nodes)
    ensures Hierarchy(RunInverse(nodes, inv, u).0)
  {
    hide Hierarchy;
    match inv
    case DeleteCreated(c) => DeleteHierarchy(nodes, c, u.first);
    case RestoreEdit(id, name, note) =>
      EditKeepsParents(nodes, id, name, note, u);
      hide EditNode;
      SameHierarchy(EditNode(nodes, id, name, note, u).0, nodes);
    case UnMove(id, parent, priority) =>
      if parent.Some? {
        MoveHierarchy(nodes, id, parent.value, priority, u);
      }
    case RestoreCompletion(id, completed) =>
      SameHierarchy(SetCompletion(nodes, id, completed, u).0, nodes);
  }

  // ---------------------------------------------------------------------
  // Whole runs
  // ---------------------------------------------------------------------

  /** Each step keeps ids issued-once and parents issued. */
  lemma StepKeepsValid(s: Store, op: TxnOp, a: Answers)
    requires ValidStore(s)
    ensures ValidStore(ApplyStep(s, op, a).0)
    ensures s.used <= ApplyStep(s, op, a).0.used
  {
    hide Cascade;
    match ParseKind(op.op)
    case None =>
    case Some(Create) =>
    case Some(Edit) =>
      if op.nodeId.Some? {
        EditKeepsParents(s.nodes, op.nodeId.value, op.name, op.note, a);
        hide EditNode;
      }
    case Some(Delete) =>
      if op.nodeId.Some? {
        CascadeShrinks(s.nodes, op.nodeId.value);
      }
    case Some(Move) =>
    case Some(kind) =>
  }

  lemma {:induction false} AfterValid(s0: Store, ops: seq<TxnOp>, ans: nat -> Answers, k: nat)
    requires ValidStore(s0) && k <= |ops| && After(s0, ops, ans, k).Some?
    ensures ValidStore(After(s0, ops, ans, k).value.0)
    ensures s0.used <= After(s0, ops, ans, k).value.0.used
    ensures Hierarchy(s0.nodes) ==> Hierarchy(After(s0, ops, ans, k).value.0.nodes)
  {
    hide ApplyStep;
    hide Hierarchy;
    hide ValidStore;
    if k > 0 {
      var before := After(s0, ops, ans, k - 1).value.0;
      AfterValid(s0, ops, ans, k - 1);
      StepKeepsValid(before, ops[k - 1], ans(k - 1));
      if Hierarchy(s0.nodes) {
        StepKeepsHierarchy(before, ops[k - 1], ans(k - 1));
      }
    }
  }

  lemma {:induction false} RollbackHierarchy(nodes: Nodes, applied: seq<Inverse>, undo: nat -> Answers, j: nat)
    requires Hierarchy(nodes)
    ensures Hierarchy(Rollback(nodes, applied, undo, j))
    decreases |applied|
  {
    hide Hierarchy;
    hide RunInverse;
    if applied != [] {
      var last := |applied| - 1;
      InverseKeepsHierarchy(nodes, applied[last], undo(j));
      RollbackHierarchy(RunInverse(nodes, applied[last], undo(j)).0, applied[..last], undo, j + 1);
    }
  }
}
