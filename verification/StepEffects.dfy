/** What a transaction step asks of the server and what it does to the outline, op by op. */
module StepEffects {
  import opened Sequences
  import opened Outlines
  import opened Transactions
  import opened Hierarchies

  // ---------------------------------------------------------------------
  // Below a node
  // ---------------------------------------------------------------------

  /** Each id but the last names a node whose parent is the next. */
  ghost predicate Chain(nodes: Nodes, path: seq<Id>) {
    path != [] && forall i :: 0 <= i < |path| - 1 ==> path[i] in nodes && nodes[path[i]].parent == Some(path[i + 1])
  }

  ghost predicate ChainTo(nodes: Nodes, path: seq<Id>, x: Id, a: Id) {
    Chain(nodes, path) && path[0] == x && path[|path| - 1] == a
  }

  /** Parent links lead from x to a; every id is below itself. */
  ghost predicate Below(nodes: Nodes, x: Id, a: Id) {
    exists path :: ChainTo(nodes, path, x, a)
  }

  lemma {:induction false} ClimbChain(nodes: Nodes, x: Id, a: Id, k: nat) returns (path: seq<Id>)
    requires Climbs(nodes, x, a, k)
    ensures ChainTo(nodes, path, x, a)
    decreases k
  {
    path := [x];
    if k > 0 {
      var rest := ClimbChain(nodes, nodes[x].parent.value, a, k - 1);
      path := [x] + rest;
    }
  }

  lemma {:induction false} ChainClimb(nodes: Nodes, path: seq<Id>)
    requires Chain(nodes, path)
    ensures Climbs(nodes, path[0], path[|path| - 1], |path| - 1)
    decreases |path|
  {
    if |path| > 1 {
      var rest := path[1..];
      forall i | 0 <= i < |rest| - 1 ensures rest[i] in nodes && nodes[rest[i]].parent == Some(rest[i + 1]) {
        assert rest[i] == path[i + 1] && rest[i + 1] == path[i + 2];
      }
      ChainClimb(nodes, rest);
    }
  }

  lemma UnderIsBelow(nodes: Nodes, x: Id, a: Id)
    ensures Under(nodes, x, a) <==> Below(nodes, x, a)
  {
    UnderReaches(nodes, x, a);
    if k: nat :| Climbs(nodes, x, a, k) {
      var path := ClimbChain(nodes, x, a, k);
    }
    if path :| ChainTo(nodes, path, x, a) {
      ChainClimb(nodes, path);
    }
  }

  // ---------------------------------------------------------------------
  // Steps in the caller's terms
  // ---------------------------------------------------------------------

  /** What it takes for a step to succeed. */
  ghost predicate Accepted(s: Store, op: TxnOp, a: Answers) {
    && op.op in {"create", "edit", "delete", "move", "complete", "uncomplete"} && a.first == Acked
    && (op.op == "create" ==>
          op.name.Some? && a.newId !in s.used && (op.parentId.Some? ==> op.parentId.value in s.nodes))
    && (op.op != "create" ==> op.nodeId.Some? && op.nodeId.value in s.nodes)
    && (op.op == "edit" ==>
          (op.name.Some? || op.note.Some?) && (op.name.Some? && op.note.Some? ==> a.second == Acked))
    && (op.op == "delete" && op.expectName.Some? ==> a.preRead && a.echoMatches)
    && (op.op == "move" ==>
          && op.newParentId.Some? && op.newParentId.value in s.nodes
          && !Below(s.nodes, op.newParentId.value, op.nodeId.value))
  }

  /** Of the nodes of s only that of the id differs in t, and it is there in both. */
  ghost predicate OnlyAt(s: Nodes, t: Nodes, id: Id) {
    id in s && s.Keys == t.Keys && forall x :: x in s && x != id ==> t[x] == s[x]
  }

  /** What a step does: a create adds one uncompleted node as described, an edit writes the fields
      given, a move changes parent and priority, the completions set the flag, and a delete removes the
      node and everything below it. */
  ghost predicate Effect(s: Store, op: TxnOp, a: Answers, t: Store) {
    if op.op == "create" then
      && a.newId !in s.nodes && t.nodes.Keys == s.nodes.Keys + {a.newId} && t.used == s.used + {a.newId}
      && (forall x :: x in s.nodes ==> t.nodes[x] == s.nodes[x])
      && var n := t.nodes[a.newId];
         && n.id == a.newId && n.parent == op.parentId && Some(n.name) == op.name && n.note == op.note && !n.completed
         && (op.priority.Some? ==> n.priority == op.priority) && (op.priority.None? ==> n.priority == a.placed)
    else
      && t.used == s.used && op.nodeId.Some?
      && var id := op.nodeId.value;
         if op.op == "delete" then
           && (forall x :: x in t.nodes <==> x in s.nodes && !Below(s.nodes, x, id))
           && (forall x :: x in t.nodes ==> t.nodes[x] == s.nodes[x])
         else
           && OnlyAt(s.nodes, t.nodes, id)
           && var (n, m) := (s.nodes[id], t.nodes[id]);
              && m.id == n.id
              && (if op.op == "edit" && op.name.Some? then m.name == op.name.value else m.name == n.name)
              && (if op.op == "edit" && op.note.Some? then m.note == op.note else m.note == n.note)
              && (if op.op == "move" then
                    && m.parent == op.newParentId
                    && (op.priority.Some? ==> m.priority == op.priority)
                    && (op.priority.None? ==> m.priority == a.placed)
                  else m.parent == n.parent && m.priority == n.priority)
              && m.completed == (if op.op == "complete" then true else if op.op == "uncomplete" then false else n.completed)
  }

  lemma CreateEffect(s: Store, op: TxnOp, a: Answers)
    requires ValidStore(s) && op.op == "create"
    ensures ApplyStep(s, op, a).1.Stepped? <==> Accepted(s, op, a)
    ensures var t := ApplyStep(s, op, a).0; t == s || Effect(s, op, a, t)
    ensures Accepted(s, op, a) ==> Effect(s, op, a, ApplyStep(s, op, a).0)
  {
  }

  lemma EditOneEffect(s: Store, op: TxnOp, a: Answers)
    requires op.op == "edit" && op.nodeId.Some? && op.nodeId.value in s.nodes && !(op.name.Some? && op.note.Some?)
    ensures var (nodes, ok) := EditNode(s.nodes, op.nodeId.value, op.name, op.note, a);
            && ok == a.first.Acked?
            && (nodes == s.nodes || Effect(s, op, a, Store(nodes, s.used)))
            && (ok ==> Effect(s, op, a, Store(nodes, s.used)))
  {
  }

  lemma EditBothEffect(s: Store, op: TxnOp, a: Answers)
    requires op.op == "edit" && op.nodeId.Some? && op.nodeId.value in s.nodes && op.name.Some? && op.note.Some?
    ensures var (nodes, ok) := EditNode(s.nodes, op.nodeId.value, op.name, op.note, a);
            && ok == (a.first.Acked? && a.second.Acked?)
            && (nodes == s.nodes || Effect(s, op, a, Store(nodes, s.used))
                || Effect(s, op.(note := None), a, Store(nodes, s.used)))
            && (ok ==> Effect(s, op, a, Store(nodes, s.used)))
  {
    var id := op.nodeId.value;
    var n := s.nodes[id];
    var named := s.nodes[id := n.(name := op.name.value)];
    assert Effect(s, op.(note := None), a, Store(named, s.used));
    var both := s.nodes[id := n.(name := op.name.value, note := op.note)];
    assert named[id := named[id].(note := op.note)] == both;
    assert Effect(s, op, a, Store(both, s.used));
    hide Effect;
  }

  lemma EditEffect(s: Store, op: TxnOp, a: Answers)
    requires op.op == "edit"
    ensures ApplyStep(s, op, a).1.Stepped? <==> Accepted(s, op, a)
    ensures var t := ApplyStep(s, op, a).0; t == s || Effect(s, op, a, t) || Effect(s, op.(note := None), a, t)
    ensures Accepted(s, op, a) ==> Effect(s, op, a, ApplyStep(s, op, a).0)
  {
    hide Effect;
    hide Below;
    if op.nodeId.Some? && op.nodeId.value in s.nodes {
      if op.name.Some? && op.note.Some? {
        EditBothEffect(s, op, a);
      } else {
        EditOneEffect(s, op, a);
      }
      hide EditNode;
    }
  }

  lemma DeleteEffect(s: Store, op: TxnOp, a: Answers)
    requires op.op == "delete"
    ensures ApplyStep(s, op, a).1.Stepped? <==> Accepted(s, op, a)
    ensures var t := ApplyStep(s, op, a).0; t == s || Effect(s, op, a, t)
    ensures Accepted(s, op, a) ==> Effect(s, op, a, ApplyStep(s, op, a).0)
  {
    hide Under;
    hide Below;
    if op.nodeId.Some? {
      forall x ensures Under(s.nodes, x, op.nodeId.value) <==> Below(s.nodes, x, op.nodeId.value) {
        UnderIsBelow(s.nodes, x, op.nodeId.value);
      }
    }
  }

  lemma MoveEffect(s: Store, op: TxnOp, a: Answers)
    requires op.op == "move"
    ensures ApplyStep(s, op, a).1.Stepped? <==> Accepted(s, op, a)
    ensures var t := ApplyStep(s, op, a).0; t == s || Effect(s, op, a, t)
    ensures Accepted(s, op, a) ==> Effect(s, op, a, ApplyStep(s, op, a).0)
  {
    hide Under;
    hide Below;
    if op.nodeId.Some? && op.newParentId.Some? {
      UnderIsBelow(s.nodes, op.newParentId.value, op.nodeId.value);
    }
  }

  lemma CompletionEffect(s: Store, op: TxnOp, a: Answers)
    requires op.op in {"complete", "uncomplete"}
    ensures ApplyStep(s, op, a).1.Stepped? <==> Accepted(s, op, a)
    ensures var t := ApplyStep(s, op, a).0; t == s || Effect(s, op, a, t)
    ensures Accepted(s, op, a) ==> Effect(s, op, a, ApplyStep(s, op, a).0)
  {
  }

  /** A step succeeds exactly when it is accepted, and then has its effect. One that fails changed
      nothing, or landed all the same: whole, or the name of an edit without its note. */
  lemma StepEffect(s: Store, op: TxnOp, a: Answers)
    requires ValidStore(s)
    ensures ApplyStep(s, op, a).1.Stepped? <==> Accepted(s, op, a)
    ensures Accepted(s, op, a) ==> Effect(s, op, a, ApplyStep(s, op, a).0)
    ensures var t := ApplyStep(s, op, a).0;
            t == s || Effect(s, op, a, t) || (op.op == "edit" && Effect(s, op.(note := None), a, t))
  {
    hide Effect;
    if op.op == "create" {
      CreateEffect(s, op, a);
    } else if op.op == "edit" {
      EditEffect(s, op, a);
    } else if op.op == "delete" {
      DeleteEffect(s, op, a);
    } else if op.op == "move" {
      MoveEffect(s, op, a);
    } else if op.op in {"complete", "uncomplete"} {
      CompletionEffect(s, op, a);
    }
  }

  /** The step that an inverse amounts to; a move back to an unknown parent is none. */
  function AsStep(inv: Inverse): Option<TxnOp> {
    match inv
    case DeleteCreated(id) => Some(TxnOp("delete", Some(id), None, None, None, None, None, None))
    case RestoreEdit(id, name, note) => Some(TxnOp("edit", Some(id), None, None, name, note, None, None))
    case UnMove(id, parent, priority) =>
      if parent.None? then None else Some(TxnOp("move", Some(id), None, parent, None, None, priority, None))
    case RestoreCompletion(id, completed) =>
      Some(TxnOp(if completed then "complete" else "uncomplete", Some(id), None, None, None, None, None, None))
  }

  /** An inverse succeeds and acts as the step it amounts to; a skipped one changes nothing. */
  lemma InverseEffect(s: Store, inv: Inverse, u: Answers)
    requires ValidStore(s) && (inv.RestoreEdit? ==> inv.prevName.Some?)
    ensures var (nodes, ok) := RunInverse(s.nodes, inv, u);
            match AsStep(inv)
            case None => nodes == s.nodes && ok
            case Some(op) =>
              && (ok <==> Accepted(s, op, u)) && (ok ==> Effect(s, op, u, Store(nodes, s.used)))
              && (nodes == s.nodes || Effect(s, op, u, Store(nodes, s.used))
                  || Effect(s, op.(note := None), u, Store(nodes, s.used)))
  {
    hide Effect;
    hide Accepted;
    hide Cascade;
    hide EditNode;
    if AsStep(inv).Some? {
      StepEffect(s, AsStep(inv).value, u);
      assert ApplyStep(s, AsStep(inv).value, u).0 == Store(RunInverse(s.nodes, inv, u).0, s.used);
    }
  }

  // ---------------------------------------------------------------------
  // Runs of steps
  // ---------------------------------------------------------------------

  /** The stores a run of n accepted steps passes through. */
  ghost predicate Trace(s0: Store, ops: seq<TxnOp>, ans: nat -> Answers, n: nat, stores: seq<Store>) {
    && n <= |ops| && |stores| == n + 1 && stores[0] == s0
    && forall k: nat :: k < n ==> TraceStep(stores, ops, ans, k)
  }

  ghost predicate TraceStep(stores: seq<Store>, ops: seq<TxnOp>, ans: nat -> Answers, k: nat)
    requires k < |ops| && k + 1 < |stores|
  {
    Accepted(stores[k], ops[k], ans(k)) && Effect(stores[k], ops[k], ans(k), stores[k + 1])
  }

  lemma {:induction false} RunTraced(s0: Store, ops: seq<TxnOp>, ans: nat -> Answers, n: nat) returns (stores: seq<Store>)
    requires ValidStore(s0) && n <= |ops| && After(s0, ops, ans, n).Some?
    ensures Trace(s0, ops, ans, n, stores) && stores[n] == After(s0, ops, ans, n).value.0
  {
    stores := [s0];
    if n > 0 {
      var before := RunTraced(s0, ops, ans, n - 1);
      AfterValid(s0, ops, ans, n - 1);
      StepEffect(before[n - 1], ops[n - 1], ans(n - 1));
      stores := before + [After(s0, ops, ans, n).value.0];
      hide Effect;
      hide Accepted;
      hide ApplyStep;
      forall k: nat | k < n ensures TraceStep(stores, ops, ans, k) {
        assert k < n - 1 ==> TraceStep(before, ops, ans, k);
      }
    }
  }
}
