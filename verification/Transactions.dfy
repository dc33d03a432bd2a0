/** Transactions over the remote outline: steps applied in order, inverses replayed last-in
    first-out when a step fails. */
module Transactions {
  import opened Sequences
  import opened Outlines

  // ---------------------------------------------------------------------
  // The server
  // ---------------------------------------------------------------------

  type Nodes = map<Id, Node>

  /** The outline and every id the server has ever issued. */
  datatype Store = Store(nodes: Nodes, used: set<Id>)

  /** What the server contributes to one step: whether a pre-read succeeds, the replies to its
      at most two writes, the id of a created node, the priority of a node placed without
      one, and whether an echoed name matches. */
  datatype Answers = Answers(
    preRead: bool,
    first: WriteReply,
    second: WriteReply,
    newId: Id,
    placed: Option<int>,
    echoMatches: bool)

  /** Ids are issued once; every parent id was issued at some time. */
  ghost predicate ValidStore(s: Store) {
    && s.nodes.Keys <= s.used
    && (forall x :: x in s.nodes && s.nodes[x].parent.Some? ==> s.nodes[x].parent.value in s.used)
  }

  /** k parent steps lead from x to a. */
  predicate Climbs(nodes: Nodes, x: Id, a: Id, k: nat)
    decreases k
  {
    if k == 0 then x == a
    else x in nodes && nodes[x].parent.Some? && Climbs(nodes, nodes[x].parent.value, a, k - 1)
  }

  predicate Under(nodes: Nodes, x: Id, a: Id) {
    exists k | 0 <= k <= |nodes| :: Climbs(nodes, x, a, k)
  }

  /** Deleting a node takes its descendants with it. */
  function Cascade(nodes: Nodes, a: Id): Nodes {
    map x | x in nodes && !Under(nodes, x, a) :: nodes[x]
  }

  /** The outcome of one write on an existing node: the new outline and the acknowledgement. */
  function Write(nodes: Nodes, id: Id, n: Node, reply: WriteReply): (Nodes, bool) {
    if id !in nodes || reply.Refused? then (nodes, false) else (nodes[id := n], reply.Acked?)
  }

  function DeleteNode(nodes: Nodes, id: Id, reply: WriteReply): (Nodes, bool) {
    if id !in nodes || reply.Refused? then (nodes, false) else (Cascade(nodes, id), reply.Acked?)
  }

  /** A name and a note given together are written by two requests, name first. */
  function EditNode(nodes: Nodes, id: Id, name: Option<string>, note: Option<string>, a: Answers): (Nodes, bool) {
    if id !in nodes then (nodes, false)
    else if name.Some? && note.Some? then
      var (mid, ok) := Write(nodes, id, nodes[id].(name := name.value), a.first);
      if !ok then (mid, false) else Write(mid, id, mid[id].(note := note), a.second)
    else
      var n := nodes[id];
      var n := if name.Some? then n.(name := name.value) else n;
      Write(nodes, id, if note.Some? then n.(note := note) else n, a.first)
  }

  /** A node cannot be moved under itself or one of its descendants. */
  function MoveNode(nodes: Nodes, id: Id, parent: Id, priority: Option<int>, a: Answers): (Nodes, bool) {
    if id !in nodes || parent !in nodes || Under(nodes, parent, id) then (nodes, false)
    else
      var p := if priority.Some? then priority else a.placed;
      Write(nodes, id, nodes[id].(parent := Some(parent), priority := p), a.first)
  }

  function SetCompletion(nodes: Nodes, id: Id, completed: bool, a: Answers): (Nodes, bool) {
    if id !in nodes then (nodes, false)
    else Write(nodes, id, nodes[id].(completed := completed), a.first)
  }

  // ---------------------------------------------------------------------
  // Steps and inverses
  // ---------------------------------------------------------------------

  datatype Kind = Create | Edit | Delete | Move | Complete | Uncomplete

  datatype TxnOp = TxnOp(
    op: string,
    nodeId: Option<Id>,
    parentId: Option<Id>,
    newParentId: Option<Id>,
    name: Option<string>,
    note: Option<string>,
    priority: Option<int>,
    expectName: Option<string>)

  datatype Inverse =
    | DeleteCreated(nodeId: Id)
    | RestoreEdit(nodeId: Id, prevName: Option<string>, prevNote: Option<string>)
    | UnMove(nodeId: Id, prevParent: Option<Id>, prevPriority: Option<int>)
    | RestoreCompletion(nodeId: Id, prevCompleted: bool)

  datatype StepResult = Stepped(inverse: Option<Inverse>) | StepFailed

  function ParseKind(op: string): Option<Kind> {
    if op == "create" then Some(Create)
    else if op == "edit" then Some(Edit)
    else if op == "delete" then Some(Delete)
    else if op == "move" then Some(Move)
    else if op == "complete" then Some(Complete)
    else if op == "uncomplete" then Some(Uncomplete)
    else None
  }

  /** The 64-bit priority narrowed to 32 bits, wrapping. */
  function AsI32(p: int): int {
    (p + 0x8000_0000) % 0x1_0000_0000 - 0x8000_0000
  }

  function NarrowPriority(p: Option<int>): Option<int> {
    match p
    case Some(v) => Some(AsI32(v))
    case None => None
  }

  function Finish(r: (Nodes, bool), used: set<Id>, inverse: Option<Inverse>): (Store, StepResult) {
    (Store(r.0, used), if r.1 then Stepped(inverse) else StepFailed)
  }

  /** One step: validate, pre-read for the inverse, write. */
  function ApplyStep(s: Store, op: TxnOp, a: Answers): (Store, StepResult) {
    match ParseKind(op.op)
    case None => (s, StepFailed)
    case Some(Create) =>
      if op.name.None? then (s, StepFailed) else ApplyCreate(s, op, a)
    case Some(Edit) =>
      if op.nodeId.None? || (op.name.None? && op.note.None?) then (s, StepFailed)
      else
        var id := op.nodeId.value;
        var inverse := if a.preRead && id in s.nodes
                       then Some(RestoreEdit(id, Some(s.nodes[id].name), s.nodes[id].note)) else None;
        Finish(EditNode(s.nodes, id, op.name, op.note, a), s.used, inverse)
    case Some(Delete) =>
      if op.nodeId.None? then (s, StepFailed)
      else if op.expectName.Some? && !(a.preRead && op.nodeId.value in s.nodes && a.echoMatches) then (s, StepFailed)
      else Finish(DeleteNode(s.nodes, op.nodeId.value, a.first), s.used, None)
    case Some(Move) =>
      if op.nodeId.None? || op.newParentId.None? then (s, StepFailed)
      else
        var id := op.nodeId.value;
        var read := a.preRead && id in s.nodes;
        var inverse := UnMove(id, if read then s.nodes[id].parent else None,
                              if read then NarrowPriority(s.nodes[id].priority) else None);
        Finish(MoveNode(s.nodes, id, op.newParentId.value, op.priority, a), s.used, Some(inverse))
    case Some(kind) =>
      if op.nodeId.None? then (s, StepFailed)
      else
        var id := op.nodeId.value;
        var inverse := if a.preRead && id in s.nodes
                       then Some(RestoreCompletion(id, s.nodes[id].completed)) else None;
        Finish(SetCompletion(s.nodes, id, kind.Complete?, a), s.used, inverse)
  }

  /** A create under a missing parent, or answered with an id issued before, is no create. */
  function ApplyCreate(s: Store, op: TxnOp, a: Answers): (Store, StepResult)
    requires op.name.Some?
  {
    if a.first.Refused? || a.newId in s.used || (op.parentId.Some? && op.parentId.value !in s.nodes) then (s, StepFailed)
    else
      var p := if op.priority.Some? then op.priority else a.placed;
      var n := Node(a.newId, op.parentId, p, op.name.value, op.note, false);
      (Store(s.nodes[a.newId := n], s.used + {a.newId}),
       if a.first.Acked? then Stepped(Some(DeleteCreated(a.newId))) else StepFailed)
  }

  /** Replay one inverse; a move whose previous parent is unknown is skipped. */
  function RunInverse(nodes: Nodes, inv: Inverse, a: Answers): (Nodes, bool) {
    match inv
    case DeleteCreated(id) => DeleteNode(nodes, id, a.first)
    case RestoreEdit(id, name, note) => EditNode(nodes, id, name, note, a)
    case UnMove(id, parent, priority) =>
      if parent.None? then (nodes, true) else MoveNode(nodes, id, parent.value, priority, a)
    case RestoreCompletion(id, completed) => SetCompletion(nodes, id, completed, a)
  }

  // ---------------------------------------------------------------------
  // Whole runs
  // ---------------------------------------------------------------------

  function Push(applied: seq<Inverse>, inverse: Option<Inverse>): seq<Inverse> {
    match inverse
    case Some(inv) => applied + [inv]
    case None => applied
  }

  /** The store and the inverses on the stack after the first k steps, if all succeeded. */
  function After(s: Store, ops: seq<TxnOp>, ans: nat -> Answers, k: nat): Option<(Store, seq<Inverse>)>
    requires k <= |ops|
  {
    if k == 0 then Some((s, []))
    else
      match After(s, ops, ans, k - 1)
      case None => None
      case Some((before, applied)) =>
        var (after, result) := ApplyStep(before, ops[k - 1], ans(k - 1));
        if result.StepFailed? then None else Some((after, Push(applied, result.inverse)))
  }

  /** Undo the stack last-in first-out; a failing inverse does not stop the queue. */
  function Rollback(nodes: Nodes, applied: seq<Inverse>, undo: nat -> Answers, j: nat): Nodes
    decreases |applied|
  {
    if applied == [] then nodes
    else
      var last := |applied| - 1;
      Rollback(RunInverse(nodes, applied[last], undo(j)).0, applied[..last], undo, j + 1)
  }
}
