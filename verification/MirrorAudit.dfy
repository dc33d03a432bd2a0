/** The mirror audit and the target extraction that feeds it. Marker and tag recognition are taken
    as given functions of the text; ids are ASCII. */
module MirrorAudit {
  import opened Sequences
  import opened Outlines

  const MIN_SHORT_HASH_LEN := 8

  /** What the regular expressions capture, before lowering. */
  datatype Texts = Texts(mirrorOf: string -> Option<string>, canonicalOf: string -> Option<string>,
                         stripTags: string -> string)

  datatype ExternalCanonical = ExternalCanonical(id: Id, name: string, hasMarker: Option<bool>)

  datatype Status =
    | Broken(target: Id)
    | Drifted(canonicalName: string, outside: bool)
    | Orphan(canonicalId: Id)
    | Lonely

  datatype Finding = Finding(status: Status, nodeId: Id, name: string)

  /** A canonical that a mirror resolved to, in either scope. */
  datatype Canon = Canon(id: Id, name: string, hasMarker: Option<bool>, outside: bool)

  // ---------------------------------------------------------------------
  // Text
  // ---------------------------------------------------------------------

  function LowerChar(c: char): char {
    if 'A' <= c <= 'Z' then c + ' ' else c
  }

  function Lower(s: string): (r: string)
    ensures |r| == |s|
    ensures forall i :: 0 <= i < |s| ==> r[i] == LowerChar(s[i])
  {
    if s == "" then "" else [LowerChar(s[0])] + Lower(s[1..])
  }

  lemma LowerTwice(s: string)
    ensures Lower(Lower(s)) == Lower(s)
  {
  }

  predicate EndsWith(a: string, b: string) {
    |b| <= |a| && a[|a| - |b|..] == b
  }

  predicate Contains(a: string, b: string) {
    exists i :: 0 <= i <= |a| - |b| && a[i..][..|b|] == b
  }

  function LowerId(id: Id): Id {
    Id(Lower(id.text))
  }

  /** The audit's match of lowered ids: equal, or one long enough ends or starts with the other. */
  predicate Fits(a: string, b: string) {
    || a == b
    || (|a| >= MIN_SHORT_HASH_LEN && (EndsWith(a, b) || b <= a))
    || (|b| >= MIN_SHORT_HASH_LEN && (EndsWith(b, a) || a <= b))
  }

  predicate IdMatch(a: Id, b: Id) {
    Fits(Lower(a.text), Lower(b.text))
  }

  function Note(n: Node): string {
    if n.note.Some? then n.note.value else ""
  }

  /** The lowered target of a node's mirror marker. */
  function Target(tx: Texts, n: Node): Option<Id> {
    match tx.mirrorOf(Note(n))
    case Some(t) => Some(Id(Lower(t)))
    case None => None
  }

  predicate IsCanonical(tx: Texts, n: Node) {
    tx.canonicalOf(Note(n)).Some?
  }

  predicate Diverges(tx: Texts, mirror: string, canonical: string) {
    var mn, cn := Lower(tx.stripTags(mirror)), Lower(tx.stripTags(canonical));
    !Contains(mn, cn) && !Contains(cn, mn)
  }

  // ---------------------------------------------------------------------
  // The audit of one mirror
  // ---------------------------------------------------------------------

  /** Some node of the walk, or failing that some external canonical, fits the target. */
  ghost predicate InScope(nodes: seq<Node>, t: Id) {
    exists n :: n in nodes && IdMatch(n.id, t)
  }

  ghost predicate Outside(ext: map<Id, ExternalCanonical>, t: Id) {
    exists e :: e in ext.Values && IdMatch(e.id, t)
  }

  /** The walk's nodes by id; of nodes with one id the last is kept. */
  function ById(nodes: seq<Node>): map<Id, Node> {
    if nodes == [] then map[] else ById(nodes[..|nodes| - 1])[nodes[|nodes| - 1].id := nodes[|nodes| - 1]]
  }

  lemma {:induction false} ByIdHolds(nodes: seq<Node>)
    ensures forall n :: n in nodes ==> n.id in ById(nodes)
    ensures forall k :: k in ById(nodes) ==> ById(nodes)[k] in nodes && ById(nodes)[k].id == k
  {
    if nodes != [] {
      var rest := nodes[..|nodes| - 1];
      ByIdHolds(rest);
      assert nodes == rest + [nodes[|nodes| - 1]];
    }
  }

  function CanonOfNode(tx: Texts, n: Node): Canon {
    Canon(n.id, n.name, Some(IsCanonical(tx, n)), false)
  }

  function CanonOfExternal(e: ExternalCanonical): Canon {
    Canon(e.id, e.name, e.hasMarker, true)
  }

  /** Which canonical a lookup may return: several may fit, and the maps' order picks one. */
  ghost predicate Resolves(tx: Texts, nodes: seq<Node>, ext: map<Id, ExternalCanonical>, t: Id, c: Option<Canon>) {
    if InScope(nodes, t) then
      exists n :: n in ById(nodes).Values && IdMatch(n.id, t) && c == Some(CanonOfNode(tx, n))
    else if Outside(ext, t) then
      exists e :: e in ext.Values && IdMatch(e.id, t) && c == Some(CanonOfExternal(e))
    else c == None
  }

  /** What is reported about a mirror given what its target resolved to. */
  function MirrorFindings(tx: Texts, n: Node, t: Id, c: Option<Canon>): seq<Finding> {
    match c
    case None => [Finding(Broken(t), n.id, n.name)]
    case Some(canon) =>
      (if Diverges(tx, n.name, canon.name) then [Finding(Drifted(canon.name, canon.outside), n.id, n.name)] else [])
      + (if canon.hasMarker == Some(false) then [Finding(Orphan(canon.id), n.id, n.name)] else [])
  }

  function NodeFindings(tx: Texts, n: Node, c: Option<Canon>): seq<Finding> {
    if Target(tx, n).Some? then MirrorFindings(tx, n, Target(tx, n).value, c) else []
  }

  /** The findings of the walk's nodes in order, given each one's resolution. */
  function Walked(tx: Texts, nodes: seq<Node>, chosen: seq<Option<Canon>>): seq<Finding>
    requires |chosen| == |nodes|
  {
    if nodes == [] then []
    else
      var k := |nodes| - 1;
      Walked(tx, nodes[..k], chosen[..k]) + NodeFindings(tx, nodes[k], chosen[k])
  }

  ghost predicate Chosen(tx: Texts, nodes: seq<Node>, ext: map<Id, ExternalCanonical>, n: Node, c: Option<Canon>) {
    Target(tx, n).Some? ==> Resolves(tx, nodes, ext, Target(tx, n).value, c)
  }

  ghost predicate AllChosen(tx: Texts, nodes: seq<Node>, ext: map<Id, ExternalCanonical>, upTo: seq<Node>,
                            chosen: seq<Option<Canon>>)
  {
    |chosen| == |upTo| && forall i :: 0 <= i < |upTo| ==> Chosen(tx, nodes, ext, upTo[i], chosen[i])
  }

  /** The lowered ids of the nodes that claim to be canonical. */
  function CanonicalIds(tx: Texts, nodes: seq<Node>): set<Id> {
    if nodes == [] then {}
    else
      var n := nodes[|nodes| - 1];
      CanonicalIds(tx, nodes[..|nodes| - 1]) + (if IsCanonical(tx, n) then {LowerId(n.id)} else {})
  }

  /** The targets of the mirrors. */
  function MirrorTargets(tx: Texts, nodes: seq<Node>): set<Id> {
    if nodes == [] then {}
    else
      var n := nodes[|nodes| - 1];
      MirrorTargets(tx, nodes[..|nodes| - 1]) + (if Target(tx, n).Some? then {Target(tx, n).value} else {})
  }

  lemma {:induction false} MarkedIds(tx: Texts, nodes: seq<Node>)
    ensures forall cid :: cid in CanonicalIds(tx, nodes) <==>
              exists n :: n in nodes && IsCanonical(tx, n) && LowerId(n.id) == cid
    ensures forall t :: t in MirrorTargets(tx, nodes) <==> exists n :: n in nodes && Target(tx, n) == Some(t)
  {
    if nodes != [] {
      var rest, n := nodes[..|nodes| - 1], nodes[|nodes| - 1];
      hide IsCanonical;
      hide Target;
      hide LowerId;
      MarkedIds(tx, rest);
      assert nodes == rest + [n];
      assert forall m :: m in nodes <==> m in rest || m == n;
    }
  }

  function FirstLowered(nodes: seq<Node>, cid: Id): Option<Node> {
    if nodes == [] then None
    else if LowerId(nodes[0].id) == cid then Some(nodes[0])
    else FirstLowered(nodes[1..], cid)
  }

  lemma {:induction false} LoweredId(nodes: seq<Node>, cid: Id)
    requires FirstLowered(nodes, cid).Some?
    ensures LowerId(FirstLowered(nodes, cid).value.id) == cid
  {
    if LowerId(nodes[0].id) != cid {
      LoweredId(nodes[1..], cid);
    }
  }

  /** The finding is about a claimed canonical that no mirror points at. */
  ghost predicate LonelyOf(tx: Texts, nodes: seq<Node>, cid: Id, f: Finding) {
    && cid in CanonicalIds(tx, nodes)
    && (forall t :: t in MirrorTargets(tx, nodes) ==> !IdMatch(t, cid))
    && FirstLowered(nodes, cid).Some?
    && f == Finding(Lonely, FirstLowered(nodes, cid).value.id, FirstLowered(nodes, cid).value.name)
  }

  /** A possible report: the walk's findings, then one for each canonical no mirror points at. */
  ghost predicate AuditOf(tx: Texts, nodes: seq<Node>, ext: map<Id, ExternalCanonical>,
                          chosen: seq<Option<Canon>>, lonely: seq<Finding>, findings: seq<Finding>)
  {
    && AllChosen(tx, nodes, ext, nodes, chosen)
    && findings == Walked(tx, nodes, chosen) + lonely
    && NoDup(lonely)
    && forall f :: f in lonely <==> exists cid :: LonelyOf(tx, nodes, cid, f)
  }

  /** The findings are a possible report, whichever canonicals the lookups picked. */
  ghost predicate Report(tx: Texts, nodes: seq<Node>, ext: map<Id, ExternalCanonical>, findings: seq<Finding>) {
    exists chosen, lonely :: AuditOf(tx, nodes, ext, chosen, lonely, findings)
  }

  // ---------------------------------------------------------------------
  // The audit
  // ---------------------------------------------------------------------

  /** The lookup in the walk, then outside it. */
  method Resolve(tx: Texts, nodes: seq<Node>, byId: map<Id, Node>, ext: map<Id, ExternalCanonical>, t: Id)
    returns (c: Option<Canon>)
    requires byId == ById(nodes)
    ensures Resolves(tx, nodes, ext, t, c)
  {
    ByIdHolds(nodes);
    var fits := set k | k in byId && IdMatch(byId[k].id, t);
    if fits != {} {
      var k :| k in fits;
      var n := byId[k];
      assert n in ById(nodes).Values;
      return Some(CanonOfNode(tx, n));
    }
    assert !InScope(nodes, t) by {
      forall n | n in nodes ensures !IdMatch(n.id, t) {
        assert n.id in byId;
        assert n.id !in fits;
      }
    }
    var outside := set k | k in ext && IdMatch(ext[k].id, t);
    if outside != {} {
      var k :| k in outside;
      var e := ext[k];
      assert e in ext.Values;
      return Some(CanonOfExternal(e));
    }
    assert !Outside(ext, t) by {
      forall e | e in ext.Values ensures !IdMatch(e.id, t) {
        var k :| k in ext && ext[k] == e;
        assert k !in outside;
      }
    }
    return None;
  }

  method IndexById(nodes: seq<Node>) returns (byId: map<Id, Node>)
    ensures byId == ById(nodes)
  {
    byId := map[];
    for i := 0 to |nodes|
      invariant byId == ById(nodes[..i])
    {
      assert nodes[..i + 1][..i] == nodes[..i];
      byId := byId[nodes[i].id := nodes[i]];
    }
    assert nodes[..|nodes|] == nodes;
  }

  method FindLonely(tx: Texts, nodes: seq<Node>, canonicalTargets: set<Id>, mirrorTargets: set<Id>)
    returns (lonely: seq<Finding>)
    requires canonicalTargets == CanonicalIds(tx, nodes) && mirrorTargets == MirrorTargets(tx, nodes)
    ensures NoDup(lonely)
    ensures forall f :: f in lonely <==> exists cid :: LonelyOf(tx, nodes, cid, f)
  {
    hide IdMatch;
    hide FirstLowered;
    hide LowerId;
    hide CanonicalIds;
    hide MirrorTargets;
    var left := canonicalTargets;
    lonely := [];
    while left != {}
      invariant left <= canonicalTargets
      invariant forall f :: f in lonely ==> exists cid :: LonelyOf(tx, nodes, cid, f)
      invariant forall cid, f :: cid !in left && LonelyOf(tx, nodes, cid, f) ==> f in lonely
      invariant NoDup(lonely) && forall f :: f in lonely ==> LowerId(f.nodeId) !in left
    {
      var cid :| cid in left;
      left := left - {cid};
      if forall t :: t in mirrorTargets ==> !IdMatch(t, cid) {
        match FirstLowered(nodes, cid) {
          case Some(n) =>
            var f := Finding(Lonely, n.id, n.name);
            LoweredId(nodes, cid);
            assert LonelyOf(tx, nodes, cid, f);
            lonely := lonely + [f];
          case None =>
        }
      }
    }
  }

  /** The branch for one mirror. */
  method AuditMirror(tx: Texts, n: Node, t: Id, canon: Option<Canon>) returns (findings: seq<Finding>)
    ensures findings == MirrorFindings(tx, n, t, canon)
  {
    findings := [];
    match canon {
      case Some(c) =>
        if Diverges(tx, n.name, c.name) {
          findings := findings + [Finding(Drifted(c.name, c.outside), n.id, n.name)];
        }
        if c.hasMarker == Some(false) {
          findings := findings + [Finding(Orphan(c.id), n.id, n.name)];
        }
      case None =>
        findings := findings + [Finding(Broken(t), n.id, n.name)];
    }
  }

  lemma NoneYet(tx: Texts, nodes: seq<Node>, ext: map<Id, ExternalCanonical>)
    ensures AllChosen(tx, nodes, ext, nodes[..0], []) && Walked(tx, nodes[..0], []) == []
    ensures CanonicalIds(tx, nodes[..0]) == {} && MirrorTargets(tx, nodes[..0]) == {}
  {
  }

  lemma NextNode(tx: Texts, nodes: seq<Node>, ext: map<Id, ExternalCanonical>, i: nat,
                 chosen: seq<Option<Canon>>, c: Option<Canon>)
    requires i < |nodes| && AllChosen(tx, nodes, ext, nodes[..i], chosen) && Chosen(tx, nodes, ext, nodes[i], c)
    ensures AllChosen(tx, nodes, ext, nodes[..i + 1], chosen + [c])
    ensures Walked(tx, nodes[..i + 1], chosen + [c])
            == Walked(tx, nodes[..i], chosen) + NodeFindings(tx, nodes[i], c)
    ensures CanonicalIds(tx, nodes[..i + 1])
            == CanonicalIds(tx, nodes[..i]) + (if IsCanonical(tx, nodes[i]) then {LowerId(nodes[i].id)} else {})
    ensures MirrorTargets(tx, nodes[..i + 1])
            == MirrorTargets(tx, nodes[..i])
               + (if Target(tx, nodes[i]).Some? then {Target(tx, nodes[i]).value} else {})
  {
    hide Chosen;
    hide NodeFindings;
    hide Target;
    hide IsCanonical;
    hide LowerId;
    assert nodes[..i + 1][..i] == nodes[..i];
    assert (chosen + [c])[..i] == chosen;
  }

  method AuditMirrorsWithExternal(tx: Texts, nodes: seq<Node>, ext: map<Id, ExternalCanonical>)
    returns (findings: seq<Finding>)
    ensures Report(tx, nodes, ext, findings)
  {
    hide Resolves;
    hide LonelyOf;
    hide MirrorFindings;
    hide Target;
    hide IsCanonical;
    hide CanonicalIds;
    hide MirrorTargets;
    hide LowerId;
    hide Walked;
    hide AllChosen;
    hide ById;
    hide IdMatch;
    NoneYet(tx, nodes, ext);
    var byId := IndexById(nodes);
    var canonicalTargets: set<Id> := {};
    var mirrorsByTarget: map<Id, seq<Id>> := map[];
    findings := [];
    ghost var chosen: seq<Option<Canon>> := [];
    for i := 0 to |nodes|
      invariant |chosen| == i && AllChosen(tx, nodes, ext, nodes[..i], chosen)
      invariant findings == Walked(tx, nodes[..i], chosen)
      invariant canonicalTargets == CanonicalIds(tx, nodes[..i])
      invariant mirrorsByTarget.Keys == MirrorTargets(tx, nodes[..i])
    {
      var n := nodes[i];
      if IsCanonical(tx, n) {
        canonicalTargets := canonicalTargets + {LowerId(n.id)};
      }
      var canon: Option<Canon>, more: seq<Finding> := None, [];
      if Target(tx, n).Some? {
        var t := Target(tx, n).value;
        var before := if t in mirrorsByTarget then mirrorsByTarget[t] else [];
        mirrorsByTarget := mirrorsByTarget[t := before + [n.id]];
        canon := Resolve(tx, nodes, byId, ext, t);
        more := AuditMirror(tx, n, t, canon);
      }
      NextNode(tx, nodes, ext, i, chosen, canon);
      findings := findings + more;
      chosen := chosen + [canon];
    }
    assert nodes[..|nodes|] == nodes;
    var lonely := FindLonely(tx, nodes, canonicalTargets, mirrorsByTarget.Keys);
    findings := findings + lonely;
    assert AuditOf(tx, nodes, ext, chosen, lonely, findings);
  }

  // ---------------------------------------------------------------------
  // What the audit guarantees
  // ---------------------------------------------------------------------

  /** Every walk finding belongs to a node's own findings, and every one of those is reported. */
  lemma {:induction false} WalkedMembers(tx: Texts, nodes: seq<Node>, chosen: seq<Option<Canon>>)
    requires |chosen| == |nodes|
    ensures forall i, f :: 0 <= i < |nodes| && f in NodeFindings(tx, nodes[i], chosen[i]) ==>
              f in Walked(tx, nodes, chosen)
    ensures forall f :: f in Walked(tx, nodes, chosen) ==>
              exists i :: 0 <= i < |nodes| && f in NodeFindings(tx, nodes[i], chosen[i])
  {
    if nodes != [] {
      var k := |nodes| - 1;
      WalkedMembers(tx, nodes[..k], chosen[..k]);
      hide NodeFindings;
      forall f | f in Walked(tx, nodes, chosen)
        ensures exists i :: 0 <= i < |nodes| && f in NodeFindings(tx, nodes[i], chosen[i])
      {
        if f !in NodeFindings(tx, nodes[k], chosen[k]) {
          assert f in Walked(tx, nodes[..k], chosen[..k]);
          var i :| 0 <= i < k && f in NodeFindings(tx, nodes[..k][i], chosen[..k][i]);
          assert f in NodeFindings(tx, nodes[i], chosen[i]);
        }
      }
      forall i, f | 0 <= i < |nodes| && f in NodeFindings(tx, nodes[i], chosen[i])
        ensures f in Walked(tx, nodes, chosen)
      {
        assert i < k ==> f in NodeFindings(tx, nodes[..k][i], chosen[..k][i]);
      }
    }
  }

  ghost predicate Unresolved(nodes: seq<Node>, ext: map<Id, ExternalCanonical>, t: Id) {
    !InScope(nodes, t) && !Outside(ext, t)
  }

  /** Findings other than the lonely ones are the nodes' own. */
  lemma ReportMember(tx: Texts, nodes: seq<Node>, ext: map<Id, ExternalCanonical>,
                     chosen: seq<Option<Canon>>, lonely: seq<Finding>, findings: seq<Finding>, f: Finding)
    requires AuditOf(tx, nodes, ext, chosen, lonely, findings) && !f.status.Lonely?
    ensures |chosen| == |nodes|
    ensures f in findings <==> exists i :: 0 <= i < |nodes| && f in NodeFindings(tx, nodes[i], chosen[i])
    ensures forall i :: 0 <= i < |nodes| ==> Chosen(tx, nodes, ext, nodes[i], chosen[i])
  {
    hide NodeFindings;
    hide Chosen;
    hide Walked;
    hide CanonicalIds;
    hide MirrorTargets;
    hide FirstLowered;
    hide IdMatch;
    WalkedMembers(tx, nodes, chosen);
    assert forall g :: g in lonely ==> g.status.Lonely?;
  }

  /** A node's own findings: broken exactly when nothing was resolved, and then nothing else. */
  lemma OwnFindings(tx: Texts, nodes: seq<Node>, ext: map<Id, ExternalCanonical>, n: Node, c: Option<Canon>, f: Finding)
    requires Chosen(tx, nodes, ext, n, c)
    ensures f in NodeFindings(tx, n, c) ==> f.nodeId == n.id && f.name == n.name && Target(tx, n).Some?
    ensures f.status.Broken? ==>
              (f in NodeFindings(tx, n, c) <==>
               Target(tx, n) == Some(f.status.target) && Unresolved(nodes, ext, f.status.target)
               && f.nodeId == n.id && f.name == n.name)
    ensures (f.status.Drifted? || f.status.Orphan?) && f in NodeFindings(tx, n, c) ==>
              !Unresolved(nodes, ext, Target(tx, n).value)
  {
    hide Target;
    hide Diverges;
    hide IdMatch;
    hide InScope;
    hide Outside;
    hide ById;
  }

  /** A mirror is reported broken exactly when neither scope resolves its target. */
  lemma BrokenExactly(tx: Texts, nodes: seq<Node>, ext: map<Id, ExternalCanonical>, findings: seq<Finding>,
                      f: Finding)
    requires Report(tx, nodes, ext, findings) && f.status.Broken?
    ensures f in findings <==>
              exists n :: n in nodes && Target(tx, n) == Some(f.status.target)
                          && Unresolved(nodes, ext, f.status.target) && f.nodeId == n.id && f.name == n.name
  {
    var chosen, lonely :| AuditOf(tx, nodes, ext, chosen, lonely, findings);
    ReportMember(tx, nodes, ext, chosen, lonely, findings, f);
    hide AuditOf;
    hide Target;
    hide Unresolved;
    hide NodeFindings;
    hide Chosen;
    forall i | 0 <= i < |nodes|
      ensures f in NodeFindings(tx, nodes[i], chosen[i]) <==>
                Target(tx, nodes[i]) == Some(f.status.target) && Unresolved(nodes, ext, f.status.target)
                && f.nodeId == nodes[i].id && f.name == nodes[i].name
    {
      OwnFindings(tx, nodes, ext, nodes[i], chosen[i], f);
    }
  }

  /** With distinct ids, a node reported broken is reported neither drifted nor orphaned. */
  lemma BrokenExcludes(tx: Texts, nodes: seq<Node>, ext: map<Id, ExternalCanonical>, findings: seq<Finding>,
                       f: Finding, g: Finding)
    requires Report(tx, nodes, ext, findings)
    requires forall i, j :: 0 <= i < j < |nodes| ==> nodes[i].id != nodes[j].id
    requires f in findings && f.status.Broken? && g in findings && (g.status.Drifted? || g.status.Orphan?)
    ensures f.nodeId != g.nodeId
  {
    var chosen, lonely :| AuditOf(tx, nodes, ext, chosen, lonely, findings);
    ReportMember(tx, nodes, ext, chosen, lonely, findings, f);
    ReportMember(tx, nodes, ext, chosen, lonely, findings, g);
    hide AuditOf;
    hide Target;
    hide Unresolved;
    hide NodeFindings;
    hide Chosen;
    var i :| 0 <= i < |nodes| && f in NodeFindings(tx, nodes[i], chosen[i]);
    var j :| 0 <= j < |nodes| && g in NodeFindings(tx, nodes[j], chosen[j]);
    OwnFindings(tx, nodes, ext, nodes[i], chosen[i], f);
    OwnFindings(tx, nodes, ext, nodes[j], chosen[j], g);
    assert i != j;
  }

  /** A drift or orphan finding names a canonical the target may resolve to, outside the walk only
      when nothing inside fits, and an orphan only one known to lack the marker. */
  lemma OtherFindingsCaused(tx: Texts, nodes: seq<Node>, ext: map<Id, ExternalCanonical>, findings: seq<Finding>,
                            f: Finding)
    requires Report(tx, nodes, ext, findings) && f in findings
    requires f.status.Drifted? || f.status.Orphan?
    ensures exists n, c :: n in nodes && Target(tx, n).Some? && f.nodeId == n.id
              && Resolves(tx, nodes, ext, Target(tx, n).value, Some(c))
              && (f.status.Drifted? ==> f.status == Drifted(c.name, c.outside) && Diverges(tx, n.name, c.name))
              && (f.status.Orphan? ==> f.status == Orphan(c.id) && c.hasMarker == Some(false))
  {
    var chosen, lonely :| AuditOf(tx, nodes, ext, chosen, lonely, findings);
    ReportMember(tx, nodes, ext, chosen, lonely, findings, f);
    hide AuditOf;
    hide Target;
    hide Resolves;
    hide Diverges;
    hide NodeFindings;
    var i :| 0 <= i < |nodes| && f in NodeFindings(tx, nodes[i], chosen[i]);
    var c := OwnCause(tx, nodes[i], chosen[i], f);
    assert Chosen(tx, nodes, ext, nodes[i], Some(c));
  }

  lemma OwnCause(tx: Texts, n: Node, chosen: Option<Canon>, f: Finding) returns (c: Canon)
    requires f in NodeFindings(tx, n, chosen) && (f.status.Drifted? || f.status.Orphan?)
    ensures chosen == Some(c) && Target(tx, n).Some? && f.nodeId == n.id
    ensures f.status.Drifted? ==> f.status == Drifted(c.name, c.outside) && Diverges(tx, n.name, c.name)
    ensures f.status.Orphan? ==> f.status == Orphan(c.id) && c.hasMarker == Some(false)
  {
    hide Target;
    hide Diverges;
    c := chosen.value;
  }

  /** Node i is the first with its id, up to case. */
  ghost predicate FirstBearer(nodes: seq<Node>, i: nat, cid: Id) {
    i < |nodes| && LowerId(nodes[i].id) == cid && forall j :: 0 <= j < i ==> LowerId(nodes[j].id) != cid
  }

  lemma {:induction false} FirstLoweredIs(nodes: seq<Node>, cid: Id) returns (i: nat)
    ensures FirstLowered(nodes, cid).Some? ==> FirstBearer(nodes, i, cid) && FirstLowered(nodes, cid).value == nodes[i]
    ensures FirstLowered(nodes, cid).None? ==> forall j :: 0 <= j < |nodes| ==> LowerId(nodes[j].id) != cid
  {
    hide LowerId;
    i := 0;
    if nodes != [] && LowerId(nodes[0].id) != cid {
      i := FirstLoweredIs(nodes[1..], cid);
      i := i + 1;
      forall j | 0 < j < |nodes| ensures nodes[j] == nodes[1..][j - 1] {
      }
    }
  }

  lemma OneFirstBearer(nodes: seq<Node>, cid: Id, i: nat)
    requires FirstBearer(nodes, i, cid)
    ensures FirstLowered(nodes, cid) == Some(nodes[i])
  {
    hide LowerId;
    var j := FirstLoweredIs(nodes, cid);
  }

  /** n claims to be canonical, no mirror's target fits it, and node i is the first with its id. */
  ghost predicate LonelyAt(tx: Texts, nodes: seq<Node>, n: Node, i: nat, f: Finding) {
    && n in nodes && IsCanonical(tx, n)
    && (forall m :: m in nodes && Target(tx, m).Some? ==> !IdMatch(Target(tx, m).value, LowerId(n.id)))
    && FirstBearer(nodes, i, LowerId(n.id)) && f.nodeId == nodes[i].id && f.name == nodes[i].name
  }

  /** A node is reported lonely exactly when it is the first to bear the id of a claimed canonical
      that no mirror's target fits. */
  lemma LonelyExactly(tx: Texts, nodes: seq<Node>, ext: map<Id, ExternalCanonical>, findings: seq<Finding>,
                      f: Finding)
    requires Report(tx, nodes, ext, findings) && f.status.Lonely?
    ensures f in findings <==> exists n, i: nat :: LonelyAt(tx, nodes, n, i, f)
  {
    hide IsCanonical;
    hide IdMatch;
    hide Target;
    hide FirstLowered;
    hide FirstBearer;
    hide CanonicalIds;
    hide MirrorTargets;
    hide LowerId;
    var chosen, lonely :| AuditOf(tx, nodes, ext, chosen, lonely, findings);
    MarkedIds(tx, nodes);
    WalkedNotLonely(tx, nodes, chosen, f);
    hide Walked;
    if f in findings {
      var cid :| LonelyOf(tx, nodes, cid, f);
      var n :| n in nodes && IsCanonical(tx, n) && LowerId(n.id) == cid;
      var i := FirstLoweredIs(nodes, cid);
      assert LonelyAt(tx, nodes, n, i, f);
    }
    if n, i: nat :| LonelyAt(tx, nodes, n, i, f) {
      OneFirstBearer(nodes, LowerId(n.id), i);
      assert LonelyOf(tx, nodes, LowerId(n.id), f);
    }
  }

  lemma {:induction false} WalkedNotLonely(tx: Texts, nodes: seq<Node>, chosen: seq<Option<Canon>>, f: Finding)
    requires |chosen| == |nodes| && f.status.Lonely?
    ensures f !in Walked(tx, nodes, chosen)
  {
    hide Diverges;
    hide Target;
    if nodes != [] {
      WalkedNotLonely(tx, nodes[..|nodes| - 1], chosen[..|nodes| - 1], f);
    }
  }

  // ---------------------------------------------------------------------
  // The audit misses nothing
  // ---------------------------------------------------------------------

  /** r is s with its ASCII capitals made small. */
  ghost predicate Lowered(s: string, r: string) {
    && |r| == |s|
    && forall i :: 0 <= i < |s| ==> r[i] == if 65 <= s[i] as int <= 90 then (s[i] as int + 32) as char else s[i]
  }

  ghost predicate Splits(a: string, p: string, b: string, q: string) {
    a == p + b + q
  }

  /** b occurs in a. */
  ghost predicate Inside(b: string, a: string) {
    exists p, q :: Splits(a, p, b, q)
  }

  ghost predicate AtAnEnd(a: string, b: string, p: string) {
    a == p + b || a == b + p
  }

  /** One has eight characters or more and the other at one of its ends, or they are equal. */
  ghost predicate Matching(a: string, b: string) {
    || a == b
    || (|a| >= 8 && exists p :: AtAnEnd(a, b, p))
    || (|b| >= 8 && exists p :: AtAnEnd(b, a, p))
  }

  /** The ids match, up to case. */
  ghost predicate SameTarget(a: Id, b: Id) {
    exists x, y :: Lowered(a.text, x) && Lowered(b.text, y) && Matching(x, y)
  }

  lemma LowerIs(s: string, r: string)
    ensures Lowered(s, r) <==> r == Lower(s)
  {
  }

  lemma ContainsIs(a: string, b: string)
    ensures Contains(a, b) <==> Inside(b, a)
  {
    if i :| 0 <= i <= |a| - |b| && a[i..][..|b|] == b {
      assert Splits(a, a[..i], b, a[i..][|b|..]);
    }
    if p, q :| Splits(a, p, b, q) {
      assert a[|p|..] == b + q;
      assert a[|p|..][..|b|] == b;
    }
  }

  lemma FitsIs(a: string, b: string)
    ensures Fits(a, b) <==> Matching(a, b)
  {
    EndsIs(a, b);
    EndsIs(b, a);
  }

  lemma EndsIs(a: string, b: string)
    ensures EndsWith(a, b) || b <= a <==> exists p :: AtAnEnd(a, b, p)
  {
    if EndsWith(a, b) {
      assert AtAnEnd(a, b, a[..|a| - |b|]);
    }
    if b <= a {
      assert AtAnEnd(a, b, a[|b|..]);
    }
  }

  /** What the audit takes as matching ids. */
  lemma MatchExactly(a: Id, b: Id)
    ensures IdMatch(a, b) <==> SameTarget(a, b)
  {
    hide Lower;
    hide Lowered;
    hide Fits;
    hide Matching;
    FitsIs(Lower(a.text), Lower(b.text));
    forall x ensures Lowered(a.text, x) <==> x == Lower(a.text) {
      LowerIs(a.text, x);
    }
    forall y ensures Lowered(b.text, y) <==> y == Lower(b.text) {
      LowerIs(b.text, y);
    }
  }

  /** The node's text matches, whose marker it may carry. */
  ghost predicate FoundInside(tx: Texts, nodes: seq<Node>, t: Id, c: Canon) {
    exists n ::
      && n in nodes && SameTarget(n.id, t)
      && c == Canon(n.id, n.name, Some(tx.canonicalOf(if n.note.Some? then n.note.value else "").Some?), false)
  }

  ghost predicate FoundOutside(ext: map<Id, ExternalCanonical>, t: Id, c: Canon) {
    exists k :: k in ext && SameTarget(ext[k].id, t) && c == Canon(ext[k].id, ext[k].name, ext[k].hasMarker, true)
  }

  /** Something in the walk matches the target, or something outside does. */
  ghost predicate Inward(nodes: seq<Node>, t: Id) {
    exists n :: n in nodes && SameTarget(n.id, t)
  }

  ghost predicate Outward(ext: map<Id, ExternalCanonical>, t: Id) {
    exists k :: k in ext && SameTarget(ext[k].id, t)
  }

  /** Up to tags and case, neither name contains the other. */
  ghost predicate Apart(tx: Texts, a: string, b: string) {
    exists x, y :: Lowered(tx.stripTags(a), x) && Lowered(tx.stripTags(b), y) && !Inside(x, y) && !Inside(y, x)
  }

  lemma ApartIs(tx: Texts, a: string, b: string)
    ensures Diverges(tx, a, b) <==> Apart(tx, a, b)
  {
    hide Lower;
    hide Lowered;
    hide Contains;
    hide Inside;
    var x, y := Lower(tx.stripTags(a)), Lower(tx.stripTags(b));
    ContainsIs(x, y);
    ContainsIs(y, x);
    forall r ensures Lowered(tx.stripTags(a), r) <==> r == x {
      LowerIs(tx.stripTags(a), r);
    }
    forall r ensures Lowered(tx.stripTags(b), r) <==> r == y {
      LowerIs(tx.stripTags(b), r);
    }
  }

  lemma ScopesAre(nodes: seq<Node>, ext: map<Id, ExternalCanonical>, t: Id)
    ensures InScope(nodes, t) <==> Inward(nodes, t)
    ensures Outside(ext, t) <==> Outward(ext, t)
  {
    hide IdMatch;
    hide SameTarget;
    forall x: Id ensures IdMatch(x, t) <==> SameTarget(x, t) {
      MatchExactly(x, t);
    }
    if e :| e in ext.Values && IdMatch(e.id, t) {
      var k :| k in ext && ext[k] == e;
    }
    if k :| k in ext && SameTarget(ext[k].id, t) {
      assert ext[k] in ext.Values;
    }
  }

  lemma ResolvedIs(tx: Texts, nodes: seq<Node>, ext: map<Id, ExternalCanonical>, t: Id, c: Option<Canon>)
    requires Resolves(tx, nodes, ext, t, c)
    ensures c.None? <==> !Inward(nodes, t) && !Outward(ext, t)
    ensures c.Some? ==> if Inward(nodes, t) then FoundInside(tx, nodes, t, c.value) else FoundOutside(ext, t, c.value)
  {
    hide IdMatch;
    hide SameTarget;
    hide InScope;
    hide Outside;
    hide Inward;
    hide Outward;
    ScopesAre(nodes, ext, t);
    ByIdHolds(nodes);
    forall x: Id ensures IdMatch(x, t) <==> SameTarget(x, t) {
      MatchExactly(x, t);
    }
  }

  /** With distinct ids, each mirror is judged against what its target names, and everything wrong with it
      is in the report: broken if nothing matches; otherwise there is a matching canonical, in the walk if
      one matches there, such that the mirror is reported drifted exactly if neither name contains the
      other, and orphaned exactly if the canonical is known to lack its marker. */
  lemma MirrorJudged(tx: Texts, nodes: seq<Node>, ext: map<Id, ExternalCanonical>, findings: seq<Finding>, n: Node,
                     u: string, t: Id)
    requires Report(tx, nodes, ext, findings) && n in nodes
    requires forall i, j :: 0 <= i < j < |nodes| ==> nodes[i].id != nodes[j].id
    requires tx.mirrorOf(if n.note.Some? then n.note.value else "") == Some(u) && Lowered(u, t.text)
    ensures !Inward(nodes, t) && !Outward(ext, t) <==> Finding(Broken(t), n.id, n.name) in findings
    ensures Inward(nodes, t) || Outward(ext, t) ==>
              exists c ::
                && (if Inward(nodes, t) then FoundInside(tx, nodes, t, c) else FoundOutside(ext, t, c))
                && (Finding(Drifted(c.name, c.outside), n.id, n.name) in findings <==> Apart(tx, n.name, c.name))
                && (Finding(Orphan(c.id), n.id, n.name) in findings <==> c.hasMarker == Some(false))
  {
    hide Apart;
    hide Diverges;
    hide Lowered;
    hide Inward;
    hide Outward;
    hide FoundInside;
    hide FoundOutside;
    hide Resolves;
    hide AuditOf;
    LowerIs(u, t.text);
    assert Target(tx, n) == Some(t);
    hide Lower;
    var chosen, lonely :| AuditOf(tx, nodes, ext, chosen, lonely, findings);
    var i :| 0 <= i < |nodes| && nodes[i] == n;
    ReportOf(tx, nodes, ext, chosen, lonely, findings, i, Broken(t));
    var c := chosen[i];
    ResolvedIs(tx, nodes, ext, t, c);
    if c.Some? {
      ApartIs(tx, n.name, c.value.name);
      ReportOf(tx, nodes, ext, chosen, lonely, findings, i, Drifted(c.value.name, c.value.outside));
      ReportOf(tx, nodes, ext, chosen, lonely, findings, i, Orphan(c.value.id));
    }
  }

  /** With distinct ids, what is reported about a node are its own findings. */
  lemma ReportOf(tx: Texts, nodes: seq<Node>, ext: map<Id, ExternalCanonical>, chosen: seq<Option<Canon>>,
                 lonely: seq<Finding>, findings: seq<Finding>, i: nat, status: Status)
    requires AuditOf(tx, nodes, ext, chosen, lonely, findings) && i < |nodes| && !status.Lonely?
    requires forall i, j :: 0 <= i < j < |nodes| ==> nodes[i].id != nodes[j].id
    ensures |chosen| == |nodes| && Chosen(tx, nodes, ext, nodes[i], chosen[i])
    ensures var f := Finding(status, nodes[i].id, nodes[i].name);
            f in findings <==> f in NodeFindings(tx, nodes[i], chosen[i])
  {
    var f := Finding(status, nodes[i].id, nodes[i].name);
    ReportMember(tx, nodes, ext, chosen, lonely, findings, f);
    hide AuditOf;
    hide Chosen;
    if k :| 0 <= k < |nodes| && f in NodeFindings(tx, nodes[k], chosen[k]) {
      FindingsName(tx, nodes[k], chosen[k], f);
      assert k == i;
    }
  }

  /** The first finding is about an earlier node than the second, or both are about one node and the drift
      comes before the orphan. */
  ghost predicate InOrder(nodes: seq<Node>, f: Finding, g: Finding) {
    exists i: nat, j: nat ::
      && i <= j < |nodes| && nodes[i].id == f.nodeId && nodes[j].id == g.nodeId
      && (i == j ==> f.status.Drifted? && g.status.Orphan?)
  }

  lemma {:induction false} WalkedInOrder(tx: Texts, nodes: seq<Node>, chosen: seq<Option<Canon>>, x: nat, y: nat)
    requires |chosen| == |nodes| && x < y < |Walked(tx, nodes, chosen)|
    ensures InOrder(nodes, Walked(tx, nodes, chosen)[x], Walked(tx, nodes, chosen)[y])
  {
    var k: nat := |nodes| - 1;
    var all, rest := Walked(tx, nodes, chosen), Walked(tx, nodes[..k], chosen[..k]);
    var own := NodeFindings(tx, nodes[k], chosen[k]);
    assert all == rest + own;
    if y < |rest| {
      WalkedInOrder(tx, nodes[..k], chosen[..k], x, y);
      var i: nat, j: nat :|
        && i <= j < |nodes[..k]| && nodes[..k][i].id == all[x].nodeId && nodes[..k][j].id == all[y].nodeId
        && (i == j ==> all[x].status.Drifted? && all[y].status.Orphan?);
      assert nodes[i].id == all[x].nodeId && nodes[j].id == all[y].nodeId;
    } else {
      assert all[y] == own[y - |rest|];
      FindingsName(tx, nodes[k], chosen[k], all[y]);
      OwnOrder(tx, nodes[k], chosen[k]);
      hide NodeFindings;
      if x < |rest| {
        assert all[x] == rest[x] && rest[x] in rest;
        WalkedMembers(tx, nodes[..k], chosen[..k]);
        var i: nat :| i < k && rest[x] in NodeFindings(tx, nodes[..k][i], chosen[..k][i]);
        FindingsName(tx, nodes[i], chosen[i], rest[x]);
        assert nodes[i].id == all[x].nodeId && nodes[k].id == all[y].nodeId;
      } else {
        assert all[x] == own[x - |rest|];
        assert nodes[k].id == all[x].nodeId && nodes[k].id == all[y].nodeId;
      }
    }
  }

  lemma OwnOrder(tx: Texts, n: Node, c: Option<Canon>)
    ensures var own := NodeFindings(tx, n, c);
            forall i, j :: 0 <= i < j < |own| ==>
              own[i].nodeId == n.id == own[j].nodeId && own[i].status.Drifted? && own[j].status.Orphan?
  {
    hide Target;
    hide Diverges;
  }

  /** The report goes through the nodes in order, and the lonely findings come last. */
  lemma ReportInOrder(tx: Texts, nodes: seq<Node>, ext: map<Id, ExternalCanonical>, findings: seq<Finding>, x: nat, y: nat)
    requires Report(tx, nodes, ext, findings) && x < y < |findings|
    ensures findings[x].status.Lonely? ==> findings[y].status.Lonely?
    ensures !findings[y].status.Lonely? ==> InOrder(nodes, findings[x], findings[y])
  {
    hide InOrder;
    hide Walked;
    var chosen, lonely :| AuditOf(tx, nodes, ext, chosen, lonely, findings);
    var walked := Walked(tx, nodes, chosen);
    if y < |walked| {
      WalkedInOrder(tx, nodes, chosen, x, y);
      assert walked[x] in walked;
      if walked[x].status.Lonely? {
        WalkedNotLonely(tx, nodes, chosen, walked[x]);
      }
    } else {
      assert findings[y] == lonely[y - |walked|] && lonely[y - |walked|] in lonely;
    }
  }

  lemma FindingsName(tx: Texts, n: Node, c: Option<Canon>, f: Finding)
    requires f in NodeFindings(tx, n, c)
    ensures f.nodeId == n.id
  {
    hide Target;
    hide Diverges;
  }

  // ---------------------------------------------------------------------
  // The extraction of unresolved targets
  // ---------------------------------------------------------------------

  /** The extraction's looser match: one lowered id ends with the other, whatever their lengths. */
  predicate EndMatch(a: string, b: string) {
    EndsWith(a, b) || EndsWith(b, a)
  }

  ghost predicate Skipped(nodes: seq<Node>, t: Id) {
    exists n :: n in nodes && EndMatch(Lower(n.id.text), t.text)
  }

  /** Node a has target t, and neither it nor any node before it has target u. */
  ghost predicate NamedFirst(tx: Texts, nodes: seq<Node>, a: nat, t: Id, u: Id) {
    a < |nodes| && Target(tx, nodes[a]) == Some(t) && forall b :: 0 <= b <= a ==> Target(tx, nodes[b]) != Some(u)
  }

  /** Target t appears before target u does. */
  ghost predicate Earlier(tx: Texts, nodes: seq<Node>, t: Id, u: Id) {
    exists a: nat :: NamedFirst(tx, nodes, a, t, u)
  }

  ghost predicate NamedBefore(tx: Texts, nodes: seq<Node>, i: nat, t: Id) {
    exists a: nat :: a < i && a < |nodes| && Target(tx, nodes[a]) == Some(t)
  }

  lemma NamedUpTo(tx: Texts, nodes: seq<Node>, i: nat)
    requires i < |nodes|
    ensures forall t :: NamedBefore(tx, nodes, i, t) || Target(tx, nodes[i]) == Some(t) ==> NamedBefore(tx, nodes, i + 1, t)
  {
    hide Target;
  }

  /** A target met for the first time comes after those met before. */
  lemma NewLast(tx: Texts, nodes: seq<Node>, i: nat, targets: seq<Id>, u: Id)
    requires i < |nodes| && u !in targets && !Skipped(nodes, u)
    requires forall t :: t in targets ==> NamedBefore(tx, nodes, i, t)
    requires forall j :: 0 <= j < i && Target(tx, nodes[j]).Some? && !Skipped(nodes, Target(tx, nodes[j]).value) ==>
               Target(tx, nodes[j]).value in targets
    ensures forall t :: t in targets ==> Earlier(tx, nodes, t, u)
  {
    hide Skipped;
    hide Target;
    forall t | t in targets ensures Earlier(tx, nodes, t, u) {
      var a: nat :| a < i && a < |nodes| && Target(tx, nodes[a]) == Some(t);
      assert NamedFirst(tx, nodes, a, t, u);
    }
  }

  /** Loop over the nodes: each target not end-matched in the walk, once, in order of appearance. */
  method ExtractUnresolvedMirrorTargets(tx: Texts, nodes: seq<Node>) returns (targets: seq<Id>)
    ensures NoDup(targets)
    ensures forall t :: t in targets <==> !Skipped(nodes, t) && exists n :: n in nodes && Target(tx, n) == Some(t)
    ensures forall i, j :: 0 <= i < j < |targets| ==> Earlier(tx, nodes, targets[i], targets[j])
  {
    hide Earlier;
    hide NamedBefore;
    hide EndMatch;
    hide Target;
    hide Lower;
    var inScope := set n | n in nodes :: LowerId(n.id);
    forall t: Id ensures (exists s :: s in inScope && EndMatch(s.text, t.text)) <==> Skipped(nodes, t) {
      if n :| n in nodes && EndMatch(Lower(n.id.text), t.text) {
        assert LowerId(n.id) in inScope;
      }
    }
    targets := [];
    var seen: set<Id> := {};
    for i := 0 to |nodes|
      invariant NoDup(targets) && i <= |nodes|
      invariant forall t :: t in seen <==> t in targets
      invariant forall t :: t in targets ==> !Skipped(nodes, t) && exists n :: n in nodes && Target(tx, n) == Some(t)
      invariant forall t :: t in targets ==> NamedBefore(tx, nodes, i, t)
      invariant forall j :: 0 <= j < i && Target(tx, nodes[j]).Some? && !Skipped(nodes, Target(tx, nodes[j]).value) ==>
                  Target(tx, nodes[j]).value in targets
      invariant forall k, j :: 0 <= k < j < |targets| ==> Earlier(tx, nodes, targets[k], targets[j])
    {
      NamedUpTo(tx, nodes, i);
      if Target(tx, nodes[i]).Some? {
        var t := Target(tx, nodes[i]).value;
        if exists s :: s in inScope && EndMatch(s.text, t.text) {
          continue;
        }
        if t !in seen {
          NewLast(tx, nodes, i, targets, t);
          seen := seen + {t};
          NoDupAppend(targets, [t]);
          targets := targets + [t];
        }
      }
    }
  }

  /** An id end-matches the target although neither is long enough for the audit's match. */
  ghost predicate ShortEndMatch(nodes: seq<Node>, t: Id) {
    exists n :: n in nodes
      && ((EndsWith(Lower(n.id.text), t.text) && |n.id.text| < MIN_SHORT_HASH_LEN)
          || (EndsWith(t.text, Lower(n.id.text)) && |t.text| < MIN_SHORT_HASH_LEN))
  }

  /** A target the walk does not resolve is left out of the extraction exactly when such an id exists. */
  lemma SkippedExactly(nodes: seq<Node>, t: Id)
    requires Lower(t.text) == t.text && !InScope(nodes, t)
    ensures Skipped(nodes, t) <==> ShortEndMatch(nodes, t)
  {
  }

  /** With ids of at least eight characters every broken mirror's target is extracted, so covering
      the extracted targets leaves nothing broken. */
  lemma CoveredIsUnbroken(tx: Texts, nodes: seq<Node>, ext: map<Id, ExternalCanonical>, targets: seq<Id>,
                          findings: seq<Finding>)
    requires forall n :: n in nodes ==> |n.id.text| >= MIN_SHORT_HASH_LEN
    requires forall t :: t in targets <==> !Skipped(nodes, t) && exists n :: n in nodes && Target(tx, n) == Some(t)
    requires Report(tx, nodes, ext, findings)
    ensures forall f :: f in findings && f.status.Broken? ==> f.status.target in targets
    ensures (forall t :: t in targets ==> Outside(ext, t)) ==> forall f :: f in findings ==> !f.status.Broken?
  {
    hide Report;
    hide InScope;
    hide Outside;
    hide Skipped;
    hide Lower;
    forall f | f in findings && f.status.Broken?
      ensures f.status.target in targets && !Outside(ext, f.status.target)
    {
      BrokenExactly(tx, nodes, ext, findings, f);
      var t := f.status.target;
      var n :| n in nodes && Target(tx, n) == Some(t) && Unresolved(nodes, ext, t);
      LowerTwice(tx.mirrorOf(Note(n)).value);
      SkippedExactly(nodes, t);
      hide Target;
    }
  }

  /** Short ids need the condition: this mirror is broken, and its target is not extracted. */
  lemma ShortIdsEscape(tx: Texts, canonical: Node, mirror: Node)
    requires canonical.id == Id("babc") && mirror.id == Id("mirror")
    requires Target(tx, mirror) == Some(Id("abc"))
    ensures Unresolved([canonical, mirror], map[], Id("abc")) && Skipped([canonical, mirror], Id("abc"))
  {
    var nodes := [canonical, mirror];
    assert Lower("abc") == "abc" && Lower("babc") == "babc" && Lower("mirror") == "mirror";
    assert EndsWith("babc", "abc");
    assert canonical in nodes;
    assert EndMatch(Lower(canonical.id.text), "abc");
    forall n | n in nodes ensures !IdMatch(n.id, Id("abc")) {
    }
  }
}
