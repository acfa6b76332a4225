/**
 * The lease protocol of a resolver session: `get` may hand out a file under a
 * lease, `release` gives leases back, `request_finished` commits or aborts
 * what a request produced, and `shutdown` ends the session. Every handler is
 * one atomic step. File removals may fail, which the handlers ignore, and
 * between steps anyone may replace or delete files in the session directory.
 */
module ResolverSession {
  import opened Prelude

  const MAX_SESSION_LEASES: nat := 1024
  const MAX_SESSION_SUPPORTING_FILES: nat := 4096
  const PERSIST_ATTEMPTS: nat := 8

  type RequestId = nat
  type LeaseId = string

  datatype Lease = Lease(path: string, identity: nat)

  /** The session tables, and the session directory as a map from path to file identity. */
  datatype State = State(
    open: bool,
    leases: map<LeaseId, Lease>,
    pendingLeases: map<RequestId, LeaseId>,
    supporting: seq<string>,
    pendingSupporting: map<RequestId, seq<string>>,
    disk: map<string, nat>)

  const CLOSED := State(false, map[], map[], [], map[], map[])

  datatype Representation = AutoRep | ValueRep | PathRep

  /** What the manifest says of a name before anything is resolved: nothing, a value, a path; or the look-up fails. */
  datatype Declaration = LookupFailed | NotDeclared | DeclaredValue | DeclaredPath

  datatype Resolution =
    | Undeclared
    | Missing
    | Value(supporting: seq<string>)
    | File(identity: nat, supporting: seq<string>)

  /** How the file system answers when a lease's file is to go: can its identity be read, can it be deleted. */
  datatype Removal = Removal(identified: bool, deleted: bool) {
    predicate Works() {
      identified && deleted
    }
  }

  type Removals = LeaseId -> Removal

  /** One try at moving a file into the session directory under a random name. */
  datatype Attempt = Attempt(path: string, ioOk: bool)

  /** Everything a `get` learns from outside the session tables. */
  datatype Outside = Outside(
    representation: Representation,
    declared: Declaration,
    resolution: Option<Resolution>,
    cancelledEarly: bool,
    attempts: nat -> Attempt,
    identityOk: bool,
    cancelledLate: bool,
    deleted: bool,
    token: LeaseId)

  datatype ErrorKind = Internal | RepresentationMismatch | ResolverFailed | Cancelled | OperationFailed | Unavailable | Conflict

  datatype Reply =
    | Failed(kind: ErrorKind)
    | UndeclaredReply
    | MissingReply
    | ValueReply
    | PathReply(path: string, leaseId: LeaseId)
    | Released(count: nat)
    | Nothing

  // ---------------------------------------------------------------- sums over the pending table

  ghost function Total(m: map<RequestId, seq<string>>): nat {
    if m == map[] then 0
    else
      assert exists k :: k in m;
      var k :| k in m;
      |m[k]| + Total(m - {k})
  }

  lemma {:induction false} TotalWithout(m: map<RequestId, seq<string>>, k: RequestId)
    requires k in m
    ensures Total(m) == |m[k]| + Total(m - {k})
    decreases |m|
  {
    var j :| j in m && Total(m) == |m[j]| + Total(m - {j});
    if j != k {
      TotalWithout(m - {j}, k);
      TotalWithout(m - {k}, j);
      assert m - {j} - {k} == m - {k} - {j};
    }
  }

  lemma TotalUpdate(m: map<RequestId, seq<string>>, k: RequestId, v: seq<string>)
    ensures Total(m[k := v]) == |v| + Total(m - {k})
    ensures Total(m - {k}) <= Total(m)
  {
    TotalWithout(m[k := v], k);
    assert m[k := v] - {k} == m - {k};
    if k in m {
      TotalWithout(m, k);
    } else {
      assert m - {k} == m;
    }
  }

  // ---------------------------------------------------------------- steps as functions

  predicate Mismatch(declared: Declaration, r: Representation) {
    (declared.DeclaredPath? && r == ValueRep) || (declared.DeclaredValue? && r == PathRep)
  }

  function Persist(disk: map<string, nat>, attempts: nat -> Attempt, from: nat): (r: Result<string, ErrorKind>)
    requires from <= PERSIST_ATTEMPTS
    ensures r.Ok? ==> r.value !in disk
    decreases PERSIST_ATTEMPTS - from
  {
    if from == PERSIST_ATTEMPTS then Err(Unavailable)
    else if !attempts(from).ioOk then Err(OperationFailed)
    else if attempts(from).path in disk then Persist(disk, attempts, from + 1)
    else Ok(attempts(from).path)
  }

  ghost predicate CanRetain(s: State, files: seq<string>) {
    |s.supporting| + Total(s.pendingSupporting) + |files| <= MAX_SESSION_SUPPORTING_FILES
  }

  /** The state with one more lease and the files that came with it. */
  function Granted(s: State, rid: RequestId, id: LeaseId, lease: Lease, files: seq<string>): State {
    s.(leases := s.leases[id := lease], pendingLeases := s.pendingLeases[rid := id],
       pendingSupporting := s.pendingSupporting[rid := files], disk := s.disk[lease.path := lease.identity])
  }

  /** A placed file is taken back, or stays behind if it cannot be deleted. */
  function TakenBack(s: State, lease: Lease, deleted: bool): State {
    if deleted then s else s.(disk := s.disk[lease.path := lease.identity])
  }

  /** Admit a placed file under the two caps. */
  ghost function AdmitStep(s: State, rid: RequestId, lease: Lease, files: seq<string>, o: Outside): (State, Reply) {
    var back := TakenBack(s, lease, o.deleted);
    if !CanRetain(s, files) then (back, Failed(Unavailable))
    else if |s.leases| >= MAX_SESSION_LEASES then
      (back.(pendingSupporting := s.pendingSupporting - {rid}), Failed(Unavailable))
    else (Granted(s, rid, o.token, lease, files), PathReply(lease.path, o.token))
  }

  ghost function GetFileStep(s: State, rid: RequestId, identity: nat, files: seq<string>, o: Outside): (State, Reply) {
    var placed := Persist(s.disk, o.attempts, 0);
    if o.representation == ValueRep then (s, Failed(RepresentationMismatch))
    else if placed.Err? then (s, Failed(placed.error))
    else
      var lease := Lease(placed.value, identity);
      if !o.identityOk then (TakenBack(s, lease, o.deleted), Failed(OperationFailed))
      else if o.cancelledLate then (TakenBack(s, lease, o.deleted), Failed(Cancelled))
      else AdmitStep(s, rid, lease, files, o)
  }

  ghost function GetStep(s: State, rid: RequestId, o: Outside): (State, Reply) {
    if !s.open then (s, Failed(Internal))
    else if o.declared.LookupFailed? then (s, Failed(ResolverFailed))
    else if Mismatch(o.declared, o.representation) then (s, Failed(RepresentationMismatch))
    else if o.resolution.None? then (s, Failed(ResolverFailed))
    else if o.cancelledEarly then (s, Failed(Cancelled))
    else match o.resolution.value
      case Undeclared => (s, UndeclaredReply)
      case Missing => (s, MissingReply)
      case Value(files) =>
        if o.representation == PathRep then (s, Failed(RepresentationMismatch))
        else if !CanRetain(s, files) then (s, Failed(Unavailable))
        else (s.(pendingSupporting := s.pendingSupporting[rid := files]), ValueReply)
      case File(identity, files) => GetFileStep(s, rid, identity, files, o)
  }

  function IdSet(ids: seq<LeaseId>): set<LeaseId> {
    set id | id in ids
  }

  /** Drop a set of live leases and delete their files, where each is still the lease's own and can be deleted. */
  function DropLeases(s: State, ids: set<LeaseId>, removals: Removals): State {
    var gone := set id | id in ids && id in s.leases && Deletes(s, id, removals) :: s.leases[id].path;
    s.(leases := s.leases - ids, disk := s.disk - gone)
  }

  predicate OwnsFile(disk: map<string, nat>, lease: Lease) {
    lease.path in disk && disk[lease.path] == lease.identity
  }

  predicate Deletes(s: State, id: LeaseId, removals: Removals)
    requires id in s.leases
  {
    OwnsFile(s.disk, s.leases[id]) && removals(id).Works()
  }

  function ReleaseStep(s: State, ids: seq<LeaseId>, removals: Removals): (State, Reply) {
    if !s.open then (s, Failed(Internal))
    else (DropLeases(s, IdSet(ids), removals), Released(|IdSet(ids) * s.leases.Keys|))
  }

  function PendingLease(s: State, rid: RequestId): set<LeaseId> {
    if rid in s.pendingLeases then {s.pendingLeases[rid]} else {}
  }

  /** A request's pending entries go; its files are moved or forgotten by the caller. */
  function Settled(s: State, rid: RequestId): State {
    s.(pendingLeases := s.pendingLeases - {rid}, pendingSupporting := s.pendingSupporting - {rid})
  }

  function FinishStep(s: State, rid: RequestId, committed: bool, removals: Removals): State {
    if !s.open then s
    else
      var files := if rid in s.pendingSupporting then s.pendingSupporting[rid] else [];
      if committed then Settled(s, rid).(supporting := s.supporting + files)
      else DropLeases(Settled(s, rid), PendingLease(s, rid), removals)
  }

  /** The leases go one by one; then the directory itself is removed, as far as that succeeds. */
  function ShutdownStep(s: State, removals: Removals, swept: set<string>): State {
    if !s.open then s else CLOSED.(disk := DropLeases(s, s.leases.Keys, removals).disk - swept)
  }

  /** A handler call, or someone else putting a file in the session directory or taking one out. */
  datatype Request =
    | Initialize
    | Get(rid: RequestId, outside: Outside)
    | Release(ids: seq<LeaseId>, removals: Removals)
    | Finish(rid: RequestId, committed: bool, removals: Removals)
    | Shutdown(removals: Removals, swept: set<string>)
    | Interfere(path: string, file: Option<nat>)

  ghost function Step(s: State, q: Request): (State, Reply) {
    match q
    case Initialize => if s.open then (s, Failed(Conflict)) else (CLOSED.(open := true), Nothing)
    case Get(rid, o) => GetStep(s, rid, o)
    case Release(ids, removals) => ReleaseStep(s, ids, removals)
    case Finish(rid, committed, removals) => (FinishStep(s, rid, committed, removals), Nothing)
    case Shutdown(removals, swept) => (ShutdownStep(s, removals, swept), Nothing)
    case Interfere(path, file) =>
      (s.(disk := if file.Some? then s.disk[path := file.value] else s.disk - {path}), Nothing)
  }

  /** The live leases a request ends. */
  function Ends(s: State, q: Request): set<LeaseId> {
    match q
    case Initialize => {}
    case Get(_, _) => {}
    case Release(ids, _) => IdSet(ids) * s.leases.Keys
    case Finish(rid, committed, _) => if committed then {} else PendingLease(s, rid) * s.leases.Keys
    case Shutdown(_, _) => s.leases.Keys
    case Interfere(_, _) => {}
  }

  /** Where a `get` puts a file before its last checks, if it comes that far. */
  function Placed(s: State, o: Outside): Option<string> {
    var placed := Persist(s.disk, o.attempts, 0);
    if s.open && !o.declared.LookupFailed? && !Mismatch(o.declared, o.representation)
       && o.resolution.Some? && o.resolution.value.File?
       && !o.cancelledEarly && o.representation != ValueRep && placed.Ok?
    then Some(placed.value) else None
  }

  function Unremoved(s: State, ids: set<LeaseId>, removals: Removals): set<string> {
    set id | id in ids && id in s.leases && !removals(id).Works() :: s.leases[id].path
  }

  /** The paths whose removal a request attempts in vain. */
  ghost function Failures(s: State, q: Request): set<string> {
    match q
    case Initialize => {}
    case Get(rid, o) =>
      if GetStep(s, rid, o).1.Failed? && Placed(s, o).Some? && !o.deleted then {Placed(s, o).value} else {}
    case Release(_, removals) => Unremoved(s, Ends(s, q), removals)
    case Finish(_, _, removals) => Unremoved(s, Ends(s, q), removals)
    case Shutdown(removals, _) => Unremoved(s, Ends(s, q), removals)
    case Interfere(_, _) => {}
  }
}
