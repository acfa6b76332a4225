/**
 * What every step of a resolver session keeps, what `get` and `abort` undo,
 * and what holds over whole runs, with removals that fail and others at work
 * in the session directory.
 */
module SessionSafety {
  import opened Prelude
  import opened ResolverSession

  /** What the tables do not record: paths whose removal failed, and paths someone else has touched. */
  datatype Marks = Marks(left: set<string>, touched: set<string>)

  const NO_MARKS := Marks({}, {})

  /** A new session has a new directory; one that is removed takes failed removals with it. */
  ghost function NextMarks(m: Marks, s: State, q: Request): Marks {
    match q
    case Initialize => if s.open then m else NO_MARKS
    case Get(_, _) => m.(left := m.left + Failures(s, q))
    case Release(_, _) => m.(left := m.left + Failures(s, q))
    case Finish(_, _, _) => m.(left := m.left + Failures(s, q))
    case Shutdown(_, swept) => if s.open then m.(left := m.left + Failures(s, q) - swept) else m
    case Interfere(path, _) => m.(touched := m.touched + {path})
  }

  function Paths(leases: map<LeaseId, Lease>): set<string> {
    set id | id in leases :: leases[id].path
  }

  /**
   * Off the touched paths every live lease owns its file, no two leases share
   * a path, and the directory is exactly the files of live leases and, apart
   * from those, the files whose removal failed.
   */
  ghost predicate Mirrors(leases: map<LeaseId, Lease>, disk: map<string, nat>, m: Marks) {
    && (forall id | id in leases && leases[id].path !in m.touched :: OwnsFile(disk, leases[id]))
    && (forall i, j | i in leases && j in leases && i != j && leases[i].path == leases[j].path ::
          leases[i].path in m.touched)
    && Paths(leases) * m.left <= m.touched
    && (forall path | path !in m.touched :: path in disk <==> path in Paths(leases) || path in m.left)
  }

  ghost predicate WithinCaps(s: State) {
    && |s.leases| <= MAX_SESSION_LEASES
    && |s.supporting| + Total(s.pendingSupporting) <= MAX_SESSION_SUPPORTING_FILES
  }

  /** Without a session every table is empty. */
  predicate Idle(s: State) {
    !s.open ==> s == CLOSED.(disk := s.disk)
  }

  ghost predicate Inv(s: State, m: Marks) {
    Mirrors(s.leases, s.disk, m) && WithinCaps(s) && Idle(s)
  }

  lemma MirrorAdds(leases: map<LeaseId, Lease>, disk: map<string, nat>, m: Marks, id: LeaseId, lease: Lease)
    requires Mirrors(leases, disk, m) && id !in leases && lease.path !in disk
    ensures Mirrors(leases[id := lease], disk[lease.path := lease.identity], m)
  {
    var leases' := leases[id := lease];
    assert leases'[id] == lease && forall i | i in leases :: leases'[i] == leases[i];
    assert Paths(leases') == Paths(leases) + {lease.path};
    forall i | i in leases && leases[i].path == lease.path
      ensures lease.path in m.touched
    {
      assert OwnsFile(disk, leases[i]) || lease.path in m.touched;
    }
  }

  lemma MirrorLeaves(leases: map<LeaseId, Lease>, disk: map<string, nat>, m: Marks, path: string, identity: nat)
    requires Mirrors(leases, disk, m) && path !in disk
    ensures Mirrors(leases, disk[path := identity], m.(left := m.left + {path}))
  {
    if path !in m.touched {
      assert path !in Paths(leases);
    }
  }

  /** A dropped lease's path, if untouched, leaves the tables; its file goes, or counts as left behind. */
  lemma DroppedPath(s: State, m: Marks, ids: set<LeaseId>, removals: Removals, id: LeaseId)
    requires Mirrors(s.leases, s.disk, m) && id in s.leases && s.leases[id].path !in m.touched
    ensures var t, path := DropLeases(s, ids, removals), s.leases[id].path;
            && (path in Paths(t.leases) <==> id !in ids)
            && (path in Unremoved(s, ids, removals) <==> id in ids && !removals(id).Works())
            && (path in t.disk <==> id !in ids || !removals(id).Works())
  {
    var t, path := DropLeases(s, ids, removals), s.leases[id].path;
    assert OwnsFile(s.disk, s.leases[id]);
    assert forall j | j in s.leases && s.leases[j].path == path :: j == id;
    assert forall j | j in t.leases :: t.leases[j] == s.leases[j];
    assert id !in ids ==> t.leases[id].path == path;
  }

  lemma OtherPath(s: State, ids: set<LeaseId>, removals: Removals, path: string)
    requires path !in Paths(s.leases)
    ensures var t := DropLeases(s, ids, removals);
            path !in Paths(t.leases) && path !in Unremoved(s, ids, removals) && (path in t.disk <==> path in s.disk)
  {
    var t := DropLeases(s, ids, removals);
    assert forall j | j in t.leases :: t.leases[j] == s.leases[j];
  }

  lemma MirrorDrops(s: State, m: Marks, ids: set<LeaseId>, removals: Removals)
    requires Mirrors(s.leases, s.disk, m)
    ensures var t := DropLeases(s, ids, removals);
            Mirrors(t.leases, t.disk, m.(left := m.left + Unremoved(s, ids, removals)))
  {
    var t, m' := DropLeases(s, ids, removals), m.(left := m.left + Unremoved(s, ids, removals));
    forall path | path !in m.touched
      ensures path in t.disk <==> path in Paths(t.leases) || path in m'.left
      ensures !(path in Paths(t.leases) && path in m'.left)
    {
      if path in Paths(s.leases) {
        var id :| id in s.leases && s.leases[id].path == path;
        DroppedPath(s, m, ids, removals, id);
      } else {
        OtherPath(s, ids, removals, path);
      }
    }
    forall id | id in t.leases && t.leases[id].path !in m.touched
      ensures OwnsFile(t.disk, t.leases[id])
    {
      assert t.leases[id] == s.leases[id];
      DroppedPath(s, m, ids, removals, id);
    }
  }

  lemma DropKeepsInv(s: State, m: Marks, ids: set<LeaseId>, removals: Removals)
    requires Inv(s, m) && s.open
    ensures Inv(DropLeases(s, ids, removals), m.(left := m.left + Unremoved(s, ids, removals)))
  {
    MirrorDrops(s, m, ids, removals);
    var t := DropLeases(s, ids, removals);
    SubsetSize(t.leases.Keys, s.leases.Keys);
    assert |t.leases| == |t.leases.Keys| && |s.leases| == |s.leases.Keys|;
  }

  lemma {:induction false} SubsetSize<T>(a: set<T>, b: set<T>)
    requires a <= b
    ensures |a| <= |b|
    decreases |a|
  {
    if a != {} {
      var x :| x in a;
      SubsetSize(a - {x}, b - {x});
    }
  }

  lemma GrantKeepsInv(s: State, m: Marks, rid: RequestId, id: LeaseId, lease: Lease, files: seq<string>)
    requires Inv(s, m) && s.open && id !in s.leases && lease.path !in s.disk
    requires CanRetain(s, files) && |s.leases| < MAX_SESSION_LEASES
    ensures Inv(Granted(s, rid, id, lease, files), m)
  {
    TotalUpdate(s.pendingSupporting, rid, files);
    MirrorAdds(s.leases, s.disk, m, id, lease);
    assert |s.leases[id := lease]| == |s.leases| + 1;
  }

  /** `disk'` is `disk` with files at the paths `f` besides. */
  predicate Plus(disk: map<string, nat>, f: set<string>, disk': map<string, nat>) {
    f !! disk.Keys && disk'.Keys == disk.Keys + f && forall path | path in disk :: disk'[path] == disk[path]
  }

  lemma PutBack<K, V>(m: map<K, V>, k: K, v: V)
    requires k !in m
    ensures m[k := v] - {k} == m
  {
  }

  /** `u` is `s` but for files left at the paths `f`. */
  predicate RestoredBut(s: State, f: set<string>, u: State) {
    u == s.(disk := u.disk) && Plus(s.disk, f, u.disk) && (u == s <==> f == {})
  }

  lemma NothingLeft(s: State)
    ensures RestoredBut(s, {}, s)
  {
  }

  lemma TakenBackRestores(s: State, lease: Lease, deleted: bool)
    requires lease.path !in s.disk
    ensures RestoredBut(s, if deleted then {} else {lease.path}, TakenBack(s, lease, deleted))
  {
    if !deleted {
      assert lease.path in TakenBack(s, lease, deleted).disk;
    }
  }

  /** The lease cap clears this request's pending files; no other failing exit changes a table. */
  predicate Unmoved(s: State, rid: RequestId, t: State) {
    || t == s
    || (t == s.(pendingSupporting := s.pendingSupporting - {rid}) && |s.leases| >= MAX_SESSION_LEASES)
  }

  lemma RefusedLease(s: State, rid: RequestId, lease: Lease, files: seq<string>, o: Outside)
    requires AdmitStep(s, rid, lease, files, o).1.Failed?
    ensures var t := AdmitStep(s, rid, lease, files, o).0;
            t.disk == TakenBack(s, lease, o.deleted).disk && Unmoved(s, rid, t.(disk := s.disk))
  {
  }

  lemma RefusedFile(s: State, rid: RequestId, identity: nat, files: seq<string>, o: Outside)
    requires GetFileStep(s, rid, identity, files, o).1.Failed? && o.representation != ValueRep
    ensures var t, placed := GetFileStep(s, rid, identity, files, o).0, Persist(s.disk, o.attempts, 0);
            && t.disk == (if placed.Ok? then TakenBack(s, Lease(placed.value, identity), o.deleted).disk else s.disk)
            && Unmoved(s, rid, t.(disk := s.disk))
  {
    var placed := Persist(s.disk, o.attempts, 0);
    if placed.Ok? && o.identityOk && !o.cancelledLate {
      RefusedLease(s, rid, Lease(placed.value, identity), files, o);
    }
  }

  lemma RefusedGet(s: State, rid: RequestId, o: Outside)
    requires GetStep(s, rid, o).1.Failed?
    ensures var t, placed := GetStep(s, rid, o).0, Placed(s, o);
            && (placed.Some? ==> placed.value !in s.disk)
            && t.disk ==
               (if placed.None? then s.disk
                else TakenBack(s, Lease(placed.value, o.resolution.value.identity), o.deleted).disk)
            && Unmoved(s, rid, t.(disk := s.disk))
  {
    if s.open && o.resolution.Some? && o.resolution.value.File? && o.representation != ValueRep {
      var File(identity, files) := o.resolution.value;
      if GetFileStep(s, rid, identity, files, o).1.Failed? {
        RefusedFile(s, rid, identity, files, o);
      }
    }
  }

  /** What a `get` that does not fail leaves behind: nothing new, files pending, or a lease granted. */
  ghost predicate Served(s: State, rid: RequestId, o: Outside, t: State, reply: Reply)
    requires o.resolution.Some?
  {
    match o.resolution.value
    case Undeclared => t == s && reply == UndeclaredReply
    case Missing => t == s && reply == MissingReply
    case Value(files) =>
      t == s.(pendingSupporting := s.pendingSupporting[rid := files]) && reply == ValueReply && CanRetain(s, files)
    case File(identity, files) =>
      && reply.PathReply? && reply.leaseId == o.token && reply.path !in s.disk
      && t == Granted(s, rid, o.token, Lease(reply.path, identity), files)
      && CanRetain(s, files) && |s.leases| < MAX_SESSION_LEASES
  }

  lemma ServedGet(s: State, rid: RequestId, o: Outside)
    requires !GetStep(s, rid, o).1.Failed?
    ensures s.open && o.resolution.Some? && Served(s, rid, o, GetStep(s, rid, o).0, GetStep(s, rid, o).1)
  {
  }

  /**
   * A failing `get` undoes itself but for a file it could not delete: the
   * directory is as before exactly when no removal failed, and of the tables
   * only the exit at the lease cap changes one, clearing this request's
   * pending files.
   */
  lemma FailedGetUndoesItself(s: State, rid: RequestId, o: Outside)
    requires GetStep(s, rid, o).1.Failed?
    ensures var t, f := GetStep(s, rid, o).0, Failures(s, Get(rid, o));
            && Plus(s.disk, f, t.disk) && (t.disk == s.disk <==> f == {})
            && Unmoved(s, rid, t.(disk := s.disk))
            && (rid !in s.pendingSupporting ==> t == s.(disk := t.disk))
  {
    RefusedGet(s, rid, o);
    if Placed(s, o).Some? {
      TakenBackRestores(s, Lease(Placed(s, o).value, o.resolution.value.identity), o.deleted);
    } else {
      NothingLeft(s);
    }
    TablesUnmoved(s, rid, GetStep(s, rid, o).0);
  }

  lemma TablesUnmoved(s: State, rid: RequestId, t: State)
    requires Unmoved(s, rid, t.(disk := s.disk))
    ensures rid !in s.pendingSupporting ==> t == s.(disk := t.disk)
  {
    assert rid !in s.pendingSupporting ==> s.pendingSupporting - {rid} == s.pendingSupporting;
  }

  lemma UnmovedKeepsCaps(s: State, rid: RequestId, t: State)
    requires WithinCaps(s) && s.open && Unmoved(s, rid, t.(disk := s.disk))
    ensures WithinCaps(t) && t.open && t.leases == s.leases
  {
    TotalUpdate(s.pendingSupporting, rid, []);
  }

  lemma FailedGetKeepsInv(s: State, m: Marks, rid: RequestId, o: Outside)
    requires Inv(s, m) && s.open && GetStep(s, rid, o).1.Failed?
    ensures Inv(GetStep(s, rid, o).0, m.(left := m.left + Failures(s, Get(rid, o))))
  {
    RefusedGet(s, rid, o);
    var t, f := GetStep(s, rid, o).0, Failures(s, Get(rid, o));
    UnmovedKeepsCaps(s, rid, t);
    if Placed(s, o).Some? && !o.deleted {
      MirrorLeaves(s.leases, s.disk, m, Placed(s, o).value, o.resolution.value.identity);
    } else {
      assert m.left + f == m.left;
    }
  }

  lemma ServedGetKeepsInv(s: State, m: Marks, rid: RequestId, o: Outside)
    requires Inv(s, m) && o.token !in s.leases && !GetStep(s, rid, o).1.Failed?
    ensures Inv(GetStep(s, rid, o).0, m)
  {
    ServedGet(s, rid, o);
    match o.resolution.value {
      case Undeclared =>
      case Missing =>
      case Value(files) => TotalUpdate(s.pendingSupporting, rid, files);
      case File(identity, files) =>
        GrantKeepsInv(s, m, rid, o.token, Lease(GetStep(s, rid, o).1.path, identity), files);
    }
  }

  lemma GetKeepsInv(s: State, m: Marks, rid: RequestId, o: Outside)
    requires Inv(s, m) && o.token !in s.leases
    ensures Inv(GetStep(s, rid, o).0, m.(left := m.left + Failures(s, Get(rid, o))))
  {
    if s.open && GetStep(s, rid, o).1.Failed? {
      FailedGetKeepsInv(s, m, rid, o);
    } else {
      assert m.left + Failures(s, Get(rid, o)) == m.left;
      if s.open {
        ServedGetKeepsInv(s, m, rid, o);
      }
    }
  }

  lemma SettledKeepsInv(s: State, m: Marks, rid: RequestId)
    requires Inv(s, m) && s.open
    ensures var files := if rid in s.pendingSupporting then s.pendingSupporting[rid] else [];
            Inv(Settled(s, rid), m) && Inv(Settled(s, rid).(supporting := s.supporting + files), m)
  {
    if rid in s.pendingSupporting {
      TotalWithout(s.pendingSupporting, rid);
    } else {
      assert s.pendingSupporting - {rid} == s.pendingSupporting;
    }
  }

  lemma AbortUnremoved(s: State, rid: RequestId, removals: Removals)
    ensures Failures(s, Finish(rid, false, removals)) == Unremoved(Settled(s, rid), PendingLease(s, rid), removals)
  {
  }

  lemma AbortKeepsInv(s: State, m: Marks, rid: RequestId, removals: Removals)
    requires Inv(s, m) && s.open
    ensures Inv(FinishStep(s, rid, false, removals), m.(left := m.left + Failures(s, Finish(rid, false, removals))))
  {
    SettledKeepsInv(s, m, rid);
    AbortUnremoved(s, rid, removals);
    DropKeepsInv(Settled(s, rid), m, PendingLease(s, rid), removals);
  }

  lemma FinishKeepsInv(s: State, m: Marks, rid: RequestId, committed: bool, removals: Removals)
    requires Inv(s, m)
    ensures Inv(FinishStep(s, rid, committed, removals),
                m.(left := m.left + Failures(s, Finish(rid, committed, removals))))
  {
    if s.open && !committed {
      AbortKeepsInv(s, m, rid, removals);
    } else {
      assert Ends(s, Finish(rid, committed, removals)) == {};
      assert m.left + Failures(s, Finish(rid, committed, removals)) == m.left;
      if s.open {
        SettledKeepsInv(s, m, rid);
      }
    }
  }

  lemma ReleaseKeepsInv(s: State, m: Marks, ids: seq<LeaseId>, removals: Removals)
    requires Inv(s, m)
    ensures Inv(ReleaseStep(s, ids, removals).0, m.(left := m.left + Failures(s, Release(ids, removals))))
  {
    var f := Failures(s, Release(ids, removals));
    if s.open {
      DropKeepsInv(s, m, IdSet(ids), removals);
      assert f == Unremoved(s, IdSet(ids), removals);
    } else {
      assert m.left + f == m.left;
    }
  }

  lemma MirrorSweeps(disk: map<string, nat>, m: Marks, swept: set<string>)
    requires Mirrors(map[], disk, m)
    ensures Mirrors(map[], disk - swept, m.(left := m.left - swept))
  {
    assert Paths(map[]) == {};
  }

  lemma MirrorsNoLease(disk: map<string, nat>, m: Marks)
    requires Mirrors(map[], disk, m)
    ensures forall path | path !in m.touched :: path in disk <==> path in m.left
    ensures m.touched == {} ==> (disk == map[] <==> m.left == {})
  {
    assert Paths(map[]) == {};
    if m.touched == {} {
      assert disk.Keys == m.left;
    }
  }

  lemma ShutdownMirrors(s: State, m: Marks, removals: Removals, swept: set<string>)
    requires Inv(s, m) && s.open
    ensures Mirrors(map[], ShutdownStep(s, removals, swept).disk,
                    m.(left := m.left + Unremoved(s, s.leases.Keys, removals) - swept))
  {
    MirrorDrops(s, m, s.leases.Keys, removals);
    var t := DropLeases(s, s.leases.Keys, removals);
    assert t.leases == map[];
    MirrorSweeps(t.disk, m.(left := m.left + Unremoved(s, s.leases.Keys, removals)), swept);
  }

  /**
   * Shutdown empties every table. Of the untouched files exactly those stay
   * whose removal failed, now or before, and that did not go with the
   * directory; so if nothing was touched it leaves nothing exactly when there
   * are none of those.
   */
  lemma ShutdownLeavesNothing(s: State, m: Marks, removals: Removals, swept: set<string>)
    requires Inv(s, m) && s.open
    ensures var t, stays := ShutdownStep(s, removals, swept), m.left + Unremoved(s, s.leases.Keys, removals) - swept;
            && t == CLOSED.(disk := t.disk)
            && (forall path | path !in m.touched :: path in t.disk <==> path in stays)
            && (m.touched == {} ==> (t == CLOSED <==> stays == {}))
  {
    ShutdownMirrors(s, m, removals, swept);
    var stays := m.left + Unremoved(s, s.leases.Keys, removals) - swept;
    MirrorsNoLease(ShutdownStep(s, removals, swept).disk, Marks(stays, m.touched));
  }

  // ---------------------------------------------------------------- what get answers

  /** A path is not handed out as a value nor a value as a path; `auto` takes either. */
  predicate Fits(path: bool, r: Representation) {
    match r
    case AutoRep => true
    case ValueRep => !path
    case PathRep => path
  }

  /** The declaration could be looked up, and the representation asked for fits it. */
  predicate Admitted(declared: Declaration, r: Representation) {
    match declared
    case LookupFailed => false
    case NotDeclared => true
    case DeclaredValue => Fits(false, r)
    case DeclaredPath => Fits(true, r)
  }

  /** The session is open and the request is admitted, resolved and not cancelled in the meantime. */
  predicate Resolved(s: State, o: Outside) {
    s.open && Admitted(o.declared, o.representation) && o.resolution.Some? && !o.cancelledEarly
  }

  /** The first `i` of the eight random names are taken. */
  predicate Taken(disk: map<string, nat>, attempts: nat -> Attempt, i: nat) {
    forall j | 0 <= j < i :: attempts(j).ioOk && attempts(j).path in disk
  }

  /** The file lands under the `i`-th name. */
  predicate LandsAt(disk: map<string, nat>, attempts: nat -> Attempt, i: nat) {
    i < 8 && Taken(disk, attempts, i) && attempts(i).ioOk && attempts(i).path !in disk
  }

  predicate BreaksAt(disk: map<string, nat>, attempts: nat -> Attempt, i: nat) {
    i < 8 && Taken(disk, attempts, i) && !attempts(i).ioOk
  }

  lemma {:induction false} PersistTakes(disk: map<string, nat>, attempts: nat -> Attempt, i: nat)
    requires i <= 8 && Taken(disk, attempts, i)
    ensures var r := Persist(disk, attempts, i);
            match r
            case Ok(path) => exists k | i <= k < 8 :: LandsAt(disk, attempts, k) && attempts(k).path == path
            case Err(kind) =>
              || (kind == OperationFailed && exists k | i <= k < 8 :: BreaksAt(disk, attempts, k))
              || (kind == Unavailable && Taken(disk, attempts, 8))
    decreases 8 - i
  {
    if i < 8 {
      if attempts(i).ioOk && attempts(i).path in disk {
        PersistTakes(disk, attempts, i + 1);
      } else if attempts(i).ioOk {
        assert LandsAt(disk, attempts, i);
      } else {
        assert BreaksAt(disk, attempts, i);
      }
    }
  }

  /** The three ways placing a file can end, and what each looks like from outside. */
  lemma PlacementExactly(disk: map<string, nat>, attempts: nat -> Attempt)
    ensures var r := Persist(disk, attempts, 0);
            && (forall i: nat | LandsAt(disk, attempts, i) :: r == Ok(attempts(i).path))
            && (r.Ok? <==> exists i: nat :: LandsAt(disk, attempts, i))
            && (r == Err(OperationFailed) <==> exists i: nat :: BreaksAt(disk, attempts, i))
            && (r == Err(Unavailable) <==> Taken(disk, attempts, 8))
            && (r.Ok? || r == Err(OperationFailed) || r == Err(Unavailable))
  {
    PersistTakes(disk, attempts, 0);
    forall i: nat, k: nat | LandsAt(disk, attempts, i) && LandsAt(disk, attempts, k)
      ensures i == k
    {
    }
  }

  ghost predicate Places(s: State, o: Outside) {
    exists i: nat :: LandsAt(s.disk, o.attempts, i)
  }

  /** A resolved file whose representation fits. */
  predicate FileDue(s: State, o: Outside) {
    Resolved(s, o) && o.resolution.value.File? && Fits(true, o.representation)
  }

  predicate ValueDue(s: State, o: Outside) {
    Resolved(s, o) && o.resolution.value.Value? && Fits(false, o.representation)
  }

  /** A file that is in place and identified, for a request still wanted. */
  ghost predicate LeaseDue(s: State, o: Outside) {
    FileDue(s, o) && Places(s, o) && o.identityOk && !o.cancelledLate
  }

  ghost predicate RoomForFiles(s: State, files: seq<string>) {
    |s.supporting| + Total(s.pendingSupporting) + |files| <= 4096
  }

  /** When `get` fails, kind by kind. */
  ghost predicate FailsAs(s: State, o: Outside, kind: ErrorKind) {
    match kind
    case Internal => !s.open
    case ResolverFailed =>
      s.open && (o.declared.LookupFailed? || (Admitted(o.declared, o.representation) && o.resolution.None?))
    case RepresentationMismatch =>
      || (s.open && !o.declared.LookupFailed? && !Admitted(o.declared, o.representation))
      || (Resolved(s, o) && o.resolution.value.Value? && !Fits(false, o.representation))
      || (Resolved(s, o) && o.resolution.value.File? && !Fits(true, o.representation))
    case Cancelled =>
      || (s.open && Admitted(o.declared, o.representation) && o.resolution.Some? && o.cancelledEarly)
      || (FileDue(s, o) && Places(s, o) && o.identityOk && o.cancelledLate)
    case OperationFailed =>
      FileDue(s, o) && ((exists i: nat :: BreaksAt(s.disk, o.attempts, i)) || (Places(s, o) && !o.identityOk))
    case Unavailable =>
      || (ValueDue(s, o) && !RoomForFiles(s, o.resolution.value.supporting))
      || (FileDue(s, o) && Taken(s.disk, o.attempts, 8))
      || (LeaseDue(s, o) && (!RoomForFiles(s, o.resolution.value.supporting) || 1024 <= |s.leases|))
    case Conflict => false
  }

  lemma FileAnswers(s: State, rid: RequestId, o: Outside)
    requires Resolved(s, o) && o.resolution.value.File?
    ensures var reply := GetFileStep(s, rid, o.resolution.value.identity, o.resolution.value.supporting, o).1;
            && (forall kind :: reply == Failed(kind) <==> FailsAs(s, o, kind))
            && (reply.PathReply? <==>
                  LeaseDue(s, o) && RoomForFiles(s, o.resolution.value.supporting) && |s.leases| < 1024)
            && (reply.PathReply? || reply.Failed?)
            && (reply.PathReply? ==> forall i: nat | LandsAt(s.disk, o.attempts, i) :: reply.path == o.attempts(i).path)
  {
    PlacementExactly(s.disk, o.attempts);
  }

  /**
   * What `get` answers, for every state and everything it may learn from
   * outside: each failure under exactly its condition, and otherwise what was
   * resolved, a file under the first free name it was offered.
   */
  lemma GetAnswers(s: State, rid: RequestId, o: Outside)
    ensures var reply := GetStep(s, rid, o).1;
            && (forall kind :: reply == Failed(kind) <==> FailsAs(s, o, kind))
            && (reply == UndeclaredReply <==> Resolved(s, o) && o.resolution.value.Undeclared?)
            && (reply == MissingReply <==> Resolved(s, o) && o.resolution.value.Missing?)
            && (reply == ValueReply <==> ValueDue(s, o) && RoomForFiles(s, o.resolution.value.supporting))
            && (reply.PathReply? <==>
                  LeaseDue(s, o) && RoomForFiles(s, o.resolution.value.supporting) && |s.leases| < 1024)
            && (reply.PathReply? ==>
                  && reply.leaseId == o.token
                  && forall i: nat | LandsAt(s.disk, o.attempts, i) :: reply.path == o.attempts(i).path)
  {
    if Resolved(s, o) && o.resolution.value.File? {
      FileAnswers(s, rid, o);
    }
  }

  // ---------------------------------------------------------------- get, then abort or commit

  lemma AbortUndoesGrant(s: State, rid: RequestId, id: LeaseId, lease: Lease, files: seq<string>, removals: Removals)
    requires s.open && rid !in s.pendingLeases && rid !in s.pendingSupporting && id !in s.leases && lease.path !in s.disk
    ensures var t := Granted(s, rid, id, lease, files);
            && FinishStep(t, rid, false, removals) == TakenBack(s, lease, removals(id).Works())
            && Failures(t, Finish(rid, false, removals)) == if removals(id).Works() then {} else {lease.path}
  {
    PutBack(s.pendingSupporting, rid, files);
    PutBack(s.pendingLeases, rid, id);
    PutBack(s.leases, id, lease);
    PutBack(s.disk, lease.path, lease.identity);
    var t := Granted(s, rid, id, lease, files);
    assert PendingLease(t, rid) == {id} && t.leases[id] == lease;
  }

  lemma AbortUndoesRetain(s: State, rid: RequestId, files: seq<string>, removals: Removals)
    requires s.open && rid !in s.pendingLeases
    ensures var t := s.(pendingSupporting := s.pendingSupporting[rid := files]);
            && FinishStep(s, rid, false, removals) == s.(pendingSupporting := s.pendingSupporting - {rid})
            && FinishStep(t, rid, false, removals) == s.(pendingSupporting := s.pendingSupporting - {rid})
            && Failures(s, Finish(rid, false, removals)) == Failures(t, Finish(rid, false, removals)) == {}
  {
    assert s.pendingLeases - {rid} == s.pendingLeases;
    assert s.leases - {} == s.leases && s.disk - {} == s.disk;
    assert s.pendingSupporting[rid := files] - {rid} == s.pendingSupporting - {rid};
  }

  lemma AbortOfNothing(t: State, rid: RequestId, removals: Removals)
    requires t.open && rid !in t.pendingLeases && rid !in t.pendingSupporting
    ensures FinishStep(t, rid, false, removals) == t && Failures(t, Finish(rid, false, removals)) == {}
  {
    AbortUndoesRetain(t, rid, [], removals);
    assert t.pendingSupporting - {rid} == t.pendingSupporting;
  }

  lemma AbortAfterFailure(s: State, rid: RequestId, t: State, f: set<string>, removals: Removals)
    requires s.open && rid !in s.pendingLeases && rid !in s.pendingSupporting
    requires t == s.(disk := t.disk) && Plus(s.disk, f, t.disk) && (t.disk == s.disk <==> f == {})
    ensures RestoredBut(s, f + Failures(t, Finish(rid, false, removals)), FinishStep(t, rid, false, removals))
  {
    AbortOfNothing(t, rid, removals);
    assert f + {} == f;
  }

  lemma AbortAfterGrant(s: State, rid: RequestId, id: LeaseId, lease: Lease, files: seq<string>, removals: Removals)
    requires s.open && rid !in s.pendingLeases && rid !in s.pendingSupporting && id !in s.leases && lease.path !in s.disk
    ensures var t := Granted(s, rid, id, lease, files);
            RestoredBut(s, Failures(t, Finish(rid, false, removals)), FinishStep(t, rid, false, removals))
  {
    AbortUndoesGrant(s, rid, id, lease, files, removals);
    TakenBackRestores(s, lease, removals(id).Works());
  }

  lemma AbortAfterRetain(s: State, rid: RequestId, files: seq<string>, removals: Removals)
    requires s.open && rid !in s.pendingLeases && rid !in s.pendingSupporting
    ensures var t := s.(pendingSupporting := s.pendingSupporting[rid := files]);
            FinishStep(t, rid, false, removals) == s && Failures(t, Finish(rid, false, removals)) == {}
  {
    AbortUndoesRetain(s, rid, files, removals);
    assert s.pendingSupporting - {rid} == s.pendingSupporting;
  }

  lemma AbortAfterService(s: State, rid: RequestId, o: Outside, t: State, reply: Reply, removals: Removals)
    requires s.open && rid !in s.pendingLeases && rid !in s.pendingSupporting && o.token !in s.leases
    requires o.resolution.Some? && Served(s, rid, o, t, reply)
    ensures RestoredBut(s, Failures(t, Finish(rid, false, removals)), FinishStep(t, rid, false, removals))
  {
    NothingLeft(s);
    match o.resolution.value {
      case Undeclared => AbortOfNothing(s, rid, removals);
      case Missing => AbortOfNothing(s, rid, removals);
      case Value(files) => AbortAfterRetain(s, rid, files, removals);
      case File(identity, files) =>
        AbortAfterGrant(s, rid, o.token, Lease(reply.path, identity), files, removals);
    }
  }

  lemma EmptyPlus<T>(g: set<T>)
    ensures {} + g == g
  {
  }

  lemma AbortRestores(
    s: State, rid: RequestId, o: Outside, t: State, reply: Reply, f: set<string>, removals: Removals)
    requires s.open && rid !in s.pendingLeases && rid !in s.pendingSupporting && o.token !in s.leases
    requires reply.Failed? ==> t == s.(disk := t.disk) && Plus(s.disk, f, t.disk) && (t.disk == s.disk <==> f == {})
    requires !reply.Failed? ==> o.resolution.Some? && Served(s, rid, o, t, reply) && f == {}
    ensures RestoredBut(s, f + Failures(t, Finish(rid, false, removals)), FinishStep(t, rid, false, removals))
  {
    if reply.Failed? {
      AbortAfterFailure(s, rid, t, f, removals);
    } else {
      EmptyPlus(Failures(t, Finish(rid, false, removals)));
      AbortAfterService(s, rid, o, t, reply, removals);
    }
  }

  /**
   * Abort is the inverse of `get`: whatever the request produced, aborting it
   * restores every table, and the directory but for a file whose removal
   * failed; so it restores the state exactly when no removal failed.
   */
  lemma AbortUndoesGet(s: State, rid: RequestId, o: Outside, removals: Removals)
    requires s.open && rid !in s.pendingLeases && rid !in s.pendingSupporting && o.token !in s.leases
    ensures var t := GetStep(s, rid, o).0;
            RestoredBut(s, Failures(s, Get(rid, o)) + Failures(t, Finish(rid, false, removals)),
                        FinishStep(t, rid, false, removals))
  {
    var (t, reply) := GetStep(s, rid, o);
    var f := Failures(s, Get(rid, o));
    if reply.Failed? {
      FailedGetUndoesItself(s, rid, o);
    } else {
      ServedGet(s, rid, o);
    }
    AbortRestores(s, rid, o, t, reply, f, removals);
  }

  lemma CommitKeepsGrant(s: State, rid: RequestId, id: LeaseId, lease: Lease, files: seq<string>, removals: Removals)
    requires s.open
    ensures var t := Granted(s, rid, id, lease, files);
            FinishStep(t, rid, true, removals) ==
            t.(pendingLeases := s.pendingLeases - {rid}, pendingSupporting := s.pendingSupporting - {rid},
               supporting := s.supporting + files)
  {
    assert s.pendingLeases[rid := id] - {rid} == s.pendingLeases - {rid};
    assert s.pendingSupporting[rid := files] - {rid} == s.pendingSupporting - {rid};
  }

  /** Commit keeps the lease and its file, and the supporting files join the retained ones. */
  lemma CommitKeepsGet(s: State, rid: RequestId, o: Outside, removals: Removals)
    requires s.open && GetStep(s, rid, o).1.PathReply?
    ensures var (t, reply) := GetStep(s, rid, o);
            var u := FinishStep(t, rid, true, removals);
            && u.leases == t.leases && u.disk == t.disk && reply.leaseId in u.leases
            && OwnsFile(u.disk, u.leases[reply.leaseId]) && u.leases[reply.leaseId].path == reply.path
            && u.supporting == s.supporting + o.resolution.value.supporting
            && rid !in u.pendingLeases && rid !in u.pendingSupporting
  {
    ServedGet(s, rid, o);
    var File(identity, files) := o.resolution.value;
    CommitKeepsGrant(s, rid, o.token, Lease(GetStep(s, rid, o).1.path, identity), files, removals);
  }

  // ---------------------------------------------------------------- runs

  /**
   * What a run did with the leases it granted: who asked for each, which ended, and which of those by
   * `release`; and what it left in the directory.
   */
  datatype History = History(
    granted: map<LeaseId, RequestId>, ended: set<LeaseId>, released: set<LeaseId>, replied: nat, marks: Marks)

  const NO_HISTORY := History(map[], {}, {}, 0, NO_MARKS)

  ghost function Extend(h: History, s: State, q: Request): History {
    var reply := Step(s, q).1;
    History(
      if q.Get? && reply.PathReply? then h.granted[q.outside.token := q.rid] else h.granted,
      h.ended + Ends(s, q),
      if q.Release? then h.released + Ends(s, q) else h.released,
      h.replied + (if q.Release? && reply.Released? then reply.count else 0),
      NextMarks(h.marks, s, q))
  }

  /** Lease tokens are 128 random bits: no request is ever handed one that was granted before. */
  ghost predicate Fresh(h: History, q: Request) {
    q.Get? ==> q.outside.token !in h.granted
  }

  ghost function Run(qs: seq<Request>): (State, History) {
    if qs == [] then (CLOSED, NO_HISTORY)
    else
      var (s, h) := Run(qs[..|qs| - 1]);
      var q := qs[|qs| - 1];
      (Step(s, q).0, Extend(h, s, q))
  }

  ghost predicate AllFresh(qs: seq<Request>) {
    forall i | 0 <= i < |qs| :: Fresh(Run(qs[..i]).1, qs[i])
  }

  /** Every lease ever granted is live or ended and not both; a pending lease belongs to its request. */
  ghost predicate Accounted(s: State, h: History) {
    && h.granted.Keys == s.leases.Keys + h.ended
    && s.leases.Keys !! h.ended
    && h.released <= h.ended
    && |h.released| == h.replied
    && (forall rid | rid in s.pendingLeases ::
          s.pendingLeases[rid] in h.granted && h.granted[s.pendingLeases[rid]] == rid)
  }

  /** The lease a request is granted, if it is. */
  ghost function Grants(s: State, q: Request): map<LeaseId, RequestId> {
    if q.Get? && Step(s, q).1.PathReply? then map[q.outside.token := q.rid] else map[]
  }

  lemma DropMovesLeases(s: State, ids: set<LeaseId>)
    ensures (s.leases - ids).Keys == s.leases.Keys - ids * s.leases.Keys
  {
  }

  lemma GetMovesLeases(s: State, rid: RequestId, o: Outside)
    ensures var (t, reply) := GetStep(s, rid, o);
            if reply.PathReply? then t.leases.Keys == s.leases.Keys + {o.token} else t.leases == s.leases
  {
    if GetStep(s, rid, o).1.Failed? {
      RefusedGet(s, rid, o);
    } else {
      ServedGet(s, rid, o);
      ServedMovesLeases(s, rid, o, GetStep(s, rid, o).0, GetStep(s, rid, o).1);
    }
  }

  lemma ServedMovesLeases(s: State, rid: RequestId, o: Outside, t: State, reply: Reply)
    requires o.resolution.Some? && Served(s, rid, o, t, reply)
    ensures if reply.PathReply? then t.leases.Keys == s.leases.Keys + {o.token} else t.leases == s.leases
  {
  }

  lemma ReleaseMovesLeases(s: State, ids: seq<LeaseId>, removals: Removals)
    requires Idle(s)
    ensures ReleaseStep(s, ids, removals).0.leases.Keys == s.leases.Keys - Ends(s, Release(ids, removals))
  {
    DropMovesLeases(s, IdSet(ids));
  }

  lemma FinishMovesLeases(s: State, rid: RequestId, committed: bool, removals: Removals)
    requires Idle(s)
    ensures FinishStep(s, rid, committed, removals).leases.Keys ==
            s.leases.Keys - Ends(s, Finish(rid, committed, removals))
  {
    DropMovesLeases(s, PendingLease(s, rid));
  }

  /** A step other than `get` removes exactly the leases it ends. */
  lemma StepEndsLeases(s: State, q: Request)
    requires !q.Get? && Idle(s)
    ensures Step(s, q).0.leases.Keys == s.leases.Keys - Ends(s, q)
  {
    match q {
      case Initialize =>
      case Release(ids, removals) => ReleaseMovesLeases(s, ids, removals);
      case Finish(rid, committed, removals) => FinishMovesLeases(s, rid, committed, removals);
      case Shutdown(_, _) =>
      case Interfere(_, _) =>
    }
  }

  /** A step removes exactly the leases it ends, and adds only the one it grants. */
  lemma StepMovesLeases(s: State, q: Request)
    requires Idle(s)
    ensures Step(s, q).0.leases.Keys == s.leases.Keys - Ends(s, q) + Grants(s, q).Keys
  {
    if q.Get? {
      GetMovesLeases(s, q.rid, q.outside);
      assert Ends(s, q) == {};
    } else {
      StepEndsLeases(s, q);
      assert Grants(s, q) == map[];
    }
  }

  /** A step leaves a pending lease with its request. */
  lemma StepMovesPending(s: State, q: Request, rid: RequestId)
    requires rid in Step(s, q).0.pendingLeases
    ensures var id := Step(s, q).0.pendingLeases[rid];
            (rid in s.pendingLeases && id == s.pendingLeases[rid]) || Grants(s, q) == map[id := rid]
  {
    match q {
      case Initialize =>
      case Get(_, o) => if GetStep(s, q.rid, o).1.Failed? { RefusedGet(s, q.rid, o); } else { ServedGet(s, q.rid, o); }
      case Release(_, _) =>
      case Finish(_, _, _) =>
      case Shutdown(_, _) =>
      case Interfere(_, _) =>
    }
  }

  lemma DisjointAdd<T>(a: set<T>, b: set<T>)
    requires a !! b
    ensures |a + b| == |a| + |b|
  {
  }

  lemma ReleaseReplies(s: State, h: History, q: Request)
    requires Accounted(s, h) && Idle(s)
    ensures |Extend(h, s, q).released| == Extend(h, s, q).replied
  {
    if q.Release? {
      DisjointAdd(h.released, Ends(s, q));
      assert !s.open ==> Ends(s, q) == {};
    }
  }

  lemma AccountMoves(live: set<LeaseId>, h: History, ends: set<LeaseId>, grants: map<LeaseId, RequestId>)
    requires h.granted.Keys == live + h.ended && live !! h.ended
    requires ends <= live && grants.Keys !! h.granted.Keys
    ensures (h.granted + grants).Keys == (live - ends + grants.Keys) + (h.ended + ends)
    ensures (live - ends + grants.Keys) !! (h.ended + ends)
  {
  }

  lemma ExtendMoves(s: State, h: History, q: Request)
    ensures Extend(h, s, q).granted == h.granted + Grants(s, q)
    ensures Extend(h, s, q).ended == h.ended + Ends(s, q) && Ends(s, q) <= s.leases.Keys
    ensures h.released <= h.ended ==> Extend(h, s, q).released <= Extend(h, s, q).ended
    ensures Fresh(h, q) ==> Grants(s, q).Keys !! h.granted.Keys
  {
  }

  lemma PendingStaysOwned(s: State, h: History, q: Request, rid: RequestId)
    requires Accounted(s, h) && Fresh(h, q) && rid in Step(s, q).0.pendingLeases
    ensures var id := Step(s, q).0.pendingLeases[rid];
            id in Extend(h, s, q).granted && Extend(h, s, q).granted[id] == rid
  {
    StepMovesPending(s, q, rid);
    ExtendMoves(s, h, q);
    assert rid in s.pendingLeases ==> h.granted[s.pendingLeases[rid]] == rid;
  }

  lemma Balance(s: State, h: History, t: State, h': History, ends: set<LeaseId>, grants: map<LeaseId, RequestId>)
    requires Accounted(s, h) && ends <= s.leases.Keys && grants.Keys !! h.granted.Keys
    requires t.leases.Keys == s.leases.Keys - ends + grants.Keys
    requires h'.granted == h.granted + grants && h'.ended == h.ended + ends
    requires h'.released <= h'.ended && |h'.released| == h'.replied
    requires forall rid | rid in t.pendingLeases ::
               t.pendingLeases[rid] in h'.granted && h'.granted[t.pendingLeases[rid]] == rid
    ensures Accounted(t, h')
  {
    AccountMoves(s.leases.Keys, h, ends, grants);
  }

  lemma StepKeepsAccount(s: State, h: History, q: Request)
    requires Accounted(s, h) && Fresh(h, q) && Idle(s)
    ensures Accounted(Step(s, q).0, Extend(h, s, q))
  {
    StepMovesLeases(s, q);
    ExtendMoves(s, h, q);
    ReleaseReplies(s, h, q);
    forall rid | rid in Step(s, q).0.pendingLeases
      ensures var id := Step(s, q).0.pendingLeases[rid];
              id in Extend(h, s, q).granted && Extend(h, s, q).granted[id] == rid
    {
      PendingStaysOwned(s, h, q, rid);
    }
    Balance(s, h, Step(s, q).0, Extend(h, s, q), Ends(s, q), Grants(s, q));
  }

  lemma ShutdownKeepsInv(s: State, m: Marks, removals: Removals, swept: set<string>)
    requires Inv(s, m)
    ensures Inv(ShutdownStep(s, removals, swept), NextMarks(m, s, Shutdown(removals, swept)))
  {
    if s.open {
      ShutdownMirrors(s, m, removals, swept);
      assert Total(map[]) == 0;
    }
  }

  lemma InterfereKeepsInv(s: State, m: Marks, path: string, file: Option<nat>)
    requires Inv(s, m)
    ensures Inv(Step(s, Interfere(path, file)).0, m.(touched := m.touched + {path}))
  {
  }

  lemma StepKeepsInv(s: State, m: Marks, q: Request)
    requires Inv(s, m) && (q.Get? ==> q.outside.token !in s.leases)
    ensures Inv(Step(s, q).0, NextMarks(m, s, q))
  {
    match q {
      case Initialize => assert Total(map[]) == 0;
      case Get(rid, o) => GetKeepsInv(s, m, rid, o);
      case Release(ids, removals) => ReleaseKeepsInv(s, m, ids, removals);
      case Finish(rid, committed, removals) => FinishKeepsInv(s, m, rid, committed, removals);
      case Shutdown(removals, swept) => ShutdownKeepsInv(s, m, removals, swept);
      case Interfere(path, file) => InterfereKeepsInv(s, m, path, file);
    }
  }

  lemma AllFreshPrefix(qs: seq<Request>, n: nat)
    requires AllFresh(qs) && n <= |qs|
    ensures AllFresh(qs[..n])
  {
    forall i | 0 <= i < n
      ensures Fresh(Run(qs[..n][..i]).1, qs[..n][i])
    {
      assert qs[..n][..i] == qs[..i];
      assert Fresh(Run(qs[..i]).1, qs[i]);
    }
  }

  /**
   * In every state any run reaches, whatever removals fail and whatever
   * others do to the directory: off the paths others touched, the directory
   * is exactly the files of live leases, each its own at a path of its own,
   * and the files whose removal failed; both caps hold; every lease ever
   * granted is live or has ended; the counts `release` replied add up to the
   * leases it ended; and a pending lease belongs to the request it is pending
   * for.
   */
  lemma {:induction false} EveryRunIsSafe(qs: seq<Request>)
    requires AllFresh(qs)
    ensures Inv(Run(qs).0, Run(qs).1.marks) && Accounted(Run(qs).0, Run(qs).1)
    decreases |qs|
  {
    if qs == [] {
      assert Total(map[]) == 0;
      assert Paths(map[]) == {};
    } else {
      var n := |qs| - 1;
      AllFreshPrefix(qs, n);
      EveryRunIsSafe(qs[..n]);
      var (s, h) := Run(qs[..n]);
      assert Fresh(h, qs[n]);
      StepKeepsAccount(s, h, qs[n]);
      StepKeepsInv(s, h.marks, qs[n]);
    }
  }

  lemma UntouchedIsExact(leases: map<LeaseId, Lease>, disk: map<string, nat>, m: Marks)
    requires Mirrors(leases, disk, m) && m.touched == {}
    ensures disk.Keys == Paths(leases) + m.left && Paths(leases) !! m.left
    ensures disk.Keys == Paths(leases) <==> m.left == {}
    ensures forall i, j | i in leases && j in leases && i != j :: leases[i].path != leases[j].path
    ensures forall id | id in leases :: OwnsFile(disk, leases[id])
  {
    assert disk.Keys == Paths(leases) + m.left;
  }

  /** As long as nobody else touches the directory it is exact if and only if no removal has failed in it. */
  lemma DirectoryIsExact(qs: seq<Request>)
    requires AllFresh(qs) && Run(qs).1.marks.touched == {}
    ensures var (s, h) := Run(qs);
            && s.disk.Keys == Paths(s.leases) + h.marks.left && Paths(s.leases) !! h.marks.left
            && (s.disk.Keys == Paths(s.leases) <==> h.marks.left == {})
            && (forall i, j | i in s.leases && j in s.leases && i != j :: s.leases[i].path != s.leases[j].path)
            && (forall id | id in s.leases :: OwnsFile(s.disk, s.leases[id]))
  {
    EveryRunIsSafe(qs);
    UntouchedIsExact(Run(qs).0.leases, Run(qs).0.disk, Run(qs).1.marks);
  }

  /** A release counts the lease as released even where its file could not be removed and stays. */
  lemma FailedRemovalLeavesFile(s: State, id: LeaseId, removals: Removals)
    requires s.open && id in s.leases && OwnsFile(s.disk, s.leases[id]) && !removals(id).Works()
    ensures var (t, reply) := ReleaseStep(s, [id], removals);
            reply == Released(1) && id !in t.leases && t.disk == s.disk
  {
    assert IdSet([id]) == {id} && {id} * s.leases.Keys == {id};
    assert s.disk - {} == s.disk;
  }

  /** Neither a failing removal nor a foreign hand. */
  ghost predicate Undisturbed(s: State, q: Request) {
    Failures(s, q) == {} && !q.Interfere?
  }

  /** A run in which every removal works and nobody interferes leaves no marks. */
  lemma {:induction false} UndisturbedLeavesNoMarks(qs: seq<Request>)
    requires forall i | 0 <= i < |qs| :: Undisturbed(Run(qs[..i]).0, qs[i])
    ensures Run(qs).1.marks == NO_MARKS
    decreases |qs|
  {
    if qs != [] {
      var n := |qs| - 1;
      forall i | 0 <= i < n
        ensures Undisturbed(Run(qs[..n][..i]).0, qs[..n][i])
      {
        assert qs[..n][..i] == qs[..i];
        assert Undisturbed(Run(qs[..i]).0, qs[i]);
      }
      UndisturbedLeavesNoMarks(qs[..n]);
      assert Undisturbed(Run(qs[..n]).0, qs[n]);
    }
  }

  // ---------------------------------------------------------------- other people's files

  /**
   * Whatever the state, a handler overwrites no file and deletes none but the
   * very file an ended lease was granted for; only removing the directory
   * itself, after a shutdown, takes others.
   */
  lemma HandlersDeleteOnlyTheirOwn(s: State, q: Request, path: string)
    requires path in s.disk && !q.Interfere? && (q.Initialize? ==> s.open)
    ensures var t := Step(s, q).0;
            || (path in t.disk && t.disk[path] == s.disk[path])
            || (path !in t.disk && q.Shutdown? && path in q.swept)
            || (path !in t.disk && exists id :: id in Ends(s, q) && s.leases[id] == Lease(path, s.disk[path]))
  {
    match q {
      case Initialize =>
      case Get(rid, o) =>
        if GetStep(s, rid, o).1.Failed? { RefusedGet(s, rid, o); } else { ServedGet(s, rid, o); }
      case Release(ids, removals) => DropDeletesOwn(s, IdSet(ids), removals, path);
      case Finish(rid, committed, removals) =>
        if !committed { DropDeletesOwn(Settled(s, rid), PendingLease(s, rid), removals, path); }
      case Shutdown(removals, swept) => DropDeletesOwn(s, s.leases.Keys, removals, path);
    }
  }

  lemma DropDeletesOwn(s: State, ids: set<LeaseId>, removals: Removals, path: string)
    requires path in s.disk
    ensures var t := DropLeases(s, ids, removals);
            if path in t.disk then t.disk[path] == s.disk[path]
            else exists id :: id in ids * s.leases.Keys && s.leases[id] == Lease(path, s.disk[path])
  {
    if path !in DropLeases(s, ids, removals).disk {
      var id :| id in ids && id in s.leases && Deletes(s, id, removals) && s.leases[id].path == path;
      assert id in ids * s.leases.Keys && s.leases[id] == Lease(path, s.disk[path]);
    }
  }

  /** A file that a live lease holds open keeps its identity to itself: no `get` brings another one with it. */
  ghost predicate Held(s: State, q: Request) {
    q.Get? && q.outside.resolution.Some? && q.outside.resolution.value.File? ==>
      forall id | id in s.leases :: s.leases[id].identity != q.outside.resolution.value.identity
  }

  ghost predicate AllHeld(qs: seq<Request>) {
    forall i | 0 <= i < |qs| :: Held(Run(qs[..i]).0, qs[i])
  }

  ghost predicate DistinctFiles(leases: map<LeaseId, Lease>) {
    forall i, j | i in leases && j in leases && i != j :: leases[i].identity != leases[j].identity
  }

  lemma StepKeepsDistinct(s: State, q: Request)
    requires DistinctFiles(s.leases) && Held(s, q)
    ensures DistinctFiles(Step(s, q).0.leases)
  {
    if q.Get? {
      if GetStep(s, q.rid, q.outside).1.Failed? {
        RefusedGet(s, q.rid, q.outside);
      } else {
        ServedGet(s, q.rid, q.outside);
      }
    }
  }

  lemma {:induction false} FilesStayDistinct(qs: seq<Request>)
    requires AllHeld(qs)
    ensures DistinctFiles(Run(qs).0.leases)
    decreases |qs|
  {
    if qs != [] {
      var n := |qs| - 1;
      forall i | 0 <= i < n
        ensures Held(Run(qs[..n][..i]).0, qs[..n][i])
      {
        assert qs[..n][..i] == qs[..i];
        assert Held(Run(qs[..i]).0, qs[i]);
      }
      FilesStayDistinct(qs[..n]);
      assert Held(Run(qs[..n]).0, qs[n]);
      StepKeepsDistinct(Run(qs[..n]).0, qs[n]);
    }
  }

  lemma SurvivorKeepsFile(s: State, q: Request, id: LeaseId)
    requires DistinctFiles(s.leases) && Idle(s) && !q.Interfere?
    requires id in s.leases && id !in Ends(s, q) && OwnsFile(s.disk, s.leases[id])
    ensures OwnsFile(Step(s, q).0.disk, s.leases[id])
  {
    var path := s.leases[id].path;
    assert s.open && !q.Shutdown?;
    HandlersDeleteOnlyTheirOwn(s, q, path);
    assert Ends(s, q) <= s.leases.Keys;
  }

  /**
   * However others have rearranged the directory, no handler takes the file of
   * a live lease that it does not end.
   */
  lemma OthersKeepTheirFiles(qs: seq<Request>, q: Request)
    requires AllFresh(qs) && AllHeld(qs) && !q.Interfere?
    ensures var s := Run(qs).0;
            forall id | id in s.leases && id !in Ends(s, q) && OwnsFile(s.disk, s.leases[id]) ::
              OwnsFile(Step(s, q).0.disk, s.leases[id])
  {
    EveryRunIsSafe(qs);
    FilesStayDistinct(qs);
    var s := Run(qs).0;
    forall id | id in s.leases && id !in Ends(s, q) && OwnsFile(s.disk, s.leases[id])
      ensures OwnsFile(Step(s, q).0.disk, s.leases[id])
    {
      SurvivorKeepsFile(s, q, id);
    }
  }

  lemma AbortEndsOwn(s: State, h: History, rid: RequestId, removals: Removals)
    requires Accounted(s, h) && Idle(s)
    ensures var t := FinishStep(s, rid, false, removals);
            && (forall id | id in s.leases && id !in t.leases :: h.granted[id] == rid)
            && (forall id | id in t.leases :: id in s.leases && t.leases[id] == s.leases[id])
            && rid !in t.pendingLeases && rid !in t.pendingSupporting
            && (rid in s.pendingLeases ==> s.pendingLeases[rid] !in t.leases)
  {
  }

  /** An aborted request removes its own lease, if still live, and no other; the others' files stay. */
  lemma AbortRemovesOnlyItsOwn(qs: seq<Request>, rid: RequestId, removals: Removals)
    requires AllFresh(qs) && AllHeld(qs)
    ensures var (s, h) := Run(qs);
            var t := FinishStep(s, rid, false, removals);
            && (forall id | id in s.leases && id !in t.leases :: id in h.granted && h.granted[id] == rid)
            && (forall id | id in t.leases ::
                  && id in s.leases && t.leases[id] == s.leases[id]
                  && (OwnsFile(s.disk, s.leases[id]) ==> OwnsFile(t.disk, s.leases[id])))
            && (rid in s.pendingLeases ==> s.pendingLeases[rid] !in t.leases)
            && rid !in t.pendingLeases && rid !in t.pendingSupporting
  {
    EveryRunIsSafe(qs);
    var (s, h) := Run(qs);
    AbortEndsOwn(s, h, rid, removals);
    FinishMovesLeases(s, rid, false, removals);
    OthersKeepTheirFiles(qs, Finish(rid, false, removals));
  }
}
