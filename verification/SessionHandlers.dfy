/** The handlers as the server runs them, in place on the session tables, each proved to be its step. */
module SessionHandlers {
  import opened Prelude
  import opened ResolverSession
  import opened SessionSafety

  lemma DropOneMore(s: State, ids: set<LeaseId>, id: LeaseId, removals: Removals)
    ensures DropLeases(s, ids + {id}, removals) == DropLeases(DropLeases(s, ids, removals), {id}, removals)
  {
    var one, two := DropLeases(s, ids + {id}, removals), DropLeases(DropLeases(s, ids, removals), {id}, removals);
    assert one.leases == two.leases;
    assert one.disk.Keys == two.disk.Keys;
  }

  lemma DropsNothing(s: State, removals: Removals)
    ensures DropLeases(s, {}, removals) == s
  {
    assert s.leases - {} == s.leases && s.disk - {} == s.disk;
  }

  lemma CountOneMore(unique: set<LeaseId>, live: set<LeaseId>, id: LeaseId)
    requires id !in unique
    ensures |(unique + {id}) * live| == |unique * live| + if id in live then 1 else 0
  {
    assert (unique + {id}) * live == unique * live + if id in live then {id} else {};
  }

  lemma IdSetSnoc(ids: seq<LeaseId>, i: nat)
    requires i < |ids|
    ensures IdSet(ids[..i + 1]) == IdSet(ids[..i]) + {ids[i]}
    ensures ids[i] in IdSet(ids[..i]) ==> IdSet(ids[..i + 1]) == IdSet(ids[..i])
  {
    assert ids[..i + 1] == ids[..i] + [ids[i]];
  }

  lemma DropsAll(s: State, removed: set<LeaseId>)
    requires removed <= s.leases.Keys && s.leases - removed == map[]
    ensures removed == s.leases.Keys
  {
    assert forall id | id in s.leases :: id !in removed ==> id in s.leases - removed;
  }

  class ResolverHandler {
    var open: bool
    var leases: map<LeaseId, Lease>
    var pendingLeases: map<RequestId, LeaseId>
    var supporting: seq<string>
    var pendingSupporting: map<RequestId, seq<string>>
    var disk: map<string, nat>

    ghost function View(): State
      reads this
    {
      State(open, leases, pendingLeases, supporting, pendingSupporting, disk)
    }

    constructor ()
      ensures View() == CLOSED
    {
      open, leases, pendingLeases, supporting, pendingSupporting, disk := false, map[], map[], [], map[], map[];
    }

    method InitializeSession() returns (reply: Reply)
      modifies this
      ensures (View(), reply) == Step(old(View()), Initialize)
    {
      if open {
        return Failed(Conflict);
      }
      open, leases, pendingLeases, supporting, pendingSupporting, disk := true, map[], map[], [], map[], map[];
      reply := Nothing;
    }

    /** Try a few random names; a taken name is retried, any other failure is final. */
    method PersistLeaseFile(identity: nat, attempts: nat -> Attempt) returns (placed: Result<string, ErrorKind>)
      modifies `disk
      ensures placed == Persist(old(disk), attempts, 0)
      ensures disk == if placed.Ok? then old(disk)[placed.value := identity] else old(disk)
    {
      var i := 0;
      while i < PERSIST_ATTEMPTS
        invariant 0 <= i <= PERSIST_ATTEMPTS && disk == old(disk)
        invariant Persist(old(disk), attempts, 0) == Persist(old(disk), attempts, i)
      {
        var attempt := attempts(i);
        if !attempt.ioOk {
          return Err(OperationFailed);
        }
        if attempt.path !in disk {
          disk := disk[attempt.path := identity];
          return Ok(attempt.path);
        }
        i := i + 1;
      }
      placed := Err(Unavailable);
    }

    method PendingCount() returns (count: nat)
      ensures count == Total(pendingSupporting)
    {
      count := 0;
      var todo := pendingSupporting;
      while todo != map[]
        invariant count + Total(todo) == Total(pendingSupporting)
        decreases |todo|
      {
        assert exists k :: k in todo;
        var k :| k in todo;
        TotalWithout(todo, k);
        count := count + |todo[k]|;
        todo := todo - {k};
      }
    }

    method RetainPendingSupportingFiles(rid: RequestId, files: seq<string>) returns (ok: bool)
      modifies `pendingSupporting
      ensures ok == CanRetain(old(View()), files)
      ensures pendingSupporting == if ok then old(pendingSupporting)[rid := files] else old(pendingSupporting)
    {
      if |files| > MAX_SESSION_SUPPORTING_FILES {
        return false;
      }
      var pending := PendingCount();
      if |supporting| + pending + |files| > MAX_SESSION_SUPPORTING_FILES {
        return false;
      }
      pendingSupporting := pendingSupporting[rid := files];
      ok := true;
    }

    /** Put a file's lease on the books, or try to take the file out again when either cap is reached. */
    method AdmitLease(rid: RequestId, lease: Lease, files: seq<string>, o: Outside) returns (reply: Reply)
      requires lease.path in disk
      modifies this
      ensures reply == if CanRetain(old(View()), files) && |old(leases)| < MAX_SESSION_LEASES
                       then PathReply(lease.path, o.token) else Failed(Unavailable)
      ensures supporting == old(supporting) && open == old(open)
      ensures reply.PathReply? ==>
                && disk == old(disk) && leases == old(leases)[o.token := lease]
                && pendingLeases == old(pendingLeases)[rid := o.token]
                && pendingSupporting == old(pendingSupporting)[rid := files]
      ensures reply.Failed? ==>
                && disk == (if o.deleted then old(disk) - {lease.path} else old(disk))
                && leases == old(leases) && pendingLeases == old(pendingLeases)
                && pendingSupporting ==
                   if CanRetain(old(View()), files) then old(pendingSupporting) - {rid} else old(pendingSupporting)
    {
      var retained := RetainPendingSupportingFiles(rid, files);
      if !retained {
        TakeBack(lease.path, o.deleted);
        return Failed(Unavailable);
      }
      if |leases| >= MAX_SESSION_LEASES {
        TakeBack(lease.path, o.deleted);
        pendingSupporting := pendingSupporting - {rid};
        assert pendingSupporting == old(pendingSupporting) - {rid};
        return Failed(Unavailable);
      }
      leases := leases[o.token := lease];
      pendingLeases := pendingLeases[rid := o.token];
      reply := PathReply(lease.path, o.token);
    }

    /** Delete a placed file; whether that works is not looked at. */
    method TakeBack(path: string, deleted: bool)
      modifies `disk
      ensures disk == if deleted then old(disk) - {path} else old(disk)
    {
      if deleted {
        disk := disk - {path};
      }
    }

    /** The file is already in the session directory when the later checks run; each failing one tries to take it out. */
    method GetFile(rid: RequestId, identity: nat, files: seq<string>, o: Outside) returns (reply: Reply)
      modifies this
      ensures (View(), reply) == GetFileStep(old(View()), rid, identity, files, o)
    {
      if o.representation == ValueRep {
        return Failed(RepresentationMismatch);
      }
      var placed := PersistLeaseFile(identity, o.attempts);
      if placed.Err? {
        return Failed(placed.error);
      }
      var path := placed.value;
      PutBack(old(disk), path, identity);
      if !o.identityOk {
        TakeBack(path, o.deleted);
        return Failed(OperationFailed);
      }
      if o.cancelledLate {
        TakeBack(path, o.deleted);
        return Failed(Cancelled);
      }
      reply := AdmitLease(rid, Lease(path, identity), files, o);
    }

    method GetSecret(rid: RequestId, o: Outside) returns (reply: Reply)
      modifies this
      ensures (View(), reply) == GetStep(old(View()), rid, o)
    {
      if !open {
        return Failed(Internal);
      }
      if o.declared.LookupFailed? {
        return Failed(ResolverFailed);
      }
      if Mismatch(o.declared, o.representation) {
        return Failed(RepresentationMismatch);
      }
      if o.resolution.None? {
        return Failed(ResolverFailed);
      }
      if o.cancelledEarly {
        return Failed(Cancelled);
      }
      match o.resolution.value {
        case Undeclared => reply := UndeclaredReply;
        case Missing => reply := MissingReply;
        case Value(files) =>
          if o.representation == PathRep {
            return Failed(RepresentationMismatch);
          }
          var retained := RetainPendingSupportingFiles(rid, files);
          reply := if retained then ValueReply else Failed(Unavailable);
        case File(identity, files) =>
          reply := GetFile(rid, identity, files, o);
      }
    }

    /**
     * Delete a lease's file only if what is at its path can be identified and
     * is still the file the lease was granted for; a failing deletion is ignored.
     */
    method RemoveLease(id: LeaseId, removals: Removals)
      requires id in leases
      modifies `leases, `disk
      ensures View() == DropLeases(old(View()), {id}, removals)
    {
      var lease := leases[id];
      leases := leases - {id};
      var current := if removals(id).identified && lease.path in disk then Some(disk[lease.path]) else None;
      var same := current == Some(lease.identity);
      if same && removals(id).deleted {
        disk := disk - {lease.path};
      }
    }

    /** Releasing an id that is not live changes nothing. */
    method ReleaseOne(id: LeaseId, removals: Removals) returns (wasLive: bool)
      modifies `leases, `disk
      ensures wasLive == (id in old(leases))
      ensures View() == DropLeases(old(View()), {id}, removals)
    {
      wasLive := id in leases;
      if wasLive {
        RemoveLease(id, removals);
      } else {
        assert leases - {id} == leases;
      }
    }

    /** Repeated ids count once, unknown ids not at all. */
    method ReleaseLeases(ids: seq<LeaseId>, removals: Removals) returns (reply: Reply)
      modifies this
      ensures (View(), reply) == ReleaseStep(old(View()), ids, removals)
    {
      if !open {
        return Failed(Internal);
      }
      var unique: set<LeaseId> := {};
      var released := 0;
      ghost var s := View();
      DropsNothing(s, removals);
      for i := 0 to |ids|
        invariant unique == IdSet(ids[..i])
        invariant View() == DropLeases(s, unique, removals)
        invariant released == |unique * s.leases.Keys|
      {
        var id := ids[i];
        IdSetSnoc(ids, i);
        if id !in unique {
          DropOneMore(s, unique, id, removals);
          CountOneMore(unique, s.leases.Keys, id);
          var wasLive := ReleaseOne(id, removals);
          unique := unique + {id};
          released := released + if wasLive then 1 else 0;
        }
      }
      assert ids[..|ids|] == ids;
      reply := Released(released);
    }

    method RequestFinished(rid: RequestId, committed: bool, removals: Removals)
      modifies this
      ensures View() == FinishStep(old(View()), rid, committed, removals)
    {
      if !open {
        return;
      }
      var leaseId := if rid in pendingLeases then Some(pendingLeases[rid]) else None;
      pendingLeases := pendingLeases - {rid};
      var files := if rid in pendingSupporting then pendingSupporting[rid] else [];
      pendingSupporting := pendingSupporting - {rid};
      if committed {
        supporting := supporting + files;
        return;
      }
      DropsNothing(View(), removals);
      if leaseId.Some? {
        if leaseId.value in leases {
          RemoveLease(leaseId.value, removals);
        } else {
          assert leases - {leaseId.value} == leases;
        }
      }
    }

    /** The leases go one by one, in whatever order the table is iterated. */
    method RemoveAllLeases(removals: Removals)
      modifies `leases, `disk
      ensures View() == DropLeases(old(View()), old(leases).Keys, removals)
    {
      ghost var removed: set<LeaseId> := {};
      ghost var s := View();
      DropsNothing(s, removals);
      while leases != map[]
        invariant removed <= s.leases.Keys && View() == DropLeases(s, removed, removals)
        decreases |leases|
      {
        assert exists id :: id in leases;
        var id :| id in leases;
        DropOneMore(s, removed, id, removals);
        RemoveLease(id, removals);
        removed := removed + {id};
      }
      DropsAll(s, removed);
    }

    /** The directory itself goes with the session, as far as it can be removed. */
    method ShutdownSession(removals: Removals, swept: set<string>)
      modifies this
      ensures View() == ShutdownStep(old(View()), removals, swept)
    {
      if !open {
        return;
      }
      RemoveAllLeases(removals);
      assert leases == map[];
      open, pendingLeases, supporting, pendingSupporting := false, map[], [], map[];
      disk := disk - swept;
    }
  }
}
