/** The application lifecycle across operations: the integrity rules of a
    user's three job-id lists, which operations keep them, and a run of
    apply, shortlist and resolve. */
module Lifecycle {
  import opened Options
  import opened Js
  import opened Lists
  import opened Records
  import JobController
  import UserController

  /** A job is never both shortlisted and rejected for the same user. */
  ghost predicate Exclusive(u: User) {
    forall j :: j in u.shortlistedjobs ==> j !in u.rejectedjobs
  }

  /** No list holds a job id twice. */
  ghost predicate DistinctLists(u: User) {
    Distinct(u.appliedjobs) && Distinct(u.shortlistedjobs) && Distinct(u.rejectedjobs)
  }

  ghost predicate Consistent(s: Store) {
    forall id :: id in s.users ==> Exclusive(s.users[id]) && DistinctLists(s.users[id])
  }

  /** Applying keeps every user consistent. */
  lemma ApplyKeepsConsistent(s: Store, jobId: Id, userId: Id)
    requires Consistent(s)
    ensures Consistent(JobController.Apply(s, jobId, userId).store)
  {
    if JobController.Apply(s, jobId, userId).code == 200 {
      DistinctPush(s.users[userId].appliedjobs, jobId);
    }
  }

  /** Resolving a status keeps every user consistent, and afterwards the job
      is in exactly one of the two lists. */
  lemma ResolveKeepsConsistent(s: Store, userId: Id, jobId: Option<Id>, status: Option<string>)
    requires Consistent(s)
    ensures var r := UserController.Resolve(s, userId, jobId, status);
      && Consistent(r.store)
      && (r.code == 200 ==>
            (jobId.value in r.store.users[userId].shortlistedjobs <==> jobId.value !in r.store.users[userId].rejectedjobs))
  {
    var r := UserController.Resolve(s, userId, jobId, status);
    if r.code == 200 {
      var u, j := s.users[userId], jobId.value;
      DistinctWithout(u.shortlistedjobs, j);
      DistinctWithout(u.rejectedjobs, j);
      var v := r.store.users[userId];
      assert DistinctLists(v);
      assert Exclusive(v);
    }
  }

  /** Shortlisting keeps every list free of duplicates. It does not keep the
      exclusivity rule: `JobController.ShortlistCanOverlapRejection`. */
  lemma ShortlistKeepsDistinctLists(s: Store, jobId: Id, applicantId: Option<Id>)
    requires forall id :: id in s.users ==> DistinctLists(s.users[id])
    ensures var t := JobController.Shortlist(s, jobId, applicantId).store;
      forall id :: id in t.users ==> DistinctLists(t.users[id])
  {
    if JobController.Shortlist(s, jobId, applicantId).code == 200 {
      DistinctPush(s.users[applicantId.value].shortlistedjobs, jobId);
    }
  }

  /** Creating a user copies the body's arrays unchecked, so a new record can
      start with a job id applied for twice. */
  lemma CreateCanAddDuplicates()
    ensures exists s: Store, req: UserController.CreateRequest, newId: Id ::
      && newId !in s.users && Consistent(s)
      && UserController.Create(s, req, "hash", newId).code == 201
      && !Consistent(UserController.Create(s, req, "hash", newId).store)
  {
    var req := UserController.CreateRequest(Some("ann1"), Some("ann@mail.com"), Some("secret"), None, None,
                                            Some("r1"), None, Some(["j1", "j1"]), None);
    var s := Store(map[], {});
    Js.EmailExamples();
    assert Js.ValidUserName("ann1");
    var t := UserController.Create(s, req, "hash", "u1").store;
    assert multiset(t.users["u1"].appliedjobs)["j1"] == 2;
  }

  /** A user is listed among a job's shortlisted applicants after it is
      accepted for the job and not after it is rejected. */
  lemma ResolveListings(s: Store, userId: Id, j: Id)
    requires userId in s.users && j != ""
    ensures userId in JobController.ShortlistedApplicants(
      UserController.Resolve(s, userId, Some(j), Some("accepted")).store, j).users
    ensures userId !in JobController.ShortlistedApplicants(
      UserController.Resolve(s, userId, Some(j), Some("rejected")).store, j).users
  {
    UserController.ResolveAccepted(s, userId, j);
    UserController.ResolveRejected(s, userId, j);
  }

  /** Apply, apply again, shortlist and reject, for one user and one job that
      exists: 200 with `appliedjobs` [J1]; then 400; then 200 with
      `shortlistedjobs` [J1]; then 200 with an empty shortlist and
      `rejectedjobs` [J1]. */
  lemma Scenario(u: User)
    requires u.appliedjobs == [] && u.shortlistedjobs == [] && u.rejectedjobs == []
    ensures var s0 := Store(map["U1" := u], {"J1"});
      var r1 := JobController.Apply(s0, "J1", "U1");
      var r2 := JobController.Apply(r1.store, "J1", "U1");
      var r3 := JobController.Shortlist(r2.store, "J1", Some("U1"));
      var r4 := UserController.Resolve(r3.store, "U1", Some("J1"), Some("rejected"));
      && r1.code == 200 && r1.store.users["U1"].appliedjobs == ["J1"]
      && r2.code == 400 && r2.store == r1.store
      && r3.code == 200 && r3.store.users["U1"].shortlistedjobs == ["J1"]
      && r4.code == 200 && r4.store.users["U1"].shortlistedjobs == [] && r4.store.users["U1"].rejectedjobs == ["J1"]
  {
  }
}
