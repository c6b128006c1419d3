/** The job controller: an applicant applies to a job, a recruiter shortlists
    an applicant, and the two listings of a job's applicants. */
module JobController {
  import opened Options
  import opened Js
  import opened Lists
  import opened Records
  import opened Persistence

  // ---------------------------------------------------------------------------
  // Specification of the operations, on values of the store
  // ---------------------------------------------------------------------------

  /** `applyToJob`: the job must exist, then the user must exist, then the job
      must not be among the user's applications; the job id is then pushed. */
  function Apply(s: Store, jobId: Id, userId: Id): (r: Response)
    ensures r.code in {200, 400, 404}
    ensures r.code != 200 ==> r.store == s
    ensures r.code == 200 ==> jobId in s.jobs && userId in s.users && jobId !in s.users[userId].appliedjobs
    ensures r.store.jobs == s.jobs && r.store.users.Keys == s.users.Keys
    ensures forall id :: id in s.users && id != userId ==> r.store.users[id] == s.users[id]
  {
    if jobId !in s.jobs then Response(404, JobNotFound, s)
    else if userId !in s.users then Response(404, UserNotFound, s)
    else if jobId in s.users[userId].appliedjobs then Response(400, AlreadyApplied, s)
    else
      var u := s.users[userId];
      Response(200, ApplicationSubmitted, WithUser(s, userId, u.(appliedjobs := u.appliedjobs + [jobId])))
  }

  /** `shortlistApplicant`: an applicant id is required, the applicant must
      exist, must have applied to the job and must not be shortlisted for it
      yet; the job id is then pushed onto `shortlistedjobs`. */
  function Shortlist(s: Store, jobId: Id, applicantId: Option<Id>): (r: Response)
    ensures r.code in {200, 400, 404}
    ensures r.code != 200 ==> r.store == s
    ensures r.code == 200 ==> && Present(applicantId) && applicantId.value in s.users
                              && jobId in s.users[applicantId.value].appliedjobs
                              && jobId !in s.users[applicantId.value].shortlistedjobs
    ensures r.store.jobs == s.jobs && r.store.users.Keys == s.users.Keys
    ensures forall id :: id in s.users && Some(id) != applicantId ==> r.store.users[id] == s.users[id]
  {
    if !Present(applicantId) then Response(400, ApplicantIdRequired, s)
    else if applicantId.value !in s.users then Response(404, ApplicantNotFound, s)
    else
      var u := s.users[applicantId.value];
      if jobId !in u.appliedjobs then Response(400, NotApplied, s)
      else if jobId in u.shortlistedjobs then Response(400, AlreadyShortlisted, s)
      else Response(200, ApplicantShortlisted, WithUser(s, applicantId.value, u.(shortlistedjobs := u.shortlistedjobs + [jobId])))
  }

  /** The reply of a listing: always 200, with the matching users keyed by id. */
  datatype Listing = Listing(code: int, users: map<Id, PublicUser>)

  /** `getJobApplicants`: the users whose `appliedjobs` holds the job id. */
  function Applicants(s: Store, jobId: Id): (r: Listing)
    ensures r.code == 200
    ensures forall id :: id in r.users <==> id in s.users && jobId in s.users[id].appliedjobs
    ensures forall id :: id in r.users ==> r.users[id] == Redact(s.users[id])
  {
    Listing(200, map id | id in s.users && jobId in s.users[id].appliedjobs :: Redact(s.users[id]))
  }

  /** `getShortlistedApplicants`: the users whose `shortlistedjobs` holds the job id. */
  function ShortlistedApplicants(s: Store, jobId: Id): (r: Listing)
    ensures r.code == 200
    ensures forall id :: id in r.users <==> id in s.users && jobId in s.users[id].shortlistedjobs
    ensures forall id :: id in r.users ==> r.users[id] == Redact(s.users[id])
  {
    Listing(200, map id | id in s.users && jobId in s.users[id].shortlistedjobs :: Redact(s.users[id]))
  }

  // ---------------------------------------------------------------------------
  // The controllers, as they run against the document store
  // ---------------------------------------------------------------------------

  method ApplyToJob(db: Database, jobId: Id, userId: Id) returns (code: int, message: Message)
    modifies db
    ensures Response(code, message, db.Snapshot()) == Apply(old(db.Snapshot()), jobId, userId)
  {
    var job := db.FindJob(jobId);
    if !job {
      return 404, JobNotFound;
    }
    var user := db.FindUser(userId);
    if user == null {
      return 404, UserNotFound;
    }
    if jobId in user.appliedjobs {
      return 400, AlreadyApplied;
    }
    user.appliedjobs := user.appliedjobs + [jobId];
    db.Save(user);
    return 200, ApplicationSubmitted;
  }

  method ShortlistApplicant(db: Database, jobId: Id, applicantId: Option<Id>) returns (code: int, message: Message)
    modifies db
    ensures Response(code, message, db.Snapshot()) == Shortlist(old(db.Snapshot()), jobId, applicantId)
  {
    if !Present(applicantId) {
      return 400, ApplicantIdRequired;
    }
    var user := db.FindUser(applicantId.value);
    if user == null {
      return 404, ApplicantNotFound;
    }
    if jobId !in user.appliedjobs {
      return 400, NotApplied;
    }
    if jobId in user.shortlistedjobs {
      return 400, AlreadyShortlisted;
    }
    user.shortlistedjobs := user.shortlistedjobs + [jobId];
    db.Save(user);
    return 200, ApplicantShortlisted;
  }

  // ---------------------------------------------------------------------------
  // Properties of applying
  // ---------------------------------------------------------------------------

  /** The failures of `applyToJob`, in the order they are checked; none of them
      changes the store, and the call succeeds exactly when none applies. */
  lemma ApplyFailures(s: Store, jobId: Id, userId: Id)
    ensures var r := Apply(s, jobId, userId);
      && (jobId !in s.jobs ==> r.code == 404 && r.message == JobNotFound)
      && (jobId in s.jobs && userId !in s.users ==> r.code == 404 && r.message == UserNotFound)
      && ((jobId in s.jobs && userId in s.users && jobId in s.users[userId].appliedjobs)
            ==> r.code == 400 && r.message == AlreadyApplied)
      && (r.code == 200 <==> jobId in s.jobs && userId in s.users && jobId !in s.users[userId].appliedjobs)
      && (r.code != 200 ==> r.store == s)
  {
  }

  /** A successful application adds the job id once, at the end of the user's
      `appliedjobs`, and changes no other field, no other user and no job. */
  lemma ApplySuccess(s: Store, jobId: Id, userId: Id)
    requires jobId in s.jobs && userId in s.users && jobId !in s.users[userId].appliedjobs
    ensures var r := Apply(s, jobId, userId); var u := s.users[userId];
      && r.code == 200
      && r.store.jobs == s.jobs
      && r.store.users.Keys == s.users.Keys
      && (forall id :: id in s.users && id != userId ==> r.store.users[id] == s.users[id])
      && r.store.users[userId] == u.(appliedjobs := r.store.users[userId].appliedjobs)
      && r.store.users[userId].appliedjobs[..|u.appliedjobs|] == u.appliedjobs
      && |r.store.users[userId].appliedjobs| == |u.appliedjobs| + 1
      && r.store.users[userId].appliedjobs[|u.appliedjobs|] == jobId
      && multiset(r.store.users[userId].appliedjobs)[jobId] == 1
  {
  }

  /** Applying twice is refused the second time with 400 and leaves the store
      as the first application left it. */
  lemma ApplyTwice(s: Store, jobId: Id, userId: Id)
    ensures var once := Apply(s, jobId, userId); var twice := Apply(once.store, jobId, userId);
      && (once.code == 200 ==> twice.code == 400 && twice.message == AlreadyApplied)
      && twice.store == once.store
  {
  }

  /** Applying keeps `appliedjobs` free of duplicates. */
  lemma ApplyKeepsDistinct(s: Store, jobId: Id, userId: Id)
    requires userId in s.users && Distinct(s.users[userId].appliedjobs)
    ensures var r := Apply(s, jobId, userId);
      userId in r.store.users && Distinct(r.store.users[userId].appliedjobs)
  {
    if Apply(s, jobId, userId).code == 200 {
      DistinctPush(s.users[userId].appliedjobs, jobId);
    }
  }

  /** After a successful application the applicant is listed for that job,
      the applicants of every other job are the same users as before, and
      the shortlisted listings are the same users as before. */
  lemma ApplyThenListed(s: Store, jobId: Id, userId: Id, other: Id)
    requires Apply(s, jobId, userId).code == 200
    ensures Applicants(Apply(s, jobId, userId).store, jobId).users.Keys == Applicants(s, jobId).users.Keys + {userId}
    ensures other != jobId ==>
      Applicants(Apply(s, jobId, userId).store, other).users.Keys == Applicants(s, other).users.Keys
    ensures ShortlistedApplicants(Apply(s, jobId, userId).store, other).users.Keys
         == ShortlistedApplicants(s, other).users.Keys
  {
    var t := Apply(s, jobId, userId).store;
    var a := s.users[userId].appliedjobs;
    assert t.users[userId].appliedjobs == a + [jobId];
    assert t.users[userId].shortlistedjobs == s.users[userId].shortlistedjobs;
    assert t.users.Keys == s.users.Keys;
    forall id | id in s.users && id != userId ensures t.users[id] == s.users[id] { }
    var l1, l0 := Applicants(t, jobId).users.Keys, Applicants(s, jobId).users.Keys;
    forall id ensures id in l1 <==> id in l0 + {userId} {
      if id == userId { assert jobId in a + [jobId]; }
    }
    if other != jobId {
      var m1, m0 := Applicants(t, other).users.Keys, Applicants(s, other).users.Keys;
      forall id ensures id in m1 <==> id in m0 {
        if id == userId { assert other in a + [jobId] <==> other in a; }
      }
    }
    var n1, n0 := ShortlistedApplicants(t, other).users.Keys, ShortlistedApplicants(s, other).users.Keys;
    forall id ensures id in n1 <==> id in n0 { }
  }

  // ---------------------------------------------------------------------------
  // Properties of shortlisting
  // ---------------------------------------------------------------------------

  /** The failures of `shortlistApplicant`, in the order they are checked: the
      missing applicant id before any lookup, the unknown applicant, then "has
      not applied" before "already shortlisted". None changes the store. */
  lemma ShortlistFailures(s: Store, jobId: Id, applicantId: Option<Id>)
    ensures var r := Shortlist(s, jobId, applicantId);
      && (!Present(applicantId) ==> r.code == 400 && r.message == ApplicantIdRequired)
      && (Present(applicantId) && applicantId.value !in s.users ==> r.code == 404 && r.message == ApplicantNotFound)
      && ((Present(applicantId) && applicantId.value in s.users && jobId !in s.users[applicantId.value].appliedjobs)
            ==> r.code == 400 && r.message == NotApplied)
      && ((Present(applicantId) && applicantId.value in s.users && jobId in s.users[applicantId.value].appliedjobs
           && jobId in s.users[applicantId.value].shortlistedjobs)
            ==> r.code == 400 && r.message == AlreadyShortlisted)
      && (r.code == 200 <==>
            (Present(applicantId) && applicantId.value in s.users
             && jobId in s.users[applicantId.value].appliedjobs && jobId !in s.users[applicantId.value].shortlistedjobs))
      && (r.code != 200 ==> r.store == s)
  {
  }

  /** A successful shortlist pushes the job id onto `shortlistedjobs` only:
      `appliedjobs`, `rejectedjobs`, the other fields, the other users and
      the jobs are untouched. */
  lemma ShortlistSuccess(s: Store, jobId: Id, applicantId: Id)
    requires Shortlist(s, jobId, Some(applicantId)).code == 200
    ensures var t := Shortlist(s, jobId, Some(applicantId)).store; var u := s.users[applicantId];
      && t.jobs == s.jobs
      && t.users.Keys == s.users.Keys
      && (forall id :: id in s.users && id != applicantId ==> t.users[id] == s.users[id])
      && t.users[applicantId] == u.(shortlistedjobs := u.shortlistedjobs + [jobId])
      && t.users[applicantId].appliedjobs == u.appliedjobs
      && t.users[applicantId].rejectedjobs == u.rejectedjobs
  {
  }

  /** Shortlisting consults neither the jobs collection nor `rejectedjobs`:
      its outcome is the same whatever jobs exist and whatever the applicant's
      rejections are. */
  lemma ShortlistIgnoresJobsAndRejections(s: Store, jobId: Id, applicantId: Id, jobs: set<Id>, rejected: seq<Id>)
    requires applicantId in s.users
    ensures var s' := WithUser(s.(jobs := jobs), applicantId, s.users[applicantId].(rejectedjobs := rejected));
      && Shortlist(s', jobId, Some(applicantId)).code == Shortlist(s, jobId, Some(applicantId)).code
      && Shortlist(s', jobId, Some(applicantId)).message == Shortlist(s, jobId, Some(applicantId)).message
  {
  }

  /** So a rejected applicant can be shortlisted, and the job id is then in
      both `shortlistedjobs` and `rejectedjobs`. */
  lemma ShortlistCanOverlapRejection()
    ensures exists s: Store, jobId: Id, applicantId: Id ::
      && applicantId in s.users && jobId in s.users[applicantId].rejectedjobs
      && Shortlist(s, jobId, Some(applicantId)).code == 200
      && jobId in Shortlist(s, jobId, Some(applicantId)).store.users[applicantId].shortlistedjobs
      && jobId in Shortlist(s, jobId, Some(applicantId)).store.users[applicantId].rejectedjobs
  {
    var u := User("ann1", "ann@mail.com", "hash", None, None, "r1", None, ["j1"], [], ["j1"]);
    var s := Store(map["u1" := u], {});
    assert "j1" in s.users["u1"].rejectedjobs;
    assert Shortlist(s, "j1", Some("u1")).store.users["u1"] == u.(shortlistedjobs := ["j1"]);
  }

  /** Shortlisting keeps `shortlistedjobs` free of duplicates. */
  lemma ShortlistKeepsDistinct(s: Store, jobId: Id, applicantId: Id)
    requires applicantId in s.users && Distinct(s.users[applicantId].shortlistedjobs)
    ensures var r := Shortlist(s, jobId, Some(applicantId));
      applicantId in r.store.users && Distinct(r.store.users[applicantId].shortlistedjobs)
  {
    if Shortlist(s, jobId, Some(applicantId)).code == 200 {
      DistinctPush(s.users[applicantId].shortlistedjobs, jobId);
    }
  }

  /** After a successful shortlist the applicant is listed among the job's
      shortlisted users, and the applicants listings are the same users as
      before. */
  lemma ShortlistThenListed(s: Store, jobId: Id, applicantId: Id, other: Id)
    requires Shortlist(s, jobId, Some(applicantId)).code == 200
    ensures var t := Shortlist(s, jobId, Some(applicantId)).store;
      && ShortlistedApplicants(t, jobId).users.Keys == ShortlistedApplicants(s, jobId).users.Keys + {applicantId}
      && Applicants(t, other).users.Keys == Applicants(s, other).users.Keys
  {
  }
}
