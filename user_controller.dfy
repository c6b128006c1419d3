/** The user controller: resolving an application's status, and the
    validation and defaults of creating and editing a user record. */
module UserController {
  import opened Options
  import opened Js
  import opened Lists
  import opened Records
  import opened Persistence

  // ---------------------------------------------------------------------------
  // updateApplicationStatus
  // ---------------------------------------------------------------------------

  /** `updateApplicationStatus`: both `jobId` and `status` are required before
      the user is looked up; every copy of the job id is then filtered out of
      `shortlistedjobs` and `rejectedjobs`, and the id is pushed onto the
      shortlist for "accepted" or onto the rejections for "rejected". Any other
      status throws before the document is saved. */
  function Resolve(s: Store, userId: Id, jobId: Option<Id>, status: Option<string>): (r: Response)
    ensures r.code in {200, 400, 404}
    ensures r.code != 200 ==> r.store == s
    ensures r.store.jobs == s.jobs && r.store.users.Keys == s.users.Keys
    ensures forall id :: id in s.users && id != userId ==> r.store.users[id] == s.users[id]
  {
    if !Present(jobId) || !Present(status) then Response(400, JobIdAndStatusRequired, s)
    else if userId !in s.users then Response(404, UserNotFound, s)
    else if status.value == "accepted" then
      Response(200, StatusUpdated, WithUser(s, userId, Settle(s.users[userId], jobId.value, true)))
    else if status.value == "rejected" then
      Response(200, StatusUpdated, WithUser(s, userId, Settle(s.users[userId], jobId.value, false)))
    else Response(400, InvalidStatus, s)
  }

  /** The user record after resolving job `j`: the id filtered out of both
      lists and pushed onto the shortlist when `accepted`, else onto the
      rejections. */
  function Settle(u: User, j: Id, accepted: bool): (r: User)
    ensures r == u.(shortlistedjobs := r.shortlistedjobs, rejectedjobs := r.rejectedjobs)
    ensures j in r.shortlistedjobs <==> accepted
    ensures j in r.rejectedjobs <==> !accepted
    ensures forall k :: k != j ==> (k in r.shortlistedjobs <==> k in u.shortlistedjobs)
    ensures forall k :: k != j ==> (k in r.rejectedjobs <==> k in u.rejectedjobs)
  {
    var shortlisted, rejected := Without(u.shortlistedjobs, j), Without(u.rejectedjobs, j);
    if accepted then u.(shortlistedjobs := shortlisted + [j], rejectedjobs := rejected)
    else u.(shortlistedjobs := shortlisted, rejectedjobs := rejected + [j])
  }

  /** Settling a job a second time, with either outcome, gives what settling
      it only the second time gives. */
  lemma SettleTwice(u: User, j: Id, first: bool, second: bool)
    ensures Settle(Settle(u, j, first), j, second) == Settle(u, j, second)
  {
    RemoveThenPush(u.shortlistedjobs, j);
    RemoveThenPush(u.rejectedjobs, j);
    WithoutAbsent(Without(u.shortlistedjobs, j), j);
    WithoutAbsent(Without(u.rejectedjobs, j), j);
  }

  /** The controller against the store. The filtered arrays live only in the
      fetched document; on an invalid status it is dropped without `save`. */
  method UpdateApplicationStatus(db: Database, userId: Id, jobId: Option<Id>, status: Option<string>)
    returns (code: int, message: Message)
    modifies db
    ensures Response(code, message, db.Snapshot()) == Resolve(old(db.Snapshot()), userId, jobId, status)
  {
    if !Present(jobId) || !Present(status) {
      return 400, JobIdAndStatusRequired;
    }
    var user := db.FindUser(userId);
    if user == null {
      return 404, UserNotFound;
    }
    user.shortlistedjobs := Without(user.shortlistedjobs, jobId.value);
    user.rejectedjobs := Without(user.rejectedjobs, jobId.value);
    if status.value == "accepted" {
      user.shortlistedjobs := user.shortlistedjobs + [jobId.value];
    } else if status.value == "rejected" {
      user.rejectedjobs := user.rejectedjobs + [jobId.value];
    } else {
      return 400, InvalidStatus;
    }
    db.Save(user);
    return 200, StatusUpdated;
  }

  /** The failures of `updateApplicationStatus`, in the order they are checked:
      missing `jobId` or `status` before the lookup, then the unknown user,
      then a status other than "accepted" or "rejected". None of them changes
      the stored user, so the filtering done in memory before the invalid
      status is thrown is lost. */
  lemma ResolveFailures(s: Store, userId: Id, jobId: Option<Id>, status: Option<string>)
    ensures var r := Resolve(s, userId, jobId, status);
      && ((!Present(jobId) || !Present(status)) ==> r.code == 400 && r.message == JobIdAndStatusRequired)
      && ((Present(jobId) && Present(status) && userId !in s.users) ==> r.code == 404 && r.message == UserNotFound)
      && ((Present(jobId) && Present(status) && userId in s.users && status.value != "accepted" && status.value != "rejected")
            ==> r.code == 400 && r.message == InvalidStatus)
      && (r.code == 200 <==>
            (Present(jobId) && userId in s.users && (status == Some("accepted") || status == Some("rejected"))))
      && (r.code != 200 ==> r.store == s)
  {
  }

  /** After "accepted" the job id occurs exactly once in `shortlistedjobs`, as
      its last element, and not at all in `rejectedjobs`. What precedes it in
      the shortlist, and the whole rejection list, are the old lists with the
      id filtered out. Nothing else of the user, no other user and no job
      changes, and the user need not have applied to the job. */
  lemma ResolveAccepted(s: Store, userId: Id, j: Id)
    requires userId in s.users && j != ""
    ensures var r := Resolve(s, userId, Some(j), Some("accepted")); var u := s.users[userId];
      && r.code == 200
      && r.store.jobs == s.jobs && r.store.users.Keys == s.users.Keys
      && (forall id :: id in s.users && id != userId ==> r.store.users[id] == s.users[id])
      && var v := r.store.users[userId];
      && v == u.(shortlistedjobs := v.shortlistedjobs, rejectedjobs := v.rejectedjobs)
      && multiset(v.shortlistedjobs)[j] == 1
      && v.shortlistedjobs[|v.shortlistedjobs| - 1] == j
      && j !in v.rejectedjobs
      && v.shortlistedjobs[..|v.shortlistedjobs| - 1] == Without(u.shortlistedjobs, j)
      && v.rejectedjobs == Without(u.rejectedjobs, j)
  {
    var u := s.users[userId];
    RemoveThenPush(u.shortlistedjobs, j);
    var v := Resolve(s, userId, Some(j), Some("accepted")).store.users[userId];
    assert v.shortlistedjobs[..|v.shortlistedjobs| - 1] == Without(u.shortlistedjobs, j);
  }

  /** After "rejected" the reverse holds: the job id occurs exactly once in
      `rejectedjobs`, last, and not at all in `shortlistedjobs`. */
  lemma ResolveRejected(s: Store, userId: Id, j: Id)
    requires userId in s.users && j != ""
    ensures var r := Resolve(s, userId, Some(j), Some("rejected")); var u := s.users[userId];
      && r.code == 200
      && r.store.jobs == s.jobs && r.store.users.Keys == s.users.Keys
      && (forall id :: id in s.users && id != userId ==> r.store.users[id] == s.users[id])
      && var v := r.store.users[userId];
      && v == u.(shortlistedjobs := v.shortlistedjobs, rejectedjobs := v.rejectedjobs)
      && multiset(v.rejectedjobs)[j] == 1
      && v.rejectedjobs[|v.rejectedjobs| - 1] == j
      && j !in v.shortlistedjobs
      && v.rejectedjobs[..|v.rejectedjobs| - 1] == Without(u.rejectedjobs, j)
      && v.shortlistedjobs == Without(u.shortlistedjobs, j)
  {
    var u := s.users[userId];
    RemoveThenPush(u.rejectedjobs, j);
    var v := Resolve(s, userId, Some(j), Some("rejected")).store.users[userId];
    assert v.rejectedjobs[..|v.rejectedjobs| - 1] == Without(u.rejectedjobs, j);
  }

  /** Every other id keeps its multiplicity and its relative order in both
      lists: each new list, without the id, is a subsequence of the old one
      holding all of its other elements (by `Lists.WithoutUnique`, the only
      such subsequence). */
  lemma ResolveKeepsOthers(s: Store, userId: Id, j: Id, status: string)
    requires userId in s.users && Resolve(s, userId, Some(j), Some(status)).code == 200
    ensures var u := s.users[userId]; var v := Resolve(s, userId, Some(j), Some(status)).store.users[userId];
      && IsSubsequence(Without(v.shortlistedjobs, j), u.shortlistedjobs)
      && multiset(Without(v.shortlistedjobs, j)) == multiset(u.shortlistedjobs)[j := 0]
      && IsSubsequence(Without(v.rejectedjobs, j), u.rejectedjobs)
      && multiset(Without(v.rejectedjobs, j)) == multiset(u.rejectedjobs)[j := 0]
      && v.appliedjobs == u.appliedjobs
  {
    var u := s.users[userId];
    assert Resolve(s, userId, Some(j), Some(status)).store.users[userId] == Settle(u, j, status == "accepted");
    RemoveThenPush(u.shortlistedjobs, j);
    RemoveThenPush(u.rejectedjobs, j);
    WithoutAbsent(Without(u.shortlistedjobs, j), j);
    WithoutAbsent(Without(u.rejectedjobs, j), j);
    WithoutIsSubsequence(u.shortlistedjobs, j);
    WithoutIsSubsequence(u.rejectedjobs, j);
    WithoutMultiset(u.shortlistedjobs, j);
    WithoutMultiset(u.rejectedjobs, j);
  }

  /** Resolving twice with the same job id and status leaves the store as
      resolving once does. */
  lemma ResolveIdempotent(s: Store, userId: Id, jobId: Option<Id>, status: Option<string>)
    ensures var once := Resolve(s, userId, jobId, status);
      Resolve(once.store, userId, jobId, status) == once
  {
    var once := Resolve(s, userId, jobId, status);
    if once.code == 200 {
      var accepted := status.value == "accepted";
      SettleTwice(s.users[userId], jobId.value, accepted, accepted);
      assert once.store.users[userId := Settle(once.store.users[userId], jobId.value, accepted)] == once.store.users;
    }
  }

  /** Resolving with the opposite status moves the id from one list to the
      other: the result is the same as if only the second resolution had
      been made. */
  lemma ResolveFlip(s: Store, userId: Id, j: Id, first: string, second: string)
    requires first in {"accepted", "rejected"} && second in {"accepted", "rejected"}
    ensures var once := Resolve(s, userId, Some(j), Some(first));
      Resolve(once.store, userId, Some(j), Some(second)) == Resolve(s, userId, Some(j), Some(second))
  {
    if j != "" && userId in s.users {
      SettleTwice(s.users[userId], j, first == "accepted", second == "accepted");
      var once := Resolve(s, userId, Some(j), Some(first));
      assert once.store.users[userId := Settle(once.store.users[userId], j, second == "accepted")]
          == s.users[userId := Settle(s.users[userId], j, second == "accepted")];
    }
  }

  // ---------------------------------------------------------------------------
  // createUser
  // ---------------------------------------------------------------------------

  /** The fields `createUser` reads from the request body; `None` stands for a
      field that is absent or null. */
  datatype CreateRequest = CreateRequest(
    userName: Option<string>,
    email: Option<string>,
    password: Option<string>,
    profileImage: Option<string>,
    organization: Option<Id>,
    role: Option<Id>,
    cv: Option<Id>,
    appliedjobs: Option<seq<Id>>,
    shortlistedjobs: Option<seq<Id>>)

  /** `list || []`: an array given in the body, even an empty one, is kept. */
  function OrEmpty(list: Option<seq<Id>>): seq<Id> {
    if list.Some? then list.value else []
  }

  /** `User.findOne({ email })` finds a record. */
  predicate EmailTaken(s: Store, email: string) {
    exists id | id in s.users :: s.users[id].email == email
  }

  /** `createUser`: required fields, then the user-name format, then e-mail
      uniqueness, then the e-mail format; a new record is then added under
      the fresh id the store assigns, with `hash` the bcrypt hash of the
      password, and answered 201. */
  function Create(s: Store, req: CreateRequest, hash: string, newId: Id): (r: Response)
    requires newId !in s.users
    ensures r.code in {201, 400}
    ensures r.code == 400 ==> r.store == s
    ensures r.code == 201 ==> && r.store.jobs == s.jobs
                              && r.store.users.Keys == s.users.Keys + {newId}
                              && (forall id :: id in s.users ==> r.store.users[id] == s.users[id])
  {
    if !Present(req.userName) || !Present(req.email) || !Present(req.password) || !Present(req.role) then
      Response(400, MissingFields, s)
    else if !ValidUserName(req.userName.value) then Response(400, InvalidUserNameFormat, s)
    else if EmailTaken(s, req.email.value) then Response(400, EmailExists, s)
    else if !ValidEmail(req.email.value) then Response(400, InvalidEmailFormat, s)
    else
      var u := User(req.userName.value, req.email.value, hash, req.profileImage, req.organization,
                    req.role.value, req.cv, OrEmpty(req.appliedjobs), OrEmpty(req.shortlistedjobs), []);
      Response(201, UserCreated, s.(users := s.users[newId := u]))
  }

  /** The failures of `createUser`, in the order they are checked, each a 400
      that leaves the store as it was. An address that is both taken and
      malformed is reported as taken. */
  lemma CreateFailures(s: Store, req: CreateRequest, hash: string, newId: Id)
    requires newId !in s.users
    ensures var r := Create(s, req, hash, newId);
      && ((!Present(req.userName) || !Present(req.email) || !Present(req.password) || !Present(req.role))
            ==> r.code == 400 && r.message == MissingFields)
      && ((Present(req.userName) && Present(req.email) && Present(req.password) && Present(req.role)
           && !ValidUserName(req.userName.value)) ==> r.code == 400 && r.message == InvalidUserNameFormat)
      && ((Present(req.userName) && Present(req.email) && Present(req.password) && Present(req.role)
           && ValidUserName(req.userName.value) && EmailTaken(s, req.email.value))
            ==> r.code == 400 && r.message == EmailExists)
      && ((Present(req.userName) && Present(req.email) && Present(req.password) && Present(req.role)
           && ValidUserName(req.userName.value) && !EmailTaken(s, req.email.value) && !ValidEmail(req.email.value))
            ==> r.code == 400 && r.message == InvalidEmailFormat)
      && (r.code == 201 <==>
            (Present(req.userName) && Present(req.email) && Present(req.password) && Present(req.role)
             && ValidUserName(req.userName.value) && !EmailTaken(s, req.email.value) && ValidEmail(req.email.value)))
      && (r.code != 201 ==> r.code == 400 && r.store == s)
  {
  }

  /** A successful creation adds exactly one user, under the new id, holding
      the submitted fields and the hash; `appliedjobs` and `shortlistedjobs`
      default to empty and `rejectedjobs` starts empty. Its e-mail address
      was not held by any user before. */
  lemma CreateSuccess(s: Store, req: CreateRequest, hash: string, newId: Id)
    requires newId !in s.users && Create(s, req, hash, newId).code == 201
    ensures var t := Create(s, req, hash, newId).store;
      && t.jobs == s.jobs
      && t.users.Keys == s.users.Keys + {newId}
      && (forall id :: id in s.users ==> t.users[id] == s.users[id])
      && var u := t.users[newId];
      && Some(u.userName) == req.userName && Some(u.email) == req.email && Some(u.role) == req.role
      && u.password == hash && u.profileImage == req.profileImage
      && u.organization == req.organization && u.cv == req.cv
      && (req.appliedjobs.None? ==> u.appliedjobs == [])
      && (req.shortlistedjobs.None? ==> u.shortlistedjobs == [])
      && (req.appliedjobs.Some? ==> u.appliedjobs == req.appliedjobs.value)
      && (req.shortlistedjobs.Some? ==> u.shortlistedjobs == req.shortlistedjobs.value)
      && u.rejectedjobs == []
      && ValidUserName(u.userName) && ValidEmail(u.email)
      && (forall id :: id in s.users ==> s.users[id].email != u.email)
  {
  }

  // ---------------------------------------------------------------------------
  // editUser
  // ---------------------------------------------------------------------------

  /** The body keys `editUser` copies into its update object. */
  datatype Field = UserName | Email | ProfileImage | Organization | Role | Cv | AppliedJobs | ShortlistedJobs

  const AllFields: set<Field> := {UserName, Email, ProfileImage, Organization, Role, Cv, AppliedJobs, ShortlistedJobs}

  /** The two array-valued keys. */
  predicate IsListField(f: Field) {
    f == AppliedJobs || f == ShortlistedJobs
  }

  /** The request body: `userId`, and the value of each editable key, where a
      key missing from the map reads as `undefined`. */
  datatype EditRequest = EditRequest(userId: Option<Id>, body: map<Field, BodyValue>)

  function BodyField(body: map<Field, BodyValue>, f: Field): BodyValue {
    if f in body then body[f] else Undefined
  }

  /** The guard of each conditional spread: a scalar key is spread unless its
      value is null or ""; an array key only when it is truthy and an array. */
  predicate Spread(f: Field, v: BodyValue) {
    if IsListField(f) then Truthy(v) && v.List? else v != Null && v != Str("")
  }

  /** The update object built by the conditional spreads. */
  function Patch(body: map<Field, BodyValue>): (r: map<Field, BodyValue>)
    ensures forall f :: f in r ==> Spread(f, BodyField(body, f)) && r[f] == BodyField(body, f)
    ensures forall f :: Spread(f, BodyField(body, f)) ==> f in r
  {
    map f | f in AllFields && Spread(f, BodyField(body, f)) :: BodyField(body, f)
  }

  /** The key set of the update object. A scalar key is present exactly when
      its body value is neither null nor "", so a key missing from the body
      yields a key whose value is undefined; an array key is present exactly
      when its body value is an array. Every present key carries the body's
      value. */
  lemma PatchKeys(body: map<Field, BodyValue>, f: Field)
    ensures !IsListField(f) ==> (f in Patch(body) <==> BodyField(body, f) != Null && BodyField(body, f) != Str(""))
    ensures !IsListField(f) && f !in body ==> f in Patch(body) && Patch(body)[f] == Undefined
    ensures IsListField(f) ==> (f in Patch(body) <==> BodyField(body, f).List?)
    ensures f in Patch(body) ==> Patch(body)[f] == BodyField(body, f)
  {
    assert f in AllFields;
  }

  /** `User.find({ userName, _id: { $ne: userId } })` finds a record: another
      user already holds the requested name. */
  predicate NameHeldByOther(s: Store, name: BodyValue, userId: Id) {
    name.Str? && exists id | id in s.users :: id != userId && s.users[id].userName == name.s
  }

  /** The outcome of `editUser` and the update object it sends. */
  datatype EditReply = EditReply(code: int, message: Message, patch: map<Field, BodyValue>)

  /** `editUser`: `userId` is required; a truthy user name in the update must
      match the user-name pattern and must not be held by another user; the
      update is then sent for `userId`, which must exist. */
  function Edit(s: Store, req: EditRequest): (r: EditReply)
    ensures r.code in {200, 400, 404}
    ensures r.code == 200 ==> Present(req.userId) && req.userId.value in s.users
    ensures r.code == 404 ==> Present(req.userId) && req.userId.value !in s.users
  {
    var patch := Patch(req.body);
    if !Present(req.userId) then EditReply(400, UserIdRequired, patch)
    else if UserName in patch && Truthy(patch[UserName]) && !ValidUserName(ToJsString(patch[UserName])) then
      EditReply(400, InvalidUserNameFormat, patch)
    else if UserName in patch && Truthy(patch[UserName]) && NameHeldByOther(s, patch[UserName], req.userId.value) then
      EditReply(400, UserNameExists, patch)
    else if req.userId.value !in s.users then EditReply(404, UserNotFound, patch)
    else EditReply(200, UserUpdated, patch)
  }

  /** The outcomes of `editUser`: a missing `userId` is a 400 before anything
      else; a new user name is accepted only when it is 4 to 100 characters
      without whitespace and no other user holds it; an unknown user is then
      a 404. A request that sets no user name, or sets a valid one no other
      user holds, reaches the lookup and is answered 200 or 404. */
  lemma EditOutcomes(s: Store, req: EditRequest, name: string)
    ensures var r := Edit(s, req);
      && (!Present(req.userId) ==> r.code == 400 && r.message == UserIdRequired)
      && ((Present(req.userId) && BodyField(req.body, UserName) == Str(name) && name != "" && !ValidUserName(name))
            ==> r.code == 400 && r.message == InvalidUserNameFormat)
      && ((Present(req.userId) && BodyField(req.body, UserName) == Str(name) && ValidUserName(name)
           && (exists id | id in s.users :: id != req.userId.value && s.users[id].userName == name))
            ==> r.code == 400 && r.message == UserNameExists)
      && ((Present(req.userId)
           && (!Truthy(BodyField(req.body, UserName))
               || (BodyField(req.body, UserName) == Str(name) && ValidUserName(name)
                   && !(exists id | id in s.users :: id != req.userId.value && s.users[id].userName == name))))
            ==> r.code == (if req.userId.value in s.users then 200 else 404))
      && (r.code == 200 ==> req.userId.value in s.users)
      && r.patch == Patch(req.body)
  {
    PatchKeys(req.body, UserName);
  }
}
