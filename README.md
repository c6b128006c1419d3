# Job-application lifecycle of the EmploySync backend, in Dafny

This project models the application lifecycle of a job-board backend. A user
record holds three arrays of job ids: `appliedjobs`, `shortlistedjobs` and
`rejectedjobs`. An applicant applies to a job, a recruiter shortlists an
applicant, and a status update accepts or rejects the application. Two
listings return the users who applied to a job or were shortlisted for it.
Beside the lifecycle, the model covers the ordered checks and list defaults
of `createUser` and the update object and user-name rules of `editUser`.

Layout:

- `options.dfy` (module `Options`): the optional value used for absent
  request fields and document references.
- `js.dfy` (module `Js`): JavaScript truthiness of body fields, `String()`,
  the `\s` character class, and the user-name and e-mail patterns.
- `lists.dfy` (module `Lists`): `filter(id => id !== x)` as `Without`, and
  what it keeps and removes. `WithoutUnique` is an independent definition:
  `Without(xs, x)` is the only subsequence of `xs` that keeps every other id
  with its multiplicity.
- `records.dfy` (modules `Records`, `Persistence`): the user record, the
  store (users by id, plus the set of existing job ids), and the messages.
  `Persistence.Database` and `Persistence.UserDocument` model fetching a
  document, changing its arrays in memory, and `save`.
- `job_controller.dfy` (module `JobController`): apply, shortlist and the
  two listings.
- `user_controller.dfy` (module `UserController`): status resolution,
  `createUser` and `editUser`.
- `lifecycle.dfy` (module `Lifecycle`): integrity rules across operations,
  and a run of apply, shortlist and reject.

Each operation is a function of the store. `Apply`, `Shortlist`, `Resolve`
and `Create` return a `Response`: the HTTP status, the message that names
the failing check, and the store afterwards. `Edit` returns an `EditReply`:
the status, the message and the update object it would send; how the store
applies that object is not modelled. The two listings return a `Listing`: the
status and the matching users without their passwords. The three operations
that change a document in place (`applyToJob`, `shortlistApplicant`,
`updateApplicationStatus`) are also methods over a `Database` object. Each
such method fetches a `UserDocument`, assigns its arrays, and saves it. Its
postcondition equates its status, its message and the new database contents
with the function applied to the old contents.

Behaviour of the code that the model keeps:

- A repeated application or shortlist is answered 400
  (src/controllers/job.controller.js:26, 60).
- Shortlisting a user who has not applied is answered 400
  (src/controllers/job.controller.js:55).
- `updateApplicationStatus` checks `jobId` and `status` before it looks the
  user up (src/controllers/user.controller.js:118-127).
- With a status other than "accepted" or "rejected", the filtering happens
  only on the fetched document. The error is thrown before `save`, so the
  stored user is unchanged (src/controllers/user.controller.js:130-142,
  `UserController.ResolveFailures`).
- Resolution does not require the job to be in `appliedjobs`
  (src/controllers/user.controller.js:125-136). Shortlisting does not check
  that the job exists and does not look at `rejectedjobs`
  (src/controllers/job.controller.js:43-65). So shortlisting can leave a job
  both shortlisted and rejected (`JobController.ShortlistCanOverlapRejection`).

## Model

| member | source | states |
|---|---|---|
| `Js.ValidEmailHasOneAt` | src/controllers/user.controller.js:77-78 | an address accepted by the e-mail pattern contains exactly one `@` |
| `Js.EmailExamples` | src/controllers/user.controller.js:77-81 | the e-mail pattern accepts `ann@mail.com` and refuses `ann@mail` |
| `Js.Truthy` | src/controllers/user.controller.js:176 | JavaScript truthiness of a body value: undefined, null and "" are falsy, any other string and every array (even empty) truthy |
| `Js.Present` | src/controllers/user.controller.js:59 | the `!field` tests on string fields (also at user.controller.js:118, 158 and job.controller.js:43): a field counts as given exactly when it is present, not null and not "" |
| `Js.Join` | src/controllers/user.controller.js:178 | `join(",")` of an array, the text `String()` gives an array; an empty array gives "" |
| `Js.ToJsString` | src/controllers/user.controller.js:178 | `String(v)` as `regex.test` applies it: "undefined", "null", the string itself, or the comma-joined array |
| `Js.ValidUserName` | src/controllers/user.controller.js:64-65 | the user-name pattern: 4 to 100 characters, none of them whitespace as `\s` defines it; `editUser` tests the same pattern at user.controller.js:177-178 |
| `Js.UserNameExamples` | src/controllers/user.controller.js:64-65 | a name of `n` repeated letters is accepted exactly when 4 <= n <= 100; a name containing a space is refused |
| `Js.ValidEmail` | src/controllers/user.controller.js:77-78 | the e-mail pattern: a non-empty local part of `[a-zA-Z0-9_.-]`, `@`, a non-empty domain of the same class, `.`, and 2 to 6 letters |
| `Records.Redact` | src/controllers/job.controller.js:77 | the `.select('-password')` projection, also at job.controller.js:88: every field of the user but the password |
| `Lists.Without` | src/controllers/user.controller.js:130-131 | the filter never lengthens the list, and an id is in the result exactly when it was in the list and differs from the removed one |
| `Lists.WithoutMultiset` | src/controllers/user.controller.js:130-131 | the filter removes every copy of the id and keeps every other id with its multiplicity |
| `Lists.WithoutIsSubsequence` | src/controllers/user.controller.js:130-131 | the filter keeps the remaining ids in their original relative order |
| `Lists.WithoutUnique` | src/controllers/user.controller.js:130-131 | any order-preserving sublist with exactly the other ids (with multiplicity) and no copy of the id equals the filter result |
| `Lists.SubsequenceMultiset` | src/controllers/user.controller.js:130-131 | an order-preserving sublist never holds more copies of an id than its source |
| `Lists.WithoutAppend` | src/controllers/user.controller.js:130-134 | filtering a list with an id pushed on gives the filtered list followed by the filtered pushed part |
| `Lists.WithoutAbsent` | src/controllers/user.controller.js:130-131 | filtering out an id that is not present leaves the list unchanged |
| `Lists.RemoveThenPush` | src/controllers/user.controller.js:130-136 | after filtering and pushing, the id is last and occurs once, and a second filter gives the first filter's result |
| `Lists.DistinctWithout` | src/controllers/user.controller.js:130-136 | filtering, and filtering then pushing the id, keep a duplicate-free list duplicate-free |
| `Lists.DistinctPush` | src/controllers/job.controller.js:24-30 | pushing an id that is not present keeps a list duplicate-free |
| `Persistence.Database.FindJob` | src/controllers/job.controller.js:13 | the job lookup succeeds exactly when the job exists |
| `Persistence.Database.FindUser` | src/controllers/job.controller.js:19-22 | the lookup returns null exactly when the user does not exist; otherwise a fresh in-memory copy of the stored record |
| `Persistence.Database.Save` | src/controllers/job.controller.js:31 | save replaces the stored record with the document's value and changes nothing else |
| `JobController.Apply` | src/controllers/job.controller.js:8-34 | the answer is 200, 400 or 404; a failure leaves the store unchanged; success needs the job, the user and no earlier application; no job, no user id and no other user changes |
| `JobController.Shortlist` | src/controllers/job.controller.js:39-68 | the answer is 200, 400 or 404; a failure leaves the store unchanged; success needs an applicant id of an existing user who applied and is not yet shortlisted; no job, no user id and no other user changes |
| `JobController.ApplyToJob` | src/controllers/job.controller.js:8-34 | its status, message and new store are those of `Apply`: job lookup, user lookup, duplicate check, then push and save |
| `JobController.ShortlistApplicant` | src/controllers/job.controller.js:39-68 | its status, message and new store are those of `Shortlist`: id required, applicant lookup, applied check, repeat check, then push and save |
| `JobController.Applicants` | src/controllers/job.controller.js:73-79 | always 200, even when empty; it lists exactly the users whose `appliedjobs` holds the id, each without the password |
| `JobController.ShortlistedApplicants` | src/controllers/job.controller.js:84-90 | always 200, even when empty; it lists exactly the users whose `shortlistedjobs` holds the id, each without the password |
| `JobController.ApplyFailures` | src/controllers/job.controller.js:12-27 | a missing job is 404 before a missing user is 404, then a duplicate is 400; success happens exactly when none applies; no failure changes the store |
| `JobController.ApplySuccess` | src/controllers/job.controller.js:29-33 | on success the id is appended once at the end of `appliedjobs`; no other field, user or job changes |
| `JobController.ApplyTwice` | src/controllers/job.controller.js:24-31 | the second of two identical applications is refused with 400 and leaves the store as the first one left it |
| `JobController.ApplyKeepsDistinct` | src/controllers/job.controller.js:24-31 | applying keeps a duplicate-free `appliedjobs` duplicate-free |
| `JobController.ApplyThenListed` | src/controllers/job.controller.js:73-90 | after a successful application the applicants of that job gain exactly this user; other jobs' applicants and all shortlisted listings keep the same users |
| `JobController.ShortlistFailures` | src/controllers/job.controller.js:43-61 | a missing id is 400 before any lookup, an unknown applicant 404, "not applied" 400 before "already shortlisted" 400; success happens exactly when none applies; no failure changes the store |
| `JobController.ShortlistSuccess` | src/controllers/job.controller.js:63-67 | on success only `shortlistedjobs` changes, by the id pushed at its end; `appliedjobs`, `rejectedjobs`, other users and jobs are untouched |
| `JobController.ShortlistIgnoresJobsAndRejections` | src/controllers/job.controller.js:47-65 | the outcome does not depend on which jobs exist or on the applicant's `rejectedjobs` |
| `JobController.ShortlistCanOverlapRejection` | src/controllers/job.controller.js:53-65 | some rejected applicant can be shortlisted, leaving the job in both `shortlistedjobs` and `rejectedjobs` |
| `JobController.ShortlistKeepsDistinct` | src/controllers/job.controller.js:58-65 | shortlisting keeps a duplicate-free `shortlistedjobs` duplicate-free |
| `JobController.ShortlistThenListed` | src/controllers/job.controller.js:84-90 | after a successful shortlist the job's shortlisted listing gains exactly this user; the applicants listings keep the same users |
| `UserController.Resolve` | src/controllers/user.controller.js:112-145 | the answer is 200, 400 or 404; a failure leaves the store unchanged; no job, no user id and no other user changes |
| `UserController.Settle` | src/controllers/user.controller.js:129-136 | only the two resolved lists change; the job ends up shortlisted exactly when accepted and rejected exactly when not; every other id stays in each list exactly when it was there |
| `UserController.UpdateApplicationStatus` | src/controllers/user.controller.js:112-145 | its status, message and new store are those of `Resolve`; on an invalid status the document filtered in memory is never saved |
| `UserController.SettleTwice` | src/controllers/user.controller.js:129-136 | resolving the same job again, with either outcome, gives the record that the second resolution alone gives |
| `UserController.ResolveFailures` | src/controllers/user.controller.js:118-142 | missing `jobId` or `status` is 400 before the lookup; an unknown user is 404; any other status is 400; success happens exactly for "accepted" or "rejected"; no failure changes the store |
| `UserController.ResolveAccepted` | src/controllers/user.controller.js:129-134 | after "accepted" the id occurs once, last, in `shortlistedjobs` and not in `rejectedjobs`; both lists are otherwise the filtered old lists; nothing else changes; no prior application needed |
| `UserController.ResolveRejected` | src/controllers/user.controller.js:129-136 | after "rejected" the id occurs once, last, in `rejectedjobs` and not in `shortlistedjobs`; both lists are otherwise the filtered old lists; nothing else changes |
| `UserController.ResolveKeepsOthers` | src/controllers/user.controller.js:129-136 | in both lists every other id keeps its multiplicity and relative order; `appliedjobs` is unchanged |
| `UserController.ResolveIdempotent` | src/controllers/user.controller.js:129-142 | resolving twice with the same job id and status gives the same response and store as resolving once |
| `UserController.ResolveFlip` | src/controllers/user.controller.js:129-136 | resolving with one status and then another gives what resolving only with the second gives |
| `UserController.Create` | src/controllers/user.controller.js:59-97 | the answer is 201 or 400; a 400 leaves the store unchanged; a 201 adds exactly the new id and changes no existing user and no job |
| `UserController.EmailTaken` | src/controllers/user.controller.js:70-72 | `User.findOne({ email })` finds a record: some stored user, under any id, holds exactly this e-mail address |
| `UserController.OrEmpty` | src/controllers/user.controller.js:95-96 | the empty-array default of `appliedjobs` and `shortlistedjobs`: an array given in the body is kept, even an empty one; an absent or null one becomes `[]` |
| `UserController.CreateFailures` | src/controllers/user.controller.js:59-81 | required fields are checked first, then the user-name format, then e-mail uniqueness, then the e-mail format; each failure is 400 and leaves the store unchanged; 201 happens exactly when all four checks pass |
| `UserController.CreateSuccess` | src/controllers/user.controller.js:83-97 | on 201 exactly one user is added, with the submitted fields and the hash; the two arrays default to empty, `rejectedjobs` is empty, and name, e-mail and uniqueness hold |
| `UserController.Spread` | src/controllers/user.controller.js:165-172 | the guard of each conditional spread: a scalar key unless its value is null or "", an array key only when truthy and an array |
| `UserController.Patch` | src/controllers/user.controller.js:164-173 | a key is in the update object exactly when its conditional spread fires, and it carries the body's value |
| `UserController.PatchKeys` | src/controllers/user.controller.js:164-173 | a scalar key is in the update exactly when its value is neither null nor "" (an absent key gives undefined); an array key exactly when its value is an array; values are copied |
| `UserController.NameHeldByOther` | src/controllers/user.controller.js:184-190 | `User.find({ userName, _id: { $ne: userId } })` is non-empty: a user other than `userId` holds the name; a name given as an array is taken to match no user |
| `UserController.Edit` | src/controllers/user.controller.js:157-199 | the answer is 200, 400 or 404; 200 only for a given `userId` of an existing user, 404 only for a given `userId` of no user |
| `UserController.EditOutcomes` | src/controllers/user.controller.js:157-199 | a missing `userId` is 400 first; a non-empty new name must be 4 to 100 non-whitespace characters and not held by another user (400); a request with no truthy name, or with a valid name no other user holds, is 200 for an existing user and 404 otherwise |
| `Lifecycle.ApplyKeepsConsistent` | src/controllers/job.controller.js:24-31 | applying keeps every user's lists duplicate-free and keeps shortlisted and rejected disjoint |
| `Lifecycle.ResolveKeepsConsistent` | src/controllers/user.controller.js:129-142 | resolving keeps every user consistent, and afterwards the job is in exactly one of `shortlistedjobs` and `rejectedjobs` |
| `Lifecycle.ShortlistKeepsDistinctLists` | src/controllers/job.controller.js:58-65 | shortlisting keeps every user's lists duplicate-free |
| `Lifecycle.CreateCanAddDuplicates` | src/controllers/user.controller.js:95-96 | a created user can start with the same job id twice in `appliedjobs`, because the body's arrays are copied unchecked |
| `Lifecycle.ResolveListings` | src/controllers/user.controller.js:130-136 | an accepted user is in the job's shortlisted listing; a rejected one is not |
| `Lifecycle.Scenario` | src/controllers/job.controller.js:8-68 | apply gives 200 with `[J1]`; apply again gives 400; shortlist gives 200 with `[J1]`; rejecting, as `updateApplicationStatus` does at user.controller.js:129-142, leaves the shortlist empty and `rejectedjobs` `[J1]` |

## Left out

- Password hashing (bcrypt salt and hash) is an input: `Create` takes the hash as a parameter.
- The ids of new records are an input: `Create` takes the id the store assigns and requires it to be unused.
- Ids are strings compared by equality. Casting to ObjectId is not modelled, and neither is the 500 that a malformed id causes.
- `Job.findById` only tells whether the job exists; job records and their `status` are not modelled.
- Schema validation inside `User.create` (required fields, ObjectId types) is not modelled. The user schema does not declare the three arrays, and the model assumes they exist, with `rejectedjobs` starting empty.
- UserController.Edit: does not apply the update object to the stored user. It returns the decision and the update object; what the object-document mapper does with undefined values, and with the update as a whole, cannot be seen.
- UserController.NameHeldByOther: a user name given as an array is taken to match no user, since how the object-document mapper casts an array-valued query filter cannot be seen.
- UserController.EditOutcomes: for a user name given as an array, the pattern is tested on its comma-joined text, and the uniqueness query is taken to match no user. How the mapper casts an array-valued filter cannot be seen.
- Body fields of other JSON types (numbers, booleans, objects) are not modelled. In `createUser`, `updateApplicationStatus` and `shortlistApplicant`, an absent field and null are both `None`.
- Js.ValidUserName: the user-name length is counted in characters, not in UTF-16 code units, so names with characters outside the Basic Multilingual Plane can differ.
- The listings return users keyed by id, so the order of the returned documents is not modelled.
- Response bodies other than status and message are not modelled, such as the created or updated user echoed back. The store holds those records.
- Authentication and authorization middleware are not modelled; the applicant id of `applyToJob` is an input.
- Logging, i18n message lookup, `asyncHandler` and the error middleware are not modelled. A thrown error is modelled as its status and message.
- Concurrent requests on the same user (the read-modify-write race between fetch and `save`) are not modelled; each operation runs alone.
- The CV functions, `getUserOrganization`, `getRecruiters`, `getApplicants`, `getUsers`, `getUserById`, `deleteUser` and the organization controller are single-record reads and writes outside the lifecycle. Route wiring is not modelled either: `updateApplicationStatus` has no route and the job routes are not mounted.
