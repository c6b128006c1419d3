/** The user record and the document store the controllers read and write. */
module Records {
  import opened Options

  /** Job, user, role, organization and CV ids, compared by equality. */
  type Id = string

  /** A stored user. The three job-id arrays are the application lifecycle's
      state; `password` holds the credential hash. */
  datatype User = User(
    userName: string,
    email: string,
    password: string,
    profileImage: Option<string>,
    organization: Option<Id>,
    role: Id,
    cv: Option<Id>,
    appliedjobs: seq<Id>,
    shortlistedjobs: seq<Id>,
    rejectedjobs: seq<Id>)

  /** A user as the listings return it: every field but the password. */
  datatype PublicUser = PublicUser(
    userName: string,
    email: string,
    profileImage: Option<string>,
    organization: Option<Id>,
    role: Id,
    cv: Option<Id>,
    appliedjobs: seq<Id>,
    shortlistedjobs: seq<Id>,
    rejectedjobs: seq<Id>)

  /** The `-password` projection. */
  function Redact(u: User): PublicUser {
    PublicUser(u.userName, u.email, u.profileImage, u.organization, u.role, u.cv,
               u.appliedjobs, u.shortlistedjobs, u.rejectedjobs)
  }

  /** The users collection keyed by id, and the ids of the existing jobs. */
  datatype Store = Store(users: map<Id, User>, jobs: set<Id>)

  /** The store with one user record replaced. */
  function WithUser(s: Store, id: Id, u: User): Store {
    s.(users := s.users[id := u])
  }

  /** The message of each response the controllers send or throw. */
  datatype Message =
    // applyToJob
    | JobNotFound | UserNotFound | AlreadyApplied | ApplicationSubmitted
    // shortlistApplicant
    | ApplicantIdRequired | ApplicantNotFound | NotApplied | AlreadyShortlisted | ApplicantShortlisted
    // updateApplicationStatus
    | JobIdAndStatusRequired | InvalidStatus | StatusUpdated
    // createUser
    | MissingFields | InvalidUserNameFormat | EmailExists | InvalidEmailFormat | UserCreated
    // editUser
    | UserIdRequired | UserNameExists | UserUpdated

  /** The HTTP status and message of a response, and the store afterwards. */
  datatype Response = Response(code: int, message: Message, store: Store)
}

/** The object-document mapper as the lifecycle operations use it: a user
    document is fetched into memory, its arrays are changed in place, and on
    `save` the stored record becomes the document's value. */
module Persistence {
  import opened Records

  /** A user document loaded into memory. Only its three job-id arrays are
      ever assigned; the remaining fields are kept as loaded. */
  class UserDocument {
    const id: Id
    const loaded: User
    var appliedjobs: seq<Id>
    var shortlistedjobs: seq<Id>
    var rejectedjobs: seq<Id>

    /** The record this document would be saved as. */
    function Value(): User
      reads this
    {
      loaded.(appliedjobs := appliedjobs, shortlistedjobs := shortlistedjobs, rejectedjobs := rejectedjobs)
    }

    constructor (id: Id, u: User)
      ensures this.id == id && Value() == u
    {
      this.id := id;
      loaded := u;
      appliedjobs := u.appliedjobs;
      shortlistedjobs := u.shortlistedjobs;
      rejectedjobs := u.rejectedjobs;
    }
  }

  /** The users and jobs collections. */
  class Database {
    var users: map<Id, User>
    var jobs: set<Id>

    function Snapshot(): Store
      reads this
    {
      Store(users, jobs)
    }

    constructor (s: Store)
      ensures Snapshot() == s
    {
      users := s.users;
      jobs := s.jobs;
    }

    /** `Job.findById(jobId)`, reduced to whether the job exists. */
    method FindJob(jobId: Id) returns (found: bool)
      ensures found <==> jobId in jobs
    {
      found := jobId in jobs;
    }

    /** `User.findById(userId)`: a fresh in-memory copy of the stored record, or null. */
    method FindUser(userId: Id) returns (doc: UserDocument?)
      ensures doc == null <==> userId !in users
      ensures doc != null ==> fresh(doc) && doc.id == userId && doc.Value() == users[userId]
    {
      if userId in users {
        doc := new UserDocument(userId, users[userId]);
      } else {
        doc := null;
      }
    }

    /** `doc.save()`: the stored record becomes the document's value; nothing else changes. */
    method Save(doc: UserDocument)
      modifies this
      ensures users == old(users)[doc.id := doc.Value()]
      ensures jobs == old(jobs)
    {
      users := users[doc.id := doc.Value()];
    }
  }
}
