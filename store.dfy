/** The server's persistent state and its request handlers. The three collections are maps
    from document id to record; every handler behind the role gate receives the decoded
    claims of its caller, and answers with an HTTP status. Requests run one after another. */
module Store {
  import opened Common
  import opened Models
  import opened Auth
  import opened Text
  import ResumeParser
  import SkillMerge

  const Success: nat := 200
  const Created: nat := 201
  const NotFound: nat := 404
  const ServerError: nat := 500

  // ---------------------------------------------------------------- queries on the maps

  /** The ids of the jobs a company posted: `Job.find({ company })`. */
  function JobsOf(jobs: map<Id, Job>, company: Id): (r: set<Id>)
    ensures forall k :: k in r <==> k in jobs && jobs[k].company == company
  {
    set k | k in jobs && jobs[k].company == company
  }

  /** `countDocuments({ company })`. */
  function JobCount(jobs: map<Id, Job>, company: Id): (n: nat)
    ensures n <= |jobs|
    ensures n == 0 <==> forall k :: k in jobs ==> jobs[k].company != company
  {
    var r := JobsOf(jobs, company);
    SubsetCard(r, jobs.Keys);
    EmptyJobsOf(jobs, company);
    |r|
  }

  lemma EmptyJobsOf(jobs: map<Id, Job>, company: Id)
    ensures JobsOf(jobs, company) == {} <==> forall k :: k in jobs ==> jobs[k].company != company
  {
    if JobsOf(jobs, company) != {} {
      var k :| k in JobsOf(jobs, company);
    }
  }

  lemma {:induction false} SubsetCard(a: set<Id>, b: set<Id>)
    requires a <= b
    ensures |a| <= |b|
    decreases |b|
  {
    if b != {} {
      var x :| x in b;
      SubsetCard(a - {x}, b - {x});
    }
  }

  /** Storing a new job adds one to its company's count and leaves the other counts. */
  lemma JobCountInsert(jobs: map<Id, Job>, k: Id, j: Job, company: Id)
    requires k !in jobs
    ensures JobCount(jobs[k := j], company) ==
      JobCount(jobs, company) + (if j.company == company then 1 else 0)
  {
    var before, after := JobsOf(jobs, company), JobsOf(jobs[k := j], company);
    if j.company == company {
      assert after == before + {k};
    } else {
      assert after == before;
    }
  }

  /** Deleting a job takes one from its company's count and leaves the other counts. */
  lemma JobCountRemove(jobs: map<Id, Job>, k: Id, company: Id)
    requires k in jobs
    ensures JobCount(jobs - {k}, company) ==
      JobCount(jobs, company) - (if jobs[k].company == company then 1 else 0)
  {
    var before, after := JobsOf(jobs, company), JobsOf(jobs - {k}, company);
    if jobs[k].company == company {
      assert before == after + {k};
    } else {
      assert after == before;
    }
  }

  /** The user after an upload of the file at `path` whose decoded text is `decoded`: the
      resume path is overwritten, even when nothing could be read, and the extracted skills
      are merged into the stored ones. Nothing else of the record changes. */
  function Uploaded(u: User, path: string, decoded: Option<string>): (r: User)
    ensures r.id == u.id && r.username == u.username && r.email == u.email
    ensures r.password == u.password && r.role == u.role
    ensures r.profile == u.profile.(resume := Some(path), skills := r.profile.skills)
    ensures r.profile.skills == SkillMerge.Merge(u.profile.skills, ResumeParser.ParseResume(decoded).skills)
  {
    var extracted := ResumeParser.ParseResume(decoded).skills;
    u.(profile := u.profile.(resume := Some(path), skills := SkillMerge.Merge(u.profile.skills, extracted)))
  }

  /** An upload keeps every field the User schema checks, so a conforming user stays
      conforming and its `save()` succeeds. */
  lemma UploadedConforms(u: User, path: string, decoded: Option<string>)
    ensures ConformingUser(Uploaded(u, path, decoded)) <==> ConformingUser(u)
  {
  }

  /** The stored skills after an upload: the old ones and the vocabulary entries found in the
      lowercased text, without duplicates; an unreadable file leaves duplicate-free skills
      exactly as they were. */
  lemma UploadedSkills(u: User, path: string, decoded: Option<string>, x: string)
    ensures var s := Uploaded(u, path, decoded).profile.skills;
      (x in s <==> (x in u.profile.skills
        || (decoded.Some? && x in ResumeParser.KnownSkills && Contains(LowerStr(decoded.value), x))))
    ensures NoDup(Uploaded(u, path, decoded).profile.skills)
    ensures decoded.None? && NoDup(u.profile.skills) ==> Uploaded(u, path, decoded).profile.skills == u.profile.skills
  {
    var extracted := ResumeParser.ParseResume(decoded).skills;
    ResumeParser.ParseResumeFacts(decoded);
    SkillMerge.MergeMembers(u.profile.skills, extracted);
    if decoded.None? && NoDup(u.profile.skills) {
      SkillMerge.MergeIdempotent(u.profile.skills, extracted);
    }
  }

  /** A user as `select('-password')` returns it. */
  datatype PublicUser = PublicUser(id: Id, username: string, email: string, role: string,
                                   profile: Profile)

  function Public(u: User): (p: PublicUser)
    ensures p.id == u.id && p.username == u.username && p.email == u.email
    ensures p.role == u.role && p.profile == u.profile
  {
    PublicUser(u.id, u.username, u.email, u.role, u.profile)
  }

  /** One entry of the companies list. */
  datatype CompanyEntry = CompanyEntry(company: PublicUser, jobCount: nat)

  /** How an application request ends. */
  datatype ApplyOutcome =
    | Applied(application: Application)
    | NoResume
    | JobNotFound
    | AlreadyApplied
    | SaveRefused(application: Application)

  function ApplyStatus(o: ApplyOutcome): (status: nat)
    ensures status == 201 <==> o.Applied?
    ensures status == 400 <==> o == NoResume || o == AlreadyApplied
    ensures status == 404 <==> o == JobNotFound
    ensures status == 500 <==> o.SaveRefused?
  {
    match o
    case Applied(_) => Created
    case NoResume => BadRequest
    case JobNotFound => NotFound
    case AlreadyApplied => BadRequest
    case SaveRefused(_) => ServerError
  }

  /** A string read by JavaScript's `if (x)`: present and not empty. */
  predicate Truthy(v: Option<string>) { v.Some? && v.value != "" }

  /** The requester may change a job when they posted it or are an admin. */
  predicate MayChange(job: Job, requester: Claims) {
    job.company == requester.id || requester.role == "admin"
  }

  class Store {
    var users: map<Id, User>
    var jobs: map<Id, Job>
    var applications: map<Id, Application>
    /** The id the next created document receives. */
    var nextId: nat

    /** Every record sits under its own id, below `nextId`. */
    predicate IdsValid()
      reads this
    {
      && (forall k :: k in users ==> k < nextId && users[k].id == k)
      && (forall k :: k in jobs ==> k < nextId && jobs[k].id == k)
      && (forall k :: k in applications ==> k < nextId && applications[k].id == k)
    }

    /** The unique index on e-mail. */
    predicate EmailsUnique()
      reads this
    {
      forall a, b :: a in users && b in users && users[a].email == users[b].email ==> a == b
    }

    /** At most one application per job and candidate, each with a resume and a listed
        status. */
    predicate ApplicationsValid()
      reads this
    {
      && (forall a, b ::
            (a in applications && b in applications
             && applications[a].job == applications[b].job
             && applications[a].candidate == applications[b].candidate) ==> a == b)
      && (forall a :: a in applications ==>
            applications[a].resume != "" && applications[a].status in Statuses)
    }

    /** Every stored user passes the User schema, so a later `save()` of it succeeds. */
    predicate UsersConform()
      reads this
    {
      forall k :: k in users ==> ConformingUser(users[k])
    }

    predicate Valid()
      reads this
    {
      IdsValid() && EmailsUnique() && ApplicationsValid() && UsersConform()
    }

    constructor()
      ensures Valid()
      ensures users == map[] && jobs == map[] && applications == map[] && nextId == 0
    {
      users, jobs, applications, nextId := map[], map[], map[], 0;
    }

    // -------------------------------------------------------------- users

    /** Storing a new user under the User schema; the unique index refuses a second user with
        the same e-mail. */
    method CreateUser(username: string, email: string, password: string, role: Option<string>)
      returns (r: Result<User, set<string>>)
      requires Valid()
      modifies this
      ensures Valid()
      ensures r.Err? <==>
        UserErrors(username, email, password, role) != {}
        || exists k :: k in old(users) && old(users)[k].email == email
      ensures r.Ok? ==> r.value.id == old(nextId) && r.value.email == email && r.value.role in Roles
      ensures r.Ok? ==> users == old(users)[old(nextId) := r.value] && nextId == old(nextId) + 1
      ensures r.Err? ==> users == old(users) && nextId == old(nextId)
      ensures jobs == old(jobs) && applications == old(applications)
    {
      r := NewUser(nextId, username, email, password, role, EmptyProfile);
      if r.Ok? {
        if exists k :: k in users && users[k].email == email {
          r := Err({"email"});
        } else {
          users := users[nextId := r.value];
          nextId := nextId + 1;
        }
      }
    }

    /** POST /upload-resume. Without a file the answer is 400 and nothing changes. For an id
        that names no user the handler fails on the missing record (500). Otherwise the
        resume path is overwritten, the extracted skills are merged into the stored ones, and
        the answer carries the stored list. `decoded` is what the PDF library read. The save
        validates the whole user; it succeeds because stored users conform (`UsersConform`)
        and the upload keeps the checked fields (`UploadedConforms`). */
    method UploadResume(requester: Claims, file: Option<string>, decoded: Option<string>)
      returns (status: nat, skills: seq<string>)
      requires Valid()
      modifies this
      ensures Valid()
      ensures status in {Success, BadRequest, ServerError}
      ensures status == BadRequest <==> file.None?
      ensures status == ServerError <==> file.Some? && requester.id !in old(users)
      ensures status == Success ==>
        && users == old(users)[requester.id := Uploaded(old(users)[requester.id], file.value, decoded)]
        && skills == users[requester.id].profile.skills
      ensures status != Success ==> users == old(users) && skills == []
      ensures jobs == old(jobs) && applications == old(applications) && nextId == old(nextId)
    {
      if file.None? {
        return BadRequest, [];
      }
      if requester.id !in users {
        return ServerError, [];
      }
      var updated := Uploaded(users[requester.id], file.value, decoded);
      UploadedConforms(users[requester.id], file.value, decoded);
      Overwrite(updated);
      status, skills := Success, updated.profile.skills;
    }

    /** Saving a changed user record that keeps its id and e-mail. */
    method Overwrite(updated: User)
      requires Valid()
      requires updated.id in users && users[updated.id].email == updated.email
      requires ConformingUser(updated)
      modifies this
      ensures Valid()
      ensures users == old(users)[updated.id := updated]
      ensures jobs == old(jobs) && applications == old(applications) && nextId == old(nextId)
    {
      users := users[updated.id := updated];
      assert EmailsUnique() by {
        forall a, b | a in users && b in users && users[a].email == users[b].email ensures a == b {
          assert users[a].email == old(users)[a].email && users[b].email == old(users)[b].email;
        }
      }
    }

    /** GET /companies: every employer, with the number of jobs posted under its id. */
    function Companies(): (r: map<Id, CompanyEntry>)
      reads this
      ensures forall k :: k in r <==> k in users && users[k].role == "employer"
      ensures forall k :: k in r ==>
        r[k].company == Public(users[k]) && r[k].jobCount == |JobsOf(jobs, k)|
    {
      map k | k in users && users[k].role == "employer" :: CompanyEntry(Public(users[k]), JobCount(jobs, k))
    }

    /** GET /companies/:id: 404 unless the id names an employer, else the employer and its
        jobs. */
    function CompanyDetail(id: Id): (r: Result<(PublicUser, set<Job>), nat>)
      reads this
      ensures r.Err? <==> id !in users || users[id].role != "employer"
      ensures r.Err? ==> r.error == NotFound
      ensures r.Ok? ==> r.value.0 == Public(users[id])
      ensures r.Ok? ==> forall j :: j in r.value.1 <==> j in jobs.Values && j.company == id
    {
      if id !in users || users[id].role != "employer" then Err(NotFound)
      else Ok((Public(users[id]), set k | k in JobsOf(jobs, id) :: jobs[k]))
    }

    // -------------------------------------------------------------- applications

    /** `Application.findOne({ job, candidate })` finds something. */
    predicate HasApplied(job: Id, candidate: Id)
      reads this
    {
      exists a :: a in applications && applications[a].job == job && applications[a].candidate == candidate
    }

    /** GET /applications/job/:jobId. */
    function ApplicationsForJob(job: Id): (r: set<Application>)
      reads this
      ensures forall a :: a in r <==> a in applications.Values && a.job == job
    {
      set k | k in applications && applications[k].job == job :: applications[k]
    }

    /** GET /applications/my-applications. */
    function MyApplications(candidate: Id): (r: set<Application>)
      reads this
      ensures forall a :: a in r <==> a in applications.Values && a.candidate == candidate
    {
      set k | k in applications && applications[k].candidate == candidate :: applications[k]
    }

    /** The profile resume of a user, when the user exists and has one. */
    function ProfileResume(id: Id): (r: Option<string>)
      reads this
      ensures r.Some? <==> id in users && Truthy(users[id].profile.resume)
      ensures r.Some? ==> r == users[id].profile.resume
    {
      if id in users && Truthy(users[id].profile.resume) then users[id].profile.resume else None
    }

    /** POST /applications. The resume is the uploaded file, else the one in the caller's
        profile; then come, in this order, 400 without a resume, 404 for an unknown job and 400
        for a second application. Past those checks one application with status 'applied' is
        stored. The caller is then appended once to the job's applicants and the job is saved;
        the save validates the whole job, so a job that an update left outside the schema is
        not saved and the answer is 500, with the application already stored. */
    method Apply(requester: Claims, jobId: Id, file: Option<string>) returns (o: ApplyOutcome)
      requires Valid()
      modifies this
      ensures Valid()
      ensures o == NoResume <==> !Truthy(file) && old(ProfileResume(requester.id)).None?
      ensures o == JobNotFound <==>
        (Truthy(file) || old(ProfileResume(requester.id)).Some?) && jobId !in old(jobs)
      ensures o == AlreadyApplied <==>
        (Truthy(file) || old(ProfileResume(requester.id)).Some?) && jobId in old(jobs)
        && old(HasApplied(jobId, requester.id))
      ensures o.SaveRefused? <==>
        (Truthy(file) || old(ProfileResume(requester.id)).Some?) && jobId in old(jobs)
        && !old(HasApplied(jobId, requester.id)) && !ConformingJob(old(jobs)[jobId])
      ensures (o.Applied? || o.SaveRefused?) ==>
        && o.application == Application(old(nextId), jobId, requester.id,
             if Truthy(file) then file.value else old(ProfileResume(requester.id)).value,
             DefaultStatus)
        && applications == old(applications)[old(nextId) := o.application]
        && nextId == old(nextId) + 1
        && HasApplied(jobId, requester.id)
        && o.application in ApplicationsForJob(jobId) && o.application in MyApplications(requester.id)
      ensures o.Applied? ==>
        jobs == old(jobs)[jobId := old(jobs)[jobId].(applicants := old(jobs)[jobId].applicants + [requester.id])]
      ensures !o.Applied? ==> jobs == old(jobs)
      ensures !o.Applied? && !o.SaveRefused? ==> applications == old(applications) && nextId == old(nextId)
      ensures users == old(users)
    {
      var resume: Option<string> := if file.Some? then file else None;
      if !Truthy(resume) {
        if requester.id in users && Truthy(users[requester.id].profile.resume) {
          resume := users[requester.id].profile.resume;
        }
      }
      if !Truthy(resume) {
        return NoResume;
      }
      if jobId !in jobs {
        return JobNotFound;
      }
      if exists a :: a in applications && applications[a].job == jobId && applications[a].candidate == requester.id {
        return AlreadyApplied;
      }
      var created := NewApplication(nextId, jobId, requester.id, resume.value, None);
      Record(created.value);
      if ConformingJob(jobs[jobId]) {
        Enlist(jobId, requester.id);
        o := Applied(created.value);
      } else {
        o := SaveRefused(created.value);
      }
    }

    /** Application.create: a new application stored under the next id. */
    method Record(application: Application)
      requires Valid()
      requires application.id == nextId && application.job in jobs
      requires application.resume != "" && application.status in Statuses
      requires !HasApplied(application.job, application.candidate)
      modifies this
      ensures Valid()
      ensures applications == old(applications)[old(nextId) := application]
      ensures nextId == old(nextId) + 1 && users == old(users) && jobs == old(jobs)
      ensures HasApplied(application.job, application.candidate)
      ensures application in ApplicationsForJob(application.job)
      ensures application in MyApplications(application.candidate)
    {
      applications := applications[nextId := application];
      nextId := nextId + 1;
      assert applications[application.id] == application;
    }

    /** `job.applicants.push(candidate)` followed by a save that succeeds. */
    method Enlist(jobId: Id, candidate: Id)
      requires Valid() && jobId in jobs
      modifies this
      ensures Valid()
      ensures jobs == old(jobs)[jobId := old(jobs)[jobId].(applicants := old(jobs)[jobId].applicants + [candidate])]
      ensures users == old(users) && applications == old(applications) && nextId == old(nextId)
    {
      var job := jobs[jobId];
      jobs := jobs[jobId := job.(applicants := job.applicants + [candidate])];
    }

    // -------------------------------------------------------------- jobs

    /** GET /jobs: every stored job. */
    function AllJobs(): (r: set<Job>)
      reads this
      ensures forall j :: j in r <==> j in jobs.Values
    {
      jobs.Values
    }

    /** The catalog holds every job the other queries return, and each listed job is the one
        GET /jobs/:id fetches under its own id. */
    lemma AllJobsCovers(requester: Claims, id: Id, j: Job)
      requires IdsValid()
      ensures MyJobs(requester) <= AllJobs()
      ensures GetJob(id).Ok? ==> GetJob(id).value in AllJobs()
      ensures j in AllJobs() <==> GetJob(j.id) == Ok(j)
    {
      if j in AllJobs() {
        var k :| k in jobs && jobs[k] == j;
        assert k == j.id;
      }
    }

    /** GET /jobs/my-jobs. */
    function MyJobs(requester: Claims): (r: set<Job>)
      reads this
      ensures forall j :: j in r <==> j in jobs.Values && j.company == requester.id
    {
      set k | k in JobsOf(jobs, requester.id) :: jobs[k]
    }

    /** GET /jobs/:id. */
    function GetJob(id: Id): (r: Result<Job, nat>)
      reads this
      ensures r.Err? <==> id !in jobs
      ensures r.Err? ==> r.error == NotFound
      ensures r.Ok? ==> r.value == jobs[id]
      ensures r.Ok? && IdsValid() ==> r.value.id == id
    {
      if id in jobs then Ok(jobs[id]) else Err(NotFound)
    }

    /** POST /jobs: the body with the caller as company, stored under a new id; a body the
        schema refuses ends in 500. */
    method CreateJob(requester: Claims, body: JobBody) returns (status: nat, job: Option<Job>)
      requires Valid()
      modifies this
      ensures Valid()
      ensures status == Created <==> JobBodyErrors(body.(company := Some(requester.id))) == {}
      ensures status != Created ==> status == ServerError && job.None?
      ensures status == Created ==>
        && job.Some? && job.value.company == requester.id && job.value.id == old(nextId)
        && NewJob(old(nextId), body.(company := Some(requester.id))) == Ok(job.value)
        && jobs == old(jobs)[old(nextId) := job.value] && nextId == old(nextId) + 1
        && JobCount(jobs, requester.id) == JobCount(old(jobs), requester.id) + 1
      ensures status != Created ==> jobs == old(jobs) && nextId == old(nextId)
      ensures users == old(users) && applications == old(applications)
    {
      var r := NewJob(nextId, body.(company := Some(requester.id)));
      if r.Err? {
        return ServerError, None;
      }
      Insert(r.value);
      status, job := Created, Some(r.value);
    }

    /** Storing a new job under the next id. */
    method Insert(job: Job)
      requires Valid() && job.id == nextId
      modifies this
      ensures Valid()
      ensures jobs == old(jobs)[old(nextId) := job] && nextId == old(nextId) + 1
      ensures JobCount(jobs, job.company) == JobCount(old(jobs), job.company) + 1
      ensures users == old(users) && applications == old(applications)
    {
      JobCountInsert(jobs, nextId, job, job.company);
      jobs := jobs[nextId := job];
      nextId := nextId + 1;
    }

    /** PUT /jobs/:id: 404 for an unknown job, then 403 unless the caller owns it or is an
        admin; otherwise every field of the body overwrites the stored one, company included,
        without the schema's validators. */
    method UpdateJob(requester: Claims, id: Id, body: JobBody) returns (status: nat, updated: Option<Job>)
      requires Valid()
      modifies this
      ensures Valid()
      ensures status == NotFound <==> id !in old(jobs)
      ensures status == Forbidden <==> id in old(jobs) && !MayChange(old(jobs)[id], requester)
      ensures status == Success <==> id in old(jobs) && MayChange(old(jobs)[id], requester)
      ensures status == Success ==>
        updated == Some(PatchJob(old(jobs)[id], body)) && jobs == old(jobs)[id := updated.value]
      ensures status != Success ==> jobs == old(jobs) && updated.None?
      ensures users == old(users) && applications == old(applications) && nextId == old(nextId)
    {
      if id !in jobs {
        return NotFound, None;
      }
      if !MayChange(jobs[id], requester) {
        return Forbidden, None;
      }
      var patched := PatchJob(jobs[id], body);
      jobs := jobs[id := patched];
      status, updated := Success, Some(patched);
    }

    /** DELETE /jobs/:id: the same two checks, then only that job is removed. Its
        applications stay. */
    method DeleteJob(requester: Claims, id: Id) returns (status: nat)
      requires Valid()
      modifies this
      ensures Valid()
      ensures status == NotFound <==> id !in old(jobs)
      ensures status == Forbidden <==> id in old(jobs) && !MayChange(old(jobs)[id], requester)
      ensures status == Success <==> id in old(jobs) && MayChange(old(jobs)[id], requester)
      ensures status == Success ==> jobs == old(jobs) - {id}
      ensures status == Success ==>
        JobCount(jobs, old(jobs)[id].company) == JobCount(old(jobs), old(jobs)[id].company) - 1
      ensures status != Success ==> jobs == old(jobs)
      ensures users == old(users) && applications == old(applications) && nextId == old(nextId)
    {
      if id !in jobs {
        return NotFound;
      }
      if !MayChange(jobs[id], requester) {
        return Forbidden;
      }
      JobCountRemove(jobs, id, jobs[id].company);
      jobs := jobs - {id};
      status := Success;
    }
  }

  /** An update runs no validator: any string can be stored as the job type. */
  lemma UpdateSkipsEnum(j: Job)
    ensures PatchJob(j, JobBody(None, None, None, None, Some("Internship"), None, None, None, None)).jobType
      !in JobTypes
  {
  }

  /** The role list of authMiddleware in front of PUT and DELETE /jobs/:id. */
  const StaffRoles: seq<string> := ["employer", "admin"]

  /** UpdateJob and DeleteJob run only behind the staff gate: whoever reaches them holds the
      employer or admin role, so a candidate that an update made owner of a job is still
      turned away with 403 before the ownership check. */
  lemma StaffGateBeforeChange(header: Option<string>, verify: string -> Option<Claims>)
    ensures Authorize(StaffRoles, header, verify).Next? ==>
      Authorize(StaffRoles, header, verify).user.role in StaffRoles
    ensures (HasToken(header) && verify(Token(header).value).Some?
             && verify(Token(header).value).value.role == "candidate")
            ==> Authorize(StaffRoles, header, verify) == Reject(Forbidden)
  {
  }

  /** An update whose body names another company hands the job over. */
  lemma UpdateMovesOwnership(j: Job, other: Id)
    ensures PatchJob(j, JobBody(None, None, Some(other), None, None, None, None, None, None)).company == other
  {
  }
}
