/** The three persisted record types (Job, User, Application) and what their schemas
    demand when a record is created: required fields, the string enumerations with
    their defaults, and the lists that start empty. Enumerated fields stay strings, as
    in the schemas, because an update that bypasses validation can store any string. */
module Models {
  import opened Common

  /** An opaque document identifier. */
  type Id = nat

  const JobTypes: seq<string> := ["Full Time", "Part Time", "Remote", "Contract"]
  const DefaultJobType: string := "Full Time"
  const ExperienceLevels: seq<string> := ["Entry Level", "Mid Level", "Senior Level"]
  const DefaultExperienceLevel: string := "Entry Level"
  const Roles: seq<string> := ["candidate", "employer", "admin"]
  const DefaultRole: string := "candidate"
  const Statuses: seq<string> := ["applied", "shortlisted", "rejected", "hired"]
  const DefaultStatus: string := "applied"

  datatype Job = Job(
    id: Id,
    title: string,
    description: string,
    company: Id,
    location: string,
    jobType: string,
    experienceLevel: string,
    salary: Option<int>,
    requirements: seq<string>,
    applicants: seq<Id>)

  datatype Profile = Profile(
    resume: Option<string>,
    skills: seq<string>,
    companyName: Option<string>,
    location: Option<string>,
    logo: Option<string>,
    description: Option<string>,
    website: Option<string>)

  datatype User = User(
    id: Id,
    username: string,
    email: string,
    password: string,
    role: string,
    profile: Profile)

  datatype Application = Application(id: Id, job: Id, candidate: Id, resume: string, status: string)

  /** The fields a request body may carry for a job; `None` is an absent field. */
  datatype JobBody = JobBody(
    title: Option<string>,
    description: Option<string>,
    company: Option<Id>,
    location: Option<string>,
    jobType: Option<string>,
    experienceLevel: Option<string>,
    salary: Option<int>,
    requirements: Option<seq<string>>,
    applicants: Option<seq<Id>>)

  /** A required string path is satisfied by a non-empty string only. */
  predicate Given(v: Option<string>) { v.Some? && v.value != "" }

  /** An enumerated path accepts an absent value (the default applies) or a listed one. */
  predicate EnumOk(v: Option<string>, values: seq<string>) { v.None? || v.value in values }

  function Or<T>(v: Option<T>, default: T): T {
    if v.Some? then v.value else default
  }

  /** The paths of a job body that fail the Job schema's validators. */
  function JobBodyErrors(body: JobBody): (errs: set<string>)
    ensures errs <= {"title", "description", "company", "location", "jobType", "experienceLevel"}
    ensures "jobType" in errs <==> body.jobType.Some? && body.jobType.value !in JobTypes
  {
    (if Given(body.title) then {} else {"title"})
    + (if Given(body.description) then {} else {"description"})
    + (if body.company.Some? then {} else {"company"})
    + (if Given(body.location) then {} else {"location"})
    + (if EnumOk(body.jobType, JobTypes) then {} else {"jobType"})
    + (if EnumOk(body.experienceLevel, ExperienceLevels) then {} else {"experienceLevel"})
  }

  /** A stored job satisfies the Job schema. */
  predicate ConformingJob(j: Job) {
    && j.title != "" && j.description != "" && j.location != ""
    && j.jobType in JobTypes && j.experienceLevel in ExperienceLevels
  }

  /** Job.create: validation against the schema, then the record with its defaults. */
  function NewJob(id: Id, body: JobBody): (r: Result<Job, set<string>>)
    ensures r.Err? <==> JobBodyErrors(body) != {}
    ensures r.Err? ==> r.error == JobBodyErrors(body)
    ensures r.Ok? ==> ConformingJob(r.value) && r.value.id == id
    ensures r.Ok? ==> Some(r.value.title) == body.title && Some(r.value.company) == body.company
    ensures r.Ok? ==> Some(r.value.description) == body.description && Some(r.value.location) == body.location
    ensures r.Ok? && body.jobType.Some? ==> r.value.jobType == body.jobType.value
    ensures r.Ok? && body.jobType.None? ==> r.value.jobType == DefaultJobType
    ensures r.Ok? && body.experienceLevel.Some? ==> r.value.experienceLevel == body.experienceLevel.value
    ensures r.Ok? && body.experienceLevel.None? ==> r.value.experienceLevel == DefaultExperienceLevel
    ensures r.Ok? && body.requirements.Some? ==> r.value.requirements == body.requirements.value
    ensures r.Ok? && body.requirements.None? ==> r.value.requirements == []
    ensures r.Ok? && body.applicants.Some? ==> r.value.applicants == body.applicants.value
    ensures r.Ok? && body.applicants.None? ==> r.value.applicants == []
    ensures r.Ok? ==> r.value.salary == body.salary
  {
    var errs := JobBodyErrors(body);
    if errs != {} then Err(errs)
    else
      Ok(Job(id, body.title.value, body.description.value, body.company.value, body.location.value,
             Or(body.jobType, DefaultJobType), Or(body.experienceLevel, DefaultExperienceLevel),
             body.salary, Or(body.requirements, []), Or(body.applicants, [])))
  }

  /** findByIdAndUpdate: every field present in the body overwrites the stored one,
      without running the schema's validators. */
  function PatchJob(j: Job, body: JobBody): (r: Job)
    ensures r.id == j.id
    ensures r.title == if body.title.Some? then body.title.value else j.title
    ensures r.description == if body.description.Some? then body.description.value else j.description
    ensures r.company == if body.company.Some? then body.company.value else j.company
    ensures r.location == if body.location.Some? then body.location.value else j.location
    ensures r.jobType == if body.jobType.Some? then body.jobType.value else j.jobType
    ensures r.experienceLevel == if body.experienceLevel.Some? then body.experienceLevel.value else j.experienceLevel
    ensures r.salary == if body.salary.Some? then body.salary else j.salary
    ensures r.requirements == if body.requirements.Some? then body.requirements.value else j.requirements
    ensures r.applicants == if body.applicants.Some? then body.applicants.value else j.applicants
    ensures body == JobBody(None, None, None, None, None, None, None, None, None) ==> r == j
  {
    Job(j.id,
        Or(body.title, j.title), Or(body.description, j.description), Or(body.company, j.company),
        Or(body.location, j.location), Or(body.jobType, j.jobType),
        Or(body.experienceLevel, j.experienceLevel),
        if body.salary.Some? then body.salary else j.salary,
        Or(body.requirements, j.requirements), Or(body.applicants, j.applicants))
  }

  /** Applying the same update twice is applying it once. */
  lemma PatchJobIdempotent(j: Job, body: JobBody)
    ensures PatchJob(PatchJob(j, body), body) == PatchJob(j, body)
  {
  }

  /** A later update wins on the fields it gives; the earlier one shows through elsewhere. */
  lemma PatchJobCompose(j: Job, first: JobBody, second: JobBody)
    ensures PatchJob(PatchJob(j, first), second) == PatchJob(j, Overlay(first, second))
  {
  }

  /** The body of the two updates in a row: `second`'s given fields, else `first`'s. */
  function Overlay(first: JobBody, second: JobBody): (b: JobBody)
    ensures first == JobBody(None, None, None, None, None, None, None, None, None) ==> b == second
    ensures second == JobBody(None, None, None, None, None, None, None, None, None) ==> b == first
  {
    JobBody(OrOpt(second.title, first.title), OrOpt(second.description, first.description),
            OrOpt(second.company, first.company), OrOpt(second.location, first.location),
            OrOpt(second.jobType, first.jobType), OrOpt(second.experienceLevel, first.experienceLevel),
            OrOpt(second.salary, first.salary), OrOpt(second.requirements, first.requirements),
            OrOpt(second.applicants, first.applicants))
  }

  function OrOpt<T>(v: Option<T>, w: Option<T>): Option<T> {
    if v.Some? then v else w
  }

  /** An update keeps a job conforming exactly when each field it gives passes that field's
      validator: the schema is the only thing an update can break. */
  lemma PatchJobConforming(j: Job, body: JobBody)
    requires ConformingJob(j)
    ensures ConformingJob(PatchJob(j, body)) <==>
      (body.title.None? || Given(body.title)) && (body.description.None? || Given(body.description))
      && (body.location.None? || Given(body.location))
      && EnumOk(body.jobType, JobTypes) && EnumOk(body.experienceLevel, ExperienceLevels)
  {
  }

  /** A fresh profile: no resume and no skills. */
  const EmptyProfile: Profile := Profile(None, [], None, None, None, None, None)

  function UserErrors(username: string, email: string, password: string, role: Option<string>): set<string>
  {
    (if username != "" then {} else {"username"})
    + (if email != "" then {} else {"email"})
    + (if password != "" then {} else {"password"})
    + (if EnumOk(role, Roles) then {} else {"role"})
  }

  /** A stored user satisfies the User schema: what `save()` checks of the whole document. */
  predicate ConformingUser(u: User) {
    UserErrors(u.username, u.email, u.password, Some(u.role)) == {}
  }

  /** new User(...) under the User schema: required paths, role enumeration and default. */
  function NewUser(id: Id, username: string, email: string, password: string, role: Option<string>, profile: Profile)
    : (r: Result<User, set<string>>)
    ensures r.Err? <==> UserErrors(username, email, password, role) != {}
    ensures r.Ok? ==> r.value == User(id, username, email, password, r.value.role, profile)
    ensures r.Ok? ==> r.value.role in Roles && r.value.username != "" && r.value.email != "" && r.value.password != ""
    ensures r.Ok? ==> ConformingUser(r.value)
    ensures r.Ok? && role.None? ==> r.value.role == DefaultRole
    ensures r.Ok? && role.Some? ==> r.value.role == role.value
  {
    var errs := UserErrors(username, email, password, role);
    if errs != {} then Err(errs) else Ok(User(id, username, email, password, Or(role, DefaultRole), profile))
  }

  /** Application.create: the resume is required and the status defaults to 'applied'. */
  function NewApplication(id: Id, job: Id, candidate: Id, resume: string, status: Option<string>)
    : (r: Result<Application, set<string>>)
    ensures r.Ok? <==> resume != "" && EnumOk(status, Statuses)
    ensures r.Ok? ==> r.value.status in Statuses
    ensures r.Ok? && status.None? ==> r.value.status == DefaultStatus
    ensures r.Ok? ==> r.value == Application(id, job, candidate, resume, r.value.status)
  {
    var errs := (if resume != "" then {} else {"resume"}) + (if EnumOk(status, Statuses) then {} else {"status"});
    if errs != {} then Err(errs) else Ok(Application(id, job, candidate, resume, Or(status, DefaultStatus)))
  }

  /** The defaults are members of their own enumerations. */
  lemma DefaultsAreListed()
    ensures DefaultJobType in JobTypes && DefaultExperienceLevel in ExperienceLevels
    ensures DefaultRole in Roles && DefaultStatus in Statuses
  {
  }
}
