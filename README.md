# Job portal core in Dafny

A model of the decision logic at the core of a job board. Candidates upload resumes and
apply to jobs, employers post jobs and review applicants, and everyone browses the catalog.
The model covers:

- **Job matching**: each job is scored by the share of its requirements that the
  candidate's skills cover. Coverage is a case-insensitive substring test in which the
  skill contains the requirement. Zero scores are dropped and the rest are ranked by a
  stable descending sort. A score is the exact pair (matched, total), and two scores are
  compared by cross-multiplication.
- **Resume parsing**: the decoded text is lowercased. The first e-mail-shaped substring is
  taken, leftmost and then longest, which is what a greedy, backtracking regex finds. The
  fixed skill vocabulary is filtered by substring occurrence. Any failure yields an empty
  skill list.
- **Skill merge on upload**: the stored skills followed by the extracted ones, deduplicated
  as a JavaScript `Set` deduplicates (first occurrence kept, exact comparison).
- **Role gate**: how the bearer token is extracted, with the 401 / 400 / 403 decision
  chain. Signature checking is an oracle parameter.
- **Upload filter and stored file name**: Node's POSIX `path.extname`, the unanchored
  `/pdf|doc|docx/` test, `${timestamp}-${originalname}` and the 5 MiB limit.
- **Record types**: the Job, User and Application schemas, with their required fields,
  enumerations, defaults and lists that start empty.
- **The store**: a class holding the `users`, `jobs` and `applications` maps, with one
  member for each of these request handlers: resume upload, applying, the applications of
  a job and of the caller, the companies list and one company's page, and the jobs router's
  GET /, GET /my-jobs, GET /:id, POST /, PUT /:id and DELETE /:id, with the owner-or-admin
  check. Registration, login and the profile read are not among them. Its invariant keeps every
  record under its own id, keeps e-mails unique, allows at most one application per
  (job, candidate) pair, and keeps every stored user within the User schema, which the
  upload handler's whole-document save checks.
- **The jobs router's dispatch order**, where first match wins and literal segments match
  without regard to case, as in a default `express.Router()`.
- **The jobs page**: the five-stage browse filter, the checkbox toggle, six-per-page
  slicing, and the Reset / Clear Filters resets. The page state is a class.
- **The employer dashboard**: the requirements field split at ',' and trimmed, the job list
  after a delete, the form reset after a post, and the resume download link.
- **The companies page**: the display-name fallback, the case-insensitive search and the
  avatar letter.

Files:
- `common.dfy`: Option/Result, the order-preserving `Filter`, subsequences, `NoDup`.
- `text.dfy`: ASCII case mapping, substring search, JavaScript `trim`, `split` and single-character `replace`, decimal numerals.
- `models.dfy`: the record types.
- `job_matcher.dfy`, `resume_parser.dfy`, `skill_merge.dfy`, `auth.dfy`, `upload.dfy`,
  `store.dfy`, `job_router.dfy`, `jobs_page.dfy`, `employer_dashboard.dfy`, `companies.dfy`.

Parameters stand in for the outside world:
- the text the PDF library decoded (`None` when reading or decoding fails);
- the token verifier;
- the upload timestamp (`Date.now()`);
- the outcome of each HTTP call the client pages make;
- the user's confirmation answer.

## Model

| member | source | states |
|---|---|---|
| JobMatcher.MatchingRequirements | server/services/jobMatcher.js:14-16 | a requirement is kept iff it is in the job's list and some skill, lowercased, contains it lowercased; a kept requirement occurs as often as in the job's list (duplicates are kept), a dropped one not at all |
| JobMatcher.ScoreJob | server/services/jobMatcher.js:10-19 | the total is the number of requirements and matched is the number of met requirement entries, never more than the total; a job with no requirements matches 0 |
| JobMatcher.ScorePositiveIff | server/services/jobMatcher.js:14-21 | a job scores above zero, and so survives the filter, iff at least one of its requirements is met |
| JobMatcher.ScoreGePercent | server/services/jobMatcher.js:18-20 | cross-multiplication orders two scores exactly as the percentages matched / total * 100 are ordered |
| JobMatcher.GeTrans | server/services/jobMatcher.js:20 | the score order is transitive through a score with a positive total |
| JobMatcher.EqTrans | server/services/jobMatcher.js:20 | two scores equal to a third are equal |
| JobMatcher.Insert | server/services/jobMatcher.js:20 | insertion keeps the multiset of entries and adds exactly one |
| JobMatcher.SortByScore | server/services/jobMatcher.js:20 | the sort is a permutation of its input |
| JobMatcher.SortByScoreSorted | server/services/jobMatcher.js:20 | the sorted list is non-increasing in score |
| JobMatcher.SortByScoreStable | server/services/jobMatcher.js:20 | entries with equal score keep their input order |
| JobMatcher.MatchJobsBounds | server/services/jobMatcher.js:10-20 | every returned entry has 1 <= matched <= total, comes from a catalog job with a non-empty requirement list, and is that job's own score |
| JobMatcher.MatchJobs | server/services/jobMatcher.js:4-23 | an unknown candidate gets nothing; the result is never longer than the catalog and every entry has 0 < matched <= total |
| JobMatcher.MatchJobsExactly | server/services/jobMatcher.js:10-20 | each job appears in the result exactly as often as in the catalog when it matches at least one requirement, and otherwise never |
| JobMatcher.MatchJobsSorted | server/services/jobMatcher.js:20 | the result is ranked by non-increasing score |
| JobMatcher.MatchJobsStable | server/services/jobMatcher.js:20 | jobs with equal scores keep their catalog order |
| JobMatcher.MatchJobsNoSkills | server/services/jobMatcher.js:6 | an unknown candidate or an empty skill list gives an empty result |
| JobMatcher.MatchingAppend | server/services/jobMatcher.js:14-18 | a duplicated requirement is counted once more, if met |
| JobMatcher.EmptyRequirement | server/services/jobMatcher.js:14-16 | the empty requirement is met iff the candidate has at least one skill |
| JobMatcher.MoreSkillsMatchMore | server/services/jobMatcher.js:14-16 | adding skills never lowers a job's matched count |
| JobMatcher.CoverageDirection | server/services/jobMatcher.js:15 | skill "Node.js" covers requirement "node"; skill "node" does not cover "Node.js" |
| ResumeParser.MatchAtSound | server/services/resumeParser.js:13 | a match found at a position is an e-mail-shaped substring starting there |
| ResumeParser.MatchAtComplete | server/services/resumeParser.js:13 | no e-mail-shaped substring starting at that position is longer than the match found |
| ResumeParser.FirstFrom | server/services/resumeParser.js:13-15 | the result spans the longest e-mail-shaped substring at the leftmost position that has one, and is None when no position has one |
| ResumeParser.FindEmail | server/services/resumeParser.js:13-15 | a found e-mail is e-mail-shaped and is the leftmost-longest match: no e-mail starts earlier and none at its start is longer; none is found iff no substring of the text is |
| ResumeParser.LeftmostLongest | server/services/resumeParser.js:13 | the span a regex engine returns: an e-mail, none starting earlier, none longer at the same start |
| ResumeParser.MatchAt | server/services/resumeParser.js:13 | a match found at a position ends after it and within the text |
| ResumeParser.EmailShape | server/services/resumeParser.js:13 | an e-mail-shaped string has exactly one '@', a '.' after it, and ends in [a-z0-9_-] |
| ResumeParser.EmailHasAt | server/services/resumeParser.js:13-15 | text without '@' yields no e-mail |
| ResumeParser.FindEmailFacts | server/services/resumeParser.js:13-15 | a found e-mail is e-mail-shaped and a substring of the text; without '@' there is none |
| ResumeParser.ExtractSkills | server/services/resumeParser.js:18-19 | the skills are exactly the vocabulary entries occurring in the text, as a subsequence of the vocabulary, without duplicates when the vocabulary has none |
| ResumeParser.KnownSkillsNoDup | server/services/resumeParser.js:18 | the fixed vocabulary has no duplicates |
| ResumeParser.JavascriptAlsoJava | server/services/resumeParser.js:18-19 | text mentioning "javascript" reports both "javascript" and "java" |
| ResumeParser.ParseResume | server/services/resumeParser.js:1-32 | on failure no text, no e-mail and an empty skill list; otherwise the text is the lowercased input, holds no capital, and lowercasing it again changes nothing |
| ResumeParser.ParseResumeFacts | server/services/resumeParser.js:9-26 | the skills are exactly the vocabulary entries occurring in the lowercased text, without duplicates and in vocabulary order; a found e-mail is e-mail-shaped and occurs in that text, and is exactly the leftmost-longest match `FindEmail` returns on it; a text without '@' yields none |
| SkillMerge.DedupeMembers | server/routes/userRoutes.js:19 | deduplication keeps exactly the values of the list |
| SkillMerge.Dedupe | server/routes/userRoutes.js:19 | never longer than its input; DedupeMembers, DedupeNoDup and DedupeSnoc pin it down as insertion into a Set |
| SkillMerge.DedupeNoDup | server/routes/userRoutes.js:19 | the deduplicated list has no duplicates |
| SkillMerge.DedupeSnoc | server/routes/userRoutes.js:19 | inserting one more value skips it exactly when it was seen before |
| SkillMerge.DedupeAppend | server/routes/userRoutes.js:19 | deduplicating a concatenation is the front deduplicated, followed by the unseen values of the back deduplicated |
| SkillMerge.DedupeNoDupIdentity | server/routes/userRoutes.js:19 | a duplicate-free list is its own deduplication |
| SkillMerge.DedupeIdempotent | server/routes/userRoutes.js:19 | deduplication is idempotent |
| SkillMerge.UnseenMembers | server/routes/userRoutes.js:19 | the unseen values are those of the back that the front lacks |
| SkillMerge.UnseenEmpty | server/routes/userRoutes.js:19 | nothing is unseen when the front holds every value of the back |
| SkillMerge.MergeMembers | server/routes/userRoutes.js:19 | the merge holds every stored and every extracted skill, nothing else, and no duplicate |
| SkillMerge.Merge | server/routes/userRoutes.js:19 | the merged list holds a skill iff it is stored or extracted, and holds no duplicate |
| SkillMerge.MergeExtends | server/routes/userRoutes.js:19 | duplicate-free stored skills are an unchanged prefix, followed by the new skills in order of first occurrence |
| SkillMerge.MergeKeepsExisting | server/routes/userRoutes.js:19 | the deduplicated stored skills are always a prefix of the merge |
| SkillMerge.MergeIdempotent | server/routes/userRoutes.js:19 | merging skills already stored leaves a duplicate-free list unchanged |
| SkillMerge.MergeTwice | server/routes/userRoutes.js:19 | uploading the same resume twice stores what uploading it once stores |
| SkillMerge.MergeIsCaseSensitive | server/routes/userRoutes.js:19 | "React" and "react" both survive the merge |
| Auth.Token | server/middleware/authMiddleware.js:5 | no header gives no token; a header without "Bearer " is the token itself; otherwise the token is the header with its first "Bearer " cut out, whatever precedes or follows it |
| Auth.TokenOfBearer | server/middleware/authMiddleware.js:5 | the header "Bearer " followed by any string yields exactly that string |
| Auth.HasToken | server/middleware/authMiddleware.js:7 | a token is present iff there is a header and cutting "Bearer " out of it leaves a non-empty string |
| Auth.Authorize | server/middleware/authMiddleware.js:3-24 | 401 iff there is no token or it is empty; 400 iff verification fails; 403 iff a non-empty role list misses the decoded role; otherwise the handler runs with the decoded claims as the user |
| Auth.AuthorizeNext | server/middleware/authMiddleware.js:11-19 | the handler runs iff the token verifies and the role list is empty or names the role |
| Auth.OpenGateAdmitsVerified | server/middleware/authMiddleware.js:3-15 | the default empty role list admits every verified user |
| Auth.MoreRolesAdmitMore | server/middleware/authMiddleware.js:15 | extending a non-empty role list keeps every admitted request admitted |
| Auth.OnlyTheTokenIsVerified | server/middleware/authMiddleware.js:12 | the decision depends on the verifier only through its answer for the stripped token |
| Auth.OnlyFirstBearerRemoved | server/middleware/authMiddleware.js:5 | "Bearer Bearer x" yields the token "Bearer x" |
| Auth.PrefixOnlyIsUnauthorized | server/middleware/authMiddleware.js:5-9 | a header of only "Bearer " is answered with 401 |
| Upload.ExtName | server/middleware/uploadMiddleware.js:22 | empty iff the last segment has no '.' after its first character, or is ".."; otherwise a suffix of that segment that starts with its only '.' |
| Upload.DocxIsRedundant | server/middleware/uploadMiddleware.js:21 | the "docx" alternative accepts nothing that "doc" does not |
| Upload.Allowed | server/middleware/uploadMiddleware.js:21 | the unanchored test: the string contains "pdf", "doc" or "docx" |
| Upload.FileFilter | server/middleware/uploadMiddleware.js:20-30 | a file is accepted iff its lowercased extension and its mimetype both pass the test |
| Upload.WithinLimit | server/middleware/uploadMiddleware.js:34 | a file is within the limit iff its size is at most MaxFileSize bytes |
| Upload.Receive | server/middleware/uploadMiddleware.js:20-36 | a file part is stored iff the filter accepts it and it is within the limit; refused iff the filter rejects it; too large iff accepted and over the limit |
| Upload.ReceiveBoundary | server/middleware/uploadMiddleware.js:34 | an accepted kind of file is stored at exactly 5242880 bytes and too large at 5242881, and a smaller file of a stored kind is stored too |
| Upload.RefusalIgnoresSize | server/middleware/uploadMiddleware.js:20-36 | whether a file is refused by the filter does not depend on its size |
| Upload.ExtNamePlain | server/middleware/uploadMiddleware.js:22 | "stem.ext" has extension ".ext" |
| Upload.ExtNameDotfile | server/middleware/uploadMiddleware.js:22 | a name that is '.' followed by a dot-free word has no extension |
| Upload.NoExtensionRejected | server/middleware/uploadMiddleware.js:22-25 | a file without an extension is always rejected |
| Upload.DotfilePdfRejected | server/middleware/uploadMiddleware.js:22-25 | a file named ".pdf" is rejected whatever its mimetype |
| Upload.DocPrefixedExtensionPasses | server/middleware/uploadMiddleware.js:21-22 | every extension beginning with "doc" passes the unanchored test |
| Upload.DocmExtensionPasses | server/middleware/uploadMiddleware.js:21-22 | ".docm" passes |
| Upload.MsWordNotAllowed | server/middleware/uploadMiddleware.js:21-23 | the mimetype "application/msword" fails the test |
| Upload.DocUploadRejected | server/middleware/uploadMiddleware.js:20-30 | as written, every file sent as "application/msword" is rejected |
| Upload.FileFilterIntended | server/middleware/uploadMiddleware.js:20-30 | the corrected filter: the lowercased extension passes the test, and the mimetype passes it or is "application/msword" |
| Upload.IntendedFilterAcceptsDoc | server/middleware/uploadMiddleware.js:20-30 | the corrected filter accepts "stem.doc" sent as "application/msword", and agrees with the written one for every other mimetype |
| Upload.UppercaseMimetypeRejected | server/middleware/uploadMiddleware.js:23 | "APPLICATION/PDF" is rejected, since the mimetype is not lowercased |
| Upload.StoredName | server/middleware/uploadMiddleware.js:16 | the decimal timestamp, then '-', then the original name, which it always ends with |
| Upload.FirstDash | server/middleware/uploadMiddleware.js:16 | no '-' comes before the one after the timestamp |
| Upload.StoredNameInjective | server/middleware/uploadMiddleware.js:16 | the timestamp and the original name can be recovered from a stored name |
| Models.ConformingJob | server/models/Job.js:3-13 | the whole-document check a job's `save()` runs: title, description and location non-empty, jobType and experienceLevel listed |
| Models.JobBodyErrors | server/models/Job.js:3-13 | the failing paths are among the required and enumerated ones; jobType fails iff it is given and not listed |
| Models.NewJob | server/models/Job.js:3-13 | creation fails iff some path fails validation, with exactly those paths; a created job conforms to the schema and carries the body's title, description, company and location, its jobType, experienceLevel, requirements and applicants when given and otherwise Full Time, Entry Level, [] and []; the salary is the body's |
| Models.PatchJob | server/routes/jobRoutes.js:61 | an update keeps the id; every field the body gives (company included) replaces the stored one and every absent field keeps its stored value; an empty body changes nothing |
| Models.PatchJobIdempotent | server/routes/jobRoutes.js:61 | sending the same update twice stores what sending it once stores |
| Models.PatchJobCompose | server/routes/jobRoutes.js:61 | two updates in a row are one update whose body takes the second's fields and, where it has none, the first's |
| Models.Overlay | server/routes/jobRoutes.js:61 | the combined body of two updates: an empty first or second body leaves the other unchanged |
| Models.PatchJobConforming | server/routes/jobRoutes.js:61 | an update keeps a conforming job conforming iff every string it gives for title, description and location is non-empty and every enum it gives is listed |
| Models.ConformingUser | server/models/User.js:3-7 | the whole-document check a user's `save()` runs: username, e-mail and password non-empty, role listed |
| Models.NewUser | server/models/User.js:3-17 | creation fails iff username, email or password is missing or the role is not listed; a created user carries the given id, username, e-mail, password and profile, the given role or else candidate, and conforms to the schema |
| Models.NewApplication | server/models/Application.js:3-7 | creation fails iff the resume is missing or the status is not listed; the status defaults to applied |
| Models.DefaultsAreListed | server/models/Job.js:8-9 | each default is a member of its own enumeration (also User.js:7, Application.js:7) |
| Store.JobsOf | server/routes/userRoutes.js:47 | the ids of exactly the jobs whose company is the given id |
| Store.JobCount | server/routes/userRoutes.js:47 | never more than the number of jobs, and zero iff no job has that company |
| Store.Public | server/routes/userRoutes.js:43 | every field of the user except the password |
| Store.JobCountInsert | server/routes/jobRoutes.js:10 | a new job adds one to its own company's count and leaves the others |
| Store.JobCountRemove | server/routes/jobRoutes.js:78 | a deleted job takes one from its own company's count and leaves the others |
| Store.ApplyStatus | server/routes/applicationRoutes.js:23-44 | 201 for a created application, 400 for a missing resume or a second application, 404 for an unknown job, 500 when the job cannot be saved |
| Store.Store.Valid | server/models/User.js:3-7 | the store's invariant: every record under its own id below the next id, unique e-mails, at most one application per job and candidate with a resume and a listed status, and every stored user conforming to the User schema |
| Store.Store.UsersConform | server/routes/userRoutes.js:22 | every stored user passes the User schema, so the upload handler's whole-document `save()` succeeds |
| Store.Store.constructor | server/models/User.js:3-17 | the empty store satisfies the invariant |
| Store.Store.CreateUser | server/models/User.js:5 | the unique index refuses a second user with the same e-mail; a created user is stored under a new id |
| Store.Uploaded | server/routes/userRoutes.js:13-20 | the uploaded user keeps id, username, e-mail, password, role and the rest of the profile; the resume path is the file's, and the skills are the stored ones merged with the parsed ones |
| Store.UploadedConforms | server/routes/userRoutes.js:16-22 | an upload keeps a user conforming iff it was conforming, as it changes no field the schema checks |
| Store.UploadedSkills | server/routes/userRoutes.js:13-20 | after an upload the skills are the old ones and the vocabulary entries found in the lowercased text, nothing else and no duplicate; an unreadable file leaves duplicate-free skills as they were |
| Store.Store.UploadResume | server/routes/userRoutes.js:9-28 | 400 without a file and nothing changes; 500 for an unknown user and nothing changes; otherwise only that user's record changes, to the uploaded one, and the response carries the stored skills |
| Store.Store.Overwrite | server/routes/userRoutes.js:22 | the save of a conforming record: only that user's record changes, and the unique e-mail index and user conformance still hold |
| Store.Store.Companies | server/routes/userRoutes.js:41-54 | exactly the employers, each without its password and with a job count equal to the number of jobs under its id |
| Store.Store.CompanyDetail | server/routes/userRoutes.js:57-68 | 404 unless the id names an employer; otherwise that employer and exactly its jobs |
| Store.Store.ApplicationsForJob | server/routes/applicationRoutes.js:62-70 | exactly the applications for that job |
| Store.Store.MyApplications | server/routes/applicationRoutes.js:73-81 | exactly the applications of that candidate |
| Store.Store.ProfileResume | server/routes/applicationRoutes.js:15-20 | the caller's profile resume when the user exists and has a non-empty one |
| Store.Store.HasApplied | server/routes/applicationRoutes.js:48-59 | an application for that job by that candidate is stored |
| Store.Store.Apply | server/routes/applicationRoutes.js:9-45 | resume from the file, else the profile; 400, 404, then 400, in that order, and nothing changes; past them one application with status applied is stored and found; the caller is appended once to the job's applicants iff the stored job conforms to the schema, and otherwise the answer is 500 with the job unchanged and the application kept |
| Store.Store.Record | server/routes/applicationRoutes.js:31-35 | the new application is stored under the next id, keeping the store's invariant and every job; afterwards it is found and listed |
| Store.Store.Enlist | server/routes/applicationRoutes.js:37-39 | only the job's applicant list changes, by the caller appended at the end |
| Store.Store.AllJobs | server/routes/jobRoutes.js:28-38 | `Job.find()`: exactly the stored jobs |
| Store.Store.AllJobsCovers | server/routes/jobRoutes.js:18-52 | the caller's jobs and every job fetched by id are in the catalog, and a job is in the catalog iff GET /:id under its own id returns it |
| Store.Store.MyJobs | server/routes/jobRoutes.js:18-25 | exactly the jobs whose company is the caller |
| Store.Store.GetJob | server/routes/jobRoutes.js:41-49 | 404 iff the id names no job, else that job |
| Store.Store.CreateJob | server/routes/jobRoutes.js:8-15 | the caller's id overrides any company in the body; a body the schema refuses gives 500 and nothing changes; on success the caller's job count grows by one |
| Store.Store.Insert | server/routes/jobRoutes.js:10 | the job is stored under the next id and its company's count grows by one; users and applications stay |
| Store.Store.UpdateJob | server/routes/jobRoutes.js:52-66 | 404 before 403; permitted iff the caller owns the job or is admin; only that job changes, patched by the body |
| Store.MayChange | server/routes/jobRoutes.js:57-59 | the caller posted the job or is an admin |
| Store.Store.DeleteJob | server/routes/jobRoutes.js:69-83 | 404 before 403 under the same permission; only that job is removed, and its applications stay |
| Store.UpdateSkipsEnum | server/routes/jobRoutes.js:61 | an update can store a job type outside the enumeration |
| Store.UpdateMovesOwnership | server/routes/jobRoutes.js:61 | an update naming another company hands the job over |
| Store.StaffGateBeforeChange | server/routes/jobRoutes.js:52-58 | whoever passes the gate of PUT and DELETE /jobs/:id holds the employer or admin role, so a verified candidate, even one an update made owner, is answered 403 |
| JobRouter.Dispatch | server/routes/jobRoutes.js:2-94 | the chosen route fits the request, a literal segment fitting any spelling of its case as in a default `express.Router()`; none is chosen iff no route fits |
| JobRouter.DispatchFirst | server/routes/jobRoutes.js:8-94 | the first fitting route in declaration order is the one chosen |
| JobRouter.DispatchNoLater | server/routes/jobRoutes.js:8-94 | the chosen route is declared no later than any fitting route |
| JobRouter.MatchedCapturedById | server/routes/jobRoutes.js:41-94 | as declared, GET /matched, in any spelling of its case, is handled by the public GET /:id route |
| JobRouter.MatchedUnreachable | server/routes/jobRoutes.js:41-94 | as declared, no request reaches the matched-jobs handler |
| JobRouter.MyJobsReachable | server/routes/jobRoutes.js:18-41 | GET /my-jobs, in any spelling of its case, is declared before /:id and reaches its handler behind the employer gate |
| JobRouter.UpperCaseMyJobsReachable | server/routes/jobRoutes.js:2-41 | GET /MY-JOBS reaches the employer's listing, not GET /:id |
| JobRouter.MatchedIsNotMyJobs | server/routes/jobRoutes.js:18 | no spelling of "matched" fits the literal my-jobs segment |
| JobRouter.IntendedReachesMatched | server/routes/jobRoutes.js:41-94 | with /matched declared before /:id, GET /matched in any spelling of its case reaches the matcher behind the candidate gate |
| JobRouter.IntendedAgreesElsewhere | server/routes/jobRoutes.js:41-94 | that reordering sends every request other than GET /matched, in any spelling of its case, where it went before |
| JobRouter.FitsMatchedOnly | server/routes/jobRoutes.js:86 | only GET with one segment that lowercases to "matched" fits the matched-jobs route |
| JobsPage.SequentialFilters | client/src/pages/Jobs.jsx:74-104 | narrowing by the five criteria in turn is narrowing once by their conjunction |
| JobsPage.InactiveStepIsIdentity | client/src/pages/Jobs.jsx:77-104 | an empty search, an empty checkbox list or salary 0 imposes no restriction |
| JobsPage.BrowseNoCriteria | client/src/pages/Jobs.jsx:74-106 | with no criteria the list shown is the catalog in its own order |
| JobsPage.BrowseMembers | client/src/pages/Jobs.jsx:74-106 | a job is shown iff it is in the catalog and meets every active criterion; the list shown is a subsequence of the catalog |
| JobsPage.BrowseRestricts | client/src/pages/Jobs.jsx:92-104 | a shown job has a checked type and level when any is checked, and meets a positive minimum salary (so it has a salary) |
| JobsPage.Browse | client/src/pages/Jobs.jsx:73-106 | never longer than the catalog; every job shown is a catalog job meeting every active criterion |
| JobsPage.NoCompanyMatchesByTitle | client/src/pages/Jobs.jsx:77-82 | a job without a company passes a non-empty search only by its title |
| JobsPage.SearchIgnoresCase | client/src/pages/Jobs.jsx:78-81 | the case of the search term does not matter |
| JobsPage.Toggle | client/src/pages/Jobs.jsx:56-65 | the toggled value becomes present iff it was absent, and an absent value is appended at the end; every other value keeps its membership |
| JobsPage.ToggleTwice | client/src/pages/Jobs.jsx:56-65 | checking and then unchecking an absent value restores the list |
| JobsPage.UncheckKeepsOrder | client/src/pages/Jobs.jsx:60 | unchecking removes every copy of the value and keeps the rest in order |
| JobsPage.TotalPages | client/src/pages/Jobs.jsx:114 | the number of pages is ceil(n / 6) |
| JobsPage.Slice | client/src/pages/Jobs.jsx:113 | never longer than the list; within bounds it is the plain window; an end at or before a non-negative start gives the empty list |
| JobsPage.Page | client/src/pages/Jobs.jsx:111-113 | at most six jobs; a full page p is the window [(p-1)*6, p*6) |
| JobsPage.PageWindow | client/src/pages/Jobs.jsx:111-113 | page p is the window [(p-1)*6, p*6) clipped to the list, at most six jobs |
| JobsPage.PageEmptiness | client/src/pages/Jobs.jsx:111-114 | a page is empty iff it is page 0 or beyond the last page |
| JobsPage.PagesPrefix | client/src/pages/Jobs.jsx:111-113 | the first k pages together are the first 6k jobs |
| JobsPage.PagesCoverList | client/src/pages/Jobs.jsx:111-114 | pages 1..totalPages together are the whole filtered list, in order |
| JobsPage.JobsView.constructor | client/src/pages/Jobs.jsx:6-21 | the page starts empty, on page 1, with no criteria |
| JobsPage.JobsView.ApplyFilters | client/src/pages/Jobs.jsx:73-108 | the filtered list becomes the catalog narrowed by the current criteria, and the page returns to 1 |
| JobsPage.JobsView.CurrentJobs | client/src/pages/Jobs.jsx:111-113 | the jobs on screen are at most six, the current page's window of the filtered list |
| JobsPage.JobsView.SetJobs | client/src/pages/Jobs.jsx:35-53 | the fetched catalog is installed and filtered |
| JobsPage.JobsView.SetSearchTerm | client/src/pages/Jobs.jsx:13 | a new search term re-filters and returns to page 1 |
| JobsPage.JobsView.SetLocationSearch | client/src/pages/Jobs.jsx:14 | a new location search re-filters and returns to page 1 |
| JobsPage.JobsView.ToggleCheckbox | client/src/pages/Jobs.jsx:56-65 | the chosen category's list is toggled, the other stays, and the list re-filters |
| JobsPage.JobsView.SetSalary | client/src/pages/Jobs.jsx:68-70 | only the minimum salary changes, then the list re-filters |
| JobsPage.JobsView.Reset | client/src/pages/Jobs.jsx:199-203 | the criteria and both searches are cleared and the whole catalog is shown |
| JobsPage.JobsView.ClearFilters | client/src/pages/Jobs.jsx:321 | only the checkboxes and salary are cleared; the searches stay |
| JobsPage.JobsView.Paginate | client/src/pages/Jobs.jsx:116 | only the current page changes |
| EmployerDashboard.SplitRequirements | client/src/components/EmployerDashboard.jsx:43 | one requirement more than there are commas; none contains a comma or has white space at either end |
| EmployerDashboard.BlankRequirements | client/src/components/EmployerDashboard.jsx:43 | an empty or blank field gives one empty requirement, not an empty list |
| EmployerDashboard.SplitRequirementsJoin | client/src/components/EmployerDashboard.jsx:43 | comma-free pieces joined with ',' are read back one by one, each exactly its own trim |
| EmployerDashboard.SplitRequirementsClean | client/src/components/EmployerDashboard.jsx:43 | already trimmed, comma-free requirements come back exactly |
| EmployerDashboard.PlaceholderRequirements | client/src/components/EmployerDashboard.jsx:192 | the field's placeholder "React, Node.js, Team Player" is sent as ["React", "Node.js", "Team Player"] |
| EmployerDashboard.ResumeLink | client/src/components/EmployerDashboard.jsx:220-230 | no link for a missing or empty path; otherwise the host followed by a path of the same length |
| EmployerDashboard.ResumeLinkPath | client/src/components/EmployerDashboard.jsx:222 | the path holds no backslash; each backslash became '/' and every other character is unchanged |
| EmployerDashboard.ResumeLinkPlainPath | client/src/components/EmployerDashboard.jsx:222 | a path already in '/' form is used unchanged |
| EmployerDashboard.WithoutRemovesExactly | client/src/components/EmployerDashboard.jsx:60 | after a delete, exactly the jobs without that id remain, in their order |
| EmployerDashboard.Without | client/src/components/EmployerDashboard.jsx:60 | never longer than the list; every remaining job is a listed job with another id |
| EmployerDashboard.WithoutAbsent | client/src/components/EmployerDashboard.jsx:60 | deleting an id that no job has changes nothing |
| EmployerDashboard.WithoutTwice | client/src/components/EmployerDashboard.jsx:60 | deleting the same id twice is deleting it once |
| EmployerDashboard.Formatted | client/src/components/EmployerDashboard.jsx:41-44 | the posted body is the form with its requirements split |
| EmployerDashboard.InitialFormPost | client/src/components/EmployerDashboard.jsx:11-19 | the initial form posts one empty requirement, as Full Time and Entry Level |
| EmployerDashboard.Dashboard.constructor | client/src/components/EmployerDashboard.jsx:6-19 | no jobs, the initial form, the My Jobs tab |
| EmployerDashboard.Dashboard.Edit | client/src/components/EmployerDashboard.jsx:155-192 | typing replaces the form and leaves the job list and the tab |
| EmployerDashboard.Dashboard.PostJob | client/src/components/EmployerDashboard.jsx:38-54 | sends the formatted form; on success the form resets to its initial state, the My Jobs tab opens and the refetched list is installed; on failure nothing changes |
| EmployerDashboard.Dashboard.DeleteJob | client/src/components/EmployerDashboard.jsx:56-65 | only when both the user and the server confirm do the jobs with that id leave the list |
| Companies.DisplayName | client/src/pages/Companies.jsx:22 | the company name when it is non-empty, else the username |
| Companies.LocationLine | client/src/pages/Companies.jsx:65 | the location when it is non-empty, else the placeholder |
| Companies.AvatarOf | client/src/pages/Companies.jsx:50-54 | the logo when there is one, else the uppercased first character of the display name (empty for an empty name) |
| Companies.SearchMembers | client/src/pages/Companies.jsx:21-23 | a company is shown iff its lowercased display name contains the lowercased term; order is kept |
| Companies.Search | client/src/pages/Companies.jsx:21-23 | never longer than the list; every company shown is a listed company that matches the term |
| Companies.EmptySearchShowsAll | client/src/pages/Companies.jsx:21-23 | an empty search shows every company |
| Companies.MatchesPrefix | client/src/pages/Companies.jsx:22 | a company matching a term matches every prefix of it |
| Companies.LongerTermNarrows | client/src/pages/Companies.jsx:21-23 | extending the term gives a subsequence of the earlier result |
| Companies.SearchIgnoresCase | client/src/pages/Companies.jsx:22 | the case of the search term does not matter |
| Companies.EmptyCompanyNameUsesUsername | client/src/pages/Companies.jsx:22 | an empty company name makes the search use the username |

## Left out

- PDF decoding (`pdf-parse`, `fs.readFileSync`) is a foreign library; its result is a parameter.
- The resume parser catches the failure of the PDF library and still returns a skill list.
  The upload handler therefore overwrites the resume path even when nothing could be read,
  rather than leaving the profile untouched; `Store.Uploaded` states the overwrite.
- SkillMerge.Merge: compares skills exactly, as the code's `Set` does. A case-insensitive
  union would drop "react" after "React"; `MergeIsCaseSensitive` shows the code keeps both.
- JWT signing and verification, and bcrypt, are an oracle parameter. Login, registration
  and the profile read are outside the model; `CreateUser` models only the unique e-mail index.
- Auth.Authorize: the middleware's `catch` also catches a synchronous exception thrown by a
  handler after `next()` and turns it into 400. The model ends at the decision.
- Mongoose `populate` is left out, so applications and jobs keep bare ids in queries.
  Query-result order is left out too: the store's queries return sets, and the matcher
  takes the catalog as a sequence.
- Invalid ObjectIds are left out because ids are naturals. They raise CastErrors (500), for
  example the id "matched" once GET /jobs/matched reaches GET /:id.
- Database failures other than schema refusals, such as a lost connection or a failing
  write, are left out. Generic 500 answers are modelled where the code itself fails: the
  unknown user in the upload handler, a job body the schema refuses, and the save in the
  apply handler of a job that an update left outside the schema.
- Salaries are whole numbers in the model; Mongoose stores `Number`, a double.
- Concurrency is left out: requests run one at a time. That covers the apply handler's
  check-then-create race and concurrent uploads.
- The score's floating-point division is kept as an exact ratio. `Percent` is the real number
  it approximates.
- Lowercasing, trimming and the regex character classes are ASCII only. The Unicode
  behaviour of `toLowerCase` and `trim` is not modelled.
- JobRouter.Dispatch: literal segments are compared after ASCII lowercasing. The router's
  case-insensitive regex also folds non-ASCII letters, which is not modelled. A path is
  taken as its segments after Express's trailing-slash tolerance.
- The duplicated `catch` in the GET / handler of `server/routes/jobRoutes.js:33-34` makes
  that file fail to parse as written. The model reads the handler with a single catch.
- The client reads `res.data.resume` after an upload, which the upload handler never
  returns. The client dashboard page is not part of this model.
- The sample jobs the jobs page falls back on (`client/src/pages/Jobs.jsx:26-33`) are left
  out, as are loading and error flags. Their "Internship" type lies outside the Job
  enumeration.
- JobsPage.Page: a page number below 1 would slice from the end of the list, as
  `Array.prototype.slice` does. The page buttons only pass 1..totalPages.
- Multer's disk storage and the directory creation at start-up are I/O. `Upload.Receive`
  states what multer decides for one file part (filter first, then the size limit); how the
  route answers multer's errors is not modelled.
- Rendering, routing in the client, and fetching on mount are left out. Each fetch result
  is a parameter of the method it feeds.

## Findings

| source | as written | input that shows it | evidently intended | confidence | as-written member | corrected member |
|---|---|---|---|---|---|---|
| server/middleware/uploadMiddleware.js:20-30 | the mimetype must contain "pdf" or "doc" | "cv.doc" sent with the Word 97-2003 mimetype "application/msword" is rejected | DOC files are accepted, as the filter's own error message (PDF, DOC, DOCX) says | not executed; high | Upload.DocUploadRejected | Upload.IntendedFilterAcceptsDoc |
| server/routes/jobRoutes.js:41-94 | GET /matched is declared after GET /:id | GET /matched is handled as GET /:id with id "matched", without the role gate, and never reaches the matcher | /matched is declared before /:id and reaches the matcher behind the candidate gate | not executed; high | JobRouter.MatchedCapturedById | JobRouter.IntendedReachesMatched |
