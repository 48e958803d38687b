/** The employer dashboard's own logic: the requirements field sent as a list split at ','
    with each piece trimmed, the posted-jobs list updated after a delete, the form reset after
    a successful post, and the download link built from a stored resume path. The server's
    answers (post, delete, my-jobs refetch) and the confirmation dialog are parameters. */
module EmployerDashboard {
  import opened Common
  import opened Text

  // ---------------------------------------------------------------- requirements

  /** Trimming never introduces a character. */
  lemma TrimKeepsOut(p: string, c: char)
    requires c !in p
    ensures c !in Trim(p)
  {
    var a := SkipSpaces(p, 0);
    var b := BackSpaces(p, a, |p|);
    assert Trim(p) == p[a..b];
    assert forall k :: a <= k < b ==> p[k] != c;
    assert c !in p[a..b];
  }

  /** `requirements.split(',').map(req => req.trim())`. */
  function SplitRequirements(s: string): (r: seq<string>)
    ensures |r| == CountChar(s, ',') + 1
    ensures forall k :: 0 <= k < |r| ==> ',' !in r[k]
    ensures forall k :: 0 <= k < |r| ==> r[k] == [] || (!IsSpace(r[k][0]) && !IsSpace(r[k][|r[k]| - 1]))
  {
    var pieces := Split(s, ',');
    forall k | 0 <= k < |pieces| ensures ',' !in Trim(pieces[k]) {
      TrimKeepsOut(pieces[k], ',');
    }
    seq(|pieces|, k requires 0 <= k < |pieces| => Trim(pieces[k]))
  }

  /** An empty or blank field is sent as one empty requirement, not as an empty list. */
  lemma BlankRequirements(s: string)
    requires AllSpace(s)
    ensures SplitRequirements(s) == [""]
  {
    assert ',' !in s by {
      forall k | 0 <= k < |s| ensures s[k] != ',' {
        assert IsSpace(s[k]);
      }
    }
    SplitNoSep(s, ',');
    TrimAllSpace(s);
  }

  /** Comma-free requirements typed with ',' between them are read back one by one, each
      with its surrounding white space trimmed. */
  lemma SplitRequirementsJoin(reqs: seq<string>)
    requires reqs != []
    requires forall k :: 0 <= k < |reqs| ==> ',' !in reqs[k]
    ensures SplitRequirements(Join(reqs, ',')) == seq(|reqs|, k requires 0 <= k < |reqs| => Trim(reqs[k]))
  {
    SplitJoin(reqs, ',');
  }

  /** Requirements already trimmed come back exactly. */
  lemma SplitRequirementsClean(reqs: seq<string>)
    requires reqs != []
    requires forall k :: 0 <= k < |reqs| ==> ',' !in reqs[k]
    requires forall k :: 0 <= k < |reqs| ==>
      reqs[k] == [] || (!IsSpace(reqs[k][0]) && !IsSpace(reqs[k][|reqs[k]| - 1]))
    ensures SplitRequirements(Join(reqs, ',')) == reqs
  {
    SplitRequirementsJoin(reqs);
    var r := SplitRequirements(Join(reqs, ','));
    forall k | 0 <= k < |reqs| ensures r[k] == reqs[k] {
      TrimNoEdges(reqs[k]);
    }
  }

  /** The field's own placeholder, "React, Node.js, Team Player", is sent as
      ["React", "Node.js", "Team Player"]. */
  lemma PlaceholderRequirements()
    ensures SplitRequirements("React, Node.js, Team Player") == ["React", "Node.js", "Team Player"]
  {
    var reqs := ["React", " Node.js", " Team Player"];
    SplitRequirementsJoin(reqs);
    PlaceholderPieces();
    PlaceholderJoin();
  }

  lemma PlaceholderPieces()
    ensures var reqs := ["React", " Node.js", " Team Player"];
      seq(|reqs|, k requires 0 <= k < |reqs| => Trim(reqs[k])) == ["React", "Node.js", "Team Player"]
  {
    var reqs := ["React", " Node.js", " Team Player"];
    var q := seq(|reqs|, k requires 0 <= k < |reqs| => Trim(reqs[k]));
    assert q[0] == "React" by { TrimNoEdges("React"); }
    assert q[1] == "Node.js" by {
      assert reqs[1] == " " + "Node.js";
      TrimOneSpace("Node.js");
    }
    assert q[2] == "Team Player" by {
      assert reqs[2] == " " + "Team Player";
      TrimOneSpace("Team Player");
    }
  }

  lemma PlaceholderJoin()
    ensures Join(["React", " Node.js", " Team Player"], ',') == "React, Node.js, Team Player"
  {
    var reqs := ["React", " Node.js", " Team Player"];
    assert reqs[1..][1..] == [" Team Player"];
    assert Join(reqs[1..], ',') == " Node.js" + [','] + " Team Player";
  }

  /** One leading blank before a word is trimmed away. */
  lemma TrimOneSpace(w: string)
    requires w != [] && !IsSpace(w[0]) && !IsSpace(w[|w| - 1])
    ensures Trim(" " + w) == w
  {
    var s := " " + w;
    assert s[1] == w[0] && s[|s| - 1] == w[|w| - 1];
    assert SkipSpaces(s, 0) == 1;
    assert BackSpaces(s, 1, |s|) == |s|;
    assert s[1..] == w;
  }

  // ---------------------------------------------------------------- resume link

  const ResumeHost: string := "http://localhost:5001/"

  /** The download link of a stored resume path, with every '\' turned into '/'; a missing or
      empty path shows "No Resume" instead of a link. */
  function ResumeLink(resume: Option<string>): (link: Option<string>)
    ensures link.None? <==> resume.None? || resume.value == ""
    ensures link.Some? ==> |link.value| == |ResumeHost| + |resume.value|
    ensures link.Some? ==> link.value[..|ResumeHost|] == ResumeHost
  {
    if resume.None? || resume.value == "" then None
    else Some(ResumeHost + ReplaceAll(resume.value, '\\', '/'))
  }

  /** The path part of the link: no backslash is left, each backslash became '/', and every
      other character is unchanged. */
  lemma ResumeLinkPath(resume: string, k: nat)
    requires resume != "" && k < |resume|
    ensures '\\' !in ResumeLink(Some(resume)).value[|ResumeHost|..]
    ensures ResumeLink(Some(resume)).value[|ResumeHost| + k] ==
      if resume[k] == '\\' then '/' else resume[k]
  {
    var path := ReplaceAll(resume, '\\', '/');
    assert ResumeLink(Some(resume)).value[|ResumeHost|..] == path;
    ReplaceAllRemoves(resume, '\\', '/');
    ReplaceAllAt(resume, '\\', '/', k);
  }

  /** A link built from a path already in '/' form is the host followed by that path. */
  lemma ResumeLinkPlainPath(resume: string)
    requires resume != "" && '\\' !in resume
    ensures ResumeLink(Some(resume)) == Some(ResumeHost + resume)
  {
    var path := ReplaceAll(resume, '\\', '/');
    forall k | 0 <= k < |resume| ensures path[k] == resume[k] {
      ReplaceAllAt(resume, '\\', '/', k);
    }
    assert path == resume;
  }

  // ---------------------------------------------------------------- posted jobs

  /** A job as listed under "My Jobs". */
  datatype Posting = Posting(id: string, title: string, location: string)

  /** `jobs.filter(job => job._id !== id)`. */
  function Without(jobs: seq<Posting>, id: string): (r: seq<Posting>)
    ensures |r| <= |jobs|
    ensures forall j :: j in r ==> j in jobs && j.id != id
  {
    Filter(jobs, (j: Posting) => j.id != id)
  }

  /** The delete removes exactly the jobs with that id, and the rest keep their order. */
  lemma WithoutRemovesExactly(jobs: seq<Posting>, id: string, x: Posting)
    ensures x in Without(jobs, id) <==> x in jobs && x.id != id
    ensures IsSubsequence(Without(jobs, id), jobs)
  {
    FilterMembers(jobs, (j: Posting) => j.id != id, x);
    FilterIsSubsequence(jobs, (j: Posting) => j.id != id);
  }

  /** Deleting an id no listed job has leaves the list as it was. */
  lemma WithoutAbsent(jobs: seq<Posting>, id: string)
    requires forall k :: 0 <= k < |jobs| ==> jobs[k].id != id
    ensures Without(jobs, id) == jobs
  {
    FilterAll(jobs, (j: Posting) => j.id != id);
  }

  /** Deleting the same id twice is deleting it once. */
  lemma WithoutTwice(jobs: seq<Posting>, id: string)
    ensures Without(Without(jobs, id), id) == Without(jobs, id)
  {
    var w := Without(jobs, id);
    forall k | 0 <= k < |w| ensures w[k].id != id {
      assert w[k] in w;
    }
    WithoutAbsent(w, id);
  }

  // ---------------------------------------------------------------- the post form

  /** The post-job form, every field as typed. */
  datatype JobForm = JobForm(title: string, description: string, location: string,
                             salary: string, jobType: string, experienceLevel: string,
                             requirements: string)

  /** The form as the dashboard first shows it. */
  const InitialForm: JobForm := JobForm("", "", "", "", "Full Time", "Entry Level", "")

  /** The body sent to create a job: the form with its requirements split. */
  datatype JobPost = JobPost(title: string, description: string, location: string,
                             salary: string, jobType: string, experienceLevel: string,
                             requirements: seq<string>)

  /** `{ ...newJob, requirements: <split and trimmed> }`. */
  function Formatted(f: JobForm): (b: JobPost)
    ensures b.title == f.title && b.description == f.description && b.location == f.location
    ensures b.salary == f.salary && b.jobType == f.jobType && b.experienceLevel == f.experienceLevel
    ensures b.requirements == SplitRequirements(f.requirements)
  {
    JobPost(f.title, f.description, f.location, f.salary, f.jobType, f.experienceLevel,
            SplitRequirements(f.requirements))
  }

  /** The initial form is sent with one empty requirement. */
  lemma InitialFormPost()
    ensures Formatted(InitialForm).requirements == [""]
    ensures Formatted(InitialForm).jobType == "Full Time"
    ensures Formatted(InitialForm).experienceLevel == "Entry Level"
  {
    BlankRequirements("");
  }

  /** The dashboard's state: the employer's jobs, the form, and the open tab. */
  class Dashboard {
    var jobs: seq<Posting>
    var form: JobForm
    var activeTab: string

    constructor()
      ensures jobs == [] && form == InitialForm && activeTab == "my-jobs"
    {
      jobs := [];
      form := InitialForm;
      activeTab := "my-jobs";
    }

    /** Typing into the form. */
    method Edit(f: JobForm)
      modifies this
      ensures form == f
      ensures jobs == old(jobs) && activeTab == old(activeTab)
    {
      form := f;
    }

    /** handlePostJob: the formatted form is sent; when the server accepts it the form is reset,
        the "My Jobs" tab opens, and the list is replaced by the refetched one if the refetch
        answers. When the server refuses, nothing changes. */
    method PostJob(accepted: bool, refetched: Option<seq<Posting>>) returns (sent: JobPost)
      modifies this
      ensures sent == Formatted(old(form))
      ensures accepted ==> form == InitialForm && activeTab == "my-jobs"
      ensures accepted ==> jobs == if refetched.Some? then refetched.value else old(jobs)
      ensures !accepted ==> form == old(form) && activeTab == old(activeTab) && jobs == old(jobs)
    {
      sent := Formatted(form);
      if accepted {
        form := InitialForm;
        activeTab := "my-jobs";
        if refetched.Some? {
          jobs := refetched.value;
        }
      }
    }

    /** handleDeleteJob: nothing happens unless the employer confirms; the job leaves the list
        only when the server confirms the delete. The result says whether a delete was sent. */
    method DeleteJob(id: string, confirmed: bool, deleted: bool) returns (sent: bool)
      modifies this
      ensures sent == confirmed
      ensures jobs == if confirmed && deleted then Without(old(jobs), id) else old(jobs)
      ensures form == old(form) && activeTab == old(activeTab)
    {
      sent := confirmed;
      if confirmed && deleted {
        jobs := Without(jobs, id);
      }
    }
  }
}
