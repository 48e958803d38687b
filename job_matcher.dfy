/** Resume-driven job matching: each job is scored by the share of its requirements that
    the candidate's skills cover, jobs scoring zero are dropped and the rest are ranked by
    descending score with a stable sort (ties keep catalog order).

    A score is kept exact as the pair (matched, total); the percentage
    matched / total * 100 is only ever compared, and comparing two of them is
    cross-multiplication. */
module JobMatcher {
  import opened Common
  import opened Text
  import opened Models

  /** A candidate skill covers a requirement when the lowercased skill contains the
      lowercased requirement: the skill is the haystack, the requirement the needle. */
  predicate Covers(skill: string, req: string) {
    Contains(LowerStr(skill), LowerStr(req))
  }

  /** Some candidate skill covers the requirement (Array.prototype.some). */
  predicate Met(skills: seq<string>, req: string) {
    exists s :: s in skills && Covers(s, req)
  }

  /** The requirements of a job that the skills cover, duplicates included. */
  function MatchingRequirements(skills: seq<string>, reqs: seq<string>): (r: seq<string>)
    ensures |r| <= |reqs|
    ensures forall q :: q in r <==> q in reqs && Met(skills, q)
    ensures forall q :: multiset(r)[q] == if Met(skills, q) then multiset(reqs)[q] else 0
  {
    var r := Filter(reqs, q => Met(skills, q));
    forall q ensures q in r <==> q in reqs && Met(skills, q) {
      FilterMembers(reqs, q => Met(skills, q), q);
    }
    forall q ensures multiset(r)[q] == if Met(skills, q) then multiset(reqs)[q] else 0 {
      FilterMultiset(reqs, q => Met(skills, q), q);
    }
    r
  }

  /** A job with the exact form of its score. */
  datatype Match = Match(job: Job, matched: nat, total: nat)

  function ScoreJob(skills: seq<string>, job: Job): (m: Match)
    ensures m.job == job && m.total == |job.requirements| && m.matched <= m.total
    ensures m.matched == |MatchingRequirements(skills, job.requirements)|
    ensures job.requirements == [] ==> m.matched == 0
  {
    var reqs := job.requirements;
    if |reqs| == 0 then Match(job, 0, 0)
    else Match(job, |MatchingRequirements(skills, reqs)|, |reqs|)
  }

  /** A job scores above zero exactly when one of its requirements is met. */
  lemma ScorePositiveIff(skills: seq<string>, job: Job)
    ensures ScoreJob(skills, job).matched > 0 <==> exists q :: q in job.requirements && Met(skills, q)
  {
    var r := MatchingRequirements(skills, job.requirements);
    if r != [] {
      assert r[0] in r;
    }
  }

  /** The score (matched / total * 100) is above zero. */
  predicate Positive(m: Match) { m.matched > 0 }

  /** score(a) >= score(b), by cross-multiplication. */
  predicate ScoreGe(a: Match, b: Match) { a.matched * b.total >= b.matched * a.total }

  /** score(a) == score(b), by cross-multiplication. */
  predicate ScoreEq(a: Match, b: Match) { a.matched * b.total == b.matched * a.total }

  /** The percentage the source computes, as an exact real number. */
  function Percent(m: Match): (r: real)
    requires m.total > 0
  {
    (m.matched as real / m.total as real) * 100.0
  }

  // ---------------------------------------------------------------- arithmetic of ratios

  lemma MulMono(x: int, y: int, k: int)
    requires x >= y && k >= 0
    ensures x * k >= y * k
  {
  }

  lemma MulCancel(x: int, y: int, k: int)
    requires k > 0 && x * k >= y * k
    ensures x >= y
  {
    if x < y {
      MulMono(y, x + 1, k);
    }
  }

  /** The ratio order is transitive through a middle score with a positive total. */
  lemma GeTrans(a: Match, b: Match, c: Match)
    requires b.total > 0
    requires ScoreGe(a, b) && ScoreGe(b, c)
    ensures ScoreGe(a, c)
  {
    MulMono(a.matched * b.total, b.matched * a.total, c.total);
    MulMono(b.matched * c.total, c.matched * b.total, a.total);
    assert a.matched * b.total * c.total == (a.matched * c.total) * b.total;
    assert b.matched * a.total * c.total == b.matched * c.total * a.total;
    assert c.matched * b.total * a.total == (c.matched * a.total) * b.total;
    MulCancel(a.matched * c.total, c.matched * a.total, b.total);
  }

  /** Two scores equal to a third are equal (and hence ordered both ways). */
  lemma EqTrans(a: Match, b: Match, p: Match)
    requires p.total > 0
    requires ScoreEq(a, p) && ScoreEq(b, p)
    ensures ScoreEq(a, b)
  {
    assert a.matched * p.total * b.total == p.matched * a.total * b.total;
    assert b.matched * p.total * a.total == p.matched * b.total * a.total;
    assert (a.matched * b.total) * p.total == (b.matched * a.total) * p.total;
    MulCancel(a.matched * b.total, b.matched * a.total, p.total);
    MulCancel(b.matched * a.total, a.matched * b.total, p.total);
  }

  /** Cross-multiplication orders scores exactly as the percentages would be ordered. */
  lemma ScoreGePercent(a: Match, b: Match)
    requires a.total > 0 && b.total > 0
    ensures ScoreGe(a, b) <==> Percent(a) >= Percent(b)
  {
    var x := a.matched as real / a.total as real;
    var y := b.matched as real / b.total as real;
    assert x * a.total as real == a.matched as real;
    assert y * b.total as real == b.matched as real;
    var t := (a.total * b.total) as real;
    assert t > 0.0;
    assert (a.matched * b.total) as real == x * t;
    assert (b.matched * a.total) as real == y * t;
    if x >= y {
      assert x * t >= y * t;
    } else {
      assert x * t < y * t;
    }
  }

  // ---------------------------------------------------------------- stable sort by descending score

  /** Non-increasing in score. */
  predicate SortedDesc(s: seq<Match>) {
    forall i, j :: 0 <= i < j < |s| ==> ScoreGe(s[i], s[j])
  }

  predicate AllTotalsPositive(s: seq<Match>) {
    forall m :: m in s ==> m.total > 0
  }

  /** Insert `x` into a descending sequence in front of the first score not above it, so
      that `x` precedes the equal scores already there. */
  function Insert(x: Match, s: seq<Match>): (r: seq<Match>)
    ensures multiset(r) == multiset([x] + s)
    ensures |r| == |s| + 1
  {
    if s == [] || ScoreGe(x, s[0]) then [x] + s
    else
      assert s == [s[0]] + s[1..];
      [s[0]] + Insert(x, s[1..])
  }

  /** Stable insertion sort by descending score: one reading of
      `sort((a, b) => b.score - a.score)` under the stability that ECMA-262 requires. */
  function SortByScore(s: seq<Match>): (r: seq<Match>)
    ensures multiset(r) == multiset(s)
    ensures |r| == |s|
  {
    if s == [] then []
    else
      assert s == [s[0]] + s[1..];
      Insert(s[0], SortByScore(s[1..]))
  }

  lemma SortedCons(x: Match, s: seq<Match>)
    requires SortedDesc(s)
    requires forall y :: y in s ==> ScoreGe(x, y)
    ensures SortedDesc([x] + s)
  {
    var r := [x] + s;
    forall i, j | 0 <= i < j < |r| ensures ScoreGe(r[i], r[j]) {
      if i > 0 {
        assert r[i] == s[i - 1] && r[j] == s[j - 1];
      } else {
        assert r[j] == s[j - 1];
      }
    }
  }

  lemma {:induction false} InsertSorted(x: Match, s: seq<Match>)
    requires SortedDesc(s) && AllTotalsPositive(s) && x.total > 0
    ensures SortedDesc(Insert(x, s))
  {
    if s == [] {
    } else if ScoreGe(x, s[0]) {
      forall y | y in s ensures ScoreGe(x, y) {
        var j :| 0 <= j < |s| && s[j] == y;
        if j > 0 {
          GeTrans(x, s[0], y);
        }
      }
      SortedCons(x, s);
    } else {
      var rest := Insert(x, s[1..]);
      assert SortedDesc(s[1..]) by {
        forall i, j | 0 <= i < j < |s[1..]| ensures ScoreGe(s[1..][i], s[1..][j]) {
          assert s[1..][i] == s[i + 1] && s[1..][j] == s[j + 1];
        }
      }
      InsertSorted(x, s[1..]);
      forall y | y in rest ensures ScoreGe(s[0], y) {
        assert y in multiset(rest);
        assert y in multiset([x] + s[1..]);
        if y != x {
          assert y in s[1..];
          var j :| 0 <= j < |s[1..]| && s[1..][j] == y;
          assert s[j + 1] == y;
        }
      }
      SortedCons(s[0], rest);
    }
  }

  lemma {:induction false} SortByScoreSorted(s: seq<Match>)
    requires AllTotalsPositive(s)
    ensures SortedDesc(SortByScore(s))
  {
    if s != [] {
      SortByScoreSorted(s[1..]);
      var t := SortByScore(s[1..]);
      forall m | m in t ensures m.total > 0 {
        assert m in multiset(t);
        assert m in multiset(s[1..]);
      }
      InsertSorted(s[0], t);
    }
  }

  /** The matches whose score equals that of `p`: one class of ties. */
  function Ties(s: seq<Match>, p: Match): seq<Match> {
    Filter(s, m => ScoreEq(m, p))
  }

  lemma {:induction false} InsertStable(x: Match, s: seq<Match>, p: Match)
    requires SortedDesc(s) && AllTotalsPositive(s) && x.total > 0 && p.total > 0
    ensures Ties(Insert(x, s), p) == Ties([x] + s, p)
  {
    if s != [] && !ScoreGe(x, s[0]) {
      var h, t := s[0], s[1..];
      var th := if ScoreEq(h, p) then [h] else [];
      var tx := if ScoreEq(x, p) then [x] else [];
      SortedTail(s);
      assert AllTotalsPositive(t) by {
        forall m | m in t ensures m.total > 0 {
          assert m in s;
        }
      }
      calc {
        Ties(Insert(x, s), p);
      == { assert Insert(x, s) == [h] + Insert(x, t); }
        Ties([h] + Insert(x, t), p);
      == { TiesCons(h, Insert(x, t), p); }
        th + Ties(Insert(x, t), p);
      == { InsertStable(x, t, p); }
        th + Ties([x] + t, p);
      == { TiesCons(x, t, p); }
        th + (tx + Ties(t, p));
      == { NotBothTied(x, h, p); SwapOneEmpty(th, tx, Ties(t, p)); }
        tx + (th + Ties(t, p));
      == { TiesCons(h, t, p); assert s == [h] + t; }
        tx + Ties(s, p);
      == { TiesCons(x, s, p); }
        Ties([x] + s, p);
      }
    }
  }

  lemma SwapOneEmpty(a: seq<Match>, b: seq<Match>, c: seq<Match>)
    requires a == [] || b == []
    ensures a + (b + c) == b + (a + c)
  {
    if a == [] {
      assert a + (b + c) == b + c && a + c == c;
    } else {
      assert b + (a + c) == a + c && b + c == c;
    }
  }

  lemma SortedTail(s: seq<Match>)
    requires s != [] && SortedDesc(s)
    ensures SortedDesc(s[1..])
  {
    forall i, j | 0 <= i < j < |s| - 1 ensures ScoreGe(s[1..][i], s[1..][j]) {
      assert s[1..][i] == s[i + 1] && s[1..][j] == s[j + 1];
    }
  }

  /** The ties of a list with a given head. */
  lemma TiesCons(h: Match, t: seq<Match>, p: Match)
    ensures Ties([h] + t, p) == (if ScoreEq(h, p) then [h] else []) + Ties(t, p)
  {
    assert ([h] + t)[1..] == t;
  }

  /** Two matches tied with `p` are tied with each other, so neither scores below the other. */
  lemma NotBothTied(x: Match, h: Match, p: Match)
    requires p.total > 0
    ensures !ScoreGe(x, h) ==> !(ScoreEq(x, p) && ScoreEq(h, p))
  {
    if ScoreEq(x, p) && ScoreEq(h, p) {
      EqTrans(x, h, p);
    }
  }

  /** Stability: within every class of equal scores the input order is kept. */
  lemma {:induction false} SortByScoreStable(s: seq<Match>, p: Match)
    requires AllTotalsPositive(s) && p.total > 0
    ensures Ties(SortByScore(s), p) == Ties(s, p)
  {
    if s != [] {
      var q := (m: Match) => ScoreEq(m, p);
      var t := SortByScore(s[1..]);
      SortByScoreStable(s[1..], p);
      SortByScoreSorted(s[1..]);
      forall m | m in t ensures m.total > 0 {
        assert m in multiset(t);
        assert m in multiset(s[1..]);
      }
      InsertStable(s[0], t, p);
      assert ([s[0]] + t)[1..] == t;
      assert Filter([s[0]] + t, q) == (if q(s[0]) then [s[0]] else []) + Filter(t, q);
      assert Filter(s, q) == (if q(s[0]) then [s[0]] else []) + Filter(s[1..], q);
    }
  }

  // ---------------------------------------------------------------- matchJobs

  function Scores(skills: seq<string>, catalog: seq<Job>): (r: seq<Match>)
    ensures |r| == |catalog|
    ensures forall i :: 0 <= i < |catalog| ==> r[i] == ScoreJob(skills, catalog[i])
  {
    if catalog == [] then [] else [ScoreJob(skills, catalog[0])] + Scores(skills, catalog[1..])
  }

  /** matchJobs: `None` is an unknown candidate id. */
  function MatchJobs(candidate: Option<User>, catalog: seq<Job>): (r: seq<Match>)
    ensures candidate.None? ==> r == []
    ensures |r| <= |catalog|
    ensures forall m :: m in r ==> 0 < m.matched <= m.total
  {
    if candidate.None? then []
    else
      var f := Filter(Scores(candidate.value.profile.skills, catalog), Positive);
      var r := SortByScore(f);
      forall m | m in r ensures 0 < m.matched <= m.total {
        assert m in multiset(r);
        assert m in f;
      }
      r
  }

  lemma {:induction false} ScoresCount(skills: seq<string>, catalog: seq<Job>, j: Job)
    ensures multiset(Scores(skills, catalog))[ScoreJob(skills, j)] == multiset(catalog)[j]
  {
    if catalog != [] {
      var h, m := catalog[0], ScoreJob(skills, j);
      ScoresCount(skills, catalog[1..], j);
      assert catalog == [h] + catalog[1..];
      assert Scores(skills, catalog) == [ScoreJob(skills, h)] + Scores(skills, catalog[1..]);
      assert multiset([ScoreJob(skills, h)])[m] == multiset([h])[j] by {
        assert ScoreJob(skills, h) == m <==> h == j;
      }
    }
  }

  lemma MatchJobsPositiveTotals(skills: seq<string>, catalog: seq<Job>)
    ensures AllTotalsPositive(Filter(Scores(skills, catalog), Positive))
  {
  }

  /** No entry scores zero, none scores above 100%: 1 <= matched <= total, and every entry
      is the score its own job gets. */
  lemma MatchJobsBounds(candidate: Option<User>, catalog: seq<Job>, m: Match)
    requires m in MatchJobs(candidate, catalog)
    ensures 1 <= m.matched <= m.total
    ensures candidate.Some? && m == ScoreJob(candidate.value.profile.skills, m.job)
    ensures m.job in catalog && m.job.requirements != []
  {
    var skills := candidate.value.profile.skills;
    var f := Filter(Scores(skills, catalog), Positive);
    assert m in multiset(SortByScore(f));
    InScores(skills, catalog, m);
  }

  /** Every score in the list is the score of a catalog job. */
  lemma InScores(skills: seq<string>, catalog: seq<Job>, m: Match)
    requires m in Scores(skills, catalog)
    ensures m == ScoreJob(skills, m.job) && m.job in catalog
  {
    var i :| 0 <= i < |catalog| && Scores(skills, catalog)[i] == m;
  }

  /** The result holds each catalog job with a matched requirement exactly as often as the
      catalog does, and no other job. */
  lemma MatchJobsExactly(candidate: User, catalog: seq<Job>, j: Job)
    ensures multiset(MatchJobs(Some(candidate), catalog))[ScoreJob(candidate.profile.skills, j)]
         == if ScoreJob(candidate.profile.skills, j).matched > 0 then multiset(catalog)[j] else 0
  {
    var skills := candidate.profile.skills;
    FilterMultiset(Scores(skills, catalog), Positive, ScoreJob(skills, j));
    ScoresCount(skills, catalog, j);
  }

  /** The ranking is non-increasing in score. */
  lemma MatchJobsSorted(candidate: Option<User>, catalog: seq<Job>)
    ensures SortedDesc(MatchJobs(candidate, catalog))
  {
    if candidate.Some? {
      SortByScoreSorted(Filter(Scores(candidate.value.profile.skills, catalog), Positive));
    }
  }

  /** Jobs with equal scores keep their catalog order. */
  lemma MatchJobsStable(candidate: User, catalog: seq<Job>, p: Match)
    requires p.total > 0
    ensures Ties(MatchJobs(Some(candidate), catalog), p)
         == Ties(Filter(Scores(candidate.profile.skills, catalog), Positive), p)
  {
    SortByScoreStable(Filter(Scores(candidate.profile.skills, catalog), Positive), p);
  }

  /** Without skills (or without a candidate) nothing matches. */
  lemma MatchJobsNoSkills(candidate: Option<User>, catalog: seq<Job>)
    requires candidate.Some? ==> candidate.value.profile.skills == []
    ensures MatchJobs(candidate, catalog) == []
  {
    if candidate.Some? {
      var sc := Scores([], catalog);
      forall m | m in sc ensures !Positive(m) {
        var i :| 0 <= i < |catalog| && sc[i] == m;
        var reqs := catalog[i].requirements;
        if reqs != [] {
          FilterNone(reqs, q => Met([], q));
        }
      }
      FilterNone(sc, Positive);
    }
  }

  // ---------------------------------------------------------------- coverage facts

  /** The score is over the requirement list: each duplicate counts once more. */
  lemma MatchingAppend(skills: seq<string>, reqs: seq<string>, q: string)
    ensures |MatchingRequirements(skills, reqs + [q])|
         == |MatchingRequirements(skills, reqs)| + (if Met(skills, q) then 1 else 0)
  {
    FilterAppend(reqs, [q], q => Met(skills, q));
  }

  /** The empty requirement is covered by any skill at all. */
  lemma EmptyRequirement(skills: seq<string>)
    ensures Met(skills, "") <==> skills != []
  {
    if skills != [] {
      ContainsEmpty(LowerStr(skills[0]));
      assert LowerStr("") == "";
      assert Covers(skills[0], "");
    }
  }

  /** Adding skills never lowers a matched count. */
  lemma MoreSkillsMatchMore(skills: seq<string>, more: seq<string>, reqs: seq<string>)
    requires forall s :: s in skills ==> s in more
    ensures |MatchingRequirements(skills, reqs)| <= |MatchingRequirements(more, reqs)|
  {
    FilterLengthMono(reqs, q => Met(skills, q), q => Met(more, q));
  }

  /** The direction of the substring test: "Node.js" covers "node", "node" does not cover
      "Node.js". */
  lemma CoverageDirection()
    ensures Covers("Node.js", "node")
    ensures !Covers("node", "Node.js")
  {
    assert LowerStr("Node.js") == "node.js";
    assert LowerStr("node") == "node";
    assert OccursAt("node.js", "node", 0);
    ContainsTooLong("node", "node.js");
  }
}
