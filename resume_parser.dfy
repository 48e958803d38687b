/** Resume signal extraction over the text a PDF decodes to: the text is lowercased, the
    first e-mail address is taken by the pattern
        [a-zA-Z0-9._-]+@[a-zA-Z0-9._-]+\.[a-zA-Z0-9_-]+
    and the skills are the entries of a fixed vocabulary that occur in the text.

    The regular expression is modelled twice: `MatchAt` follows the backtracking order of
    the regular-expression engine (greedy runs, then the rightmost usable dot), and
    `IsEmail` states the pattern as a predicate on a candidate substring. The lemmas prove
    that the engine's answer is the leftmost, and at that start the longest,
    substring satisfying the predicate. */
module ResumeParser {
  import opened Common
  import opened Text

  // ---------------------------------------------------------------- the pattern as a predicate

  /** The class [a-zA-Z0-9._-]. */
  predicate WordChar(c: char) {
    ('a' <= c <= 'z') || ('A' <= c <= 'Z') || ('0' <= c <= '9') || c == '.' || c == '_' || c == '-'
  }

  /** The class [a-zA-Z0-9_-] of the last label: no dot. */
  predicate LabelChar(c: char) { WordChar(c) && c != '.' }

  predicate AllWord(s: string) { forall k :: 0 <= k < |s| ==> WordChar(s[k]) }
  predicate AllLabel(s: string) { forall k :: 0 <= k < |s| ==> LabelChar(s[k]) }

  /** `w` splits as local '@' domain '.' label, with `i` the '@' and `j` that dot. */
  predicate EmailSplit(w: string, i: int, j: int) {
    && 0 < i && i + 1 < j && j + 1 < |w|
    && AllWord(w[..i]) && w[i] == '@'
    && AllWord(w[i + 1..j]) && w[j] == '.'
    && AllLabel(w[j + 1..])
  }

  /** `w` is a whole match of the e-mail pattern. */
  predicate IsEmail(w: string) {
    exists i, j | 0 < i < j < |w| :: EmailSplit(w, i, j)
  }

  // ---------------------------------------------------------------- the engine

  /** End of the run of word characters starting at `i`. */
  function WordEnd(text: string, i: nat): (r: nat)
    requires i <= |text|
    ensures i <= r <= |text|
    ensures forall k :: i <= k < r ==> WordChar(text[k])
    ensures r < |text| ==> !WordChar(text[r])
    decreases |text| - i
  {
    if i < |text| && WordChar(text[i]) then WordEnd(text, i + 1) else i
  }

  /** End of the run of label characters starting at `i`. */
  function LabelEnd(text: string, i: nat): (r: nat)
    requires i <= |text|
    ensures i <= r <= |text|
    ensures forall k :: i <= k < r ==> LabelChar(text[k])
    ensures r < |text| ==> !LabelChar(text[r])
    decreases |text| - i
  {
    if i < |text| && LabelChar(text[i]) then LabelEnd(text, i + 1) else i
  }

  /** Position `p` can end the domain part of a run [lo, hi): a dot with at least one
      character before it in the run and a label character after it. */
  predicate DotAt(text: string, lo: int, hi: int, p: int) {
    0 <= lo < p && p + 1 < hi && hi <= |text| && text[p] == '.' && LabelChar(text[p + 1])
  }

  /** The rightmost usable dot at or below `k`: the greedy domain part backs off from the
      right until a dot followed by a label character is found. */
  function LastDot(text: string, lo: nat, hi: nat, k: int): (r: Option<nat>)
    requires hi <= |text|
    ensures r.Some? ==> DotAt(text, lo, hi, r.value) && r.value <= k
    ensures r.Some? ==> forall q :: r.value < q <= k ==> !DotAt(text, lo, hi, q)
    ensures r.None? ==> forall q :: q <= k ==> !DotAt(text, lo, hi, q)
    decreases k - lo
  {
    if k <= lo then None
    else if DotAt(text, lo, hi, k) then Some(k)
    else LastDot(text, lo, hi, k - 1)
  }

  /** End of the match the engine finds starting at `s`, if any. */
  function MatchAt(text: string, s: nat): (r: Option<nat>)
    ensures r.Some? ==> s < r.value <= |text|
  {
    if s >= |text| then None
    else
      var a := WordEnd(text, s);
      if a == s || a >= |text| || text[a] != '@' then None
      else
        var e := WordEnd(text, a + 1);
        match LastDot(text, a + 1, e, e)
        case None => None
        case Some(p) => Some(LabelEnd(text, p + 1))
  }

  /** Whatever the engine matches satisfies the pattern. */
  lemma MatchAtSound(text: string, s: nat)
    requires MatchAt(text, s).Some?
    ensures s < MatchAt(text, s).value <= |text|
    ensures IsEmail(text[s..MatchAt(text, s).value])
  {
    var a := WordEnd(text, s);
    var e := WordEnd(text, a + 1);
    var p := LastDot(text, a + 1, e, e).value;
    var end := LabelEnd(text, p + 1);
    var w := text[s..end];
    assert end > p + 1;
    var i, j := a - s, p - s;
    assert AllWord(w[..i]) by {
      forall k | 0 <= k < i ensures WordChar(w[..i][k]) {
        assert w[..i][k] == text[s + k];
      }
    }
    var domain, tld := w[i + 1..j], w[j + 1..];
    assert AllWord(domain) by {
      forall k | 0 <= k < |domain| ensures WordChar(domain[k]) {
        assert domain[k] == text[a + 1 + k];
      }
    }
    assert AllLabel(tld) by {
      forall k | 0 <= k < |tld| ensures LabelChar(tld[k]) {
        assert tld[k] == text[p + 1 + k];
      }
    }
    assert EmailSplit(w, i, j);
  }

  /** A run of word characters reaching `e` makes the greedy run reach at least `e`. */
  lemma {:induction false} WordEndReaches(text: string, i: nat, e: nat)
    requires i <= e <= |text|
    requires forall k :: i <= k < e ==> WordChar(text[k])
    ensures WordEnd(text, i) >= e
    decreases e - i
  {
    if i < e {
      WordEndReaches(text, i + 1, e);
    }
  }

  /** A run of label characters reaching `e` makes the greedy run reach at least `e`. */
  lemma {:induction false} LabelEndReaches(text: string, i: nat, e: nat)
    requires i <= e <= |text|
    requires forall k :: i <= k < e ==> LabelChar(text[k])
    ensures LabelEnd(text, i) >= e
    decreases e - i
  {
    if i < e {
      LabelEndReaches(text, i + 1, e);
    }
  }

  /** The pieces of a split candidate `text[s..e]`, read as positions of `text`. */
  lemma SplitPositions(text: string, s: nat, e: nat, i: int, j: int)
    requires s <= e <= |text| && 0 < i < j < e - s && EmailSplit(text[s..e], i, j)
    ensures forall k :: s <= k < s + i ==> WordChar(text[k])
    ensures text[s + i] == '@' && text[s + j] == '.'
    ensures forall k :: s + i < k < s + j ==> WordChar(text[k])
    ensures forall k :: s + j < k < e ==> LabelChar(text[k])
    ensures s + j + 1 < e
  {
    var w := text[s..e];
    var local, domain, tld := w[..i], w[i + 1..j], w[j + 1..];
    forall k | s <= k < s + i ensures WordChar(text[k]) {
      assert text[k] == local[k - s];
    }
    forall k | s + i < k < s + j ensures WordChar(text[k]) {
      assert text[k] == domain[k - s - i - 1];
    }
    forall k | s + j < k < e ensures LabelChar(text[k]) {
      assert text[k] == tld[k - s - j - 1];
    }
  }

  /** The greedy local part stops exactly at the '@' of a match. */
  lemma LocalRun(text: string, s: nat, a: nat)
    requires s <= a < |text| && text[a] == '@'
    requires forall k :: s <= k < a ==> WordChar(text[k])
    ensures WordEnd(text, s) == a
  {
    WordEndReaches(text, s, a);
  }

  /** After the '@' of a match whose dot is at `p0` and which ends at `e`, the greedy domain
      run backs off to a dot at or after `p0`, and the label after it reaches `e`. */
  lemma DomainRun(text: string, a: nat, p0: nat, e: nat)
    requires a + 1 < p0 && p0 + 1 < e <= |text| && text[p0] == '.'
    requires forall k :: a < k < p0 ==> WordChar(text[k])
    requires forall k :: p0 < k < e ==> LabelChar(text[k])
    ensures LastDot(text, a + 1, WordEnd(text, a + 1), WordEnd(text, a + 1)).Some?
    ensures var p := LastDot(text, a + 1, WordEnd(text, a + 1), WordEnd(text, a + 1)).value;
      LabelEnd(text, p + 1) >= e
  {
    assert forall k :: a + 1 <= k < e ==> WordChar(text[k]);
    WordEndReaches(text, a + 1, e);
    var run := WordEnd(text, a + 1);
    assert DotAt(text, a + 1, run, p0);
    var p := LastDot(text, a + 1, run, run).value;
    if p == p0 {
      LabelEndReaches(text, p0 + 1, e);
    } else {
      assert text[p] == '.' && !LabelChar(text[p]);
      assert p >= e;
    }
  }

  /** Any pattern match starting at `s` makes the engine succeed at `s`, and the engine's
      match is at least as long. */
  lemma MatchAtComplete(text: string, s: nat, e: nat)
    requires s <= e <= |text| && IsEmail(text[s..e])
    ensures MatchAt(text, s).Some? && e <= MatchAt(text, s).value
  {
    var i, j :| 0 < i < j < e - s && EmailSplit(text[s..e], i, j);
    SplitComplete(text, s, e, i, j);
  }

  /** MatchAtComplete for a given split of the match. */
  lemma SplitComplete(text: string, s: nat, e: nat, i: int, j: int)
    requires s <= e <= |text| && 0 < i < j < e - s && EmailSplit(text[s..e], i, j)
    ensures MatchAt(text, s).Some? && e <= MatchAt(text, s).value
  {
    SplitPositions(text, s, e, i, j);
    LocalRun(text, s, s + i);
    DomainRun(text, s + i, s + j, e);
  }

  /** Where a match lies in the text: `text[start..end]`. */
  datatype Span = Span(start: nat, end: nat)

  /** The first start position at or after `s` where the engine matches, with its match. */
  function FirstFrom(text: string, s: nat): (r: Option<Span>)
    ensures r.Some? ==> s <= r.value.start < r.value.end <= |text|
    ensures r.Some? ==> IsEmail(text[r.value.start..r.value.end])
    ensures r.Some? ==> forall b, e :: s <= b < r.value.start && b <= e <= |text| ==> !IsEmail(text[b..e])
    ensures r.Some? ==> forall e :: r.value.start <= e <= |text| && IsEmail(text[r.value.start..e]) ==> e <= r.value.end
    ensures r.None? ==> forall b, e :: s <= b <= e <= |text| ==> !IsEmail(text[b..e])
    decreases |text| - s
  {
    if s >= |text| then
      NothingPastEnd(text, s);
      None
    else
      match MatchAt(text, s)
      case Some(e) =>
        MatchAtSound(text, s);
        MatchAtLongest(text, s);
        Some(Span(s, e))
      case None =>
        MatchAtNone(text, s);
        FirstFrom(text, s + 1)
  }

  lemma NothingPastEnd(text: string, s: nat)
    requires s >= |text|
    ensures forall b, e :: s <= b <= e <= |text| ==> !IsEmail(text[b..e])
  {
    forall b, e | s <= b <= e <= |text| ensures !IsEmail(text[b..e]) {
      assert |text[b..e]| == 0;
    }
  }

  /** The engine's match at a position is the longest one there. */
  lemma MatchAtLongest(text: string, s: nat)
    requires MatchAt(text, s).Some?
    ensures forall e' :: s <= e' <= |text| && IsEmail(text[s..e']) ==> e' <= MatchAt(text, s).value
  {
    forall e' | s <= e' <= |text| && IsEmail(text[s..e']) ensures e' <= MatchAt(text, s).value {
      MatchAtComplete(text, s, e');
    }
  }

  /** When the engine fails at a position, no e-mail starts there. */
  lemma MatchAtNone(text: string, s: nat)
    requires MatchAt(text, s).None?
    ensures forall e' :: s <= e' <= |text| ==> !IsEmail(text[s..e'])
  {
    forall e' | s <= e' <= |text| ensures !IsEmail(text[s..e']) {
      if IsEmail(text[s..e']) {
        MatchAtComplete(text, s, e');
      }
    }
  }

  /** `text[b..e]` is the match a regex engine returns: an e-mail, with no e-mail starting
      earlier, and none longer at the same start. */
  predicate LeftmostLongest(text: string, b: nat, e: nat) {
    && b < e <= |text| && IsEmail(text[b..e])
    && (forall b', e' :: 0 <= b' < b && b' <= e' <= |text| ==> !IsEmail(text[b'..e']))
    && (forall e' :: b <= e' <= |text| && IsEmail(text[b..e']) ==> e' <= e)
  }

  /** String.prototype.match with the e-mail pattern: the leftmost-longest match, or none. */
  function FindEmail(text: string): (r: Option<string>)
    ensures r.Some? ==> IsEmail(r.value)
    ensures r.Some? ==> exists b: nat, e: nat :: LeftmostLongest(text, b, e) && r.value == text[b..e]
    ensures r.None? <==> forall b, e :: 0 <= b <= e <= |text| ==> !IsEmail(text[b..e])
  {
    match FirstFrom(text, 0)
    case None => None
    case Some(m) =>
      assert LeftmostLongest(text, m.start, m.end);
      Some(text[m.start..m.end])
  }

  /** A run of word characters holds no '@'. */
  lemma AllWordNoAt(s: string)
    requires AllWord(s)
    ensures multiset(s)['@'] == 0
  {
    assert '@' !in s by {
      forall k | 0 <= k < |s| ensures s[k] != '@' {
        assert WordChar(s[k]);
      }
    }
    assert '@' !in multiset(s);
  }

  /** A match has exactly one '@', a '.' after it, and ends in a label character. */
  lemma EmailShape(w: string)
    requires IsEmail(w)
    ensures multiset(w)['@'] == 1
    ensures exists i, j :: 0 <= i < j < |w| && w[i] == '@' && w[j] == '.'
    ensures LabelChar(w[|w| - 1])
  {
    var i, j :| 0 < i < j < |w| && EmailSplit(w, i, j);
    SplitAtCount(w, i, j);
    assert w[|w| - 1] == w[j + 1..][|w| - j - 2];
  }

  /** The '@' of a given split is the only one. */
  lemma SplitAtCount(w: string, i: int, j: int)
    requires 0 < i < j < |w| && EmailSplit(w, i, j)
    ensures multiset(w)['@'] == 1
  {
    var local, domain, tld := w[..i], w[i + 1..j], w[j + 1..];
    AllWordNoAt(local);
    AllWordNoAt(domain);
    LabelsAreWords(tld);
    AllWordNoAt(tld);
    var t3 := w[j..];
    assert t3 == [w[j]] + tld;
    ConcatCount([w[j]], tld);
    var t2 := w[i + 1..];
    assert t2 == domain + t3;
    ConcatCount(domain, t3);
    var t1 := w[i..];
    assert t1 == [w[i]] + t2;
    ConcatCount([w[i]], t2);
    assert w == local + t1;
    ConcatCount(local, t1);
  }

  lemma LabelsAreWords(s: string)
    requires AllLabel(s)
    ensures AllWord(s)
  {
    forall k | 0 <= k < |s| ensures WordChar(s[k]) {
      assert LabelChar(s[k]);
    }
  }

  /** The '@' count of a concatenation is the sum of the counts. */
  lemma ConcatCount(a: string, b: string)
    ensures multiset(a + b)['@'] == multiset(a)['@'] + multiset(b)['@']
  {
  }

  /** Every match holds an '@'. */
  lemma EmailHasAtSign(w: string)
    requires IsEmail(w)
    ensures '@' in w
  {
    var i, j :| 0 < i < j < |w| && EmailSplit(w, i, j);
    assert w[i] == '@';
  }

  /** A match contains an '@', so a text holding a match does too. */
  lemma EmailHasAt(text: string)
    ensures FindEmail(text).Some? ==> '@' in text
  {
    var m := FirstFrom(text, 0);
    if m.Some? {
      var w := text[m.value.start..m.value.end];
      EmailHasAtSign(w);
      var k :| 0 <= k < |w| && w[k] == '@';
      assert text[m.value.start + k] == '@';
    }
  }

  // ---------------------------------------------------------------- skills

  const KnownSkills: seq<string> :=
    ["javascript", "python", "java", "react", "node", "mongodb", "sql", "aws", "docker"]

  /** The vocabulary entries that occur in the text, in vocabulary order. */
  function ExtractSkills(vocab: seq<string>, text: string): (r: seq<string>)
    ensures forall v :: v in r <==> v in vocab && Contains(text, v)
    ensures IsSubsequence(r, vocab)
    ensures NoDup(vocab) ==> NoDup(r)
  {
    var r := Filter(vocab, v => Contains(text, v));
    forall v ensures v in r <==> v in vocab && Contains(text, v) {
      FilterMembers(vocab, v => Contains(text, v), v);
    }
    FilterIsSubsequence(vocab, v => Contains(text, v));
    if NoDup(vocab) then FilterNoDup(vocab, v => Contains(text, v)); r else r
  }

  lemma KnownSkillsNoDup()
    ensures NoDup(KnownSkills)
  {
  }

  /** Substring matching: a text mentioning "javascript" also reports "java". */
  lemma JavascriptAlsoJava(text: string)
    requires Contains(text, "javascript")
    ensures "javascript" in ExtractSkills(KnownSkills, text)
    ensures "java" in ExtractSkills(KnownSkills, text)
  {
    assert "javascript" == "java" + "script";
    ContainsPrefixOfPattern(text, "java", "script");
  }

  // ---------------------------------------------------------------- parseResume

  /** What parseResume returns: the lowercased text, the e-mail (null when the pattern
      does not match) and the skills; on failure only an empty skill list. */
  datatype Parsed = Parsed(text: Option<string>, email: Option<string>, skills: seq<string>)

  /** `decoded` is the text the PDF library produced, `None` when reading or decoding
      failed. */
  function ParseResume(decoded: Option<string>): (r: Parsed)
    ensures decoded.None? ==> r == Parsed(None, None, [])
    ensures decoded.Some? ==> r.text == Some(LowerStr(decoded.value)) && NoUpper(r.text.value)
    ensures decoded.Some? ==> LowerStr(r.text.value) == r.text.value
  {
    match decoded
    case None => Parsed(None, None, [])
    case Some(d) =>
      var text := LowerStr(d);
      LowerStrIdempotent(d);
      Parsed(Some(text), FindEmail(text), ExtractSkills(KnownSkills, text))
  }

  /** What parseResume's skills and e-mail are: the vocabulary entries in the lowercased text,
      duplicate-free and in vocabulary order, and a matched e-mail that occurs in that text. */
  lemma ParseResumeFacts(decoded: Option<string>)
    ensures var r := ParseResume(decoded);
      decoded.Some? ==> forall v :: v in r.skills <==> v in KnownSkills && Contains(r.text.value, v)
    ensures var r := ParseResume(decoded);
      decoded.Some? && r.email.Some? ==> IsEmail(r.email.value) && Contains(r.text.value, r.email.value)
    ensures var r := ParseResume(decoded); decoded.Some? && '@' !in r.text.value ==> r.email.None?
    ensures var r := ParseResume(decoded); decoded.Some? ==> r.email == FindEmail(r.text.value)
    ensures NoDup(ParseResume(decoded).skills) && IsSubsequence(ParseResume(decoded).skills, KnownSkills)
  {
    KnownSkillsNoDup();
    if decoded.Some? {
      FindEmailFacts(LowerStr(decoded.value));
    }
  }

  lemma FindEmailFacts(text: string)
    ensures FindEmail(text).Some? ==> IsEmail(FindEmail(text).value) && Contains(text, FindEmail(text).value)
    ensures '@' !in text ==> FindEmail(text).None?
  {
    var m := FirstFrom(text, 0);
    if m.Some? {
      assert OccursAt(text, text[m.value.start..m.value.end], m.value.start);
    }
    EmailHasAt(text);
  }
}
