/** The companies page: each employer is shown under its company name, or its username when
    it has none, and the search box keeps the companies whose shown name contains the search
    term, both compared in lowercase. */
module Companies {
  import opened Common
  import opened Text

  /** One entry of the companies list as the server sends it. */
  datatype Company = Company(username: string, companyName: Option<string>, logo: Option<string>,
                             location: Option<string>, jobCount: nat)

  /** `a || b` on optional strings: `a` unless it is missing or empty. */
  function OrElse(a: Option<string>, b: string): (r: string)
    ensures a.Some? && a.value != "" ==> r == a.value
    ensures a.None? || a.value == "" ==> r == b
  {
    if a.Some? && a.value != "" then a.value else b
  }

  /** `company.profile?.companyName || company.username`. */
  function DisplayName(c: Company): (name: string)
    ensures c.companyName.Some? && c.companyName.value != "" ==> name == c.companyName.value
    ensures c.companyName.None? || c.companyName.value == "" ==> name == c.username
  {
    OrElse(c.companyName, c.username)
  }

  /** The location line, with a placeholder when the profile has none. */
  function LocationLine(c: Company): (line: string)
    ensures c.location.Some? && c.location.value != "" ==> line == c.location.value
    ensures c.location.None? || c.location.value == "" ==> line == "Location not specified"
  {
    OrElse(c.location, "Location not specified")
  }

  /** What the avatar box shows: the logo when there is one, else a letter. */
  datatype Avatar = Logo(url: string) | Letter(text: string)

  /** `name.charAt(0).toUpperCase()` behind a logo check. */
  function AvatarOf(c: Company): (a: Avatar)
    ensures c.logo.Some? && c.logo.value != "" <==> a.Logo?
    ensures a.Logo? ==> a.url == c.logo.value
    ensures a.Letter? && DisplayName(c) == "" ==> a.text == ""
    ensures a.Letter? && DisplayName(c) != "" ==>
      a.text == [Upper(DisplayName(c)[0])] && !IsLower(a.text[0])
  {
    if c.logo.Some? && c.logo.value != "" then Logo(c.logo.value)
    else
      var name := DisplayName(c);
      if name == "" then Letter("") else Letter([Upper(name[0])])
  }

  /** The search test of one company. */
  predicate Matches(c: Company, term: string) {
    Contains(LowerStr(DisplayName(c)), LowerStr(term))
  }

  /** `filteredCompanies`. */
  function Search(companies: seq<Company>, term: string): (r: seq<Company>)
    ensures |r| <= |companies|
    ensures forall c :: c in r ==> c in companies && Matches(c, term)
  {
    Filter(companies, (c: Company) => Matches(c, term))
  }

  /** The result is the matching companies, in their original order. */
  lemma SearchMembers(companies: seq<Company>, term: string, c: Company)
    ensures c in Search(companies, term) <==> c in companies && Matches(c, term)
    ensures IsSubsequence(Search(companies, term), companies)
  {
    FilterMembers(companies, (c: Company) => Matches(c, term), c);
    FilterIsSubsequence(companies, (c: Company) => Matches(c, term));
  }

  /** An empty search shows every company. */
  lemma EmptySearchShowsAll(companies: seq<Company>)
    ensures Search(companies, "") == companies
  {
    forall c | c in companies ensures Matches(c, "") {
      ContainsEmpty(LowerStr(DisplayName(c)));
    }
    FilterAll(companies, (c: Company) => Matches(c, ""));
  }

  /** A company matching a longer term matches every prefix of it. */
  lemma MatchesPrefix(c: Company, term: string, more: string)
    requires Matches(c, term + more)
    ensures Matches(c, term)
  {
    LowerStrAppend(term, more);
    ContainsPrefixOfPattern(LowerStr(DisplayName(c)), LowerStr(term), LowerStr(more));
  }

  /** Typing more of the term can only narrow the result: the new result is a subsequence of
      the old one. */
  lemma LongerTermNarrows(companies: seq<Company>, term: string, more: string)
    ensures IsSubsequence(Search(companies, term + more), Search(companies, term))
    ensures |Search(companies, term + more)| <= |Search(companies, term)|
  {
    var p := (c: Company) => Matches(c, term);
    var q := (c: Company) => Matches(c, term + more);
    forall c | c in companies && q(c) ensures p(c) {
      MatchesPrefix(c, term, more);
    }
    FilterStronger(companies, p, q);
    FilterIsSubsequence(Search(companies, term), q);
    FilterLengthMono(companies, q, p);
  }

  /** The search ignores case on both sides. */
  lemma SearchIgnoresCase(companies: seq<Company>, term: string)
    ensures Search(companies, LowerStr(term)) == Search(companies, term)
  {
    LowerStrIdempotent(term);
    FilterExt(companies, (c: Company) => Matches(c, LowerStr(term)), (c: Company) => Matches(c, term));
  }

  /** A company with an empty company name is found by its username. */
  lemma EmptyCompanyNameUsesUsername(c: Company, term: string)
    requires c.companyName == Some("")
    ensures Matches(c, term) <==> Contains(LowerStr(c.username), LowerStr(term))
  {
  }
}
