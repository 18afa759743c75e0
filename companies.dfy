/**
 * The company list: a search box filters the fetched companies by a
 * case-insensitive substring of their name, and the query travels in the
 * page address as the `search` parameter.
 */
module Companies {
  import opened Wrappers
  import opened JsString
  import opened JsArray

  datatype Company = Company(id: string, name: string)

  /** `company.name.toLowerCase().includes(searchQuery.toLowerCase())`. */
  predicate NameMatches(query: string, c: Company)
  {
    Includes(LowerAscii(c.name), LowerAscii(query))
  }

  function Matches(query: string): Company -> bool
  {
    (c: Company) => NameMatches(query, c)
  }

  /** `filteredCompanies`: a company is listed exactly when it was fetched and its name
      matches; the listing keeps the fetched order. */
  function FilteredCompanies(companies: seq<Company>, query: string): (listed: seq<Company>)
    ensures forall c :: c in listed <==> c in companies && NameMatches(query, c)
    ensures IsSubsequence(listed, companies)
  {
    FilterMembership(companies, Matches(query));
    FilterIsSubsequence(companies, Matches(query));
    Filter(companies, Matches(query))
  }

  /** An empty query lists every fetched company. */
  lemma EmptyQueryKeepsAll(companies: seq<Company>)
    ensures FilteredCompanies(companies, "") == companies
  {
    forall c | c in companies ensures Matches("")(c) {
      IncludesEmpty(LowerAscii(c.name));
    }
    FilterKeepsAll(companies, Matches(""));
  }

  /** Queries that differ only in the case of ASCII letters list the same companies. */
  lemma CaseInsensitive(companies: seq<Company>, q1: string, q2: string)
    requires LowerAscii(q1) == LowerAscii(q2)
    ensures FilteredCompanies(companies, q1) == FilteredCompanies(companies, q2)
  {
    FilterAgrees(companies, Matches(q1), Matches(q2));
  }

  /** A query that contains another one lists a subsequence of what the shorter one lists:
      typing more can only narrow the list. */
  lemma LongerQueryNarrows(companies: seq<Company>, shorter: string, longer: string)
    requires Includes(longer, shorter)
    ensures IsSubsequence(FilteredCompanies(companies, longer), FilteredCompanies(companies, shorter))
  {
    LowerAsciiKeepsIncludes(longer, shorter);
    forall c | c in companies && Matches(longer)(c) ensures Matches(shorter)(c) {
      IncludesTransitive(LowerAscii(c.name), LowerAscii(longer), LowerAscii(shorter));
    }
    FilterNarrower(companies, Matches(longer), Matches(shorter));
  }

  // ---------------------------------------------------------------------------
  // the `search` parameter
  // ---------------------------------------------------------------------------

  /** `searchParams.get("search") || ""`: the query the page starts from and re-syncs to. */
  function QueryFromParams(search: Option<string>): (query: string)
    ensures search.Some? ==> query == search.value
    ensures search.None? ==> query == ""
  {
    search.GetOr("")
  }

  /** `searchQuery ? { search: searchQuery } : {}`: the parameter a submit writes. */
  function ParamsOnSubmit(query: string): (search: Option<string>)
    ensures search.None? <==> query == ""
  {
    if query != "" then Some(query) else None
  }

  /** Submitting a query and reading it back gives the query; reading the parameter and
      submitting it gives the parameter back, except that an empty `search=` is dropped. */
  lemma ParamsRoundTrip(query: string, search: Option<string>)
    ensures QueryFromParams(ParamsOnSubmit(query)) == query
    ensures ParamsOnSubmit(QueryFromParams(search)) == if search == Some("") then None else search
  {
  }
}
