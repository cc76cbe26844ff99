/** Interpreter search: the verification gate of the search page
    (`app/dashboard/search/page.tsx`) and the filter form that writes the
    query string (`components/search-filters.tsx`). */
module Search {
  import opened Wrappers
  import opened Seqs
  import opened Verification
  import opened Admin

  // ---------------------------------------------------------------------
  // The verification gate
  // ---------------------------------------------------------------------

  /** `profiles.role` by user id; a row may hold a null role. */
  type Roles = map<string, Option<string>>

  /** The roles that skip the company check. */
  predicate Exempt(role: Option<string>) {
    role == Some("admin") || role == Some("interpreter")
  }

  /** `isClientVerified`: admins and interpreters pass; anyone else
      passes when their company row is verified. With no company row
      (`.single()` yields null) the caller is not verified. A failed read
      (`profileReadFailed`, `companyReadFailed`) yields no data, which the
      page does not tell apart from a missing row. */
  function IsClientVerified(user: Option<string>, roles: Roles, companies: Companies,
                            profileReadFailed: bool, companyReadFailed: bool): (r: bool)
    ensures user.None? ==> !r
    ensures user.Some? && !profileReadFailed && user.value in roles && Exempt(roles[user.value]) ==> r
    ensures user.Some? && !(!profileReadFailed && user.value in roles && Exempt(roles[user.value])) ==>
      (r <==> !companyReadFailed && user.value in companies &&
              companies[user.value].verificationStatus == Some("verified"))
  {
    if user.None? then false
    else
      var role := if !profileReadFailed && user.value in roles then roles[user.value] else None;
      if Exempt(role) then true
      else !companyReadFailed && user.value in companies && companies[user.value].verificationStatus == Some("verified")
  }

  /** The page: the warning shows exactly when the caller is not verified,
      and the interpreters found are listed either way. */
  datatype SearchPage<T> = SearchPage(showWarning: bool, listed: seq<T>)

  function SearchView<T>(user: Option<string>, roles: Roles, companies: Companies,
                         profileReadFailed: bool, companyReadFailed: bool, found: seq<T>): (r: SearchPage<T>)
    ensures r.showWarning <==> !IsClientVerified(user, roles, companies, profileReadFailed, companyReadFailed)
    ensures r.listed == found
  {
    SearchPage(!IsClientVerified(user, roles, companies, profileReadFailed, companyReadFailed), found)
  }

  /** Approval lifts the gate for a client, and a denial puts it back,
      whatever the outcome of the role read. */
  lemma ApprovalOpensSearch(db: Db, roles: Roles, id: string, reason: string, profileReadFailed: bool)
    requires id in db.companies
    ensures var approved := ApproveUser(db, Some("true"), ClientRole, id, None).value;
            IsClientVerified(Some(id), roles, approved.companies, profileReadFailed, false)
    ensures var denied := DenyUser(db, Some("true"), ClientRole, id, reason, None).value;
            IsClientVerified(Some(id), roles, denied.companies, profileReadFailed, false) <==>
              !profileReadFailed && id in roles && Exempt(roles[id])
  {
  }

  /** A failed role read sends an administrator through the company check:
      without a verified company row they see the warning. */
  lemma FailedRoleReadWarnsAdmin<T>(id: string, roles: Roles, companies: Companies, companyReadFailed: bool,
                                    found: seq<T>)
    requires id in roles && roles[id] == Some("admin")
    requires id !in companies || companies[id].verificationStatus != Some("verified")
    ensures !SearchView(Some(id), roles, companies, false, companyReadFailed, found).showWarning
    ensures SearchView(Some(id), roles, companies, true, companyReadFailed, found).showWarning
  {
  }

  // ---------------------------------------------------------------------
  // The filter form
  // ---------------------------------------------------------------------

  /** `URLSearchParams` as its ordered list of name-value pairs. */
  type Params = seq<(string, string)>

  /** The pairs named `name`, in order. */
  function Named(ps: Params, name: string): (r: Params)
    ensures forall k :: 0 <= k < |r| ==> r[k].0 == name
  {
    if |ps| == 0 then []
    else if ps[0].0 == name then [ps[0]] + Named(ps[1..], name)
    else Named(ps[1..], name)
  }

  /** `params.get(name)`: the first value, or null. */
  function Get(ps: Params, name: string): (r: Option<string>)
    ensures r.None? <==> Named(ps, name) == []
    ensures r.Some? ==> r.value == Named(ps, name)[0].1
  {
    if |ps| == 0 then None else if ps[0].0 == name then Some(ps[0].1) else Get(ps[1..], name)
  }

  /** `params.delete(name)`. */
  function Delete(ps: Params, name: string): (r: Params)
    ensures Named(r, name) == []
    ensures forall n :: n != name ==> Named(r, n) == Named(ps, n)
  {
    if |ps| == 0 then []
    else if ps[0].0 == name then Delete(ps[1..], name)
    else [ps[0]] + Delete(ps[1..], name)
  }

  /** `params.set(name, value)`: the first pair named `name` takes the
      value and later ones go; with none, the pair is appended. */
  function Set(ps: Params, name: string, value: string): (r: Params)
    ensures Named(r, name) == [(name, value)]
    ensures forall n :: n != name ==> Named(r, n) == Named(ps, n)
  {
    if |ps| == 0 then [(name, value)]
    else if ps[0].0 == name then [(name, value)] + Delete(ps[1..], name)
    else [ps[0]] + Set(ps[1..], name, value)
  }

  /** Set a field when it is filled in, delete it otherwise. */
  function Apply(ps: Params, name: string, value: string): (r: Params)
    ensures forall n :: n != name ==> Named(r, n) == Named(ps, n)
    ensures value != "" ==> Named(r, name) == [(name, value)]
    ensures value == "" ==> Named(r, name) == []
  {
    if value != "" then Set(ps, name, value) else Delete(ps, name)
  }

  predicate IsFilter(name: string) {
    name == "city" || name == "language" || name == "specialization"
  }

  /** `handleSubmit`: the query string pushed for the three fields. */
  function Submit(ps: Params, city: string, language: string, specialization: string): (r: Params)
    ensures forall n :: !IsFilter(n) ==> Named(r, n) == Named(ps, n)
    ensures Named(r, "city") == (if city != "" then [("city", city)] else [])
    ensures Named(r, "language") == (if language != "" then [("language", language)] else [])
    ensures Named(r, "specialization") == (if specialization != "" then [("specialization", specialization)] else [])
  {
    Apply(Apply(Apply(ps, "city", city), "language", language), "specialization", specialization)
  }

  /** The form's fields as read from a query string (`get(name) || ""`). */
  function Field(ps: Params, name: string): string {
    Get(ps, name).GetOr("")
  }

  /** What was submitted is what the form shows when the page reloads
      with the new query string. */
  lemma SubmitRoundTrip(ps: Params, city: string, language: string, specialization: string)
    ensures var r := Submit(ps, city, language, specialization);
            Field(r, "city") == city && Field(r, "language") == language &&
            Field(r, "specialization") == specialization
  {
  }

  /** `hasFilters`: the "Clear Filters" button shows when a field is set. */
  function HasFilters(city: string, language: string, specialization: string): (r: bool)
    ensures r <==> |city + language + specialization| > 0
  {
    city != "" || language != "" || specialization != ""
  }

  /** The button shows exactly when submitting the fields would put some
      filter into the query string. */
  lemma HasFiltersIffQueryFiltered(ps: Params, city: string, language: string, specialization: string)
    ensures HasFilters(city, language, specialization) <==>
      exists n :: IsFilter(n) && Named(Submit(ps, city, language, specialization), n) != []
  {
    var r := Submit(ps, city, language, specialization);
    if HasFilters(city, language, specialization) {
      if city != "" {
        assert IsFilter("city") && Named(r, "city") != [];
      } else if language != "" {
        assert IsFilter("language") && Named(r, "language") != [];
      } else {
        assert IsFilter("specialization") && Named(r, "specialization") != [];
      }
    } else {
      forall n | IsFilter(n)
        ensures Named(r, n) == []
      {
      }
    }
  }

  /** `handleClear`: the fields are emptied and the bare path is pushed, so
      every query parameter goes, not only the three filters. */
  datatype Cleared = Cleared(city: string, language: string, specialization: string, query: Params)

  function Clear(): (r: Cleared)
    ensures !HasFilters(r.city, r.language, r.specialization) && r.query == []
  {
    Cleared("", "", "", [])
  }

  /** Submitting with empty fields drops the filters and keeps the other
      parameters, where clearing drops those too. */
  lemma SubmitEmptyVersusClear(ps: Params, name: string)
    requires !IsFilter(name)
    ensures Named(Submit(ps, "", "", ""), name) == Named(ps, name)
    ensures Named(Clear().query, name) == []
  {
  }
}
