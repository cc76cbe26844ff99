/** The public "request a client account" form (`app/actions/client-requests.ts`):
    no sign-in needed; the three required fields are checked, an empty
    website is stored as null, and a store failure is reported with one
    fixed message. */
module ClientRequests {
  import opened Wrappers
  import opened Forms

  datatype ClientRequest = ClientRequest(companyName: string, email: string, website: Option<string>, message: string)

  const MissingRequired := "Please fill in all required fields."
  const GenericFailure := "Something went wrong. Please try again."

  predicate RequiredPresent(f: FormData) {
    Truthy(TextField(f, "companyName")) && Truthy(TextField(f, "email")) && Truthy(TextField(f, "message"))
  }

  /** `website || null`. */
  function OrNull(s: Option<string>): (r: Option<string>)
    ensures r.Some? <==> Truthy(s)
    ensures r.Some? ==> r == s
  {
    if Truthy(s) then s else None
  }

  /** `submitClientRequest(formData)`. `dbFailed` is the insert's outcome,
      whose own message is not shown. */
  function SubmitClientRequest(requests: seq<ClientRequest>, f: FormData, dbFailed: bool): (r: Result<seq<ClientRequest>>)
    ensures !RequiredPresent(f) ==> r == Failure(MissingRequired)
    ensures RequiredPresent(f) && dbFailed ==> r == Failure(GenericFailure)
    ensures r.Success? <==> RequiredPresent(f) && !dbFailed
    ensures r.Success? ==>
      |r.value| == |requests| + 1 && r.value[..|requests|] == requests &&
      var added := r.value[|requests|];
      && added.companyName == TextField(f, "companyName").value && added.companyName != ""
      && added.email == TextField(f, "email").value && added.email != ""
      && added.message == TextField(f, "message").value && added.message != ""
      && (added.website.None? <==> !Truthy(TextField(f, "website")))
      && (added.website.Some? ==> added.website == TextField(f, "website"))
  {
    if !RequiredPresent(f) then Failure(MissingRequired)
    else if dbFailed then Failure(GenericFailure)
    else
      Success(requests + [ClientRequest(TextField(f, "companyName").value, TextField(f, "email").value,
                                        OrNull(TextField(f, "website")), TextField(f, "message").value)])
  }

  /** An empty website and no website at all are stored alike. */
  lemma EmptyWebsiteIsNull(requests: seq<ClientRequest>, f: FormData)
    requires RequiredPresent(f)
    ensures var r1 := SubmitClientRequest(requests, f["website" := Text("")], false);
            var r2 := SubmitClientRequest(requests, f - {"website"}, false);
            r1.Success? && r1 == r2
  {
    assert TextField(f["website" := Text("")], "companyName") == TextField(f - {"website"}, "companyName");
    assert TextField(f["website" := Text("")], "email") == TextField(f - {"website"}, "email");
    assert TextField(f["website" := Text("")], "message") == TextField(f - {"website"}, "message");
  }
}
