/** What the administrator sees: the document links of the admin page
    (`app/admin/page.tsx`), the verification table
    (`components/admin/user-verification-table.tsx`) and the review modal
    (`components/admin/verification-review-modal.tsx`). Storage's public-URL
    function is a parameter; `created_at` is its instant in milliseconds. */
module AdminViews {
  import opened Wrappers
  import opened Text
  import opened Seqs
  import opened Verification
  import opened Admin
  import opened Forms

  // ---------------------------------------------------------------------
  // Document links (admin page)
  // ---------------------------------------------------------------------

  /** The storage path a document value names: a string is the path, an
      object contributes its truthy `path`; anything else names none. */
  function DocPath(v: DocValue): (r: Option<string>)
    ensures v.DocText? ==> r == Some(v.text)
    ensures v.DocRecord? && v.path.Some? && v.path.value != "" ==> r == v.path
    ensures r.Some? <==> v.DocText? || (v.DocRecord? && Truthy(v.path))
  {
    match v
    case DocText(s) => Some(s)
    case DocRecord(path, _) => if path.Some? && path.value != "" then path else None
    case _ => None
  }

  /** An absolute link is kept, a storage path is resolved. */
  function ResolveUrl(path: string, publicUrl: string -> string): string {
    if StartsWith(path, "http") then path else publicUrl(path)
  }

  /** `getDocumentUrls(supabase, bucket, docs)`. */
  function GetDocumentUrls(docs: Option<Documents>, publicUrl: string -> string): (r: map<string, string>)
    ensures docs.None? ==> r == map[]
    ensures forall k :: k in r <==> docs.Some? && k in docs.value && DocPath(docs.value[k]).Some?
    ensures forall k :: k in r ==> r[k] == ResolveUrl(DocPath(docs.value[k]).value, publicUrl)
    ensures forall k :: k in r && StartsWith(DocPath(docs.value[k]).value, "http") ==> r[k] == DocPath(docs.value[k]).value
  {
    if docs.None? then map[]
    else map k | k in docs.value && DocPath(docs.value[k]).Some? :: ResolveUrl(DocPath(docs.value[k]).value, publicUrl)
  }

  const LegacyKey := "Legacy Signed Policy"

  /** JavaScript truthiness of a document value. */
  predicate DocTruthy(v: DocValue) {
    match v
    case DocText(s) => s != ""
    case DocRecord(_, _) => true
    case DocNull => false
    case DocOther(t) => t
  }

  /** An interpreter's documents with the legacy signed-policy link added
      under "Legacy Signed Policy" when there is one and that entry is not
      already set. */
  function WithLegacyPolicy(i: Interpreter): (r: Documents)
    ensures forall k :: k != LegacyKey ==> (k in r <==> k in CurrentDocs(i.documents))
    ensures forall k :: k in r && k != LegacyKey ==> r[k] == CurrentDocs(i.documents)[k]
    ensures LegacyKey in CurrentDocs(i.documents) && DocTruthy(CurrentDocs(i.documents)[LegacyKey]) ==>
      r == CurrentDocs(i.documents)
    ensures Truthy(i.signedPolicyUrl) && !(LegacyKey in CurrentDocs(i.documents) && DocTruthy(CurrentDocs(i.documents)[LegacyKey])) ==>
      LegacyKey in r && r[LegacyKey] == DocText(i.signedPolicyUrl.value)
    ensures !Truthy(i.signedPolicyUrl) ==> r == CurrentDocs(i.documents)
  {
    var docs := CurrentDocs(i.documents);
    if Truthy(i.signedPolicyUrl) && !(LegacyKey in docs && DocTruthy(docs[LegacyKey])) then
      docs[LegacyKey := DocText(i.signedPolicyUrl.value)]
    else docs
  }

  /** A file as the storage listing reports it. */
  datatype StoredFile = StoredFile(name: string, id: string, createdAt: int)

  /** A file as the raw document view shows it. */
  datatype RawDocument = RawDocument(name: string, id: string, createdAt: int, bucket: string, publicUrl: string)

  predicate NewerFirst(a: RawDocument, b: RawDocument) {
    a.createdAt >= b.createdAt
  }

  function Described(files: seq<StoredFile>, bucket: string, publicUrl: string -> string): (r: seq<RawDocument>)
    ensures |r| == |files|
    ensures forall k :: 0 <= k < |files| ==>
      r[k] == RawDocument(files[k].name, files[k].id, files[k].createdAt, bucket, publicUrl(files[k].name))
  {
    seq(|files|, k requires 0 <= k < |files| =>
      RawDocument(files[k].name, files[k].id, files[k].createdAt, bucket, publicUrl(files[k].name)))
  }

  /** `getRawDocuments(supabase, bucket)`: the bucket's files with their
      public links, newest first; a failed or empty listing shows none.
      `listing` is `None` when the store reports an error. */
  function GetRawDocuments(listing: Option<seq<StoredFile>>, bucket: string, publicUrl: string -> string)
    : (r: seq<RawDocument>)
    ensures listing.None? ==> r == []
    ensures listing.Some? ==> multiset(r) == multiset(Described(listing.value, bucket, publicUrl))
    ensures Sorted(r, NewerFirst)
  {
    if listing.None? then []
    else
      assert Total(NewerFirst);
      SortBy(Described(listing.value, bucket, publicUrl), NewerFirst)
  }

  /** Every listed file is shown exactly as often as it is listed. */
  lemma RawDocumentsShowEveryFile(files: seq<StoredFile>, bucket: string, publicUrl: string -> string, k: nat)
    requires k < |files|
    ensures RawDocument(files[k].name, files[k].id, files[k].createdAt, bucket, publicUrl(files[k].name))
            in GetRawDocuments(Some(files), bucket, publicUrl)
  {
    var d := Described(files, bucket, publicUrl);
    assert d[k] in multiset(d);
  }

  // ---------------------------------------------------------------------
  // Verification table
  // ---------------------------------------------------------------------

  /** A row of the verification table. */
  datatype UserRow = UserRow(id: string, role: Role, sortDate: int, displayName: string, displayStatus: Option<string>)

  /** `full_name || fallback`. */
  function NameOr(fullName: Option<string>, fallback: string): (r: string)
    ensures Truthy(fullName) ==> r == fullName.value
    ensures !Truthy(fullName) ==> r == fallback
  {
    if Truthy(fullName) then fullName.value else fallback
  }

  /** The status shown for an interpreter: verified, else rejected when a
      rejection reason is set, else pending. */
  function InterpreterStatus(i: Interpreter): (r: string)
    ensures r == "verified" <==> i.verified
    ensures r == "rejected" <==> !i.verified && Truthy(i.rejectionReason)
    ensures r == "pending" <==> !i.verified && !Truthy(i.rejectionReason)
  {
    if i.verified then "verified" else if Truthy(i.rejectionReason) then "rejected" else "pending"
  }

  function ClientRow(id: string, c: Company): UserRow {
    UserRow(id, ClientRole, c.createdAt, NameOr(c.fullName, "Unnamed Client"), c.verificationStatus)
  }

  function InterpreterRow(id: string, i: Interpreter): UserRow {
    UserRow(id, InterpreterRole, i.createdAt, NameOr(i.fullName, "Unnamed Interpreter"), Some(InterpreterStatus(i)))
  }

  predicate NewestFirst(a: UserRow, b: UserRow) {
    a.sortDate >= b.sortDate
  }

  /** The client tab: one row per company, newest first. */
  function ClientUsers(clients: seq<(string, Company)>): (r: seq<UserRow>)
    ensures multiset(r) == multiset(seq(|clients|, k requires 0 <= k < |clients| => ClientRow(clients[k].0, clients[k].1)))
    ensures Sorted(r, NewestFirst)
  {
    assert Total(NewestFirst);
    SortBy(seq(|clients|, k requires 0 <= k < |clients| => ClientRow(clients[k].0, clients[k].1)), NewestFirst)
  }

  /** The interpreter tab: one row per interpreter, newest first. */
  function InterpreterUsers(interpreters: seq<(string, Interpreter)>): (r: seq<UserRow>)
    ensures multiset(r) == multiset(seq(|interpreters|, k requires 0 <= k < |interpreters| =>
                                          InterpreterRow(interpreters[k].0, interpreters[k].1)))
    ensures Sorted(r, NewestFirst)
  {
    assert Total(NewestFirst);
    SortBy(seq(|interpreters|, k requires 0 <= k < |interpreters| =>
                 InterpreterRow(interpreters[k].0, interpreters[k].1)), NewestFirst)
  }

  /** `StatusBadge`: the label shown for a status. A null status renders
      as nothing. */
  function StatusBadge(status: Option<string>): (r: string)
    ensures status == Some("verified") ==> r == "Verified"
    ensures status == Some("rejected") ==> r == "Rejected"
    ensures status == Some("pending_approval") || status == Some("pending") ==> r == "Pending Review"
    ensures status.Some? && status.value !in {"verified", "rejected", "pending_approval", "pending"} ==> r == status.value
  {
    if status == Some("verified") then "Verified"
    else if status == Some("rejected") then "Rejected"
    else if status == Some("pending_approval") || status == Some("pending") then "Pending Review"
    else status.GetOr("")
  }

  /** After an approval the table shows the account as verified. */
  lemma ApprovedShowsVerified(db: Db, role: Role, id: string)
    requires role == ClientRole ==> id in db.companies
    requires role == InterpreterRole ==> id in db.interpreters
    ensures var r := ApproveUser(db, Some("true"), role, id, None);
            var row := if role == ClientRole then ClientRow(id, r.value.companies[id])
                       else InterpreterRow(id, r.value.interpreters[id]);
            row.displayStatus == Some("verified") && StatusBadge(row.displayStatus) == "Verified"
  {
  }

  /** After a denial with a reason the table shows the account as
      rejected. With an empty reason an interpreter falls back to
      pending, since an empty reason is not truthy. */
  lemma DeniedShowsRejected(db: Db, role: Role, id: string, reason: string)
    requires role == ClientRole ==> id in db.companies
    requires role == InterpreterRole ==> id in db.interpreters
    ensures var r := DenyUser(db, Some("true"), role, id, reason, None);
            var row := if role == ClientRole then ClientRow(id, r.value.companies[id])
                       else InterpreterRow(id, r.value.interpreters[id]);
            (reason != "" || role == ClientRole ==>
               row.displayStatus == Some("rejected") && StatusBadge(row.displayStatus) == "Rejected") &&
            (reason == "" && role == InterpreterRole ==> row.displayStatus == Some("pending"))
  {
  }

  // ---------------------------------------------------------------------
  // Review modal
  // ---------------------------------------------------------------------

  /** One entry of `Object.entries(user.documentUrls)`; a non-string value
      is `None`. */
  type DocEntry = (string, Option<string>)

  /** The key words that mark a document key as an agreement. */
  predicate NamesAgreement(key: string) {
    Contains(key, "platform") || Contains(key, "nda") || Contains(key, "agreement") ||
    Contains(key, "policy") || Contains(key, "signature")
  }

  /** The link as the test reads it: a non-string link reads as "". */
  function LinkText(e: DocEntry): string {
    if e.1.Some? then e.1.value else ""
  }

  /** The signed-agreement test: by key words in the lowercased key, or
      `signed_` in the lowercased link. */
  function IsSignedAgreement(e: DocEntry): (r: bool)
    ensures e.1.Some? && Contains(e.1.value, "signed_") ==> r
    ensures (Contains(e.0, "platform") || Contains(e.0, "nda") || Contains(e.0, "agreement") ||
             Contains(e.0, "policy") || Contains(e.0, "signature")) ==> r
    ensures (NoUpper(e.0) && !Contains(e.0, "platform") && !Contains(e.0, "nda") &&
             !Contains(e.0, "agreement") && !Contains(e.0, "policy") && !Contains(e.0, "signature") &&
             (e.1.None? || (NoUpper(e.1.value) && !Contains(e.1.value, "signed_")))) ==> !r
  {
    AgreementTestFacts(e);
    NamesAgreement(ToLower(e.0)) || Contains(ToLower(LinkText(e)), "signed_")
  }

  /** What lowercasing does to the two strings the test reads: it keeps
      every key word and `signed_`, and leaves lower-case text alone. */
  lemma AgreementTestFacts(e: DocEntry)
    ensures NamesAgreement(e.0) ==> NamesAgreement(ToLower(e.0))
    ensures Contains(LinkText(e), "signed_") ==> Contains(ToLower(LinkText(e)), "signed_")
    ensures NoUpper(e.0) ==> ToLower(e.0) == e.0
    ensures NoUpper(LinkText(e)) ==> ToLower(LinkText(e)) == LinkText(e)
  {
    KeyWordsSurviveLowering(e.0);
    LoweredIfContained(LinkText(e), "signed_");
    LowerOfNoUpper(e.0);
    LowerOfNoUpper(LinkText(e));
  }

  lemma KeyWordsSurviveLowering(key: string)
    ensures Contains(key, "platform") ==> Contains(ToLower(key), "platform")
    ensures Contains(key, "nda") ==> Contains(ToLower(key), "nda")
    ensures Contains(key, "agreement") ==> Contains(ToLower(key), "agreement")
    ensures Contains(key, "policy") ==> Contains(ToLower(key), "policy")
    ensures Contains(key, "signature") ==> Contains(ToLower(key), "signature")
  {
    LoweredIfContained(key, "platform");
    LoweredIfContained(key, "nda");
    LoweredIfContained(key, "agreement");
    LoweredIfContained(key, "policy");
    LoweredIfContained(key, "signature");
  }

  lemma LoweredIfContained(s: string, sub: string)
    requires NoUpper(sub)
    ensures Contains(s, sub) ==> Contains(ToLower(s), sub)
  {
    if Contains(s, sub) {
      ContainsLowered(s, sub);
    }
  }

  function SignedAgreements(entries: seq<DocEntry>): (r: seq<DocEntry>)
    ensures forall e :: e in r <==> e in entries && IsSignedAgreement(e)
  {
    Filter(entries, IsSignedAgreement)
  }

  function UploadedDocuments(entries: seq<DocEntry>): (r: seq<DocEntry>)
    ensures forall e :: e in r <==> e in entries && !IsSignedAgreement(e)
  {
    Filter(entries, (e: DocEntry) => !IsSignedAgreement(e))
  }

  /** An upload whose lower-case key names none of the agreements and
      whose lower-case link lacks `signed_` (an ID card or KBis scan, say)
      is listed among the uploaded documents and not among the agreements. */
  lemma PlainUploadIsListedAsUploaded(e: DocEntry)
    requires NoUpper(e.0) && !Contains(e.0, "platform") && !Contains(e.0, "nda")
    requires !Contains(e.0, "agreement") && !Contains(e.0, "policy") && !Contains(e.0, "signature")
    requires e.1.None? || (NoUpper(e.1.value) && !Contains(e.1.value, "signed_"))
    ensures UploadedDocuments([e]) == [e]
    ensures SignedAgreements([e]) == []
  {
    assert !IsSignedAgreement(e);
    assert e in UploadedDocuments([e]);
  }

  /** Both lists keep the order of `Object.entries`: the lists of a
      concatenation are the concatenated lists. */
  lemma ListsKeepEntryOrder(a: seq<DocEntry>, b: seq<DocEntry>)
    ensures SignedAgreements(a + b) == SignedAgreements(a) + SignedAgreements(b)
    ensures UploadedDocuments(a + b) == UploadedDocuments(a) + UploadedDocuments(b)
  {
    FilterConcat(a, b, IsSignedAgreement);
    FilterConcat(a, b, (e: DocEntry) => !IsSignedAgreement(e));
  }

  /** The two lists partition the documents: together they hold each
      entry exactly as often as the map does, and no entry is in both. */
  lemma DocumentsPartitioned(entries: seq<DocEntry>)
    ensures multiset(SignedAgreements(entries)) + multiset(UploadedDocuments(entries)) == multiset(entries)
    ensures forall e :: e in entries ==> (e in SignedAgreements(entries) <==> e !in UploadedDocuments(entries))
  {
    FilterPartition(entries, IsSignedAgreement, (e: DocEntry) => !IsSignedAgreement(e));
  }

  /** A signature filed by `submitSignedDocument` lands among the signed
      agreements whatever its document name, because its link carries
      `signed_`. */
  lemma SignedPathIsAgreement(key: string, url: string, k: nat)
    requires k + 7 <= |url| && url[k..k + 7] == "signed_"
    ensures IsSignedAgreement((key, Some(url)))
  {
    var u := ToLower(url);
    assert u[k..k + 7] == "signed_" by {
      forall j | 0 <= j < 7
        ensures u[k + j] == "signed_"[j]
      {
        assert url[k + j] == "signed_"[j];
      }
    }
    assert OccursAt(u, "signed_", k);
  }

  /** What a modal button sends to the server: nothing when refused. */
  datatype Request = Refused | Send(reason: Option<string>)

  /** "Deny": refused with an empty reason, otherwise sends the reason. */
  function DenyRequest(reason: string): (r: Request)
    ensures r.Refused? <==> reason == ""
    ensures r.Send? ==> r.reason == Some(reason)
  {
    if reason == "" then Refused else Send(Some(reason))
  }

  /** The sworn decision: a rejection needs a reason; an approval sends
      none (`undefined`), a rejection the typed reason. */
  function SwornRequest(approved: bool, reason: string): (r: Request)
    ensures r.Refused? <==> !approved && reason == ""
    ensures r.Send? ==> (r.reason.None? <==> approved)
    ensures r.Send? && !approved ==> r.reason == Some(reason)
  {
    if !approved && reason == "" then Refused
    else Send(if approved then None else Some(reason))
  }

  /** A denial made through the modal always shows as rejected: the modal
      refuses the empty reason that would otherwise show as pending. */
  lemma ModalDenialShowsRejected(db: Db, role: Role, id: string, reason: string)
    requires role == ClientRole ==> id in db.companies
    requires role == InterpreterRole ==> id in db.interpreters
    requires DenyRequest(reason).Send?
    ensures var r := DenyUser(db, Some("true"), role, id, DenyRequest(reason).reason.value, None);
            var row := if role == ClientRole then ClientRow(id, r.value.companies[id])
                       else InterpreterRow(id, r.value.interpreters[id]);
            StatusBadge(row.displayStatus) == "Rejected"
  {
    DeniedShowsRejected(db, role, id, reason);
  }

  /** A sworn rejection made through the modal stores its reason, and an
      approval clears it. */
  lemma ModalSwornDecisionStoresReason(db: Db, id: string, approved: bool, reason: string)
    requires id in db.interpreters
    requires SwornRequest(approved, reason).Send?
    ensures var r := VerifySwornStatus(db, Some("true"), id, approved, SwornRequest(approved, reason).reason, None);
            r.Success? &&
            r.value.interpreters[id].swornRejectionReason == (if approved then None else Some(reason))
  {
  }

  /** `DocItem`'s preview rule: an image link or any absolute link. */
  function ShowsPreview(url: Option<string>): (r: bool)
    ensures url.None? ==> !r
    ensures url.Some? && StartsWith(url.value, "http") ==> r
    ensures url.Some? && EndsWith(ToLower(url.value), ".pdf") && !StartsWith(ToLower(url.value), "http") ==> !r
  {
    if url.None? then false
    else
      var u := ToLower(url.value);
      if StartsWith(url.value, "http") then
        LowerKeepsOccurrence(url.value, "http", 0);
        true
      else
        EndsWith(u, ".png") || EndsWith(u, ".jpg") || EndsWith(u, ".jpeg") || StartsWith(u, "http")
  }

  /** Every link resolved by the admin page is absolute or comes from the
      public-URL function; when the latter yields absolute links, every
      document in the modal gets a preview, PDFs included. */
  lemma ResolvedLinksArePreviewed(docs: Documents, publicUrl: string -> string, k: string)
    requires forall p :: StartsWith(ToLower(publicUrl(p)), "http")
    requires k in GetDocumentUrls(Some(docs), publicUrl)
    ensures ShowsPreview(Some(GetDocumentUrls(Some(docs), publicUrl)[k]))
  {
    var path := DocPath(docs[k]).value;
    if StartsWith(path, "http") {
      var u := ToLower(path);
      assert u[..4] == "http" by {
        forall j | 0 <= j < 4
          ensures u[j] == "http"[j]
        {
          assert path[j] == "http"[j];
        }
      }
    }
  }

  /** The name shown on a document: every `-` becomes a space. */
  function DisplayName(name: string): (r: string)
    ensures |r| == |name| && '-' !in r
    ensures forall k :: 0 <= k < |name| && name[k] != '-' ==> r[k] == name[k]
    ensures forall k :: 0 <= k < |name| && name[k] == '-' ==> r[k] == ' '
  {
    ReplaceAllChar(name, '-', ' ')
  }
}
