/** The verification records of companies (clients) and interpreters, and
    the actions by which users hand in signed documents
    (`app/dashboard/client/actions.ts`, `app/dashboard/interpreter/actions.ts`).
    A company's `documents` map holds `{path, signed_at}` records, an
    interpreter's holds storage paths as plain strings. Signing moves an
    unverified company to `pending_approval`. The object store's upload
    is reduced to its outcome, `uploadFailed`; the read of the caller's row
    that precedes each update is reduced to `readFailed`. The code ignores
    that read's error, so a failed read is taken as a row with no documents
    and no status. */
module Verification {
  import opened Wrappers
  import opened Text
  import opened Forms

  /** A value of a `documents` JSON map, as far as the application tells
      values apart: a string, an object with an optional `path`, `null`,
      or any other JSON value (with its truthiness). */
  datatype DocValue =
    | DocText(text: string)
    | DocRecord(path: Option<string>, signedAt: Option<string>)
    | DocNull
    | DocOther(truthy: bool)

  type Documents = map<string, DocValue>

  /** A row of `companies`. */
  datatype Company = Company(documents: Option<Documents>, verificationStatus: Option<string>,
                             rejectionReason: Option<string>, createdAt: int, fullName: Option<string>)

  /** A row of `interpreters`; a null boolean column reads as false. */
  datatype Interpreter = Interpreter(documents: Option<Documents>, verified: bool, rejectionReason: Option<string>,
                                     signedPolicyUrl: Option<string>, isSworn: bool, swornVerified: bool,
                                     swornRejectionReason: Option<string>, createdAt: int, fullName: Option<string>)

  type Companies = map<string, Company>
  type Interpreters = map<string, Interpreter>

  const Unauthorized := "Unauthorized"
  const MissingSignatureOrName := "Missing signature or document name"
  const MissingFileOrType := "Missing file or document type"
  const MissingSignatureOrType := "Missing signature or document type"
  const SignatureUploadFailed := "Failed to upload signature. Please try again."
  const DocumentUploadFailed := "Failed to upload document. Please try again."

  /** `row?.documents || {}`. */
  function CurrentDocs(documents: Option<Documents>): Documents {
    documents.GetOr(map[])
  }

  // ---------------------------------------------------------------------
  // Companies
  // ---------------------------------------------------------------------

  /** `${user.id}/signed_${docName}_${timestamp}.png`. */
  function SignedDocumentPath(userId: string, docName: string, now: nat): string {
    userId + "/" + "signed_" + docName + "_" + IntToString(now) + ".png"
  }

  /** The status after a signature: unverified or unset becomes
      `pending_approval`, any other status stays. */
  function AfterSigning(status: Option<string>): (r: string)
    ensures r != "" && r != "unverified"
    ensures Truthy(status) && status.value != "unverified" ==> r == status.value
  {
    if status == Some("unverified") || !Truthy(status) then "pending_approval" else status.value
  }

  /** The company row after `docName` was signed at `signedAt`, from what
      the read before the update returned: the row itself, or nothing. */
  function Signed(c: Company, docName: string, path: string, signedAt: string, readFailed: bool): Company {
    var docs := if readFailed then map[] else CurrentDocs(c.documents);
    var status := if readFailed then None else c.verificationStatus;
    c.(documents := Some(docs[docName := DocRecord(Some(path), Some(signedAt))]),
       verificationStatus := Some(AfterSigning(status)))
  }

  /** `submitSignedDocument(formData)`: stores the signature image under the
      caller's folder and records it under `docName` in the caller's
      company row. `now` is `Date.now()`, `signedAt` the ISO time. An update
      that matches no row succeeds without changing anything. */
  function SubmitSignedDocument(companies: Companies, user: Option<string>, f: FormData, now: nat, signedAt: string,
                                uploadFailed: bool, readFailed: bool, dbError: Option<string>): (r: Result<Companies>)
    ensures user.None? ==> r == Failure(Unauthorized)
    ensures user.Some? && (!Present(f, "signature") || !Truthy(TextField(f, "docName"))) ==>
      r == Failure(MissingSignatureOrName)
    ensures r.Failure? <==> user.None? || !Present(f, "signature") || !Truthy(TextField(f, "docName")) ||
                            uploadFailed || dbError.Some?
    ensures r.Success? ==> r.value.Keys == companies.Keys
    ensures r.Success? ==> forall id :: id in companies && id != user.value ==> r.value[id] == companies[id]
    ensures r.Success? && user.value in companies && !readFailed ==>
      var docName := TextField(f, "docName").value;
      var before := companies[user.value];
      var after := r.value[user.value];
      && after.documents.Some?
      && after.documents.value.Keys == CurrentDocs(before.documents).Keys + {docName}
      && after.documents.value[docName] == DocRecord(Some(SignedDocumentPath(user.value, docName, now)), Some(signedAt))
      && (forall k :: k in CurrentDocs(before.documents) && k != docName ==>
            after.documents.value[k] == CurrentDocs(before.documents)[k])
      && after.verificationStatus == Some(AfterSigning(before.verificationStatus))
      && after.rejectionReason == before.rejectionReason
    ensures r.Success? && user.value in companies && readFailed ==>
      var docName := TextField(f, "docName").value;
      var after := r.value[user.value];
      && after.documents == Some(map[docName := DocRecord(Some(SignedDocumentPath(user.value, docName, now)), Some(signedAt))])
      && after.verificationStatus == Some("pending_approval")
      && after.rejectionReason == companies[user.value].rejectionReason
  {
    if user.None? then Failure(Unauthorized)
    else if !Present(f, "signature") || !Truthy(TextField(f, "docName")) then Failure(MissingSignatureOrName)
    else
      var docName := TextField(f, "docName").value;
      var path := SignedDocumentPath(user.value, docName, now);
      if uploadFailed then Failure(SignatureUploadFailed)
      else if dbError.Some? then Failure(dbError.value)
      else if user.value !in companies then Success(companies)
      else Success(companies[user.value := Signed(companies[user.value], docName, path, signedAt, readFailed)])
  }

  /** Signing starts the review exactly for a company not yet under review
      or decided: unverified or unset moves to `pending_approval`, and any
      other status (verified, rejected, pending_approval) is kept. */
  lemma SigningStatusTransition(status: Option<string>)
    ensures AfterSigning(status) == "pending_approval" <==>
      status.None? || status.value in {"", "unverified", "pending_approval"}
    ensures status.Some? && status.value !in {"", "unverified"} ==> AfterSigning(status) == status.value
  {
  }

  /** The signature is filed in the caller's own folder: the path's first
      segment is the caller's id. */
  lemma SignedDocumentInOwnFolder(userId: string, docName: string, now: nat)
    requires '/' !in userId
    ensures BeforeFirst(SignedDocumentPath(userId, docName, now), '/') == userId
    ensures EndsWith(SignedDocumentPath(userId, docName, now), ".png")
  {
    var rest := "/" + "signed_" + docName + "_" + IntToString(now) + ".png";
    assert SignedDocumentPath(userId, docName, now) == userId + rest;
    BeforeFirstOfConcat(userId, rest, '/');
  }

  /** Signing a document again replaces its record and leaves the set of
      signed documents as it was. */
  lemma ResigningOverwrites(companies: Companies, user: string, f: FormData, now1: nat, at1: string,
                            now2: nat, at2: string)
    requires user in companies
    ensures var r1 := SubmitSignedDocument(companies, Some(user), f, now1, at1, false, false, None);
            r1.Success? ==>
              var r2 := SubmitSignedDocument(r1.value, Some(user), f, now2, at2, false, false, None);
              var docName := TextField(f, "docName").value;
              && r2.Success?
              && r2.value[user].documents.value.Keys == r1.value[user].documents.value.Keys
              && r2.value[user].documents.value[docName] ==
                 DocRecord(Some(SignedDocumentPath(user, docName, now2)), Some(at2))
  {
  }

  /** Because the read's error is ignored, signing after a failed read
      drops every other signed document of the company and sends a company
      already verified or rejected back to `pending_approval`. */
  lemma FailedReadResetsCompany(companies: Companies, user: string, f: FormData, now: nat, signedAt: string)
    requires user in companies && Present(f, "signature") && Truthy(TextField(f, "docName"))
    ensures var r := SubmitSignedDocument(companies, Some(user), f, now, signedAt, false, true, None);
            var docName := TextField(f, "docName").value;
            && r.Success?
            && r.value[user].documents.value.Keys == {docName}
            && (forall k :: k in CurrentDocs(companies[user].documents) && k != docName ==>
                  k !in r.value[user].documents.value)
            && r.value[user].verificationStatus == Some("pending_approval")
  {
  }

  // ---------------------------------------------------------------------
  // Interpreters
  // ---------------------------------------------------------------------

  /** `${user.id}/${docType}-${Date.now()}.pdf`. */
  function PolicyPath(userId: string, docType: string, now: nat): string {
    userId + "/" + docType + "-" + IntToString(now) + ".pdf"
  }

  /** `${user.id}/signature_${docType}_${Date.now()}.png`. */
  function SignaturePath(userId: string, docType: string, now: nat): string {
    userId + "/" + "signature_" + docType + "_" + IntToString(now) + ".png"
  }

  /** The common tail of both interpreter uploads: record `path` under
      `docType` in the caller's document map as the read before the update
      returned it (empty when that read failed). */
  function SetInterpreterDocument(interpreters: Interpreters, user: string, docType: string, path: string,
                                  readFailed: bool, dbError: Option<string>): (r: Result<Interpreters>)
    ensures r.Failure? <==> dbError.Some?
    ensures r.Success? ==> r.value.Keys == interpreters.Keys
    ensures r.Success? ==> forall id :: id in interpreters && id != user ==> r.value[id] == interpreters[id]
    ensures r.Success? && user in interpreters ==>
      r.value[user] == interpreters[user].(documents := r.value[user].documents)
    ensures r.Success? && user in interpreters && readFailed ==>
      r.value[user].documents == Some(map[docType := DocText(path)])
    ensures r.Success? && user in interpreters && !readFailed ==>
      var before := interpreters[user];
      var after := r.value[user];
      && after.documents.Some?
      && after.documents.value.Keys == CurrentDocs(before.documents).Keys + {docType}
      && after.documents.value[docType] == DocText(path)
      && (forall k :: k in CurrentDocs(before.documents) && k != docType ==>
            after.documents.value[k] == CurrentDocs(before.documents)[k])
  {
    if dbError.Some? then Failure(dbError.value)
    else if user !in interpreters then Success(interpreters)
    else
      var i := interpreters[user];
      var docs := if readFailed then map[] else CurrentDocs(i.documents);
      Success(interpreters[user := i.(documents := Some(docs[docType := DocText(path)]))])
  }

  /** `uploadSignedPolicy(formData)`: expects the fields "file" and
      "docType". */
  function UploadSignedPolicy(interpreters: Interpreters, user: Option<string>, f: FormData, now: nat,
                              uploadFailed: bool, readFailed: bool, dbError: Option<string>): (r: Result<Interpreters>)
    ensures user.None? ==> r == Failure(Unauthorized)
    ensures user.Some? && (!Present(f, "file") || !Truthy(TextField(f, "docType"))) ==> r == Failure(MissingFileOrType)
    ensures user.Some? && Present(f, "file") && Truthy(TextField(f, "docType")) && uploadFailed ==>
      r == Failure(DocumentUploadFailed)
    ensures r.Failure? <==> user.None? || !Present(f, "file") || !Truthy(TextField(f, "docType")) ||
                            uploadFailed || dbError.Some?
    ensures r.Success? ==>
      r == SetInterpreterDocument(interpreters, user.value, TextField(f, "docType").value,
                                  PolicyPath(user.value, TextField(f, "docType").value, now), readFailed, dbError)
  {
    if user.None? then Failure(Unauthorized)
    else if !Present(f, "file") || !Truthy(TextField(f, "docType")) then Failure(MissingFileOrType)
    else
      var docType := TextField(f, "docType").value;
      if uploadFailed then Failure(DocumentUploadFailed)
      else SetInterpreterDocument(interpreters, user.value, docType, PolicyPath(user.value, docType, now), readFailed, dbError)
  }

  /** The policy upload card sends its file as "policyFile" and no
      "docType", so its every submission is refused. */
  lemma PolicyCardFormIsRefused(interpreters: Interpreters, user: string, fileName: string, now: nat,
                                uploadFailed: bool, readFailed: bool, dbError: Option<string>)
    ensures UploadSignedPolicy(interpreters, Some(user), map["policyFile" := File(fileName)], now, uploadFailed,
                               readFailed, dbError)
            == Failure(MissingFileOrType)
  {
  }

  /** `submitInterpreterSignature(formData)`: expects "signature" and
      "docType". */
  function SubmitInterpreterSignature(interpreters: Interpreters, user: Option<string>, f: FormData, now: nat,
                                      uploadFailed: bool, readFailed: bool, dbError: Option<string>): (r: Result<Interpreters>)
    ensures user.None? ==> r == Failure(Unauthorized)
    ensures user.Some? && (!Present(f, "signature") || !Truthy(TextField(f, "docType"))) ==>
      r == Failure(MissingSignatureOrType)
    ensures user.Some? && Present(f, "signature") && Truthy(TextField(f, "docType")) && uploadFailed ==>
      r == Failure(SignatureUploadFailed)
    ensures r.Failure? <==> user.None? || !Present(f, "signature") || !Truthy(TextField(f, "docType")) ||
                            uploadFailed || dbError.Some?
    ensures r.Success? ==>
      r == SetInterpreterDocument(interpreters, user.value, TextField(f, "docType").value,
                                  SignaturePath(user.value, TextField(f, "docType").value, now), readFailed, dbError)
  {
    if user.None? then Failure(Unauthorized)
    else if !Present(f, "signature") || !Truthy(TextField(f, "docType")) then Failure(MissingSignatureOrType)
    else
      var docType := TextField(f, "docType").value;
      if uploadFailed then Failure(SignatureUploadFailed)
      else SetInterpreterDocument(interpreters, user.value, docType, SignaturePath(user.value, docType, now), readFailed, dbError)
  }

  /** `toggleSwornStatus(isSworn)`: sets the caller's `is_sworn` flag and
      nothing else. */
  function ToggleSwornStatus(interpreters: Interpreters, user: Option<string>, isSworn: bool,
                             dbError: Option<string>): (r: Result<Interpreters>)
    ensures user.None? ==> r == Failure(Unauthorized)
    ensures r.Failure? <==> user.None? || dbError.Some?
    ensures r.Success? ==> r.value.Keys == interpreters.Keys
    ensures r.Success? ==> forall id :: id in interpreters && id != user.value ==> r.value[id] == interpreters[id]
    ensures r.Success? && user.value in interpreters ==>
      r.value[user.value].isSworn == isSworn &&
      r.value[user.value] == interpreters[user.value].(isSworn := isSworn)
  {
    if user.None? then Failure(Unauthorized)
    else if dbError.Some? then Failure(dbError.value)
    else if user.value !in interpreters then Success(interpreters)
    else Success(interpreters[user.value := interpreters[user.value].(isSworn := isSworn)])
  }

  /** Both interpreter uploads record the document under its type, so the
      later of two uploads for one type is the one kept. */
  lemma LaterUploadWins(interpreters: Interpreters, user: string, f: FormData, now1: nat, now2: nat)
    requires user in interpreters
    ensures var r1 := UploadSignedPolicy(interpreters, Some(user), f, now1, false, false, None);
            r1.Success? ==>
              var r2 := SubmitInterpreterSignature(r1.value, Some(user), f, now2, false, false, None);
              var docType := TextField(f, "docType").value;
              r2.Success? ==>
                r2.value[user].documents.value[docType] == DocText(SignaturePath(user, docType, now2)) &&
                r2.value[user].documents.value.Keys == r1.value[user].documents.value.Keys
  {
  }

  /** Because the read's error is ignored, an interpreter upload after a
      failed read leaves only the uploaded document in the map: every
      document handed in before is dropped. */
  lemma FailedReadDropsInterpreterDocuments(interpreters: Interpreters, user: string, f: FormData, now: nat)
    requires user in interpreters && Present(f, "signature") && Truthy(TextField(f, "docType"))
    ensures var r := SubmitInterpreterSignature(interpreters, Some(user), f, now, false, true, None);
            var docType := TextField(f, "docType").value;
            && r.Success?
            && r.value[user].documents.value.Keys == {docType}
            && (forall k :: k in CurrentDocs(interpreters[user].documents) && k != docType ==>
                  k !in r.value[user].documents.value)
  {
  }
}
