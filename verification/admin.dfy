/** The administrator's server actions (`app/admin/actions.ts`). Each is
    gated by `ensureAdmin`, which accepts exactly an `admin_session` cookie
    whose value is "true"; the gate is the cookie value passed in. Storage
    buckets are sets of object names. */
module Admin {
  import opened Wrappers
  import opened Text
  import opened Forms
  import opened Verification

  /** Both tables the administrator acts on. */
  datatype Db = Db(companies: Companies, interpreters: Interpreters)

  /** The two kinds of account under review; `approveUser` and `denyUser`
      treat every type other than "client" as an interpreter. */
  datatype Role = ClientRole | InterpreterRole

  type Bucket = set<string>

  const NoFileProvided := "No file provided"
  /** A text entry under "file" has no `name`, so `.replace` on it throws
      and the action rejects instead of returning `{ error }`. The model
      stands for that rejection with a failure carrying this marker, not
      with the engine's own message. */
  const NameOfTextEntry := "file.name is undefined"

  /** `ensureAdmin()` succeeds. */
  function IsAdmin(cookie: Option<string>): (r: bool)
    ensures cookie.None? ==> !r
    ensures r <==> cookie.Some? && cookie.value == "true"
  {
    cookie == Some("true")
  }

  // ---------------------------------------------------------------------
  // Uploads
  // ---------------------------------------------------------------------

  /** Kept as they are by the upload sanitisation: `[a-zA-Z0-9.-]`. */
  predicate SafeChar(c: char) {
    'a' <= c <= 'z' || 'A' <= c <= 'Z' || '0' <= c <= '9' || c == '.' || c == '-'
  }

  /** `name.replace(/[^a-zA-Z0-9.-]/g, '_')`. */
  function SanitizeName(name: string): (r: string)
    ensures |r| == |name|
    ensures forall k :: 0 <= k < |r| ==> SafeChar(r[k]) || r[k] == '_'
    ensures forall k :: 0 <= k < |r| ==> r[k] == (if SafeChar(name[k]) then name[k] else '_')
  {
    if |name| == 0 then "" else [if SafeChar(name[0]) then name[0] else '_'] + SanitizeName(name[1..])
  }

  /** A name made only of safe characters is left as it is. */
  lemma {:induction false} SanitizeKeepsSafeNames(name: string)
    requires forall k :: 0 <= k < |name| ==> SafeChar(name[k])
    ensures SanitizeName(name) == name
  {
    if |name| > 0 {
      SanitizeKeepsSafeNames(name[1..]);
    }
  }

  /** Sanitising twice is sanitising once. */
  lemma SanitizeIdempotent(name: string)
    ensures SanitizeName(SanitizeName(name)) == SanitizeName(name)
  {
    var s := SanitizeName(name);
    var t := SanitizeName(s);
    assert |t| == |s|;
    forall k | 0 <= k < |s|
      ensures t[k] == s[k]
    {
    }
  }

  /** `${Date.now()}-${sanitised name}`. */
  function StoredName(now: nat, name: string): string {
    IntToString(now) + "-" + SanitizeName(name)
  }

  /** `uploadDocument(bucket, formData)`: stores the file under a
      timestamped, sanitised name. `uploadError` is the store's answer. */
  function UploadDocument(bucket: Bucket, cookie: Option<string>, f: FormData, now: nat,
                          uploadError: Option<string>): (r: Result<Bucket>)
    ensures !IsAdmin(cookie) ==> r == Failure(Unauthorized)
    ensures IsAdmin(cookie) && !Present(f, "file") ==> r == Failure(NoFileProvided)
    ensures r.Success? <==> IsAdmin(cookie) && FileField(f, "file").Some? && uploadError.None?
    ensures r.Success? ==> r.value == bucket + {StoredName(now, FileField(f, "file").value)}
  {
    if !IsAdmin(cookie) then Failure(Unauthorized)
    else if !Present(f, "file") then Failure(NoFileProvided)
    else if f["file"].Text? then Failure(NameOfTextEntry)
    else if uploadError.Some? then Failure(uploadError.value)
    else Success(bucket + {StoredName(now, f["file"].name)})
  }

  /** The stored name begins with the timestamp and keeps the length of the
      original name, with nothing but safe characters and `_` after the
      dash. */
  lemma StoredNameShape(now: nat, name: string)
    ensures var s := StoredName(now, name);
            var prefix := IntToString(now) + "-";
            StartsWith(s, prefix) && |s| == |prefix| + |name| &&
            forall k :: |prefix| <= k < |s| ==> SafeChar(s[k]) || s[k] == '_'
  {
    var prefix := IntToString(now) + "-";
    var s := StoredName(now, name);
    assert s[..|prefix|] == prefix;
    forall k | |prefix| <= k < |s|
      ensures SafeChar(s[k]) || s[k] == '_'
    {
      assert s[k] == SanitizeName(name)[k - |prefix|];
    }
  }

  /** `deleteDocument(bucket, fileName)`. */
  function DeleteDocument(bucket: Bucket, cookie: Option<string>, fileName: string,
                          storeError: Option<string>): (r: Result<Bucket>)
    ensures !IsAdmin(cookie) ==> r == Failure(Unauthorized)
    ensures r.Success? <==> IsAdmin(cookie) && storeError.None?
    ensures r.Success? ==> fileName !in r.value && forall n :: n in r.value <==> n in bucket && n != fileName
  {
    if !IsAdmin(cookie) then Failure(Unauthorized)
    else if storeError.Some? then Failure(storeError.value)
    else Success(bucket - {fileName})
  }

  // ---------------------------------------------------------------------
  // Decisions
  // ---------------------------------------------------------------------

  /** `.update(...).eq("id", id)` on a table keyed by id: applies `change`
      to the row with that id; no such row means nothing changes. */
  function UpdateRow<R>(rows: map<string, R>, id: string, change: R -> R): (r: map<string, R>)
    ensures r.Keys == rows.Keys
    ensures forall other :: other in rows && other != id ==> r[other] == rows[other]
    ensures id in rows ==> r[id] == change(rows[id])
  {
    if id in rows then rows[id := change(rows[id])] else rows
  }

  function Approved(c: Company): Company {
    c.(verificationStatus := Some("verified"), rejectionReason := None)
  }

  function ApprovedInterpreter(i: Interpreter): Interpreter {
    i.(verified := true, rejectionReason := None)
  }

  /** `approveUser(type, id)`: a client becomes `verified`, an interpreter
      `verified = true`; any earlier rejection reason is cleared. */
  function ApproveUser(db: Db, cookie: Option<string>, role: Role, id: string, dbError: Option<string>): (r: Result<Db>)
    ensures !IsAdmin(cookie) ==> r == Failure(Unauthorized)
    ensures r.Success? <==> IsAdmin(cookie) && dbError.None?
    ensures r.Success? && role == ClientRole ==>
      r.value.interpreters == db.interpreters &&
      r.value.companies.Keys == db.companies.Keys &&
      (forall other :: other in db.companies && other != id ==> r.value.companies[other] == db.companies[other]) &&
      (id in db.companies ==>
         var c := r.value.companies[id];
         c.verificationStatus == Some("verified") && c.rejectionReason.None? &&
         c == db.companies[id].(verificationStatus := c.verificationStatus, rejectionReason := c.rejectionReason))
    ensures r.Success? && role == InterpreterRole ==>
      r.value.companies == db.companies &&
      r.value.interpreters.Keys == db.interpreters.Keys &&
      (forall other :: other in db.interpreters && other != id ==> r.value.interpreters[other] == db.interpreters[other]) &&
      (id in db.interpreters ==>
         var i := r.value.interpreters[id];
         i.verified && i.rejectionReason.None? &&
         i == db.interpreters[id].(verified := true, rejectionReason := None))
  {
    if !IsAdmin(cookie) then Failure(Unauthorized)
    else if dbError.Some? then Failure(dbError.value)
    else if role == ClientRole then Success(db.(companies := UpdateRow(db.companies, id, Approved)))
    else Success(db.(interpreters := UpdateRow(db.interpreters, id, ApprovedInterpreter)))
  }

  /** Approving twice leaves the tables as approving once. */
  lemma ApproveIdempotent(db: Db, role: Role, id: string)
    ensures var r1 := ApproveUser(db, Some("true"), role, id, None);
            var r2 := ApproveUser(r1.value, Some("true"), role, id, None);
            r2 == r1
  {
    var r1 := ApproveUser(db, Some("true"), role, id, None);
    if role == ClientRole {
      if id in db.companies {
        assert Approved(Approved(db.companies[id])) == Approved(db.companies[id]);
        assert r1.value.companies[id := Approved(r1.value.companies[id])] == r1.value.companies;
      }
    } else {
      if id in db.interpreters {
        assert r1.value.interpreters[id := ApprovedInterpreter(r1.value.interpreters[id])] == r1.value.interpreters;
      }
    }
  }

  function Denied(reason: string): Company -> Company {
    (c: Company) => c.(verificationStatus := Some("rejected"), rejectionReason := Some(reason), documents := Some(map[]))
  }

  function DeniedInterpreter(reason: string): Interpreter -> Interpreter {
    (i: Interpreter) => i.(verified := false, rejectionReason := Some(reason), signedPolicyUrl := None,
                           documents := Some(map[]))
  }

  /** `denyUser(type, id, reason)`: rejects with the reason and empties the
      document map, so every document must be signed again; for an
      interpreter the legacy signed-policy link is dropped too. */
  function DenyUser(db: Db, cookie: Option<string>, role: Role, id: string, reason: string,
                    dbError: Option<string>): (r: Result<Db>)
    ensures !IsAdmin(cookie) ==> r == Failure(Unauthorized)
    ensures r.Success? <==> IsAdmin(cookie) && dbError.None?
    ensures r.Success? && role == ClientRole ==>
      r.value.interpreters == db.interpreters &&
      r.value.companies.Keys == db.companies.Keys &&
      (forall other :: other in db.companies && other != id ==> r.value.companies[other] == db.companies[other]) &&
      (id in db.companies ==>
         var c := r.value.companies[id];
         c.verificationStatus == Some("rejected") && c.rejectionReason == Some(reason) &&
         c.documents == Some(map[]) && c.createdAt == db.companies[id].createdAt &&
         c.fullName == db.companies[id].fullName)
    ensures r.Success? && role == InterpreterRole ==>
      r.value.companies == db.companies &&
      r.value.interpreters.Keys == db.interpreters.Keys &&
      (forall other :: other in db.interpreters && other != id ==> r.value.interpreters[other] == db.interpreters[other]) &&
      (id in db.interpreters ==>
         var i := r.value.interpreters[id];
         !i.verified && i.rejectionReason == Some(reason) && i.signedPolicyUrl.None? &&
         i.documents == Some(map[]) &&
         i == db.interpreters[id].(verified := false, rejectionReason := Some(reason), signedPolicyUrl := None,
                                   documents := Some(map[])))
  {
    if !IsAdmin(cookie) then Failure(Unauthorized)
    else if dbError.Some? then Failure(dbError.value)
    else if role == ClientRole then Success(db.(companies := UpdateRow(db.companies, id, Denied(reason))))
    else Success(db.(interpreters := UpdateRow(db.interpreters, id, DeniedInterpreter(reason))))
  }

  /** A rejected company that signs again stays rejected: signing moves
      only unverified companies to review, and after a denial the
      administrator must approve explicitly. */
  lemma ResigningAfterDenialStaysRejected(db: Db, id: string, reason: string, f: FormData, now: nat, signedAt: string)
    requires id in db.companies
    ensures var denied := DenyUser(db, Some("true"), ClientRole, id, reason, None).value;
            var r := SubmitSignedDocument(denied.companies, Some(id), f, now, signedAt, false, false, None);
            r.Success? ==> r.value[id].verificationStatus == Some("rejected")
  {
  }

  /** The sworn-translator decision: `sworn_verified` is set to the
      decision; the reason is cleared on approval and set on rejection
      when one is given (an undefined reason leaves the column as it
      was); approval also sets `is_sworn`, rejection leaves it. */
  function SwornDecided(i: Interpreter, approved: bool, reason: Option<string>): (r: Interpreter)
    ensures r.swornVerified == approved
    ensures approved ==> r.swornRejectionReason.None? && r.isSworn
    ensures !approved ==> r.isSworn == i.isSworn
    ensures !approved && reason.Some? ==> r.swornRejectionReason == reason
    ensures !approved && reason.None? ==> r.swornRejectionReason == i.swornRejectionReason
    ensures r == i.(swornVerified := r.swornVerified, swornRejectionReason := r.swornRejectionReason, isSworn := r.isSworn)
  {
    var reasonAfter := if approved then None else if reason.Some? then reason else i.swornRejectionReason;
    i.(swornVerified := approved, swornRejectionReason := reasonAfter, isSworn := if approved then true else i.isSworn)
  }

  /** `verifySwornStatus(id, approved, reason?)`. */
  function VerifySwornStatus(db: Db, cookie: Option<string>, id: string, approved: bool, reason: Option<string>,
                             dbError: Option<string>): (r: Result<Db>)
    ensures !IsAdmin(cookie) ==> r == Failure(Unauthorized)
    ensures r.Success? <==> IsAdmin(cookie) && dbError.None?
    ensures r.Success? ==>
      r.value.companies == db.companies &&
      r.value.interpreters.Keys == db.interpreters.Keys &&
      (forall other :: other in db.interpreters && other != id ==> r.value.interpreters[other] == db.interpreters[other]) &&
      (id in db.interpreters ==> r.value.interpreters[id] == SwornDecided(db.interpreters[id], approved, reason))
  {
    if !IsAdmin(cookie) then Failure(Unauthorized)
    else if dbError.Some? then Failure(dbError.value)
    else Success(db.(interpreters := UpdateRow(db.interpreters, id, i => SwornDecided(i, approved, reason))))
  }

  /** The interpreter's own sworn flag and the administrator's sworn
      decision are separate columns: toggling the flag keeps the decision,
      an approval sets the flag whatever it was, and withdrawing the flag
      after an approval leaves the interpreter sworn-verified. */
  lemma ToggleAndSwornDecision(db: Db, id: string, isSworn: bool, reason: Option<string>)
    requires id in db.interpreters
    ensures var toggled := ToggleSwornStatus(db.interpreters, Some(id), isSworn, None).value;
            toggled[id].swornVerified == db.interpreters[id].swornVerified &&
            toggled[id].swornRejectionReason == db.interpreters[id].swornRejectionReason
    ensures var toggled := ToggleSwornStatus(db.interpreters, Some(id), isSworn, None).value;
            var approved := VerifySwornStatus(db.(interpreters := toggled), Some("true"), id, true, reason, None).value;
            approved.interpreters[id].isSworn && approved.interpreters[id].swornVerified
    ensures var approved := VerifySwornStatus(db, Some("true"), id, true, reason, None).value;
            var withdrawn := ToggleSwornStatus(approved.interpreters, Some(id), false, None).value;
            !withdrawn[id].isSworn && withdrawn[id].swornVerified
  {
    var toggled := ToggleSwornStatus(db.interpreters, Some(id), isSworn, None).value;
    assert id in toggled;
    var approved := VerifySwornStatus(db, Some("true"), id, true, reason, None).value;
    assert id in approved.interpreters;
  }

  /** The sworn reason is null exactly when the decision is an approval,
      given a reason to store on rejection. */
  lemma SwornReasonNullIffApproved(i: Interpreter, approved: bool, reason: string)
    ensures SwornDecided(i, approved, Some(reason)).swornRejectionReason.None? <==> approved
  {
  }
}
