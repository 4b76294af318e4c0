/** User records, their two indexes, and the KYC review workflow, as steps on one store. */
module Users {
  import opened Wrappers

  datatype DocKey = Dni | Selfie | Address | Funds

  datatype DocStatus = Uploaded | PendingReview | Verified | Rejected

  /** What was uploaded; a review never touches it. */
  datatype Content = Content(data: string, filename: string, contentType: string, uploadedAt: string)

  datatype Document = Document(
    status: DocStatus,
    content: Content,
    reviewedAt: Option<string>,
    rejectReason: Option<string>)

  type Documents = map<DocKey, Document>

  datatype Level = L0 | L1 | L2 | L3 {
    /** The position in `LEVEL_ORDER`. */
    function Index(): nat {
      match this case L0 => 0 case L1 => 1 case L2 => 2 case L3 => 3
    }
  }

  /** `REQUIRED_DOCS_FOR`. */
  function Required(target: Level): set<DocKey> {
    match target
    case L0 => {}
    case L1 => {Dni, Selfie}
    case L2 => {Dni, Selfie, Address}
    case L3 => {Dni, Selfie, Address, Funds}
  }

  datatype UserRecord = UserRecord(
    userId: string,
    username: string,
    displayName: string,
    email: Option<string>,
    banned: bool,
    deletedAt: Option<string>,
    country: Option<string>,
    kycLevel: Level,
    lastActive: Option<string>,
    createdAt: Option<string>,
    documents: Documents,
    pendingReview: Option<Level>,
    submittedAt: Option<string>)

  datatype UserError =
    | UserNotFound
    | UsernameTaken
    | EmailTaken
    | IndexEntryMissing
    | ReviewInProgress
    | UnknownDocumentKey
    | InvalidData
    | InvalidReviewTarget
    | LevelSkipNotAllowed
    | MissingDocuments
    | NoPendingReview
    | DocumentNotUploaded
    | NotAllVerified

  datatype Store = Store(
    users: map<string, UserRecord>,
    byUsername: map<string, string>,
    byEmail: map<string, string>)

  /** A document key or review target outside the allowed set arrives as None. */
  datatype Step =
    | CreateUser(userId: string, username: string, displayName: string, email: Option<string>,
                 country: Option<string>, now: string)
    | TouchLastActive(userId: string, now: string)
    | SetBanned(userId: string, banned: bool)
    | SoftDelete(userId: string, now: string)
    | Restore(userId: string)
    | UpdateUser(userId: string, newDisplayName: Option<string>, newEmail: Option<string>, newUsername: Option<string>)
    | Upload(userId: string, key: Option<DocKey>, content: Content)
    | SubmitReview(userId: string, target: Option<Level>, now: string)
    | Approve(userId: string, key: Option<DocKey>, now: string)
    | Reject(userId: string, key: Option<DocKey>, reason: string, now: string)
    | Promote(userId: string)

  datatype Outcome = Outcome(store: Store, error: Option<UserError>)

  // ---------- Accounts ----------

  /** An email counts for the index when it is there and not empty. */
  predicate Indexed(email: Option<string>) { email.Some? && email.value != "" }

  function NewRecord(userId: string, username: string, displayName: string, email: Option<string>,
                     country: Option<string>, now: string): UserRecord
  {
    UserRecord(userId, username, displayName, email, false, None, country, L0, None, Some(now), map[], None, None)
  }

  function CreateNext(s: Store, userId: string, username: string, displayName: string, email: Option<string>,
                      country: Option<string>, now: string): Outcome
  {
    if username in s.byUsername then Outcome(s, Some(UsernameTaken))
    else if Indexed(email) && email.value in s.byEmail then Outcome(s, Some(EmailTaken))
    else
      Outcome(Store(s.users[userId := NewRecord(userId, username, displayName, email, country, now)],
                    s.byUsername[username := userId],
                    if Indexed(email) then s.byEmail[email.value := userId] else s.byEmail), None)
  }

  /** Replace one record. */
  function Put(s: Store, userId: string, rec: UserRecord): Store { s.(users := s.users[userId := rec]) }

  /** The email index after `rec` changes its email to `email`, given that `email` is free. */
  function ReindexEmail(byEmail: map<string, string>, userId: string, previous: Option<string>, email: Option<string>)
    : map<string, string>
  {
    var removed := if Indexed(previous) && previous.value in byEmail then byEmail - {previous.value} else byEmail;
    if Indexed(email) then removed[email.value := userId] else removed
  }

  /** `update_user`: the email index is rewritten before the username is checked. */
  function UpdateNext(s: Store, userId: string, displayName: Option<string>, email: Option<string>,
                      username: Option<string>): Outcome
  {
    if userId !in s.users then Outcome(s, Some(UserNotFound))
    else
      var rec := s.users[userId];
      var emailChanges := email.Some? && email != rec.email;
      if emailChanges && Indexed(email) && email.value in s.byEmail then Outcome(s, Some(EmailTaken))
      else
        var s1 := if emailChanges then s.(byEmail := ReindexEmail(s.byEmail, userId, rec.email, email)) else s;
        var usernameChanges := username.Some? && username.value != rec.username;
        if usernameChanges && username.value in s.byUsername then Outcome(s1, Some(UsernameTaken))
        else if usernameChanges && rec.username !in s.byUsername then Outcome(s1, Some(IndexEntryMissing))
        else
          var s2 := if usernameChanges
                    then s1.(byUsername := (s.byUsername - {rec.username})[username.value := userId]) else s1;
          var rec' := rec.(username := if username.Some? then username.value else rec.username,
                           displayName := if displayName.Some? then displayName.value else rec.displayName,
                           email := if email.Some? then email else rec.email);
          Outcome(Put(s2, userId, rec'), None)
  }

  /** `get_user_by_username`: an empty id reads as absent. */
  function LookupUsername(s: Store, username: string): Option<UserRecord> {
    if username in s.byUsername && s.byUsername[username] != "" && s.byUsername[username] in s.users
    then Some(s.users[s.byUsername[username]]) else None
  }

  // ---------- KYC ----------

  function UploadRecord(rec: UserRecord, key: Option<DocKey>, content: Content): Result<UserRecord, UserError> {
    if rec.pendingReview.Some? then Err(ReviewInProgress)
    else if key.None? then Err(UnknownDocumentKey)
    else if content.data == "" || content.filename == "" || content.contentType == "" then Err(InvalidData)
    else Ok(rec.(documents := rec.documents[key.value := Document(Uploaded, content, None, None)]))
  }

  predicate Submittable(docs: Documents, k: DocKey) {
    k in docs && docs[k].status in {Uploaded, PendingReview, Verified}
  }

  /** Required documents that were only uploaded move to review. */
  function MarkPending(docs: Documents, required: set<DocKey>): Documents {
    map k | k in docs ::
      if k in required && docs[k].status == Uploaded then docs[k].(status := PendingReview) else docs[k]
  }

  function SubmitRecord(rec: UserRecord, target: Option<Level>, now: string): Result<UserRecord, UserError> {
    if rec.pendingReview.Some? then Err(ReviewInProgress)
    else if target.None? || target == Some(L0) then Err(InvalidReviewTarget)
    else if target.value.Index() != rec.kycLevel.Index() + 1 then Err(LevelSkipNotAllowed)
    else if exists k :: k in Required(target.value) && !Submittable(rec.documents, k) then Err(MissingDocuments)
    else Ok(rec.(documents := MarkPending(rec.documents, Required(target.value)),
                 pendingReview := target, submittedAt := Some(now)))
  }

  function ApproveRecord(rec: UserRecord, key: DocKey, now: string): Result<UserRecord, UserError> {
    if rec.pendingReview.None? then Err(NoPendingReview)
    else if key !in rec.documents then Err(DocumentNotUploaded)
    else
      var doc := rec.documents[key].(status := Verified, reviewedAt := Some(now), rejectReason := None);
      Ok(rec.(documents := rec.documents[key := doc]))
  }

  /** A rejection ends the whole review. */
  function RejectRecord(rec: UserRecord, key: DocKey, reason: string, now: string): Result<UserRecord, UserError> {
    if rec.pendingReview.None? then Err(NoPendingReview)
    else if key !in rec.documents then Err(DocumentNotUploaded)
    else
      var doc := rec.documents[key].(status := Rejected, reviewedAt := Some(now), rejectReason := Some(reason));
      Ok(rec.(documents := rec.documents[key := doc], pendingReview := None, submittedAt := None))
  }

  predicate IsVerified(docs: Documents, k: DocKey) { k in docs && docs[k].status == Verified }

  function PromoteRecord(rec: UserRecord): Result<UserRecord, UserError> {
    if rec.pendingReview.None? then Err(NoPendingReview)
    else if exists k :: k in Required(rec.pendingReview.value) && !IsVerified(rec.documents, k) then Err(NotAllVerified)
    else Ok(rec.(kycLevel := rec.pendingReview.value, pendingReview := None, submittedAt := None))
  }

  function WriteBack(s: Store, userId: string, r: Result<UserRecord, UserError>): Outcome {
    match r
    case Ok(rec) => Outcome(Put(s, userId, rec), None)
    case Err(e) => Outcome(s, Some(e))
  }

  /** The review handlers check the document key, and a rejection its reason, before they look the user up. */
  function EarlyRefusal(step: Step): Option<UserError> {
    match step
    case Approve(_, key, _) => if key.None? then Some(UnknownDocumentKey) else None
    case Reject(_, key, reason, _) =>
      if key.None? then Some(UnknownDocumentKey) else if reason == "" then Some(InvalidData) else None
    case _ => None
  }

  /** The steps that read one record and write one back. */
  function Change(rec: UserRecord, step: Step): Result<UserRecord, UserError> {
    match step
    case TouchLastActive(_, now) => Ok(rec.(lastActive := Some(now)))
    case SetBanned(_, banned) => Ok(rec.(banned := banned))
    case SoftDelete(_, now) => Ok(rec.(deletedAt := Some(now)))
    case Restore(_) => Ok(rec.(deletedAt := None))
    case Upload(_, key, content) => UploadRecord(rec, key, content)
    case SubmitReview(_, target, now) => SubmitRecord(rec, target, now)
    case Approve(_, key, now) =>
      if key.None? then Err(UnknownDocumentKey) else ApproveRecord(rec, key.value, now)
    case Reject(_, key, reason, now) =>
      if key.None? then Err(UnknownDocumentKey) else RejectRecord(rec, key.value, reason, now)
    case Promote(_) => PromoteRecord(rec)
    case CreateUser(_, _, _, _, _, _) => Ok(rec)
    case UpdateUser(_, _, _, _) => Ok(rec)
  }

  /** One call. */
  function Next(s: Store, step: Step): Outcome {
    match step
    case CreateUser(userId, username, displayName, email, country, now) =>
      CreateNext(s, userId, username, displayName, email, country, now)
    case UpdateUser(userId, displayName, email, username) => UpdateNext(s, userId, displayName, email, username)
    case _ =>
      if EarlyRefusal(step).Some? then Outcome(s, EarlyRefusal(step))
      else if step.userId !in s.users then Outcome(s, Some(UserNotFound))
      else WriteBack(s, step.userId, Change(s.users[step.userId], step))
  }

  const EMPTY := Store(map[], map[], map[])

  function Run(steps: seq<Step>): Store {
    if steps == [] then EMPTY else Next(Run(steps[..|steps| - 1]), steps[|steps| - 1]).store
  }
}
