/** What each call of the user store and the KYC workflow stores, said of the fields it touches, and where it leads. */
module UserLaws {
  import opened UserRuns
  import opened Users
  import opened Wrappers

  // ---------- What stays ----------

  /** Everything about the account but for its KYC fields. */
  predicate SameAccount(a: UserRecord, b: UserRecord) {
    && a.userId == b.userId && a.username == b.username && a.displayName == b.displayName && a.email == b.email
    && a.banned == b.banned && a.deletedAt == b.deletedAt && a.country == b.country
    && a.lastActive == b.lastActive && a.createdAt == b.createdAt
  }

  predicate SameKyc(a: UserRecord, b: UserRecord) {
    && a.kycLevel == b.kycLevel && a.documents == b.documents
    && a.pendingReview == b.pendingReview && a.submittedAt == b.submittedAt
  }

  /** No user but `id` changed, none came or went, and both indexes are what they were. */
  ghost predicate OnlyTouches(s: Store, s': Store, id: string) {
    && s'.byUsername == s.byUsername && s'.byEmail == s.byEmail
    && s'.users.Keys == s.users.Keys && id in s.users
    && forall other :: other in s.users && other != id ==> s'.users[other] == s.users[other]
  }

  ghost predicate OtherDocumentsKept(docs: Documents, docs': Documents, key: DocKey) {
    && docs'.Keys == docs.Keys + {key}
    && forall k :: k in docs && k != key ==> docs'[k] == docs[k]
  }

  // ---------- Accounts ----------

  /** A registration stores a record with the given fields, unbanned, at level L0 and without documents. */
  lemma Registered(s: Store, id: string, username: string, displayName: string, email: Option<string>,
                   country: Option<string>, now: string)
    ensures var out := Next(s, CreateUser(id, username, displayName, email, country, now));
            && (out.error.Some? <==>
                  username in s.byUsername || (email.Some? && email.value != "" && email.value in s.byEmail))
            && (out.error.Some? ==>
                  && out.store == s
                  && out.error == Some(if username in s.byUsername then UsernameTaken else EmailTaken))
            && (out.error.None? ==>
                  && out.store.byUsername == s.byUsername[username := id]
                  && out.store.byEmail == (if email.Some? && email.value != "" then s.byEmail[email.value := id]
                                           else s.byEmail)
                  && out.store.users.Keys == s.users.Keys + {id}
                  && (forall other :: other in s.users && other != id ==> out.store.users[other] == s.users[other])
                  && var rec := out.store.users[id];
                     && rec.userId == id && rec.username == username && rec.displayName == displayName
                     && rec.email == email && rec.country == country && rec.createdAt == Some(now)
                     && !rec.banned && rec.deletedAt == None && rec.lastActive == None
                     && rec.kycLevel == L0 && rec.documents == map[]
                     && rec.pendingReview == None && rec.submittedAt == None)
  {
  }

  /** An update stores the fields it is given and keeps the rest. */
  lemma Updated(s: Store, id: string, displayName: Option<string>, email: Option<string>, username: Option<string>)
    requires Next(s, UpdateUser(id, displayName, email, username)).error.None?
    ensures var users := Next(s, UpdateUser(id, displayName, email, username)).store.users;
            && users.Keys == s.users.Keys && id in users
            && (forall other :: other in s.users && other != id ==> users[other] == s.users[other])
            && var rec, rec' := s.users[id], users[id];
               && rec'.displayName == (if displayName.Some? then displayName.value else rec.displayName)
               && rec'.email == (if email.Some? then email else rec.email)
               && rec'.username == (if username.Some? then username.value else rec.username)
               && rec'.userId == rec.userId && rec'.banned == rec.banned && rec'.deletedAt == rec.deletedAt
               && rec'.country == rec.country && rec'.lastActive == rec.lastActive
               && rec'.createdAt == rec.createdAt && SameKyc(rec, rec')
  {
  }

  /** Which refusal an update gets: the first that applies, in this order. */
  lemma UpdateRefusal(s: Store, id: string, displayName: Option<string>, email: Option<string>,
                      username: Option<string>)
    requires IndexesExact(s)
    ensures var error := Next(s, UpdateUser(id, displayName, email, username)).error;
            if id !in s.users then error == Some(UserNotFound)
            else if email.Some? && email != s.users[id].email && email.value != "" && email.value in s.byEmail then
              error == Some(EmailTaken)
            else if username.Some? && username.value != s.users[id].username && username.value in s.byUsername then
              error == Some(UsernameTaken)
            else error == None
  {
  }

  /** A lookup follows the index, unless it leads to an empty or unknown id. */
  lemma LookedUp(s: Store, username: string)
    ensures var r := LookupUsername(s, username);
            && (r.Some? <==>
                  username in s.byUsername && s.byUsername[username] != "" && s.byUsername[username] in s.users)
            && (r.Some? ==> r.value == s.users[s.byUsername[username]])
  {
  }

  /** The flags and times of an account: exactly one field takes the argument, every other field stays. */
  lemma FlagsStored(s: Store, step: Step)
    requires step.SetBanned? || step.SoftDelete? || step.Restore? || step.TouchLastActive?
    ensures var out, id := Next(s, step), step.userId;
            if id !in s.users then out == Outcome(s, Some(UserNotFound))
            else
              && out.error.None? && OnlyTouches(s, out.store, id)
              && var rec, rec' := s.users[id], out.store.users[id];
                 && SameKyc(rec, rec') && rec'.userId == rec.userId && rec'.username == rec.username
                 && rec'.displayName == rec.displayName && rec'.email == rec.email && rec'.country == rec.country
                 && rec'.createdAt == rec.createdAt
                 && rec'.banned == (if step.SetBanned? then step.banned else rec.banned)
                 && rec'.deletedAt == (if step.SoftDelete? then Some(step.now) else if step.Restore? then None
                                       else rec.deletedAt)
                 && rec'.lastActive == (if step.TouchLastActive? then Some(step.now) else rec.lastActive)
  {
  }

  // ---------- KYC, call by call ----------

  /** A call that was refused left the store alone, for the first of these reasons that applies. */
  predicate RefusedWith(s: Store, out: Outcome, error: UserError) { out == Outcome(s, Some(error)) }

  /** An upload stores the document as uploaded, with its content and no marks of a review. */
  lemma UploadStored(s: Store, id: string, key: Option<DocKey>, content: Content)
    ensures var out := Next(s, Upload(id, key, content));
            if id !in s.users then RefusedWith(s, out, UserNotFound)
            else if s.users[id].pendingReview.Some? then RefusedWith(s, out, ReviewInProgress)
            else if key.None? then RefusedWith(s, out, UnknownDocumentKey)
            else if content.data == "" || content.filename == "" || content.contentType == "" then
              RefusedWith(s, out, InvalidData)
            else
              && out.error.None? && OnlyTouches(s, out.store, id)
              && var rec, rec' := s.users[id], out.store.users[id];
                 && SameAccount(rec, rec') && rec'.kycLevel == rec.kycLevel
                 && rec'.pendingReview == rec.pendingReview && rec'.submittedAt == rec.submittedAt
                 && OtherDocumentsKept(rec.documents, rec'.documents, key.value)
                 && var doc := rec'.documents[key.value];
                    && doc.status == Uploaded && doc.content == content
                    && doc.reviewedAt == None && doc.rejectReason == None
  {
  }

  /** A document that may go under review: it is there, and not rejected. */
  predicate Presentable(docs: Documents, k: DocKey) { k in docs && docs[k].status != Rejected }

  predicate AllPresentable(docs: Documents, keys: seq<DocKey>) {
    forall i :: 0 <= i < |keys| ==> Presentable(docs, keys[i])
  }

  /** What each level asks for. */
  function Papers(target: Level): seq<DocKey> {
    match target
    case L0 => []
    case L1 => [Dni, Selfie]
    case L2 => [Dni, Selfie, Address]
    case L3 => [Dni, Selfie, Address, Funds]
  }

  lemma PapersRequired(target: Level)
    ensures forall k :: k in Required(target) <==> k in Papers(target)
  {
    match target
    case L0 =>
    case L1 => assert Papers(L1)[0] == Dni && Papers(L1)[1] == Selfie;
    case L2 => assert Papers(L2)[0] == Dni && Papers(L2)[1] == Selfie && Papers(L2)[2] == Address;
    case L3 =>
      assert Papers(L3)[0] == Dni && Papers(L3)[1] == Selfie && Papers(L3)[2] == Address && Papers(L3)[3] == Funds;
  }

  /** What a submission does to one document: a required one that was only uploaded goes under review. */
  ghost predicate MovedUnderReview(docs: Documents, docs': Documents, papers: seq<DocKey>) {
    && docs'.Keys == docs.Keys
    && forall k :: k in docs ==>
         && docs'[k].content == docs[k].content && docs'[k].reviewedAt == docs[k].reviewedAt
         && docs'[k].rejectReason == docs[k].rejectReason
         && docs'[k].status == if k in papers && docs[k].status == Uploaded then PendingReview else docs[k].status
  }

  /** The level right after another. */
  predicate NextLevel(level: Level, target: Level) {
    (level == L0 && target == L1) || (level == L1 && target == L2) || (level == L2 && target == L3)
  }

  /** A submission for the next level with its papers in order starts the review; nothing else does. */
  lemma SubmissionStored(s: Store, id: string, target: Option<Level>, now: string)
    ensures var out := Next(s, SubmitReview(id, target, now));
            if id !in s.users then RefusedWith(s, out, UserNotFound)
            else if s.users[id].pendingReview.Some? then RefusedWith(s, out, ReviewInProgress)
            else if target.None? || target.value == L0 then RefusedWith(s, out, InvalidReviewTarget)
            else if !NextLevel(s.users[id].kycLevel, target.value) then RefusedWith(s, out, LevelSkipNotAllowed)
            else if !AllPresentable(s.users[id].documents, Papers(target.value)) then
              RefusedWith(s, out, MissingDocuments)
            else
              && out.error.None? && OnlyTouches(s, out.store, id)
              && var rec, rec' := s.users[id], out.store.users[id];
                 && SameAccount(rec, rec') && rec'.kycLevel == rec.kycLevel
                 && rec'.pendingReview == target && rec'.submittedAt == Some(now)
                 && MovedUnderReview(rec.documents, rec'.documents, Papers(target.value))
  {
    if id in s.users && target.Some? {
      PapersRequired(target.value);
      PresentableIff(s.users[id].documents, target.value);
    }
  }

  lemma PresentableIff(docs: Documents, target: Level)
    ensures (exists k :: k in Required(target) && !Submittable(docs, k)) <==> !AllPresentable(docs, Papers(target))
  {
    PapersRequired(target);
    var papers := Papers(target);
    if !AllPresentable(docs, papers) {
      var i :| 0 <= i < |papers| && !Presentable(docs, papers[i]);
      assert papers[i] in Required(target) && !Submittable(docs, papers[i]);
    }
  }

  /** An approval verifies the document, keeps its content and clears the reason of an earlier rejection. */
  lemma ApprovalStored(s: Store, id: string, key: Option<DocKey>, now: string)
    ensures var out := Next(s, Approve(id, key, now));
            if key.None? then RefusedWith(s, out, UnknownDocumentKey)
            else if id !in s.users then RefusedWith(s, out, UserNotFound)
            else if s.users[id].pendingReview.None? then RefusedWith(s, out, NoPendingReview)
            else if key.value !in s.users[id].documents then RefusedWith(s, out, DocumentNotUploaded)
            else
              && out.error.None? && OnlyTouches(s, out.store, id)
              && var rec, rec' := s.users[id], out.store.users[id];
                 && SameAccount(rec, rec') && rec'.kycLevel == rec.kycLevel
                 && rec'.pendingReview == rec.pendingReview && rec'.submittedAt == rec.submittedAt
                 && OtherDocumentsKept(rec.documents, rec'.documents, key.value)
                 && var doc := rec'.documents[key.value];
                    && doc.status == Verified && doc.content == rec.documents[key.value].content
                    && doc.reviewedAt == Some(now) && doc.rejectReason == None
  {
  }

  /** A rejection marks the document with its reason and ends the review. */
  lemma RejectionStored(s: Store, id: string, key: Option<DocKey>, reason: string, now: string)
    ensures var out := Next(s, Reject(id, key, reason, now));
            if key.None? then RefusedWith(s, out, UnknownDocumentKey)
            else if reason == "" then RefusedWith(s, out, InvalidData)
            else if id !in s.users then RefusedWith(s, out, UserNotFound)
            else if s.users[id].pendingReview.None? then RefusedWith(s, out, NoPendingReview)
            else if key.value !in s.users[id].documents then RefusedWith(s, out, DocumentNotUploaded)
            else
              && out.error.None? && OnlyTouches(s, out.store, id)
              && var rec, rec' := s.users[id], out.store.users[id];
                 && SameAccount(rec, rec') && rec'.kycLevel == rec.kycLevel
                 && rec'.pendingReview == None && rec'.submittedAt == None
                 && OtherDocumentsKept(rec.documents, rec'.documents, key.value)
                 && var doc := rec'.documents[key.value];
                    && doc.status == Rejected && doc.content == rec.documents[key.value].content
                    && doc.reviewedAt == Some(now) && doc.rejectReason == Some(reason)
  {
  }

  predicate AllVerified(docs: Documents, keys: seq<DocKey>) {
    forall i :: 0 <= i < |keys| ==> keys[i] in docs && docs[keys[i]].status == Verified
  }

  lemma VerifiedIff(docs: Documents, target: Level)
    ensures (exists k :: k in Required(target) && !IsVerified(docs, k)) <==> !AllVerified(docs, Papers(target))
  {
    PapersRequired(target);
    var papers := Papers(target);
    if !AllVerified(docs, papers) {
      var i :| 0 <= i < |papers| && !(papers[i] in docs && docs[papers[i]].status == Verified);
      assert papers[i] in Required(target) && !IsVerified(docs, papers[i]);
    }
  }

  /** A promotion goes through exactly when a review is pending and its papers are verified, and grants that level. */
  lemma PromotionStored(s: Store, id: string)
    ensures var out := Next(s, Promote(id));
            if id !in s.users then RefusedWith(s, out, UserNotFound)
            else if s.users[id].pendingReview.None? then RefusedWith(s, out, NoPendingReview)
            else if !AllVerified(s.users[id].documents, Papers(s.users[id].pendingReview.value)) then
              RefusedWith(s, out, NotAllVerified)
            else
              && out.error.None? && OnlyTouches(s, out.store, id)
              && var rec, rec' := s.users[id], out.store.users[id];
                 && SameAccount(rec, rec') && rec'.documents == rec.documents
                 && Some(rec'.kycLevel) == rec.pendingReview
                 && rec'.pendingReview == None && rec'.submittedAt == None
  {
    if id in s.users && s.users[id].pendingReview.Some? {
      VerifiedIff(s.users[id].documents, s.users[id].pendingReview.value);
    }
  }

  // ---------- KYC, from level to level ----------

  type Files = DocKey -> Content

  function UploadSteps(id: string, papers: seq<DocKey>, file: Files): (r: seq<Step>)
    ensures |r| == |papers|
  {
    seq(|papers|, i requires 0 <= i < |papers| => Upload(id, Some(papers[i]), file(papers[i])))
  }

  function ApprovalSteps(id: string, papers: seq<DocKey>, now: string): (r: seq<Step>)
    ensures |r| == |papers|
  {
    seq(|papers|, i requires 0 <= i < |papers| => Approve(id, Some(papers[i]), now))
  }

  /** Upload the level's papers, submit, have each approved, be promoted. */
  function Stage(id: string, target: Level, file: Files, now: string): seq<Step> {
    UploadSteps(id, Papers(target), file) + [SubmitReview(id, Some(target), now)]
    + ApprovalSteps(id, Papers(target), now) + [Promote(id)]
  }

  /** The first `n` papers are there with the file's content and this status. */
  ghost predicate Filed(docs: Documents, papers: seq<DocKey>, file: Files, n: nat, status: DocStatus) {
    n <= |papers| && forall i :: 0 <= i < n ==>
      papers[i] in docs && docs[papers[i]].content == file(papers[i]) && docs[papers[i]].status == status
  }

  /** Every file has data, a name and a type. */
  ghost predicate Complete(file: Files) {
    forall k: DocKey :: file(k).data != "" && file(k).filename != "" && file(k).contentType != ""
  }

  /** No review is pending, and the first `n` papers are uploaded. */
  ghost predicate Filing(s: Store, id: string, level: Level, papers: seq<DocKey>, file: Files, n: nat) {
    && id in s.users && s.users[id].pendingReview == None && s.users[id].kycLevel == level
    && Filed(s.users[id].documents, papers, file, n, Uploaded)
  }

  lemma UploadOne(s: Store, id: string, level: Level, papers: seq<DocKey>, file: Files, n: nat)
    requires n < |papers| && Filing(s, id, level, papers, file, n) && Complete(file)
    ensures Filing(Next(s, Upload(id, Some(papers[n]), file(papers[n]))).store, id, level, papers, file, n + 1)
  {
    UploadStored(s, id, Some(papers[n]), file(papers[n]));
  }

  lemma RunNext(steps: seq<Step>, step: Step)
    ensures Run(steps + [step]) == Next(Run(steps), step).store
  {
    assert (steps + [step])[..|steps|] == steps;
  }

  lemma OneMore(steps: seq<Step>, more: seq<Step>, n: nat)
    requires 0 < n <= |more|
    ensures steps + more[..n] == steps + more[..n - 1] + [more[n - 1]]
  {
  }

  lemma UploadNext(steps: seq<Step>, id: string, level: Level, papers: seq<DocKey>, file: Files, n: nat)
    requires n < |papers| && Filing(Run(steps), id, level, papers, file, n) && Complete(file)
    ensures Filing(Run(steps + [Upload(id, Some(papers[n]), file(papers[n]))]), id, level, papers, file, n + 1)
  {
    RunNext(steps, Upload(id, Some(papers[n]), file(papers[n])));
    UploadOne(Run(steps), id, level, papers, file, n);
  }

  lemma {:induction false} UploadAll(steps: seq<Step>, id: string, level: Level, papers: seq<DocKey>, file: Files,
                                     n: nat)
    requires n <= |papers| && Complete(file) && Filing(Run(steps), id, level, papers, file, 0)
    ensures Filing(Run(steps + UploadSteps(id, papers, file)[..n]), id, level, papers, file, n)
  {
    var uploads := UploadSteps(id, papers, file);
    if n == 0 {
      assert steps + uploads[..0] == steps;
    } else {
      UploadAll(steps, id, level, papers, file, n - 1);
      UploadNext(steps + uploads[..n - 1], id, level, papers, file, n - 1);
      OneMore(steps, uploads, n);
    }
  }

  /** Under review for `target`, all papers filed, the first `n` of them verified. */
  ghost predicate Reviewing(rec: UserRecord, level: Level, target: Level, papers: seq<DocKey>, file: Files, n: nat) {
    && rec.kycLevel == level && rec.pendingReview == Some(target) && n <= |papers|
    && (forall i :: 0 <= i < |papers| ==>
          papers[i] in rec.documents && rec.documents[papers[i]].content == file(papers[i]))
    && forall i :: 0 <= i < n ==> rec.documents[papers[i]].status == Verified
  }

  ghost predicate Reviewed(s: Store, id: string, level: Level, target: Level, papers: seq<DocKey>, file: Files, n: nat)
  {
    id in s.users && Reviewing(s.users[id], level, target, papers, file, n)
  }

  lemma ApproveOne(s: Store, id: string, level: Level, target: Level, papers: seq<DocKey>, file: Files, n: nat,
                   now: string)
    requires n < |papers| && Reviewed(s, id, level, target, papers, file, n)
    ensures Reviewed(Next(s, Approve(id, Some(papers[n]), now)).store, id, level, target, papers, file, n + 1)
  {
    ApprovalStored(s, id, Some(papers[n]), now);
  }

  lemma ApproveNext(steps: seq<Step>, id: string, level: Level, target: Level, papers: seq<DocKey>, file: Files,
                    now: string, n: nat)
    requires n < |papers| && Reviewed(Run(steps), id, level, target, papers, file, n)
    ensures Reviewed(Run(steps + [Approve(id, Some(papers[n]), now)]), id, level, target, papers, file, n + 1)
  {
    RunNext(steps, Approve(id, Some(papers[n]), now));
    ApproveOne(Run(steps), id, level, target, papers, file, n, now);
  }

  lemma {:induction false} ApproveAll(steps: seq<Step>, id: string, level: Level, target: Level, papers: seq<DocKey>,
                                      file: Files, now: string, n: nat)
    requires n <= |papers| && Reviewed(Run(steps), id, level, target, papers, file, 0)
    ensures Reviewed(Run(steps + ApprovalSteps(id, papers, now)[..n]), id, level, target, papers, file, n)
  {
    var approvals := ApprovalSteps(id, papers, now);
    if n == 0 {
      assert steps + approvals[..0] == steps;
    } else {
      ApproveAll(steps, id, level, target, papers, file, now, n - 1);
      OneMore(steps, approvals, n);
      var before := steps + approvals[..n - 1];
      ApproveNext(before, id, level, target, papers, file, now, n - 1);
      assert approvals[n - 1] == Approve(id, Some(papers[n - 1]), now);
    }
  }

  lemma SubmitFiled(s: Store, id: string, level: Level, target: Level, file: Files, now: string)
    requires NextLevel(level, target) && Filing(s, id, level, Papers(target), file, |Papers(target)|)
    ensures Reviewed(Next(s, SubmitReview(id, Some(target), now)).store, id, level, target, Papers(target), file, 0)
  {
    SubmissionStored(s, id, Some(target), now);
  }

  /** At the target level, with these papers verified. */
  ghost predicate Reached(s: Store, id: string, target: Level, file: Files) {
    && id in s.users && s.users[id].kycLevel == target && s.users[id].pendingReview == None
    && Filed(s.users[id].documents, Papers(target), file, |Papers(target)|, Verified)
  }

  lemma PromoteReviewed(s: Store, id: string, level: Level, target: Level, file: Files)
    requires Reviewed(s, id, level, target, Papers(target), file, |Papers(target)|)
    ensures Reached(Next(s, Promote(id)).store, id, target, file)
  {
    PromotionStored(s, id);
  }

  lemma FileAndSubmit(steps: seq<Step>, id: string, level: Level, target: Level, file: Files, now: string)
    requires Complete(file) && NextLevel(level, target) && Filing(Run(steps), id, level, Papers(target), file, 0)
    ensures Reviewed(Run(steps + UploadSteps(id, Papers(target), file) + [SubmitReview(id, Some(target), now)]),
                     id, level, target, Papers(target), file, 0)
  {
    var uploads := UploadSteps(id, Papers(target), file);
    UploadAll(steps, id, level, Papers(target), file, |uploads|);
    assert uploads[..|uploads|] == uploads;
    RunNext(steps + uploads, SubmitReview(id, Some(target), now));
    SubmitFiled(Run(steps + uploads), id, level, target, file, now);
  }

  lemma ApproveAndPromote(steps: seq<Step>, id: string, level: Level, target: Level, file: Files, now: string)
    requires Reviewed(Run(steps), id, level, target, Papers(target), file, 0)
    ensures Reached(Run(steps + ApprovalSteps(id, Papers(target), now) + [Promote(id)]), id, target, file)
  {
    var approvals := ApprovalSteps(id, Papers(target), now);
    ApproveAll(steps, id, level, target, Papers(target), file, now, |approvals|);
    assert approvals[..|approvals|] == approvals;
    RunNext(steps + approvals, Promote(id));
    PromoteReviewed(Run(steps + approvals), id, level, target, file);
  }

  /**
   * The workflow leads somewhere: from any reachable store, a user without a pending review who uploads the papers of
   * the next level, submits them, has each approved and is promoted stands at that level, with those files verified.
   */
  lemma StageReaches(steps: seq<Step>, id: string, target: Level, file: Files, now: string)
    requires Complete(file)
    requires var users := Run(steps).users;
             id in users && users[id].pendingReview == None && NextLevel(users[id].kycLevel, target)
    ensures Reached(Run(steps + Stage(id, target, file, now)), id, target, file)
  {
    var papers, level := Papers(target), Run(steps).users[id].kycLevel;
    var submitted := steps + UploadSteps(id, papers, file) + [SubmitReview(id, Some(target), now)];
    FileAndSubmit(steps, id, level, target, file, now);
    ApproveAndPromote(submitted, id, level, target, file, now);
    assert steps + Stage(id, target, file, now) == submitted + ApprovalSteps(id, papers, now) + [Promote(id)];
  }

  /** So every newcomer can climb all three levels: ID and selfie, then an address, then the origin of funds. */
  lemma ClimbsToTop(steps: seq<Step>, id: string, file: Files, now: string)
    requires Complete(file)
    requires var users := Run(steps).users;
             id in users && users[id].pendingReview == None && users[id].kycLevel == L0
    ensures var one := steps + Stage(id, L1, file, now);
            var two := one + Stage(id, L2, file, now);
            var three := two + Stage(id, L3, file, now);
            && id in Run(one).users && Run(one).users[id].kycLevel == L1
            && id in Run(two).users && Run(two).users[id].kycLevel == L2
            && id in Run(three).users && Run(three).users[id].kycLevel == L3
  {
    var one := steps + Stage(id, L1, file, now);
    var two := one + Stage(id, L2, file, now);
    StageReaches(steps, id, L1, file, now);
    StageReaches(one, id, L2, file, now);
    StageReaches(two, id, L3, file, now);
  }
}
