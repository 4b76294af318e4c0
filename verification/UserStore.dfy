/** The in-memory user store and the KYC handlers over it, each call proved to be one step. */
module UserStore {
  import opened UserLaws
  import opened UserRuns
  import opened Users
  import opened Wrappers

  class InMemoryUserStore {
    var users: map<string, UserRecord>
    var byUsername: map<string, string>
    var byEmail: map<string, string>
    /** Every call so far. */
    ghost var history: seq<Step>

    function View(): Store
      reads this
    {
      Store(users, byUsername, byEmail)
    }

    /** The maps hold what the history of calls leads to. */
    ghost predicate Valid()
      reads this
    {
      View() == Run(history)
    }

    constructor ()
      ensures Valid() && View() == EMPTY && history == []
    {
      users, byUsername, byEmail, history := map[], map[], map[], [];
    }

    /** Entering a call in the history; the call then leads where the history does. */
    ghost method Log(step: Step)
      modifies this`history
      ensures history == old(history) + [step] && Run(history) == Next(Run(old(history)), step).store
      ensures var s := Run(old(history));
              CleanRun(history) <==> CleanRun(old(history)) && FreshCreate(s, step) && !Torn(s, step)
      ensures (CleanRun(history) ==> IndexesExact(Run(history))) && ReviewsOk(Run(history))
    {
      RunSnoc(history, step);
      history := history + [step];
      if CleanRun(history) { RunKeepsIndexes(history); }
      RunKeepsReviews(history);
    }

    /** The record with what its history guarantees. */
    method GetUserById(userId: string) returns (r: Option<UserRecord>)
      requires Valid()
      ensures r == if userId in users then Some(users[userId]) else None
      ensures FreshRun(history) && r.Some? ==>
        && ReviewOk(r.value) && r.value.kycLevel.Index() == Promotions(history, userId)
        && AllApproved(history, userId, r.value.documents)
    {
      if FreshRun(history) && userId in users { RecordSound(history, userId); }
      r := if userId in users then Some(users[userId]) else None;
    }

    /** The index answers what a search through all records would. */
    method GetUserByUsername(username: string) returns (r: Option<UserRecord>)
      requires Valid()
      ensures r == LookupUsername(View(), username)
      ensures r.Some? <==> username in byUsername && byUsername[username] != "" && byUsername[username] in users
      ensures r.Some? ==> r.value == users[byUsername[username]]
      ensures CleanRun(history) ==>
        match r
        case Some(rec) =>
          && rec.username == username
          && forall id :: id in users ==> (users[id].username == username <==> users[id] == rec)
        case None => forall id :: id in users ==> users[id].username != username
    {
      if CleanRun(history) { LookupIsLinearSearch(history, username); }
      if username in byUsername {
        var userId := byUsername[username];
        if userId != "" && userId in users {
          return Some(users[userId]);
        }
      }
      r := None;
    }

    method CreateUser(userId: string, username: string, displayName: string, email: Option<string>,
                      country: Option<string>, now: string) returns (error: Option<UserError>)
      requires Valid()
      modifies this
      ensures var step := Step.CreateUser(userId, username, displayName, email, country, now);
              Valid() && history == old(history) + [step]
              && Outcome(View(), error) == Next(old(View()), step)
      ensures CleanRun(old(history)) ==>
        && (error.Some? <==> exists id :: id in old(users) && Claims(old(users)[id], username, email))
        && (CleanRun(history) <==> userId != "" && userId !in old(users))
      ensures CleanRun(history) ==> IndexesExact(View())
      ensures error.None? ==>
        users == old(users)[userId := UserRecord(userId, username, displayName, email, false, None, country, L0, None,
                                                 Some(now), map[], None, None)]
    {
      ghost var step := Step.CreateUser(userId, username, displayName, email, country, now);
      if CleanRun(history) { CreateRefusedIff(history, step); }
      Log(step);
      if username in byUsername {
        return Some(UsernameTaken);
      }
      if Indexed(email) && email.value in byEmail {
        return Some(EmailTaken);
      }
      users := users[userId := UserRecord(userId, username, displayName, email, false, None, country, L0, None,
                                          Some(now), map[], None, None)];
      byUsername := byUsername[username := userId];
      if Indexed(email) {
        byEmail := byEmail[email.value := userId];
      }
      error := None;
    }

    method TouchLastActive(userId: string, now: string) returns (error: Option<UserError>)
      requires Valid()
      modifies this
      ensures var step := Step.TouchLastActive(userId, now);
              Valid() && history == old(history) + [step]
              && Outcome(View(), error) == Next(old(View()), step)
      ensures CleanRun(old(history)) ==> CleanRun(history)
      ensures error.None? <==> userId in old(users)
      ensures error.None? ==> users == old(users)[userId := old(users)[userId].(lastActive := Some(now))]
    {
      Log(Step.TouchLastActive(userId, now));
      if userId !in users {
        return Some(UserNotFound);
      }
      users := users[userId := users[userId].(lastActive := Some(now))];
      error := None;
    }

    /** The record is rebuilt field by field; the KYC fields must be among them. */
    method SetBanned(userId: string, banned: bool) returns (error: Option<UserError>)
      requires Valid()
      modifies this
      ensures var step := Step.SetBanned(userId, banned);
              Valid() && history == old(history) + [step]
              && Outcome(View(), error) == Next(old(View()), step)
      ensures CleanRun(old(history)) ==> CleanRun(history)
      ensures error.None? <==> userId in old(users)
      ensures error.None? ==> users == old(users)[userId := old(users)[userId].(banned := banned)]
    {
      Log(Step.SetBanned(userId, banned));
      if userId !in users {
        return Some(UserNotFound);
      }
      var rec := users[userId];
      users := users[userId := UserRecord(rec.userId, rec.username, rec.displayName, rec.email, banned, rec.deletedAt,
                                          rec.country, rec.kycLevel, rec.lastActive, rec.createdAt,
                                          rec.documents, rec.pendingReview, rec.submittedAt)];
      error := None;
    }

    method SoftDeleteUser(userId: string, now: string) returns (error: Option<UserError>)
      requires Valid()
      modifies this
      ensures var step := SoftDelete(userId, now);
              Valid() && history == old(history) + [step]
              && Outcome(View(), error) == Next(old(View()), step)
      ensures CleanRun(old(history)) ==> CleanRun(history)
      ensures error.None? <==> userId in old(users)
      ensures error.None? ==> users == old(users)[userId := old(users)[userId].(deletedAt := Some(now))]
    {
      Log(SoftDelete(userId, now));
      if userId !in users {
        return Some(UserNotFound);
      }
      var rec := users[userId];
      users := users[userId := UserRecord(rec.userId, rec.username, rec.displayName, rec.email, rec.banned, Some(now),
                                          rec.country, rec.kycLevel, rec.lastActive, rec.createdAt,
                                          rec.documents, rec.pendingReview, rec.submittedAt)];
      error := None;
    }

    method RestoreUser(userId: string) returns (error: Option<UserError>)
      requires Valid()
      modifies this
      ensures var step := Restore(userId);
              Valid() && history == old(history) + [step]
              && Outcome(View(), error) == Next(old(View()), step)
      ensures CleanRun(old(history)) ==> CleanRun(history)
      ensures error.None? <==> userId in old(users)
      ensures error.None? ==> users == old(users)[userId := old(users)[userId].(deletedAt := None)]
    {
      Log(Restore(userId));
      if userId !in users {
        return Some(UserNotFound);
      }
      var rec := users[userId];
      users := users[userId := UserRecord(rec.userId, rec.username, rec.displayName, rec.email, rec.banned, None,
                                          rec.country, rec.kycLevel, rec.lastActive, rec.createdAt,
                                          rec.documents, rec.pendingReview, rec.submittedAt)];
      error := None;
    }

    /** A refused update of a clean store leaves it clean exactly when it leaves it unchanged. */
    method UpdateUser(userId: string, displayName: Option<string>, email: Option<string>, username: Option<string>)
      returns (error: Option<UserError>)
      requires Valid()
      modifies this
      ensures var step := Step.UpdateUser(userId, displayName, email, username);
              Valid() && history == old(history) + [step]
              && Outcome(View(), error) == Next(old(View()), step)
      ensures CleanRun(old(history)) ==> (CleanRun(history) <==> error.None? || View() == old(View()))
      ensures CleanRun(history) ==> IndexesExact(View())
      ensures error.None? ==>
        && userId in old(users)
        && var rec := old(users)[userId];
           users == old(users)[userId := rec.(username := if username.Some? then username.value else rec.username,
                                              displayName := if displayName.Some? then displayName.value
                                                             else rec.displayName,
                                              email := if email.Some? then email else rec.email)]
    {
      ghost var step := Step.UpdateUser(userId, displayName, email, username);
      if CleanRun(history) { TornIff(history, step); }
      Log(step);
      error := UpdateRecorded(userId, displayName, email, username);
    }

    /** The email index is brought up to date before the new username is checked. */
    method UpdateRecorded(userId: string, displayName: Option<string>, email: Option<string>, username: Option<string>)
      returns (error: Option<UserError>)
      modifies this`users, this`byUsername, this`byEmail
      ensures Outcome(View(), error) == Next(old(View()), Step.UpdateUser(userId, displayName, email, username))
      ensures error.None? ==>
        && userId in old(users)
        && var rec := old(users)[userId];
           users == old(users)[userId := rec.(username := if username.Some? then username.value else rec.username,
                                              displayName := if displayName.Some? then displayName.value
                                                             else rec.displayName,
                                              email := if email.Some? then email else rec.email)]
    {
      if userId !in users {
        return Some(UserNotFound);
      }
      var rec := users[userId];
      var newEmail := if email.None? then rec.email else email;
      if email.Some? && email != rec.email {
        if Indexed(email) && email.value in byEmail {
          return Some(EmailTaken);
        }
        if Indexed(rec.email) && rec.email.value in byEmail {
          byEmail := byEmail - {rec.email.value};
        }
        if Indexed(email) {
          byEmail := byEmail[email.value := userId];
        }
      }
      var newUsername := if username.None? then rec.username else username.value;
      if username.Some? && username.value != rec.username {
        if username.value in byUsername {
          return Some(UsernameTaken);
        }
        if rec.username !in byUsername {
          return Some(IndexEntryMissing);
        }
        byUsername := byUsername - {rec.username};
        byUsername := byUsername[username.value := userId];
      }
      users := users[userId := UserRecord(rec.userId, newUsername,
                                          if displayName.Some? then displayName.value else rec.displayName, newEmail,
                                          rec.banned, rec.deletedAt, rec.country, rec.kycLevel, rec.lastActive,
                                          rec.createdAt, rec.documents, rec.pendingReview, rec.submittedAt)];
      error := None;
    }

    method SetKycDocuments(userId: string, documents: Documents)
      requires userId in users
      modifies this`users
      ensures users == old(users)[userId := old(users)[userId].(documents := documents)]
    {
      users := users[userId := users[userId].(documents := documents)];
    }

    method SetKycPendingReview(userId: string, target: Option<Level>, submittedAt: Option<string>)
      requires userId in users
      modifies this`users
      ensures users == old(users)[userId := old(users)[userId].(pendingReview := target, submittedAt := submittedAt)]
    {
      users := users[userId := users[userId].(pendingReview := target, submittedAt := submittedAt)];
    }

    method SetKycLevel(userId: string, level: Level)
      requires userId in users
      modifies this`users
      ensures users == old(users)[userId := old(users)[userId].(kycLevel := level)]
    {
      users := users[userId := users[userId].(kycLevel := level)];
    }
  }

  /** The required keys, in whatever order the set yields them, that fail `Submittable`. */
  method MissingForSubmit(docs: Documents, required: set<DocKey>) returns (missing: set<DocKey>)
    ensures forall k :: k in missing <==> k in required && !Submittable(docs, k)
  {
    missing := {};
    var todo := required;
    while todo != {}
      invariant todo <= required
      invariant forall k :: k in missing <==> k in required - todo && !Submittable(docs, k)
      decreases todo
    {
      var k :| k in todo;
      if !Submittable(docs, k) {
        missing := missing + {k};
      }
      todo := todo - {k};
    }
  }

  method MissingForPromotion(docs: Documents, required: set<DocKey>) returns (missing: set<DocKey>)
    ensures forall k :: k in missing <==> k in required && !IsVerified(docs, k)
  {
    missing := {};
    var todo := required;
    while todo != {}
      invariant todo <= required
      invariant forall k :: k in missing <==> k in required - todo && !IsVerified(docs, k)
      decreases todo
    {
      var k :| k in todo;
      if !IsVerified(docs, k) {
        missing := missing + {k};
      }
      todo := todo - {k};
    }
  }

  /** The loop over the required keys that moves uploaded documents under review. */
  method StartReview(docs: Documents, required: set<DocKey>) returns (newDocs: Documents)
    requires forall k :: k in required ==> k in docs
    ensures newDocs == MarkPending(docs, required)
  {
    newDocs := docs;
    var todo := required;
    while todo != {}
      invariant todo <= required
      invariant newDocs == MarkPending(docs, required - todo)
      decreases todo
    {
      var k :| k in todo;
      var doc := newDocs[k];
      if doc.status == Uploaded {
        newDocs := newDocs[k := doc.(status := PendingReview)];
      }
      todo := todo - {k};
    }
    assert required - {} == required;
  }

  class KycService {
    const store: InMemoryUserStore

    constructor (store: InMemoryUserStore)
      ensures this.store == store
    {
      this.store := store;
    }

    method UploadDocument(userId: string, key: Option<DocKey>, content: Content) returns (error: Option<UserError>)
      requires store.Valid()
      modifies store
      ensures var step := Upload(userId, key, content);
              store.Valid() && store.history == old(store.history) + [step]
              && Outcome(store.View(), error) == Next(old(store.View()), step)
      ensures (CleanRun(old(store.history)) ==> CleanRun(store.history)) && ReviewsOk(store.View())
      ensures error.None? <==>
        && userId in old(store.users) && old(store.users)[userId].pendingReview == None && key.Some?
        && content.data != "" && content.filename != "" && content.contentType != ""
      ensures error.None? ==>
        var rec := old(store.users)[userId];
        var doc := Document(Uploaded, content, None, None);
        store.users == old(store.users)[userId := rec.(documents := rec.documents[key.value := doc])]
    {
      store.Log(Upload(userId, key, content));
      if userId !in store.users {
        return Some(UserNotFound);
      }
      var user := store.users[userId];
      if user.pendingReview.Some? {
        return Some(ReviewInProgress);
      }
      if key.None? {
        return Some(UnknownDocumentKey);
      }
      if content.data == "" || content.filename == "" || content.contentType == "" {
        return Some(InvalidData);
      }
      store.SetKycDocuments(userId, user.documents[key.value := Document(Uploaded, content, None, None)]);
      error := None;
    }

    method SubmitForReview(userId: string, target: Option<Level>, now: string) returns (error: Option<UserError>)
      requires store.Valid()
      modifies store
      ensures var step := SubmitReview(userId, target, now);
              store.Valid() && store.history == old(store.history) + [step]
              && Outcome(store.View(), error) == Next(old(store.View()), step)
      ensures (CleanRun(old(store.history)) ==> CleanRun(store.history)) && ReviewsOk(store.View())
      ensures error.None? ==>
        && target.Some? && userId in old(store.users) && userId in store.users
        && var rec, rec' := old(store.users)[userId], store.users[userId];
           && NextLevel(rec.kycLevel, target.value) && AllPresentable(rec.documents, Papers(target.value))
           && rec' == rec.(documents := rec'.documents, pendingReview := target, submittedAt := Some(now))
           && MovedUnderReview(rec.documents, rec'.documents, Papers(target.value))
           && store.users == old(store.users)[userId := rec']
    {
      SubmissionStored(store.View(), userId, target, now);
      store.Log(SubmitReview(userId, target, now));
      error := SubmitRecorded(userId, target, now);
    }

    method SubmitRecorded(userId: string, target: Option<Level>, now: string) returns (error: Option<UserError>)
      modifies store`users
      ensures Outcome(store.View(), error) == Next(old(store.View()), SubmitReview(userId, target, now))
    {
      if userId !in store.users {
        return Some(UserNotFound);
      }
      var user := store.users[userId];
      if user.pendingReview.Some? {
        return Some(ReviewInProgress);
      }
      if target.None? || target == Some(L0) {
        return Some(InvalidReviewTarget);
      }
      if target.value.Index() != user.kycLevel.Index() + 1 {
        return Some(LevelSkipNotAllowed);
      }
      var required := Required(target.value);
      var missing := MissingForSubmit(user.documents, required);
      if missing != {} {
        var k :| k in missing;
        return Some(MissingDocuments);
      }
      assert forall k :: k in required ==> Submittable(user.documents, k);
      var newDocs := StartReview(user.documents, required);
      store.SetKycDocuments(userId, newDocs);
      store.SetKycPendingReview(userId, target, Some(now));
      error := None;
    }

    method ApproveDocument(userId: string, key: Option<DocKey>, now: string) returns (error: Option<UserError>)
      requires store.Valid()
      modifies store
      ensures var step := Approve(userId, key, now);
              store.Valid() && store.history == old(store.history) + [step]
              && Outcome(store.View(), error) == Next(old(store.View()), step)
      ensures (CleanRun(old(store.history)) ==> CleanRun(store.history)) && ReviewsOk(store.View())
      ensures error.None? <==>
        && key.Some? && userId in old(store.users) && old(store.users)[userId].pendingReview.Some?
        && key.value in old(store.users)[userId].documents
      ensures error.None? ==>
        var rec := old(store.users)[userId];
        var doc := rec.documents[key.value].(status := Verified, reviewedAt := Some(now), rejectReason := None);
        store.users == old(store.users)[userId := rec.(documents := rec.documents[key.value := doc])]
    {
      store.Log(Approve(userId, key, now));
      if key.None? {
        return Some(UnknownDocumentKey);
      }
      if userId !in store.users {
        return Some(UserNotFound);
      }
      var user := store.users[userId];
      if user.pendingReview.None? {
        return Some(NoPendingReview);
      }
      if key.value !in user.documents {
        return Some(DocumentNotUploaded);
      }
      var doc := user.documents[key.value].(status := Verified, reviewedAt := Some(now), rejectReason := None);
      store.SetKycDocuments(userId, user.documents[key.value := doc]);
      error := None;
    }

    method RejectDocument(userId: string, key: Option<DocKey>, reason: string, now: string)
      returns (error: Option<UserError>)
      requires store.Valid()
      modifies store
      ensures var step := Reject(userId, key, reason, now);
              store.Valid() && store.history == old(store.history) + [step]
              && Outcome(store.View(), error) == Next(old(store.View()), step)
      ensures (CleanRun(old(store.history)) ==> CleanRun(store.history)) && ReviewsOk(store.View())
      ensures error.None? <==>
        && key.Some? && reason != "" && userId in old(store.users) && old(store.users)[userId].pendingReview.Some?
        && key.value in old(store.users)[userId].documents
      ensures error.None? ==>
        var rec := old(store.users)[userId];
        var doc := rec.documents[key.value].(status := Rejected, reviewedAt := Some(now), rejectReason := Some(reason));
        store.users == old(store.users)[userId := rec.(documents := rec.documents[key.value := doc],
                                                       pendingReview := None, submittedAt := None)]
    {
      store.Log(Reject(userId, key, reason, now));
      error := RejectRecorded(userId, key, reason, now);
    }

    method RejectRecorded(userId: string, key: Option<DocKey>, reason: string, now: string)
      returns (error: Option<UserError>)
      modifies store`users
      ensures Outcome(store.View(), error) == Next(old(store.View()), Reject(userId, key, reason, now))
      ensures error.None? <==>
        && key.Some? && reason != "" && userId in old(store.users) && old(store.users)[userId].pendingReview.Some?
        && key.value in old(store.users)[userId].documents
      ensures error.None? ==>
        var rec := old(store.users)[userId];
        var doc := rec.documents[key.value].(status := Rejected, reviewedAt := Some(now), rejectReason := Some(reason));
        store.users == old(store.users)[userId := rec.(documents := rec.documents[key.value := doc],
                                                       pendingReview := None, submittedAt := None)]
    {
      if key.None? {
        return Some(UnknownDocumentKey);
      }
      if reason == "" {
        return Some(InvalidData);
      }
      if userId !in store.users {
        return Some(UserNotFound);
      }
      var user := store.users[userId];
      if user.pendingReview.None? {
        return Some(NoPendingReview);
      }
      if key.value !in user.documents {
        return Some(DocumentNotUploaded);
      }
      var doc := user.documents[key.value].(status := Rejected, reviewedAt := Some(now), rejectReason := Some(reason));
      store.SetKycDocuments(userId, user.documents[key.value := doc]);
      store.SetKycPendingReview(userId, None, None);
      error := None;
    }

    /** A promotion is earned: one level, on documents an approval saw as they are. */
    method PromoteLevel(userId: string) returns (error: Option<UserError>)
      requires store.Valid()
      modifies store
      ensures var step := Promote(userId);
              store.Valid() && store.history == old(store.history) + [step]
              && Outcome(store.View(), error) == Next(old(store.View()), step)
      ensures (CleanRun(old(store.history)) ==> CleanRun(store.history)) && ReviewsOk(store.View())
      ensures error.None? <==>
        && userId in old(store.users) && old(store.users)[userId].pendingReview.Some?
        && var rec := old(store.users)[userId]; AllVerified(rec.documents, Papers(rec.pendingReview.value))
      ensures error.None? ==>
        var rec := old(store.users)[userId];
        store.users == old(store.users)[userId := rec.(kycLevel := rec.pendingReview.value, pendingReview := None,
                                                       submittedAt := None)]
      ensures error.None? && FreshRun(old(store.history)) ==>
        EarnedPromotion(old(store.history), userId, old(store.View()), store.View())
    {
      ghost var past := store.history;
      store.Log(Promote(userId));
      error := PromoteRecorded(userId);
      if error.None? && FreshRun(past) { PromotionEarned(past, userId); }
    }

    method PromoteRecorded(userId: string) returns (error: Option<UserError>)
      modifies store`users
      ensures Outcome(store.View(), error) == Next(old(store.View()), Promote(userId))
      ensures error.None? <==>
        && userId in old(store.users) && old(store.users)[userId].pendingReview.Some?
        && var rec := old(store.users)[userId]; AllVerified(rec.documents, Papers(rec.pendingReview.value))
      ensures error.None? ==>
        var rec := old(store.users)[userId];
        store.users == old(store.users)[userId := rec.(kycLevel := rec.pendingReview.value, pendingReview := None,
                                                       submittedAt := None)]
    {
      PromotionStored(store.View(), userId);
      if userId !in store.users {
        return Some(UserNotFound);
      }
      var user := store.users[userId];
      if user.pendingReview.None? {
        return Some(NoPendingReview);
      }
      var missing := MissingForPromotion(user.documents, Required(user.pendingReview.value));
      if missing != {} {
        var k :| k in missing;
        return Some(NotAllVerified);
      }
      store.SetKycLevel(userId, user.pendingReview.value);
      store.SetKycPendingReview(userId, None, None);
      error := None;
    }
  }
}
