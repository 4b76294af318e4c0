/** What runs of the user store keep: exact indexes, ordered levels, and approved documents. */
module UserRuns {
  import opened Users
  import opened Wrappers

  // ---------- The indexes ----------

  type UserMap = map<string, UserRecord>

  ghost predicate IdsExact(users: UserMap) { forall id :: id in users ==> id != "" && users[id].userId == id }

  ghost predicate UsernamesExact(users: UserMap, byUsername: map<string, string>) {
    && (forall id :: id in users ==> users[id].username in byUsername && byUsername[users[id].username] == id)
    && (forall name :: name in byUsername ==> byUsername[name] in users && users[byUsername[name]].username == name)
  }

  ghost predicate EmailsExact(users: UserMap, byEmail: map<string, string>) {
    && (forall id :: id in users && Indexed(users[id].email) ==>
          users[id].email.value in byEmail && byEmail[users[id].email.value] == id)
    && (forall e :: e in byEmail ==> e != "" && byEmail[e] in users && users[byEmail[e]].email == Some(e))
  }

  /** The username index is the exact inverse of the user map, the email index that of its non-empty emails. */
  ghost predicate IndexesExact(s: Store) {
    IdsExact(s.users) && UsernamesExact(s.users, s.byUsername) && EmailsExact(s.users, s.byEmail)
  }

  /** New users get ids nobody has. */
  predicate FreshCreate(s: Store, step: Step) {
    step.CreateUser? ==> step.userId != "" && step.userId !in s.users
  }

  /** An update whose email change is indexed before its username is found to be taken. */
  predicate Torn(s: Store, step: Step) {
    && step.UpdateUser? && step.userId in s.users
    && var rec := s.users[step.userId];
       && step.newEmail.Some? && step.newEmail != rec.email
       && (Indexed(step.newEmail) || Indexed(rec.email))
       && (Indexed(step.newEmail) ==> step.newEmail.value !in s.byEmail)
       && step.newUsername.Some? && step.newUsername.value != rec.username && step.newUsername.value in s.byUsername
  }

  /** What a successful update did. */
  lemma UpdateShape(s: Store, step: Step)
    requires step.UpdateUser? && Next(s, step).error.None?
    ensures step.userId in s.users
    ensures var rec, s' := s.users[step.userId], Next(s, step).store;
            && step.userId in s'.users
            && var rec' := s'.users[step.userId];
               && s'.users == s.users[step.userId := rec'] && rec'.userId == rec.userId
               && rec'.email == (if step.newEmail.Some? then step.newEmail else rec.email)
               && rec'.username == (if step.newUsername.Some? then step.newUsername.value else rec.username)
               && (if rec'.email == rec.email then s'.byEmail == s.byEmail
                   else (Indexed(rec'.email) ==> rec'.email.value !in s.byEmail)
                        && s'.byEmail == ReindexEmail(s.byEmail, step.userId, rec.email, rec'.email))
               && (if rec'.username == rec.username then s'.byUsername == s.byUsername
                   else rec'.username !in s.byUsername
                        && s'.byUsername == (s.byUsername - {rec.username})[rec'.username := step.userId])
  {
  }

  lemma ReindexedEmailsExact(users: UserMap, byEmail: map<string, string>, id: string, rec': UserRecord)
    requires EmailsExact(users, byEmail) && id in users
    requires Indexed(rec'.email) ==> rec'.email.value !in byEmail
    ensures EmailsExact(users[id := rec'], ReindexEmail(byEmail, id, users[id].email, rec'.email))
  {
  }

  lemma ReindexedUsernamesExact(users: UserMap, byUsername: map<string, string>, id: string, rec': UserRecord)
    requires UsernamesExact(users, byUsername) && id in users && rec'.username !in byUsername
    ensures UsernamesExact(users[id := rec'], (byUsername - {users[id].username})[rec'.username := id])
  {
  }

  lemma UpdateKeepsIndexes(s: Store, step: Step)
    requires IndexesExact(s) && step.UpdateUser? && Next(s, step).error.None?
    ensures IndexesExact(Next(s, step).store)
  {
    UpdateShape(s, step);
    var id, s' := step.userId, Next(s, step).store;
    var rec, rec' := s.users[id], s'.users[id];
    if rec'.email != rec.email { ReindexedEmailsExact(s.users, s.byEmail, id, rec'); }
    if rec'.username != rec.username { ReindexedUsernamesExact(s.users, s.byUsername, id, rec'); }
    assert EmailsExact(s'.users, s'.byEmail);
    assert UsernamesExact(s'.users, s'.byUsername);
  }

  lemma CreatedUsernamesExact(users: UserMap, byUsername: map<string, string>, rec: UserRecord)
    requires UsernamesExact(users, byUsername) && rec.userId !in users && rec.username !in byUsername
    ensures UsernamesExact(users[rec.userId := rec], byUsername[rec.username := rec.userId])
  {
  }

  lemma CreatedEmailsExact(users: UserMap, byEmail: map<string, string>, rec: UserRecord)
    requires EmailsExact(users, byEmail) && rec.userId !in users && (Indexed(rec.email) ==> rec.email.value !in byEmail)
    ensures EmailsExact(users[rec.userId := rec],
                        if Indexed(rec.email) then byEmail[rec.email.value := rec.userId] else byEmail)
  {
  }

  lemma CreateKeepsIndexes(s: Store, step: Step)
    requires IndexesExact(s) && step.CreateUser? && FreshCreate(s, step)
    ensures IndexesExact(Next(s, step).store)
  {
    if Next(s, step).error.None? {
      var rec := NewRecord(step.userId, step.username, step.displayName, step.email, step.country, step.now);
      CreatedUsernamesExact(s.users, s.byUsername, rec);
      CreatedEmailsExact(s.users, s.byEmail, rec);
    }
  }

  /** Creating and updating users leaves the KYC fields of those who are there alone. */
  lemma AccountStep(s: Store, step: Step, id: string)
    requires (step.CreateUser? || step.UpdateUser?) && FreshCreate(s, step) && id in s.users
    ensures var s' := Next(s, step).store;
            && id in s'.users
            && s'.users[id].kycLevel == s.users[id].kycLevel
            && s'.users[id].documents == s.users[id].documents
            && s'.users[id].pendingReview == s.users[id].pendingReview
  {
  }

  /** Steps other than create and update rewrite one record, or none. */
  lemma ChangeStep(s: Store, step: Step)
    requires !step.CreateUser? && !step.UpdateUser?
    ensures var out := Next(s, step);
            && (out.error.Some? ==> out.store == s)
            && (out.error.None? ==>
                  && step.userId in s.users && Change(s.users[step.userId], step).Ok?
                  && out.store == Put(s, step.userId, Change(s.users[step.userId], step).value))
  {
  }

  lemma ChangeKeepsNames(rec: UserRecord, step: Step)
    requires Change(rec, step).Ok?
    ensures var rec' := Change(rec, step).value;
            rec'.userId == rec.userId && rec'.username == rec.username && rec'.email == rec.email
  {
  }

  /** Such steps leave names and emails alone. */
  lemma ChangeStepKeepsIndexes(s: Store, step: Step)
    requires IndexesExact(s) && !step.CreateUser? && !step.UpdateUser?
    ensures IndexesExact(Next(s, step).store)
  {
    ChangeStep(s, step);
    if Next(s, step).error.None? { ChangeKeepsNames(s.users[step.userId], step); }
  }

  lemma StepKeepsIndexes(s: Store, step: Step)
    requires IndexesExact(s) && FreshCreate(s, step) && !Torn(s, step)
    ensures IndexesExact(Next(s, step).store)
  {
    if step.CreateUser? {
      CreateKeepsIndexes(s, step);
    } else if step.UpdateUser? {
      if Next(s, step).error.None? { UpdateKeepsIndexes(s, step); } else { RefusedUnchangedIff(s, step); }
    } else {
      ChangeStepKeepsIndexes(s, step);
    }
  }

  /** A refused call leaves the store as it was, unless it is a torn update; and a torn update never does. */
  lemma RefusedUnchangedIff(s: Store, step: Step)
    requires IndexesExact(s) && Next(s, step).error.Some?
    ensures Next(s, step).store == s <==> !Torn(s, step)
  {
    if step.UpdateUser? && step.userId in s.users {
      UpdateRefusedIff(s, step);
    }
  }

  lemma UpdateRefusedIff(s: Store, step: Step)
    requires IndexesExact(s) && step.UpdateUser? && step.userId in s.users && Next(s, step).error.Some?
    ensures Next(s, step).store == s <==> !Torn(s, step)
  {
    var rec := s.users[step.userId];
    var email := step.newEmail;
    assert rec.username in s.byUsername;
    if email.Some? && email != rec.email && !(Indexed(email) && email.value in s.byEmail) {
      var after := ReindexEmail(s.byEmail, step.userId, rec.email, email);
      assert Next(s, step).store == s.(byEmail := after);
      if Indexed(email) {
        assert email.value in after && email.value !in s.byEmail;
      } else if Indexed(rec.email) {
        assert rec.email.value in s.byEmail && rec.email.value !in after;
      } else {
        assert after == s.byEmail;
      }
    }
  }

  /** A torn update breaks the email index: the condition above cannot be dropped. */
  lemma TornBreaksIndexes(s: Store, step: Step)
    requires IndexesExact(s) && Torn(s, step)
    ensures Next(s, step).error == Some(UsernameTaken) && !IndexesExact(Next(s, step).store)
  {
    var rec, s' := s.users[step.userId], Next(s, step).store;
    var after := ReindexEmail(s.byEmail, step.userId, rec.email, step.newEmail);
    assert s' == s.(byEmail := after);
    if Indexed(step.newEmail) {
      assert after[step.newEmail.value] == step.userId;
    } else {
      assert rec.email.value !in after;
    }
  }

  /** Ids are fresh and no update is torn. */
  predicate CleanRun(steps: seq<Step>) {
    steps == [] || (
      && CleanRun(steps[..|steps| - 1])
      && FreshCreate(Run(steps[..|steps| - 1]), steps[|steps| - 1])
      && !Torn(Run(steps[..|steps| - 1]), steps[|steps| - 1]))
  }

  lemma RunSnoc(steps: seq<Step>, step: Step)
    ensures Run(steps + [step]) == Next(Run(steps), step).store
    ensures CleanRun(steps + [step]) <==> CleanRun(steps) && FreshCreate(Run(steps), step) && !Torn(Run(steps), step)
    ensures FreshRun(steps + [step]) <==> FreshRun(steps) && FreshCreate(Run(steps), step)
  {
    assert (steps + [step])[..|steps|] == steps;
  }

  /** After every such run, refused calls included, both indexes are exact. */
  lemma {:induction false} RunKeepsIndexes(steps: seq<Step>)
    requires CleanRun(steps)
    ensures IndexesExact(Run(steps))
  {
    if steps != [] {
      RunKeepsIndexes(steps[..|steps| - 1]);
      StepKeepsIndexes(Run(steps[..|steps| - 1]), steps[|steps| - 1]);
    }
  }

  /** Looking a name up in the index is the linear search over the records, and at most one record can match. */
  lemma LookupIsLinearSearch(steps: seq<Step>, username: string)
    requires CleanRun(steps)
    ensures var s := Run(steps);
            match LookupUsername(s, username)
            case Some(rec) =>
              && rec.userId in s.users && s.users[rec.userId] == rec && rec.username == username
              && forall id :: id in s.users && s.users[id].username == username ==> id == rec.userId
            case None => forall id :: id in s.users ==> s.users[id].username != username
  {
    RunKeepsIndexes(steps);
  }

  /** A record that stands in the way of a new name and email. */
  predicate Claims(rec: UserRecord, username: string, email: Option<string>) {
    rec.username == username || (Indexed(email) && rec.email == email)
  }

  /** A registration is refused exactly when some record has the name, or the email if there is one. */
  lemma CreateRefusedIff(steps: seq<Step>, step: Step)
    requires CleanRun(steps) && step.CreateUser?
    ensures var users := Run(steps).users;
            Next(Run(steps), step).error.Some? <==>
              exists id :: id in users && Claims(users[id], step.username, step.email)
  {
    var s := Run(steps);
    RunKeepsIndexes(steps);
    if step.username in s.byUsername {
      assert Claims(s.users[s.byUsername[step.username]], step.username, step.email);
    } else if Indexed(step.email) && step.email.value in s.byEmail {
      assert Claims(s.users[s.byEmail[step.email.value]], step.username, step.email);
    }
  }

  /** After a clean run the torn updates are the refused ones that leave a change. */
  lemma TornIff(steps: seq<Step>, step: Step)
    requires CleanRun(steps) && step.UpdateUser?
    ensures Torn(Run(steps), step) <==> Next(Run(steps), step).error.Some? && Next(Run(steps), step).store != Run(steps)
  {
    RunKeepsIndexes(steps);
    if Torn(Run(steps), step) { TornBreaksIndexes(Run(steps), step); }
    if Next(Run(steps), step).error.Some? { RefusedUnchangedIff(Run(steps), step); }
  }

  lemma ChangeNeverMisses(rec: UserRecord, step: Step)
    ensures Change(rec, step) != Err(IndexEntryMissing)
  {
  }

  lemma StepNeverMisses(s: Store, step: Step)
    requires IndexesExact(s)
    ensures Next(s, step).error != Some(IndexEntryMissing)
  {
    if step.UpdateUser? && step.userId in s.users {
      assert s.users[step.userId].username in s.byUsername;
    } else if !step.CreateUser? && step.userId in s.users {
      ChangeNeverMisses(s.users[step.userId], step);
    }
  }

  /** Deleting the old index entry of a renamed user never misses. */
  lemma IndexDeletesNeverMiss(steps: seq<Step>, step: Step)
    requires CleanRun(steps)
    ensures Next(Run(steps), step).error != Some(IndexEntryMissing)
  {
    RunKeepsIndexes(steps);
    StepNeverMisses(Run(steps), step);
  }

  // ---------- KYC levels ----------

  /** Only ids nobody has are given to new users. */
  predicate FreshRun(steps: seq<Step>) {
    steps == [] || (FreshRun(steps[..|steps| - 1]) && FreshCreate(Run(steps[..|steps| - 1]), steps[|steps| - 1]))
  }

  ghost predicate UnderReview(docs: Documents, k: DocKey) {
    k in docs && docs[k].status in {PendingReview, Verified}
  }

  /** A pending target is the next level, and its required documents are all under review or verified. */
  ghost predicate ReviewOk(rec: UserRecord) {
    rec.pendingReview.Some? ==>
      && rec.pendingReview.value.Index() == rec.kycLevel.Index() + 1
      && forall k :: k in Required(rec.pendingReview.value) ==> UnderReview(rec.documents, k)
  }

  ghost predicate ReviewsOk(s: Store) { forall id :: id in s.users ==> ReviewOk(s.users[id]) }

  lemma SubmitKeepsReview(rec: UserRecord, target: Option<Level>, now: string)
    requires SubmitRecord(rec, target, now).Ok?
    ensures ReviewOk(SubmitRecord(rec, target, now).value)
  {
    var rec' := SubmitRecord(rec, target, now).value;
    forall k | k in Required(target.value) ensures UnderReview(rec'.documents, k) {
      assert Submittable(rec.documents, k);
    }
  }

  lemma ChangeKeepsReview(rec: UserRecord, step: Step)
    requires ReviewOk(rec) && Change(rec, step).Ok?
    ensures ReviewOk(Change(rec, step).value)
  {
    if step.SubmitReview? { SubmitKeepsReview(rec, step.target, step.now); }
  }

  lemma AccountKeepsReview(s: Store, step: Step, id: string)
    requires ReviewsOk(s) && (step.CreateUser? || step.UpdateUser?) && id in Next(s, step).store.users
    ensures ReviewOk(Next(s, step).store.users[id])
  {
    if id in s.users { assert ReviewOk(s.users[id]); }
  }

  lemma StepKeepsReviews(s: Store, step: Step)
    requires ReviewsOk(s)
    ensures ReviewsOk(Next(s, step).store)
  {
    var s' := Next(s, step).store;
    if step.CreateUser? || step.UpdateUser? {
      forall id | id in s'.users ensures ReviewOk(s'.users[id]) { AccountKeepsReview(s, step, id); }
    } else {
      ChangeStep(s, step);
      if Next(s, step).error.None? { ChangeKeepsReview(s.users[step.userId], step); }
    }
  }

  /** In every reachable store a pending review is for the next level, with its documents in order. */
  lemma {:induction false} RunKeepsReviews(steps: seq<Step>)
    ensures ReviewsOk(Run(steps))
  {
    if steps != [] {
      RunKeepsReviews(steps[..|steps| - 1]);
      StepKeepsReviews(Run(steps[..|steps| - 1]), steps[|steps| - 1]);
    }
  }

  predicate Promotes(s: Store, step: Step, id: string) {
    step == Promote(id) && Next(s, step).error.None?
  }

  /**
   * A level moves only by a successful promotion, by one step, and with every document the new level requires
   * verified at that moment.
   */
  lemma LevelMovesOnlyByPromotion(s: Store, step: Step, id: string)
    requires ReviewsOk(s) && id in s.users && FreshCreate(s, step)
    ensures var s' := Next(s, step).store;
            && id in s'.users
            && if Promotes(s, step, id)
               then s'.users[id].kycLevel.Index() == s.users[id].kycLevel.Index() + 1
                    && forall k :: k in Required(s'.users[id].kycLevel) ==> IsVerified(s.users[id].documents, k)
               else s'.users[id].kycLevel == s.users[id].kycLevel
  {
    var rec := s.users[id];
    assert ReviewOk(rec);
    if !step.CreateUser? && !step.UpdateUser? {
      ChangeStep(s, step);
      if step.userId == id && Next(s, step).error.None? { LevelChange(rec, step); }
    } else {
      AccountStep(s, step, id);
    }
  }

  lemma LevelChange(rec: UserRecord, step: Step)
    requires ReviewOk(rec) && Change(rec, step).Ok?
    ensures var rec' := Change(rec, step).value;
            if step.Promote?
            then rec'.kycLevel.Index() == rec.kycLevel.Index() + 1
                 && forall k :: k in Required(rec'.kycLevel) ==> IsVerified(rec.documents, k)
            else rec'.kycLevel == rec.kycLevel
  {
  }

  function Promotions(steps: seq<Step>, id: string): nat {
    if steps == [] then 0
    else
      Promotions(steps[..|steps| - 1], id)
      + if Promotes(Run(steps[..|steps| - 1]), steps[|steps| - 1], id) then 1 else 0
  }

  /** The level counts the promotions, so a run promotes a user three times at most. */
  lemma {:induction false} LevelCountsPromotions(steps: seq<Step>, id: string)
    requires FreshRun(steps)
    ensures Promotions(steps, id) == if id in Run(steps).users then Run(steps).users[id].kycLevel.Index() else 0
    ensures Promotions(steps, id) <= 3
  {
    if steps != [] {
      var front, last := steps[..|steps| - 1], steps[|steps| - 1];
      LevelCountsPromotions(front, id);
      RunKeepsReviews(front);
      if id in Run(front).users {
        LevelMovesOnlyByPromotion(Run(front), last, id);
      } else {
        NewUserStartsAtZero(Run(front), last, id);
      }
    }
  }

  lemma NewUserStartsAtZero(s: Store, step: Step, id: string)
    requires id !in s.users
    ensures !Promotes(s, step, id)
    ensures id in Next(s, step).store.users ==>
      Next(s, step).store.users[id].kycLevel == L0 && Next(s, step).store.users[id].documents == map[]
  {
  }

  // ---------- Verified content ----------

  predicate Holds(s: Store, id: string, key: DocKey) { id in s.users && key in s.users[id].documents }

  predicate Approves(s: Store, step: Step, id: string, key: DocKey) {
    step.Approve? && step.userId == id && step.key == Some(key) && Next(s, step).error.None?
  }

  predicate Uploads(s: Store, step: Step, id: string, key: DocKey) {
    step.Upload? && step.userId == id && step.key == Some(key) && Next(s, step).error.None?
  }

  /** A document verified after a step was there before with this content, and was approved now or verified before. */
  lemma VerifiedBefore(s: Store, step: Step, id: string, key: DocKey)
    requires FreshCreate(s, step)
    requires var s' := Next(s, step).store; Holds(s', id, key) && s'.users[id].documents[key].status == Verified
    ensures Holds(s, id, key)
    ensures Next(s, step).store.users[id].documents[key].content == s.users[id].documents[key].content
    ensures !Uploads(s, step, id, key)
    ensures Approves(s, step, id, key) || s.users[id].documents[key].status == Verified
  {
    if id !in s.users {
      NewUserStartsAtZero(s, step, id);
    } else if !step.CreateUser? && !step.UpdateUser? {
      ChangeStep(s, step);
      if step.userId == id && Next(s, step).error.None? { VerifiedChange(s.users[id], step, key); }
    } else {
      AccountStep(s, step, id);
    }
  }

  lemma VerifiedChange(rec: UserRecord, step: Step, key: DocKey)
    requires Change(rec, step).Ok? && IsVerified(Change(rec, step).value.documents, key)
    ensures key in rec.documents
    ensures Change(rec, step).value.documents[key].content == rec.documents[key].content
    ensures !(step.Upload? && step.key == Some(key))
    ensures (step.Approve? && step.key == Some(key)) || rec.documents[key].status == Verified
  {
  }

  /** `at` is an approval of this content, with no later upload of the document. */
  ghost predicate ApprovedAt(steps: seq<Step>, id: string, key: DocKey, content: Content, at: nat) {
    && at < |steps|
    && Approves(Run(steps[..at]), steps[at], id, key)
    && Holds(Run(steps[..at]), id, key) && Run(steps[..at]).users[id].documents[key].content == content
    && forall j :: at < j < |steps| ==> !Uploads(Run(steps[..j]), steps[j], id, key)
  }

  /** Verified content is always what an approval saw: nothing was uploaded under that key since. */
  lemma {:induction false} VerifiedContentWasApproved(steps: seq<Step>, id: string, key: DocKey) returns (at: nat)
    requires FreshRun(steps)
    requires Holds(Run(steps), id, key) && Run(steps).users[id].documents[key].status == Verified
    ensures ApprovedAt(steps, id, key, Run(steps).users[id].documents[key].content, at)
  {
    var n := |steps| - 1;
    var front, last := steps[..n], steps[n];
    VerifiedBefore(Run(front), last, id, key);
    if Approves(Run(front), last, id, key) {
      at := n;
    } else {
      at := VerifiedContentWasApproved(front, id, key);
      ApprovedAtExtends(steps, id, key, Run(front).users[id].documents[key].content, at);
    }
  }

  lemma ApprovedAtExtends(steps: seq<Step>, id: string, key: DocKey, content: Content, at: nat)
    requires steps != [] && ApprovedAt(steps[..|steps| - 1], id, key, content, at)
    requires !Uploads(Run(steps[..|steps| - 1]), steps[|steps| - 1], id, key)
    ensures ApprovedAt(steps, id, key, content, at)
  {
    var n := |steps| - 1;
    var front := steps[..n];
    assert front[..at] == steps[..at] && front[at] == steps[at];
    forall j | at < j < |steps| ensures !Uploads(Run(steps[..j]), steps[j], id, key) {
      if j < n { assert front[..j] == steps[..j] && front[j] == steps[j]; }
    }
  }

  /** Everything verified in a record was approved with the content it has. */
  ghost predicate AllApproved(steps: seq<Step>, id: string, docs: Documents) {
    forall key :: IsVerified(docs, key) ==> exists at: nat :: ApprovedAt(steps, id, key, docs[key].content, at)
  }

  /** What the history says of one record: review in order, level counted, verified content approved. */
  lemma RecordSound(steps: seq<Step>, id: string)
    requires FreshRun(steps) && id in Run(steps).users
    ensures var rec := Run(steps).users[id];
            ReviewOk(rec) && rec.kycLevel.Index() == Promotions(steps, id) && AllApproved(steps, id, rec.documents)
  {
    var docs := Run(steps).users[id].documents;
    RunKeepsReviews(steps);
    LevelCountsPromotions(steps, id);
    forall key | IsVerified(docs, key) ensures exists at: nat :: ApprovedAt(steps, id, key, docs[key].content, at) {
      var at := VerifiedContentWasApproved(steps, id, key);
    }
  }

  /** One level up, on documents that were all verified, and approved with the content they have. */
  ghost predicate EarnedPromotion(steps: seq<Step>, id: string, before: Store, after: Store) {
    && id in before.users && id in after.users
    && var rec, rec' := before.users[id], after.users[id];
       && rec'.kycLevel.Index() == rec.kycLevel.Index() + 1
       && (forall key :: key in Required(rec'.kycLevel) ==> IsVerified(rec.documents, key))
       && AllApproved(steps, id, rec.documents)
  }

  lemma PromotionEarned(steps: seq<Step>, id: string)
    requires FreshRun(steps) && Next(Run(steps), Promote(id)).error.None?
    ensures EarnedPromotion(steps, id, Run(steps), Next(Run(steps), Promote(id)).store)
  {
    RunKeepsReviews(steps);
    LevelMovesOnlyByPromotion(Run(steps), Promote(id), id);
    RecordSound(steps, id);
  }

  // ---------- A reachable torn update ----------

  function TwoUsers(): seq<Step> {
    [CreateUser("u1", "ann", "Ann", Some("ann@example.org"), None, "t1"),
     CreateUser("u2", "bob", "Bob", Some("bob@example.org"), None, "t2")]
  }

  /** A new email together with a username that is taken. */
  function RenameToAnn(): Step { UpdateUser("u2", None, Some("new@example.org"), Some("ann")) }

  lemma TwoUsersStore()
    ensures CleanRun(TwoUsers())
    ensures var s := Run(TwoUsers());
            && s.byUsername == map["ann" := "u1", "bob" := "u2"]
            && s.byEmail == map["ann@example.org" := "u1", "bob@example.org" := "u2"]
            && "u2" in s.users && s.users["u2"].username == "bob" && s.users["u2"].email == Some("bob@example.org")
  {
    var ann, bob := TwoUsers()[0], TwoUsers()[1];
    assert "u1"[1] != "u2"[1] && "ann"[0] != "bob"[0];
    assert "ann@example.org"[0] != "bob@example.org"[0];
    RunSnoc([], ann);
    assert [] + [ann] == [ann];
    RunSnoc([ann], bob);
    assert [ann] + [bob] == TwoUsers();
  }

  /** After a clean run of two registrations one refused call breaks the email index. */
  lemma TornIsReachable()
    ensures CleanRun(TwoUsers()) && Torn(Run(TwoUsers()), RenameToAnn())
    ensures !IndexesExact(Run(TwoUsers() + [RenameToAnn()]))
  {
    var s := Run(TwoUsers());
    TwoUsersStore();
    RunKeepsIndexes(TwoUsers());
    RunSnoc(TwoUsers(), RenameToAnn());
    assert "new@example.org"[0] != "ann@example.org"[0] && "new@example.org"[0] != "bob@example.org"[0];
    assert "ann"[0] != "bob"[0];
    TornBreaksIndexes(s, RenameToAnn());
  }
}
