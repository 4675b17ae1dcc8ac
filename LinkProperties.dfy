/** What the `/link` handler guarantees, stated over Handle for every table
    and every combination of collaborator outcomes. */
module LinkProperties {
  import opened Primitives
  import opened LinkStore
  import opened LinkCommand

  /** The number of replies among `effects`. */
  function ReplyCount(effects: seq<Effect>): nat
  {
    if effects == [] then 0
    else ReplyCount(effects[..|effects| - 1]) + (if effects[|effects| - 1].SendReply? then 1 else 0)
  }

  /** Counting replies distributes over concatenation. */
  lemma {:induction false} ReplyCountAppend(before: seq<Effect>, after: seq<Effect>)
    ensures ReplyCount(before + after) == ReplyCount(before) + ReplyCount(after)
    decreases |after|
  {
    if after == [] {
      assert before + after == before;
    } else {
      var last := |after| - 1;
      assert (before + after)[..|before + after| - 1] == before + after[..last];
      ReplyCountAppend(before, after[..last]);
    }
  }

  /** Every path through the handler sends exactly one reply, as its last
      call, and that reply is the one the run reports. */
  lemma ExactlyOneReply(rows: set<Row>, requester: U64, username: string, env: Collaborators)
    ensures var run := Handle(rows, requester, username, env);
      && |run.effects| > 0
      && run.effects[|run.effects| - 1] == SendReply(run.reply)
      && ReplyCount(run.effects) == 1
  {
    var d := Decide(rows, requester, username, env);
    NoReplyCountsZero(d.calls);
    ReplyCountAppend(d.calls, [SendReply(d.reply)]);
  }

  /** A trace with no reply in it counts none. */
  lemma {:induction false} NoReplyCountsZero(effects: seq<Effect>)
    requires forall i :: 0 <= i < |effects| ==> !effects[i].SendReply?
    ensures ReplyCount(effects) == 0
    decreases |effects|
  {
    if effects != [] {
      NoReplyCountsZero(effects[..|effects| - 1]);
    }
  }

  /** A malformed username is refused at once: the reply says so, the result
      is Ok, nothing is looked up and the table is untouched. */
  lemma InvalidUsernameShortCircuits(rows: set<Row>, requester: U64, username: string, env: Collaborators)
    requires !ValidUsername(username)
    ensures var run := Handle(rows, requester, username, env);
      && run.effects == [SendReply(InvalidUsername)]
      && run.reply == InvalidUsername
      && run.result == Delivered(Ok, env.replyDelivered)
      && run.rows == rows
  {
  }

  /** Each lookup failure ends the request after the lookup, before any
      write, with its own reply and result. */
  lemma LookupFailureEndsRequest(rows: set<Row>, requester: U64, username: string, env: Collaborators)
    requires ValidUsername(username)
    requires ClassifyLookup(env.lookup).Abort?
    ensures var run := Handle(rows, requester, username, env);
      && run.rows == rows
      && run.effects == [Lookup(username), SendReply(run.reply)]
      && (env.lookup.SendFailed? ==>
            run.reply == RequestFailed && run.result == Delivered(Err(LookupSend), env.replyDelivered))
      && (env.lookup.Responded? && env.lookup.status == NOT_FOUND ==>
            run.reply == NotFound && run.result == Delivered(Ok, env.replyDelivered))
      && (env.lookup.Responded? && !IsSuccess(env.lookup.status) && env.lookup.status != NOT_FOUND ==>
            run.reply == UnexpectedServerError && run.result.Err?)
      && (env.lookup.Responded? && IsSuccess(env.lookup.status) ==>
            run.reply == UnparsableData && run.result.Err?)
  {
  }

  /** Early failures never touch the store: unless the username is valid and
      the lookup produced an account, no insert is attempted and the table is
      unchanged. */
  lemma EarlyFailureNeverWrites(rows: set<Row>, requester: U64, username: string, env: Collaborators)
    requires !ValidUsername(username) || ClassifyLookup(env.lookup).Abort?
    ensures var run := Handle(rows, requester, username, env);
      && run.rows == rows
      && forall e :: e in run.effects ==> !e.Insert?
  {
  }

  /** The handler never removes a row and adds at most the requester's own. */
  lemma OnlyTheRequesterRowIsAdded(rows: set<Row>, requester: U64, username: string, env: Collaborators)
    ensures var run := Handle(rows, requester, username, env);
      && rows <= run.rows
      && forall r :: r in run.rows && r !in rows ==> r.user == AsI64(requester)
  {
  }

  /** The table's uniqueness constraints hold after every run. */
  lemma HandlePreservesUnique(rows: set<Row>, requester: U64, username: string, env: Collaborators)
    requires Unique(rows)
    ensures Unique(Handle(rows, requester, username, env).rows)
  {
  }

  /** A successful insert always answers "Linked" with the account's name and
      id, and the new row stays whether or not role sync succeeds; sync only
      picks the wording. */
  lemma SuccessfulInsertKeepsLink(rows: set<Row>, requester: U64, username: string, env: Collaborators)
    requires ValidUsername(username)
    requires ClassifyLookup(env.lookup).Proceed?
    requires var found := ClassifyLookup(env.lookup).user;
      InsertResultOf(rows, AsI64(requester), found.accountId, env.insertFault) == Inserted
    ensures var found := ClassifyLookup(env.lookup).user;
      var run := Handle(rows, requester, username, env);
      && run.rows == rows + {Row(AsI64(requester), found.accountId)}
      && SyncRoles in run.effects
      && run.reply == (if env.syncOk then Linked(AsI64(requester), found.name, found.accountId)
                       else LinkedSyncWarning(AsI64(requester), found.name, found.accountId))
      && run.result == Delivered(Ok, env.replyDelivered)
  {
  }

  /** Role sync is called exactly on the runs that added the row, that is,
      only after a successful insert. */
  lemma SyncOnlyAfterInsert(rows: set<Row>, requester: U64, username: string, env: Collaborators)
    ensures var run := Handle(rows, requester, username, env);
      SyncRoles in run.effects <==> run.rows != rows
  {
  }

  /** The owner query is made exactly when the insert hit a uniqueness
      violation. */
  lemma QueryOnlyOnConflict(rows: set<Row>, requester: U64, username: string, env: Collaborators)
    ensures var run := Handle(rows, requester, username, env);
      (exists a :: QueryOwner(a) in run.effects) <==>
        && ValidUsername(username)
        && ClassifyLookup(env.lookup).Proceed?
        && InsertResultOf(rows, AsI64(requester), ClassifyLookup(env.lookup).user.accountId, env.insertFault) == UniqueViolation
  {
    var run := Handle(rows, requester, username, env);
    if && ValidUsername(username)
       && ClassifyLookup(env.lookup).Proceed?
       && InsertResultOf(rows, AsI64(requester), ClassifyLookup(env.lookup).user.accountId, env.insertFault) == UniqueViolation
    {
      assert QueryOwner(ClassifyLookup(env.lookup).user.accountId) in run.effects;
    }
  }

  /** Role sync's outcome changes nothing but the reply's wording: the table,
      the result and the calls before the reply are the same either way. */
  lemma SyncFailureNeverUndoesLink(rows: set<Row>, requester: U64, username: string, env: Collaborators)
    ensures var ok := Handle(rows, requester, username, env.(syncOk := true));
      var failed := Handle(rows, requester, username, env.(syncOk := false));
      && ok.rows == failed.rows
      && ok.result == failed.result
      && ok.effects[..|ok.effects| - 1] == failed.effects[..|failed.effects| - 1]
      && (ok.reply.Linked? <==> failed.reply.LinkedSyncWarning?)
      && (ok.reply.Linked? ==> failed.reply == LinkedSyncWarning(ok.reply.user, ok.reply.name, ok.reply.account))
      && (!ok.reply.Linked? ==> failed.reply == ok.reply)
  {
  }

  /** A reply that cannot be delivered changes only the handler's result,
      which becomes that delivery error: the calls, the table and the reply
      attempted are the same as when it is delivered. */
  lemma LostReplyChangesOnlyResult(rows: set<Row>, requester: U64, username: string, env: Collaborators)
    ensures var sent := Handle(rows, requester, username, env.(replyDelivered := true));
      var lost := Handle(rows, requester, username, env.(replyDelivered := false));
      && lost.effects == sent.effects
      && lost.rows == sent.rows
      && lost.reply == sent.reply
      && lost.result == Err(ReplySend)
  {
  }

  /** When the insert hits a uniqueness violation and the owner query fails,
      the handler fails closed: an unknown-database-error reply and an error,
      never "Already linked", and no change to the table. */
  lemma OwnerQueryFailureFailsClosed(rows: set<Row>, requester: U64, username: string, env: Collaborators)
    requires ValidUsername(username)
    requires ClassifyLookup(env.lookup).Proceed?
    requires InsertResultOf(rows, AsI64(requester), ClassifyLookup(env.lookup).user.accountId, env.insertFault) == UniqueViolation
    requires env.owner == OwnerQueryFailed
    ensures var run := Handle(rows, requester, username, env);
      && run.reply == UnknownDatabaseError
      && run.reply != ConflictSelf
      && run.result.Err?
      && run.rows == rows
  {
  }

  /** On a uniqueness violation with an answered owner query, the reply names
      another account holder exactly when the owner exists and is not the
      requester; otherwise it is "Already linked". Either way the result is Ok
      and no row is added. */
  lemma ConflictDecidedByOwnerEquality(rows: set<Row>, requester: U64, username: string, env: Collaborators)
    requires ValidUsername(username)
    requires ClassifyLookup(env.lookup).Proceed?
    requires InsertResultOf(rows, AsI64(requester), ClassifyLookup(env.lookup).user.accountId, env.insertFault) == UniqueViolation
    requires env.owner.OwnerQueryOk?
    ensures var run := Handle(rows, requester, username, env);
      var owner := env.owner.owner;
      && (run.reply.ConflictOther? <==> owner.Some? && owner.value != requester)
      && (run.reply.ConflictOther? ==> run.reply.ident == DisplayIdent(owner.value, env.cachedName, env.fetchedName))
      && (!run.reply.ConflictOther? ==> run.reply == ConflictSelf)
      && run.result == Delivered(Ok, env.replyDelivered)
      && run.rows == rows
  {
  }

  /** Any other database failure of the insert gives the unknown-database-error
      reply and an error, and the table is unchanged. */
  lemma OtherDatabaseErrorFails(rows: set<Row>, requester: U64, username: string, env: Collaborators)
    requires ValidUsername(username)
    requires ClassifyLookup(env.lookup).Proceed?
    requires env.insertFault != NoFault
    ensures var run := Handle(rows, requester, username, env);
      && run.reply == UnknownDatabaseError
      && run.result == Delivered(Err(if env.insertFault == DatabaseFault then DatabaseErr else DatabaseConnection), env.replyDelivered)
      && run.rows == rows
  {
  }

  /** A requester who is not linked, asking for an account nobody holds, gets
      the row and a "Linked" reply. */
  lemma FreeAccountIsLinked(rows: set<Row>, requester: U64, username: string, env: Collaborators)
    requires ValidUsername(username)
    requires ClassifyLookup(env.lookup).Proceed?
    requires env.insertFault == NoFault
    requires forall r :: r in rows ==> r.user != AsI64(requester) && r.account != ClassifyLookup(env.lookup).user.accountId
    ensures var found := ClassifyLookup(env.lookup).user;
      var run := Handle(rows, requester, username, env);
      && run.rows == rows + {Row(AsI64(requester), found.accountId)}
      && (run.reply.Linked? || run.reply.LinkedSyncWarning?)
  {
    var found := ClassifyLookup(env.lookup).user;
    assert !Clashes(rows, AsI64(requester), found.accountId);
  }

  /** If another Discord user holds the account and the owner query answers
      truthfully, the requester is told who holds it (by name or raw id) and
      gets no row. */
  lemma AccountOfAnotherIsRefused(rows: set<Row>, requester: U64, other: U64, username: string, env: Collaborators)
    requires Unique(rows)
    requires ValidUsername(username)
    requires ClassifyLookup(env.lookup).Proceed?
    requires env.insertFault == NoFault
    requires other != requester
    requires Row(AsI64(other), ClassifyLookup(env.lookup).user.accountId) in rows
    requires env.owner.OwnerQueryOk?
    requires OwnerAnswers(rows, ClassifyLookup(env.lookup).user.accountId, env.owner.owner)
    ensures var run := Handle(rows, requester, username, env);
      && run.reply == ConflictOther(DisplayIdent(other, env.cachedName, env.fetchedName))
      && run.rows == rows
      && Row(AsI64(requester), ClassifyLookup(env.lookup).user.accountId) !in run.rows
  {
    var account := ClassifyLookup(env.lookup).user.accountId;
    assert Clashes(rows, AsI64(requester), account);
    var o := env.owner.owner.value;
    assert AsI64(o) == AsI64(other);
    AsI64Injective(o, other);
    if Row(AsI64(requester), account) in rows {
      AsI64Injective(requester, other);
    }
  }

  /** Linking again to the account one already holds, with a truthful owner
      query, answers "Already linked" and adds no duplicate row. */
  lemma RelinkIsIdempotent(rows: set<Row>, requester: U64, username: string, env: Collaborators)
    requires Unique(rows)
    requires ValidUsername(username)
    requires ClassifyLookup(env.lookup).Proceed?
    requires env.insertFault == NoFault
    requires Row(AsI64(requester), ClassifyLookup(env.lookup).user.accountId) in rows
    requires env.owner.OwnerQueryOk?
    requires OwnerAnswers(rows, ClassifyLookup(env.lookup).user.accountId, env.owner.owner)
    ensures var run := Handle(rows, requester, username, env);
      && run.reply == ConflictSelf
      && run.rows == rows
  {
    var account := ClassifyLookup(env.lookup).user.accountId;
    assert Clashes(rows, AsI64(requester), account);
    var o := env.owner.owner.value;
    AsI64Injective(o, requester);
  }

  /** With a truthful owner query, "Already linked" is only ever said to a
      requester who really holds a row: the conflict was either on their own
      id or on an account they own. */
  lemma AlreadyLinkedIsTruthful(rows: set<Row>, requester: U64, username: string, env: Collaborators)
    requires ClassifyLookup(env.lookup).Proceed?
    requires env.owner.OwnerQueryOk?
    requires OwnerAnswers(rows, ClassifyLookup(env.lookup).user.accountId, env.owner.owner)
    requires Handle(rows, requester, username, env).reply == ConflictSelf
    ensures exists r :: r in rows && r.user == AsI64(requester)
  {
    var account := ClassifyLookup(env.lookup).user.accountId;
    assert Clashes(rows, AsI64(requester), account);
    var r :| r in rows && (r.user == AsI64(requester) || r.account == account);
    if r.user != AsI64(requester) {
      assert Row(AsI64(requester), account) in rows;
    }
  }
}
