/** The `/link` command: a requester names a Geometry Dash user; the handler
    checks the name, looks the account up on the game server, records the
    (Discord id, account id) pair in `linked_users`, and answers with exactly
    one reply. Every collaborator (the HTTP lookup, the JSON decoder, the
    database, the owner query, role sync, the user cache and the user fetch,
    the delivery of the reply) is an input outcome, gathered in Collaborators. */
module LinkCommand {
  import opened Primitives
  import opened LinkStore

  const MAX_USERNAME_LEN: nat := 16
  const NOT_FOUND: int := 404

  /** An HTTP status code as reqwest represents it. */
  type StatusCode = s: int | 100 <= s <= 999 witness 200

  predicate IsSuccess(status: StatusCode)
  {
    200 <= status <= 299
  }

  /** The decoded body of a successful lookup. */
  datatype UserLookupResponse = UserLookupResponse(accountId: I32, name: string)

  /** What sending the lookup request gives: a transport error, or a response
      with its status, its body text (None when reading it fails) and what the
      JSON decoder makes of that text (None when it is not a lookup record). */
  datatype LookupOutcome =
    | SendFailed
    | Responded(status: StatusCode, body: Option<string>, decoded: Option<UserLookupResponse>)

  /** The answer of the owner query for an account id. */
  datatype OwnerQuery = OwnerQueryFailed | OwnerQueryOk(owner: Option<U64>)

  /** The outcomes the handler's collaborators produce for one request. */
  datatype Collaborators = Collaborators(
    lookup: LookupOutcome,
    insertFault: InsertFault,
    syncOk: bool,
    owner: OwnerQuery,
    cachedName: Option<string>,
    fetchedName: Option<string>,
    replyDelivered: bool)

  /** The reply kinds, one per terminal state. */
  datatype Reply =
    | InvalidUsername
    | RequestFailed
    | NotFound
    | UnexpectedServerError
    | UnparsableData
    | Linked(user: I64, name: string, account: I32)
    | LinkedSyncWarning(user: I64, name: string, account: I32)
    | ConflictOther(ident: string)
    | ConflictSelf
    | UnknownDatabaseError

  /** The cause carried by the handler's error result. */
  datatype Cause =
    | LookupSend
    | LookupStatus(code: StatusCode, message: string)
    | LookupParse(json: string)
    | OwnerQueryError
    | DatabaseErr
    | DatabaseConnection
    | ReplySend

  datatype CommandResult = Ok | Err(cause: Cause)

  /** The calls the handler makes on its collaborators, in order. */
  datatype Effect =
    | Lookup(username: string)
    | Insert(row: Row)
    | SyncRoles
    | QueryOwner(account: I32)
    | SendReply(reply: Reply)

  /** One run of the handler: its calls, the table afterwards, the reply it
      sent and the result it returned. */
  datatype Run = Run(effects: seq<Effect>, rows: set<Row>, reply: Reply, result: CommandResult)

  predicate IsAscii(s: string)
  {
    forall i :: 0 <= i < |s| ==> s[i] < 128 as char
  }

  /** The username check. On an ASCII string the byte length Rust measures
      equals the number of characters. */
  predicate ValidUsername(username: string)
  {
    IsAscii(username) && |username| <= MAX_USERNAME_LEN
  }

  /** Each reply is sent with `ctx.reply(..).await?`: when it cannot be
      delivered the handler returns that error instead of its own result. */
  function Delivered(result: CommandResult, delivered: bool): (r: CommandResult)
    ensures r.Ok? ==> result.Ok?
  {
    if delivered then result else Err(ReplySend)
  }

  /** Ends a run by sending `reply` after the calls in `before`. */
  function Finish(before: seq<Effect>, rows: set<Row>, reply: Reply, result: CommandResult, delivered: bool): Run
  {
    Run(before + [SendReply(reply)], rows, reply, Delivered(result, delivered))
  }

  /** The lookup stage either hands an account on or ends the request. */
  datatype LookupStep =
    | Proceed(user: UserLookupResponse)
    | Abort(reply: Reply, result: CommandResult)

  /** Classification of the lookup outcome. Only a readable, decoded body
      under a success status lets the request go on; a 404 ends it without an
      error; every other failure ends it with an error that keeps the
      diagnostics (the status and body, or the undecodable text). An unreadable
      body under a success status is decoded as the empty text, which is never
      a JSON record, so it is unparsable data. */
  function ClassifyLookup(o: LookupOutcome): (step: LookupStep)
    ensures step.Proceed? <==> o.Responded? && IsSuccess(o.status) && o.body.Some? && o.decoded.Some?
    ensures step.Proceed? ==> step.user == o.decoded.value
    ensures step.Abort? ==> (step.result.Ok? <==> o.Responded? && o.status == NOT_FOUND)
    ensures step.Abort? ==> step.reply in {RequestFailed, NotFound, UnexpectedServerError, UnparsableData}
    ensures o.SendFailed? ==> step == Abort(RequestFailed, Err(LookupSend))
  {
    match o
    case SendFailed => Abort(RequestFailed, Err(LookupSend))
    case Responded(status, body, decoded) =>
      if !IsSuccess(status) then
        if status == NOT_FOUND then Abort(NotFound, Ok)
        else
          var message := match body case Some(text) => text case None => "<no message>";
          Abort(UnexpectedServerError, Err(LookupStatus(status, message)))
      else
        match body
        case None => Abort(UnparsableData, Err(LookupParse("")))
        case Some(text) =>
          match decoded
          case Some(user) => Proceed(user)
          case None => Abort(UnparsableData, Err(LookupParse(text)))
  }

  /** How the other linked user is shown: `@` and their name when the cache
      knows them, else `@` and their name when fetching them succeeds, else
      their id in decimal. The fetch is not consulted on a cache hit. */
  function DisplayIdent(linkedId: U64, cachedName: Option<string>, fetchedName: Option<string>): (ident: string)
    ensures |ident| > 0
    ensures ident[0] == '@' <==> cachedName.Some? || fetchedName.Some?
    ensures cachedName.Some? ==> ident[1..] == cachedName.value
    ensures cachedName.None? && fetchedName.Some? ==> ident[1..] == fetchedName.value
    ensures cachedName.None? && fetchedName.None? ==> AllDigits(ident) && DecimalValue(ident) == linkedId
  {
    match cachedName
    case Some(name) => "@" + name
    case None =>
      match fetchedName
      case Some(name) => "@" + name
      case None => DecimalRoundTrip(linkedId); Decimal(linkedId)
  }

  /** The identity string as the handler builds it: start empty, push `@` and
      the cached name, and only if that left it empty try the fetch, pushing
      `@` and the fetched name or replacing it by the id. */
  method BuildIdent(linkedId: U64, cachedName: Option<string>, fetchedName: Option<string>) returns (ident: string)
    ensures ident == DisplayIdent(linkedId, cachedName, fetchedName)
    ensures |ident| > 0
  {
    ident := "";
    if cachedName.Some? {
      ident := ident + ['@'];
      ident := ident + cachedName.value;
    }
    if |ident| == 0 {
      if fetchedName.Some? {
        ident := ident + ['@'];
        ident := ident + fetchedName.value;
      } else {
        ident := Decimal(linkedId);
      }
    }
  }

  /** The conflict branch, after the owner query answered: another owner is
      named, otherwise the requester is told they are already linked. */
  function ConflictReply(requester: U64, owner: Option<U64>, env: Collaborators): Reply
  {
    match owner
    case Some(o) =>
      if o != requester then ConflictOther(DisplayIdent(o, env.cachedName, env.fetchedName))
      else ConflictSelf
    case None => ConflictSelf
  }

  /** Where a path through the handler ends, before its reply is sent: the
      calls made so far, the table, the reply chosen and the path's own result. */
  datatype Decision = Decision(calls: seq<Effect>, rows: set<Row>, reply: Reply, result: CommandResult)

  /** The handler's decision tree for `requester` asking to link `username`,
      against a table holding `rows`. No path sends a reply before its end,
      and every path other than a successful insert leaves the table as it was. */
  function Decide(rows: set<Row>, requester: U64, username: string, env: Collaborators): (d: Decision)
    ensures forall i :: 0 <= i < |d.calls| ==> !d.calls[i].SendReply?
    ensures !(d.reply.Linked? || d.reply.LinkedSyncWarning?) ==> d.rows == rows
  {
    if !ValidUsername(username) then
      Decision([], rows, InvalidUsername, Ok)
    else
      match ClassifyLookup(env.lookup)
      case Abort(reply, result) =>
        Decision([Lookup(username)], rows, reply, result)
      case Proceed(found) =>
        var user := AsI64(requester);
        var inserted := [Lookup(username), Insert(Row(user, found.accountId))];
        var rows' := RowsAfterInsert(rows, user, found.accountId, env.insertFault);
        match InsertResultOf(rows, user, found.accountId, env.insertFault)
        case Inserted =>
          var reply := if env.syncOk then Linked(user, found.name, found.accountId)
                       else LinkedSyncWarning(user, found.name, found.accountId);
          Decision(inserted + [SyncRoles], rows', reply, Ok)
        case UniqueViolation =>
          var queried := inserted + [QueryOwner(found.accountId)];
          (match env.owner
           case OwnerQueryFailed => Decision(queried, rows', UnknownDatabaseError, Err(OwnerQueryError))
           case OwnerQueryOk(owner) => Decision(queried, rows', ConflictReply(requester, owner, env), Ok))
        case DatabaseError =>
          Decision(inserted, rows', UnknownDatabaseError, Err(DatabaseErr))
        case ConnectionError =>
          Decision(inserted, rows', UnknownDatabaseError, Err(DatabaseConnection))
  }

  /** One run of the handler: the decision, then its one reply. */
  function Handle(rows: set<Row>, requester: U64, username: string, env: Collaborators): Run
  {
    var d := Decide(rows, requester, username, env);
    Finish(d.calls, d.rows, d.reply, d.result, env.replyDelivered)
  }

  /** The handler itself, step by step against a live table. */
  method Link(store: Store, requester: U64, username: string, env: Collaborators)
    returns (effects: seq<Effect>, reply: Reply, result: CommandResult)
    requires store.Valid()
    modifies store
    ensures store.Valid()
    ensures Run(effects, store.rows, reply, result) == Handle(old(store.rows), requester, username, env)
  {
    if !ValidUsername(username) {
      effects, reply, result := [SendReply(InvalidUsername)], InvalidUsername, Delivered(Ok, env.replyDelivered);
      return;
    }

    effects := [Lookup(username)];
    var step := ClassifyLookup(env.lookup);
    if step.Abort? {
      effects, reply, result := effects + [SendReply(step.reply)], step.reply, Delivered(step.result, env.replyDelivered);
      return;
    }
    var found := step.user;

    var user := AsI64(requester);
    effects := effects + [Insert(Row(user, found.accountId))];
    var inserted := store.Insert(user, found.accountId, env.insertFault);

    var status := Ok;
    match inserted {
      case Inserted =>
        effects := effects + [SyncRoles];
        if env.syncOk {
          reply := Linked(user, found.name, found.accountId);
        } else {
          reply := LinkedSyncWarning(user, found.name, found.accountId);
        }
      case UniqueViolation =>
        effects := effects + [QueryOwner(found.accountId)];
        match env.owner {
          case OwnerQueryFailed =>
            reply, status := UnknownDatabaseError, Err(OwnerQueryError);
          case OwnerQueryOk(owner) =>
            if owner.Some? && owner.value != requester {
              var ident := BuildIdent(owner.value, env.cachedName, env.fetchedName);
              reply := ConflictOther(ident);
            } else {
              reply := ConflictSelf;
            }
        }
      case DatabaseError =>
        reply, status := UnknownDatabaseError, Err(DatabaseErr);
      case ConnectionError =>
        reply, status := UnknownDatabaseError, Err(DatabaseConnection);
    }
    effects := effects + [SendReply(reply)];
    result := Delivered(status, env.replyDelivered);
  }
}
