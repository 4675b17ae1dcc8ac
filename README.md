# `/link` command of the auto-role bot, in Dafny

The bot's `/link` slash command lets a Discord user link their Discord account
to a Geometry Dash account. The handler does the following:

1. It checks the username the user gave: ASCII, at most 16 bytes.
2. It looks the account up on the game server and sorts out the answer: a
   transport error, a 404, some other non-success status, an undecodable body,
   or an account id and name.
3. It inserts the pair `(Discord id as i64, account id)` into the
   `linked_users` table.
4. If the insert succeeds, it triggers role sync. If the insert hits a
   uniqueness violation, it asks the database who owns the account and tells
   the user either that the account belongs to someone else (named by cached
   name, fetched name or raw id) or that they are already linked.

Every path sends exactly one reply. The handler returns `Ok` or an error.

Files:

- `Primitives.dfy` holds `Option` and the `u64`, `i64` and `i32` ranges. It
  models the `u64 as i64` cast and shows that it loses nothing. It also models
  the decimal rendering of an id (`to_string`), with a parser that proves the
  rendering round-trips.
- `LinkStore.dfy` models the `linked_users` table as a class over a set of
  rows. The uniqueness constraints are its invariant. The atomic `Insert`
  method either adds the row or reports a uniqueness violation, a database
  error or a connection error.
- `LinkCommand.dfy` holds the collaborator outcomes, the reply kinds and the
  username check. It also holds:
  - the lookup classification;
  - the display identity of another account holder, both as a function and
    as the method that builds it by pushing onto a string;
  - `Decide`, the handler's decision tree as a function, and `Handle`, which
    sends its one reply and returns a `Run`: the calls made, the table
    afterwards, the reply and the result;
  - `Link`, the handler as a method against a live `Store`, proved equal to
    `Handle`.
- `LinkProperties.dfy` holds the handler's guarantees as lemmas over `Handle`.

Collaborators are inputs, gathered in `Collaborators`:

- the HTTP lookup, and what the JSON decoder makes of the body;
- faults of the insert other than the uniqueness check;
- the role sync result;
- the owner query's answer;
- the user cache;
- the user fetch;
- whether the reply could be delivered.

Where the handler's behaviour depends on the table's real contents, the
lemmas assume the owner query tells the truth, as stated by
`LinkStore.OwnerAnswers`.

Three details of the handler that the model keeps:

- A 404 from the lookup ends the request with `Ok` and no error, unlike the
  other three lookup failures.
- Every `ctx.reply(..).await?` turns a failure to deliver the reply into the
  handler's error result. The reply was still attempted, exactly once.
- The success reply mentions the requester by the `i64` form of their id.

## Model

| member | source | states |
|---|---|---|
| `Primitives.AsI64` | src/commands/link.rs:74 | The `u64 → i64` cast keeps every id below 2^63 unchanged, and reading the bits back as `u64` gives the original id. |
| `Primitives.AsU64RoundTrip` | src/commands/link.rs:74 | The other half of the bijection: every `i64` column value comes from exactly one `u64` id, so `as i64` loses nothing in either direction. |
| `Primitives.AsI64Injective` | src/commands/link.rs:74 | Two different Discord ids never share a database id. |
| `Primitives.Decimal` | src/commands/link.rs:139 | `to_string` of an id is a non-empty string of digits with no leading zero, except for the id 0. |
| `Primitives.DecimalRoundTrip` | src/commands/link.rs:139 | Reading the digits of `to_string(n)` back gives `n`. |
| `LinkStore.RowsAfterInsert` | src/commands/link.rs:76-83 | The INSERT never removes a row and adds at most the requested row. The row is present afterwards exactly when it was already there or the insert succeeded. Both uniqueness constraints are preserved. |
| `LinkStore.InsertResultOf` | src/commands/link.rs:76-83 | The insert's outcome: a database or connection fault wins; otherwise a uniqueness violation exactly when the user or the account is already in a row. The unique-constraint case is the one the handler singles out at lines 103-104; the others reach lines 153-165. Its properties are stated by `LinkStore.Store.Insert` and `LinkProperties.OtherDatabaseErrorFails`. |
| `LinkStore.OwnerAnswers` | src/commands/link.rs:106 | What it means for the owner query to tell the truth about the table: no owner when no row holds the account, otherwise the id whose row holds it. The lemmas `AccountOfAnotherIsRefused`, `RelinkIsIdempotent` and `AlreadyLinkedIsTruthful` assume it. |
| `LinkStore.Store.Insert` | src/commands/link.rs:76-83 | The insert is atomic. It succeeds exactly when there is no fault and neither the user nor the account is already in a row. On success the table gains that row; otherwise it is unchanged. The table stays unique. |
| `LinkCommand.ValidUsername` | src/commands/link.rs:17 | A username passes when it is ASCII and at most 16 characters, which on ASCII is 16 bytes. What follows from failing it is stated by `LinkProperties.InvalidUsernameShortCircuits`. |
| `LinkCommand.ClassifyLookup` | src/commands/link.rs:25-72 | The request goes on exactly when a success status comes with a body that could be read and decoded, and it carries the decoded record on. An unreadable body under a success status is unparsable data. A transport error gives the request-failed reply and an error. A 404 is the only lookup failure that returns `Ok`. Every failure picks one of the four lookup replies. |
| `LinkCommand.DisplayIdent` | src/commands/link.rs:124-141 | The other holder's identity is never empty. It starts with `@` exactly when the cache or the fetch knows them. It uses the cached name first, then the fetched name, and otherwise the decimal id, which parses back to that id. |
| `LinkCommand.BuildIdent` | src/commands/link.rs:124-141 | Building the identity step by step with pushes gives exactly `DisplayIdent`, which is non-empty. |
| `LinkCommand.ConflictReply` | src/commands/link.rs:116-151 | The reply after an answered owner query: another holder named by `DisplayIdent` when the owner exists and differs from the requester, otherwise "Already linked". Both directions are stated by `LinkProperties.ConflictDecidedByOwnerEquality`. |
| `LinkCommand.Decide` | src/commands/link.rs:17-165 | The handler's decision tree: the calls it makes, the table, the reply it picks and its own result. No path sends a reply before its end, and every path that is not a successful insert leaves the table unchanged. |
| `LinkCommand.Handle` | src/commands/link.rs:13-169 | The whole handler as one run: the decision, then its one reply, with the result replaced by the delivery error when the reply is lost. Every lemma in `LinkProperties` is a statement about it, and `LinkCommand.Link` is proved equal to it. |
| `LinkCommand.Link` | src/commands/link.rs:13-169 | The handler run against a live table makes the calls, leaves the table, sends the reply and returns the result that `Handle` prescribes. The table stays unique. |
| `LinkProperties.ExactlyOneReply` | src/commands/link.rs:17-166 | Every path sends exactly one reply, and it is the last call made. |
| `LinkProperties.InvalidUsernameShortCircuits` | src/commands/link.rs:17-20 | A non-ASCII or over-long username gets the invalid-username reply and `Ok`. Nothing is looked up and nothing is written. |
| `LinkProperties.LookupFailureEndsRequest` | src/commands/link.rs:36-72 | Each lookup failure ends the request right after the lookup and leaves the table unchanged. It gives its own reply: request-failed with an error, not-found with `Ok`, unexpected-error with an error, or unparsable with an error. |
| `LinkProperties.EarlyFailureNeverWrites` | src/commands/link.rs:17-72 | When the username or the lookup fails, no insert is attempted and the table is unchanged. |
| `LinkProperties.OnlyTheRequesterRowIsAdded` | src/commands/link.rs:74-83 | A run never removes a row. The only row it can add is one for the requester's own id. |
| `LinkProperties.HandlePreservesUnique` | src/commands/link.rs:76-83 | Both uniqueness constraints hold after every run. |
| `LinkProperties.SuccessfulInsertKeepsLink` | src/commands/link.rs:84-100 | After a successful insert the new row is in the table and role sync is called. The reply is "Linked" with the name and account id, or the `/sync` warning when sync fails. The result is `Ok`. |
| `LinkProperties.SyncOnlyAfterInsert` | src/commands/link.rs:84 | Role sync is called on a run exactly when that run added the row: only in the arm of a successful insert, never on a conflict, a database error or an early exit. |
| `LinkProperties.QueryOnlyOnConflict` | src/commands/link.rs:103-106 | The owner query is made exactly when the username is valid, the lookup produced an account and the insert hit a uniqueness violation. |
| `LinkProperties.SyncFailureNeverUndoesLink` | src/commands/link.rs:84-100 | Sync success and sync failure give the same table, the same result and the same calls. Where sync succeeding gives "Linked", sync failing gives the `/sync` warning with the same user, name and account id; on every other path the replies are equal. |
| `LinkProperties.LostReplyChangesOnlyResult` | src/commands/link.rs:18 | A reply that cannot be delivered (the `?` after every `ctx.reply`) leaves the calls, the table and the attempted reply as they are, and makes the result that delivery error. |
| `LinkProperties.OwnerQueryFailureFailsClosed` | src/commands/link.rs:106-113 | On a uniqueness violation whose owner query fails, the reply is unknown-database-error with an error, never "Already linked". The table is unchanged. |
| `LinkProperties.ConflictDecidedByOwnerEquality` | src/commands/link.rs:116-152 | On a uniqueness violation, the reply names another holder exactly when the owner exists and differs from the requester, and it names them by `DisplayIdent`. Otherwise the reply is "Already linked". Either way the result is `Ok` and nothing is added. |
| `LinkProperties.OtherDatabaseErrorFails` | src/commands/link.rs:153-165 | Any other database or connection failure of the insert gives the unknown-database-error reply with an error naming that failure. The table is unchanged. |
| `LinkProperties.FreeAccountIsLinked` | src/commands/link.rs:76-100 | A requester with no row, asking for an account nobody holds, gets the row and a "Linked" reply. |
| `LinkProperties.AccountOfAnotherIsRefused` | src/commands/link.rs:103-144 | If another user holds the account and the owner query tells the truth, the reply names that user and the requester gets no row. |
| `LinkProperties.RelinkIsIdempotent` | src/commands/link.rs:145-152 | Linking again to the account one already holds, with a truthful owner query, answers "Already linked" and adds no duplicate. |
| `LinkProperties.AlreadyLinkedIsTruthful` | src/commands/link.rs:145-152 | With a truthful owner query, "Already linked" is said only to a requester who really holds a row. |

## Left out

- Building and sending the HTTP request (URL, `Authorization` header, reqwest): this is a network client. Only its outcome is modelled.
- JSON decoding with serde_json and reading the body text: these are foreign libraries. The body text and the decoder's verdict are inputs.
- The SQL text and sqlx, including the match on the message substring "UNIQUE constraint failed". The insert's outcome is modelled as a structured result. The two uniqueness constraints belong to the table's schema, which is not part of this model; the model assumes one constraint per column.
- `get_linked_discord_account`, `sync_roles`, the user cache and `get_user`: their bodies are not part of this model, so each is an input outcome.
- The `Run` trace does not record the cache lookup or the user fetch. `DisplayIdent` states that the fetched name is ignored on a cache hit.
- async/await, the poise command attribute and `ctx.author_member().await.unwrap()`: these are framework and concurrency concerns. The guild-only command always has a member, so the `unwrap` is assumed not to panic.
- Logging with `warn!`, and the exact text of `bail!` messages: the error result keeps only the cause's kind and, for lookup failures, the status and body.
- The exact reply strings and Discord mention formatting: replies are kinds that carry their data (name, ids, identity string).
- Concurrent requests: each run is one atomic insert against the table, and interleavings of two handlers are not modelled.
