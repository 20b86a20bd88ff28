/** Properties of the server state machine that relate several requests:
    round trips, idempotence, counter movements and the invariants every
    request keeps. */
module ServerProperties {
  import opened Wrappers
  import opened Text
  import opened Inbox
  import opened Credentials
  import opened Server

  // ---------------------------------------------------------------------
  // Creating messages
  // ---------------------------------------------------------------------

  /** No trimming: fields made only of spaces are accepted and stored as
      given. */
  lemma CreateAcceptsWhitespace(s: State, nom: string, email: string, sujet: string, message: string,
                                 newId: Id, now: int)
    requires newId !in s.store
    requires nom != "" && email != "" && sujet != "" && message != ""
    requires AllSpace(nom) && AllSpace(email) && AllSpace(sujet) && AllSpace(message)
    ensures var t := Create(s, Some(nom), Some(email), Some(sujet), Some(message), newId, now);
      && t.response.status == 201
      && t.state.store[newId] == Message(nom, email, sujet, message, Some(false), now)
  {
  }

  /** A successful submission adds exactly one message, to the unread
      count, and leaves the read count as it was. */
  lemma {:induction false} CreateAddsOneUnread(s: State, nom: Option<string>, email: Option<string>,
                                              sujet: Option<string>, message: Option<string>, newId: Id, now: int)
    requires Create(s, nom, email, sujet, message, newId, now).response.status == 201
    ensures var s' := Create(s, nom, email, sujet, message, newId, now).state;
      && |s'.store| == |s.store| + 1
      && UnreadIds(s'.store) == UnreadIds(s.store) + {newId}
      && |UnreadIds(s'.store)| == |UnreadIds(s.store)| + 1
      && ReadIds(s'.store) == ReadIds(s.store)
  {
    var s' := Create(s, nom, email, sujet, message, newId, now).state;
    assert s'.store.Keys == s.store.Keys + {newId};
    assert newId !in UnreadIds(s.store);
  }

  /** In a newest-first listing, an entry strictly newer than every other
      entry comes first. */
  lemma StrictlyNewestIsHead(r: seq<Entry>, e: Entry)
    requires NewestFirst(r) && e in r
    requires forall x :: x in r && x != e ==> x.msg.createdAt < e.msg.createdAt
    ensures r[0] == e
  {
    var j :| 0 <= j < |r| && r[j] == e;
    if j > 0 {
      assert r[0].msg.createdAt >= r[j].msg.createdAt;
    }
  }

  /** A message created strictly after every stored one is listed first. */
  lemma NewestCreatedListedFirst(s: State, nom: Option<string>, email: Option<string>,
                                 sujet: Option<string>, message: Option<string>, newId: Id, now: int)
    requires Create(s, nom, email, sujet, message, newId, now).response.status == 201
    requires forall id :: id in s.store ==> s.store[id].createdAt < now
    ensures var s' := Create(s, nom, email, sujet, message, newId, now).state;
      var r := List(s').response.body.messages;
      r != [] && r[0].id == newId
  {
    var s' := Create(s, nom, email, sujet, message, newId, now).state;
    var r := List(s').response.body.messages;
    var e := Entry(newId, s'.store[newId]);
    assert e in r;
    forall x | x in r && x != e
      ensures x.msg.createdAt < e.msg.createdAt
    {
      assert x.id in s'.store && s'.store[x.id] == x.msg;
      assert x.id != newId;
      assert x.id in s.store;
    }
    StrictlyNewestIsHead(r, e);
  }

  // ---------------------------------------------------------------------
  // Read state
  // ---------------------------------------------------------------------

  /** Two flips without a value restore a boolean `lu` and so the whole
      state. */
  lemma ToggleTwiceRestores(s: State, id: Id)
    requires id in s.store && s.store[id].lu.Some?
    ensures Toggle(Toggle(s, Valid(id), Omitted).state, Valid(id), Omitted).state == s
  {
    var s1 := Toggle(s, Valid(id), Omitted).state;
    var s2 := Toggle(s1, Valid(id), Omitted).state;
    if s.store[id].lu == Some(true) {
      assert s1.store[id].lu == Some(false);
      assert s2.store[id].lu == Some(true);
    } else {
      assert !s.store[id].lu.value;
      assert s.store[id].lu == Some(false);
      assert s1.store[id].lu == Some(true);
      assert s2.store[id].lu == Some(false);
    }
    assert s2.store[id] == s.store[id];
    assert s2.store == s.store;
  }

  /** A missing or null `lu` does not come back: the first flip writes
      true, the second false. */
  lemma ToggleTwiceFromMissing(s: State, id: Id)
    requires id in s.store && s.store[id].lu.None?
    ensures var s1 := Toggle(s, Valid(id), Omitted).state;
      s1.store[id].lu == Some(true) && Toggle(s1, Valid(id), Omitted).state.store[id].lu == Some(false)
  {
  }

  /** Marking an unread message read moves it from one counter to the
      other. */
  lemma {:induction false} MarkReadMovesCounters(s: State, id: Id)
    requires id in s.store && s.store[id].lu == Some(false)
    ensures var s' := Toggle(s, Valid(id), Flag(true)).state;
      && UnreadIds(s'.store) == UnreadIds(s.store) - {id}
      && ReadIds(s'.store) == ReadIds(s.store) + {id}
      && |UnreadIds(s'.store)| == |UnreadIds(s.store)| - 1
      && |ReadIds(s'.store)| == |ReadIds(s.store)| + 1
  {
    var s' := Toggle(s, Valid(id), Flag(true)).state;
    var m := s.store[id].(lu := Some(true));
    assert s'.store == s.store[id := m];
    MarkReadIds(s.store, id, m);
    assert id in UnreadIds(s.store) && id !in ReadIds(s.store);
  }

  /** Replacing an unread record by its read copy moves its id between the
      two id sets. */
  lemma MarkReadIds(store: Store, id: Id, m: Message)
    requires id in store && store[id].lu == Some(false) && m == store[id].(lu := Some(true))
    ensures UnreadIds(store[id := m]) == UnreadIds(store) - {id}
    ensures ReadIds(store[id := m]) == ReadIds(store) + {id}
  {
  }

  // ---------------------------------------------------------------------
  // Deleting
  // ---------------------------------------------------------------------

  /** Deleting twice is deleting once, response included. */
  lemma DeleteIdempotent(s: State, target: PathId)
    ensures Delete(Delete(s, target).state, target) == Delete(s, target)
  {
    if target.Valid? {
      var s1 := Delete(s, target).state;
      assert s1.store - {target.id} == s1.store;
    }
  }

  /** After a delete the id is unknown to every route that looks it up,
      and the listing no longer holds it. */
  lemma DeletedIsGone(env: Env, s: State, id: Id, isRead: ReadArg, response: string, outcome: SendOutcome)
    requires response != ""
    ensures var s' := Delete(s, Valid(id)).state;
      && Toggle(s', Valid(id), isRead).response.status == 404
      && ReplyTo(s', env, Valid(id), Some(response), outcome).response.status == 404
      && forall e :: e in List(s').response.body.messages ==> e.id != id
  {
  }

  // ---------------------------------------------------------------------
  // Credentials
  // ---------------------------------------------------------------------

  /** A wrong username and a wrong password get the same answer. */
  lemma LoginFailuresIndistinguishable(s: State, env: Env, u1: string, p1: string, u2: string, p2: string)
    requires u1 != "" && p1 != "" && u2 != "" && p2 != ""
    requires u1 != AdminUsername(env)
    requires p2 != GetAdminPassword(s.passwordFile, env)
    ensures LoginCheck(s, env, Some(u1), Some(p1)) == LoginCheck(s, env, Some(u2), Some(p2))
  {
  }

  /** With no password file and no `ADMIN_PASSWORD`, admin/1234 logs in. */
  lemma DefaultCredentialsLogIn(store: Store)
    ensures LoginCheck(State(store, None), Env(None, None, None, None), Some("admin"), Some("1234")).response.status == 200
  {
  }

  /** After a successful change, the trimmed new password logs in and any
      other password, the old one included, is refused. */
  lemma ChangeThenLogin(s: State, env: Env, current: Option<string>, newPassword: Option<string>, other: string)
    requires ChangePasswordCheck(s, env, current, newPassword).response.status == 200
    requires Trim(newPassword.value) != "" && other != "" && other != Trim(newPassword.value)
    ensures var s' := ChangePasswordCheck(s, env, current, newPassword).state;
      && LoginCheck(s', env, Some(AdminUsername(env)), Some(Trim(newPassword.value))).response.status == 200
      && LoginCheck(s', env, Some(AdminUsername(env)), Some(other)).response.status == 401
  {
  }

  /** The length check counts the untrimmed password while reads trim it:
      four spaces are accepted as a new password, after which no login and
      no further password change can succeed. */
  lemma WhitespacePasswordLocksOut(s: State, env: Env, username: Option<string>, password: Option<string>,
                                   current: Option<string>, newPassword: Option<string>)
    requires GetAdminPassword(s.passwordFile, env) != ""
    ensures var t := ChangePasswordCheck(s, env, Some(GetAdminPassword(s.passwordFile, env)), Some("    "));
      && t.response.status == 200
      && LoginCheck(t.state, env, username, password).response.status != 200
      && ChangePasswordCheck(t.state, env, current, newPassword).response.status != 200
  {
    var t := ChangePasswordCheck(s, env, Some(GetAdminPassword(s.passwordFile, env)), Some("    "));
    WhitespacePasswordReadsEmpty(s, env);
    EmptyPasswordLocksOut(t.state, env, username, password, current, newPassword);
  }

  /** Four spaces pass the length check and are read back as the empty
      password. */
  lemma WhitespacePasswordReadsEmpty(s: State, env: Env)
    requires GetAdminPassword(s.passwordFile, env) != ""
    ensures var t := ChangePasswordCheck(s, env, Some(GetAdminPassword(s.passwordFile, env)), Some("    "));
      && t.response.status == 200
      && GetAdminPassword(t.state.passwordFile, env) == ""
  {
    var t := ChangePasswordCheck(s, env, Some(GetAdminPassword(s.passwordFile, env)), Some("    "));
    assert |"    "| >= MinPasswordLength;
    assert GetAdminPassword(t.state.passwordFile, env) == Trim("    ");
    FourSpacesTrimEmpty();
  }

  lemma FourSpacesTrimEmpty()
    ensures Trim("    ") == ""
  {
    assert AllSpace("    ");
    TrimEmptyIff("    ");
  }

  /** An empty stored password matches no filled login or current-password
      field. */
  lemma EmptyPasswordLocksOut(s: State, env: Env, username: Option<string>, password: Option<string>,
                              current: Option<string>, newPassword: Option<string>)
    requires GetAdminPassword(s.passwordFile, env) == ""
    ensures LoginCheck(s, env, username, password).response.status != 200
    ensures ChangePasswordCheck(s, env, current, newPassword).response.status != 200
  {
  }

  // ---------------------------------------------------------------------
  // Replying
  // ---------------------------------------------------------------------

  /** An empty response is refused before the id, the configuration or the
      transport is consulted. */
  lemma EmptyReplyCheckedFirst(s: State, env: Env, target: PathId, outcome: SendOutcome)
    ensures ReplyTo(s, env, target, Some(""), outcome).response.status == 400
    ensures ReplyTo(s, env, target, None, outcome).response.status == 400
  {
  }

  /** The message becomes read exactly when the mail went out; a failed
      send leaves it as it was. */
  lemma ReplyReadIffSent(s: State, env: Env, id: Id, response: string, outcome: SendOutcome)
    requires id in s.store && response != "" && MailConfigured(env)
    ensures var t := ReplyTo(s, env, Valid(id), Some(response), outcome);
      && t.mail == Some(Mail(s.store[id].email, ReplySubjectPrefix + s.store[id].sujet, response))
      && (outcome.Sent? ==> IsRead(t.state.store[id]))
      && (outcome.SendFailed? ==> t.state.store[id] == s.store[id])
  {
  }

  // ---------------------------------------------------------------------
  // Invariants of every request
  // ---------------------------------------------------------------------

  /** Two records agree on everything but `lu`. */
  ghost predicate SameContent(a: Message, b: Message) {
    a.nom == b.nom && a.email == b.email && a.sujet == b.sujet && a.message == b.message
    && a.createdAt == b.createdAt
  }

  /** Every record present in both stores has the same text and date. */
  ghost predicate ContentKept(a: Store, b: Store) {
    forall id :: id in a && id in b ==> SameContent(a[id], b[id])
  }

  /** No request edits the text or the creation time of a stored message,
      and only a submission adds an id. */
  lemma {:induction false} StepKeepsContent(env: Env, s: State, req: Request)
    ensures var s' := Step(env, s, req).state;
      && ContentKept(s.store, s'.store)
      && (req.CreateMessage? ==> s'.store.Keys <= s.store.Keys + {req.newId})
      && (!req.CreateMessage? ==> s'.store.Keys <= s.store.Keys)
  {
    match req
    case CreateMessage(nom, email, sujet, message, newId, now) =>
      CreateKeepsContent(s, nom, email, sujet, message, newId, now);
    case ListMessages =>
    case StatsSummary(midnight) =>
    case ToggleRead(target, isRead) =>
      ToggleKeepsContent(s, target, isRead);
    case DeleteMessage(target) =>
      DeleteKeepsContent(s, target);
    case Login(username, password) =>
    case ChangePassword(current, newPassword) =>
    case Reply(target, response, outcome) =>
      ReplyKeepsContent(s, env, target, response, outcome);
  }

  lemma CreateKeepsContent(s: State, nom: Option<string>, email: Option<string>, sujet: Option<string>,
                           message: Option<string>, newId: Id, now: int)
    ensures var s' := Create(s, nom, email, sujet, message, newId, now).state;
      ContentKept(s.store, s'.store) && s'.store.Keys <= s.store.Keys + {newId}
  {
  }

  lemma ToggleKeepsContent(s: State, target: PathId, isRead: ReadArg)
    ensures var s' := Toggle(s, target, isRead).state;
      ContentKept(s.store, s'.store) && s'.store.Keys == s.store.Keys
  {
  }

  lemma DeleteKeepsContent(s: State, target: PathId)
    ensures var s' := Delete(s, target).state;
      ContentKept(s.store, s'.store) && s'.store.Keys <= s.store.Keys
  {
  }

  lemma ReplyKeepsContent(s: State, env: Env, target: PathId, response: Option<string>, outcome: SendOutcome)
    ensures var s' := ReplyTo(s, env, target, response, outcome).state;
      ContentKept(s.store, s'.store) && s'.store.Keys == s.store.Keys
  {
    var t := ReplyTo(s, env, target, response, outcome);
    if t.response.status == 200 {
      var id := target.id;
      assert t.state.store == s.store[id := s.store[id].(lu := Some(true))];
    }
  }

  /** Only a PATCH with `isRead: null` writes a non-boolean `lu`. */
  predicate WritesBoolean(req: Request) {
    !(req.ToggleRead? && req.isRead.Null?)
  }

  lemma {:induction false} StepKeepsLuBoolean(env: Env, s: State, req: Request)
    requires AllLuBoolean(s.store) && WritesBoolean(req)
    ensures AllLuBoolean(Step(env, s, req).state.store)
  {
    var s' := Step(env, s, req).state;
    forall id | id in s'.store
      ensures s'.store[id].lu.Some?
    {
      match req
      case CreateMessage(nom, email, sujet, message, newId, now) =>
        if id != newId {
          assert id in s.store;
        }
      case ListMessages =>
      case StatsSummary(midnight) =>
      case ToggleRead(target, isRead) =>
        assert id in s.store;
      case DeleteMessage(target) =>
        assert id in s.store;
      case Login(username, password) =>
      case ChangePassword(current, newPassword) =>
      case Reply(target, response, outcome) =>
        assert id in s.store;
    }
  }

  /** Starting from a collection written only by this server, the summary
      counters stay balanced (`read + unread == total`) through any run of
      requests that never sends `isRead: null`. */
  lemma {:induction false} RunKeepsCountersBalanced(env: Env, s: State, reqs: seq<Request>, midnight: int)
    requires AllLuBoolean(s.store)
    requires forall k :: 0 <= k < |reqs| ==> WritesBoolean(reqs[k])
    ensures var b := Stats(Run(env, s, reqs), midnight).response.body;
      b.read + b.unread == b.total
    decreases |reqs|
  {
    if reqs != [] {
      StepKeepsLuBoolean(env, s, reqs[0]);
      RunKeepsCountersBalanced(env, Step(env, s, reqs[0]).state, reqs[1..], midnight);
    }
  }
}
