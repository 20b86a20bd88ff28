/** The JSON API of serveur.js as a state machine. Each route handler is a
    pure transition from the server state and a request to the next state
    and the HTTP response. What the handlers obtain from the outside world
    arrives in the request: the id MongoDB assigns to a new document, the
    current time, local midnight, and whether the mail transport accepted a
    reply. */
module Server {
  import opened Wrappers
  import opened Text
  import opened Inbox
  import opened Credentials

  /** The `:id` path parameter: a well-formed ObjectId, or a string Mongoose
      cannot cast (which makes the query throw). */
  datatype PathId = Valid(id: Id) | Malformed

  /** The `isRead` field of a PATCH body: absent, `null`, or a boolean. */
  datatype ReadArg = Omitted | Null | Flag(b: bool)

  /** What `transporter.sendMail` did with the reply. */
  datatype SendOutcome = Sent | SendFailed

  datatype Request =
    | CreateMessage(nom: Option<string>, email: Option<string>, sujet: Option<string>,
                    message: Option<string>, newId: Id, now: int)
    | ListMessages
    | StatsSummary(midnight: int)
    | ToggleRead(target: PathId, isRead: ReadArg)
    | DeleteMessage(target: PathId)
    | Login(username: Option<string>, password: Option<string>)
    | ChangePassword(currentPassword: Option<string>, newPassword: Option<string>)
    | Reply(target: PathId, response: Option<string>, outcome: SendOutcome)

  /** JSON response bodies. `Success` is `{ success: true }`. */
  datatype Body =
    | Error(error: string)
    | Success
    | MessageList(messages: seq<Entry>)
    | Summary(total: nat, read: nat, unread: nat, today: nat)
    | ReadState(isRead: Option<bool>)
    | Redirect(redirect: string)
    | Notice(message: string)

  datatype Response = Response(status: nat, body: Body)

  /** The mail handed to the transport by the reply route (its HTML layout
      is not modelled; `text` is the administrator's response). */
  datatype Mail = Mail(to: string, subject: string, text: string)

  /** Everything the server persists: the message collection and the
      password file. */
  datatype State = State(store: Store, passwordFile: PasswordFile)

  /** The outcome of one request; `mail` is the reply handed to the mail
      transport, if any. */
  datatype Transition = Transition(state: State, response: Response, mail: Option<Mail>)

  const MissingFields := "Champs manquants"
  const ServerError := "Erreur serveur"
  const MessageNotFound := "Message introuvable"
  const CredentialsRequired := "Identifiant et mot de passe requis"
  const BadCredentials := "Identifiant ou mot de passe incorrect"
  const AllFieldsRequired := "Tous les champs sont requis"
  const WrongCurrentPassword := "Mot de passe actuel incorrect"
  const PasswordTooShort := "Le mot de passe doit contenir au moins 4 caractères"
  const PasswordChanged := "Mot de passe modifié avec succès"
  const EmptyReply := "Message vide"
  const ReplyNotFound := "Message non trouvé"
  const MailNotConfigured := "Configuration email manquante. Veuillez configurer GMAIL_USER et GMAIL_PASS dans .env"
  const SendError := "Erreur lors de l'envoi de l'email. Vérifiez votre configuration Gmail."
  const ReplySentPrefix := "Réponse envoyée avec succès à "
  const ReplySubjectPrefix := "Réponse à votre message : "
  const MinPasswordLength := 4

  function Reject(s: State, status: nat, error: string): Transition {
    Transition(s, Response(status, Error(error)), None)
  }

  // ---------------------------------------------------------------------
  // POST /api/messages
  // ---------------------------------------------------------------------

  predicate AllFieldsFilled(nom: Option<string>, email: Option<string>, sujet: Option<string>, message: Option<string>) {
    Filled(nom) && Filled(email) && Filled(sujet) && Filled(message)
  }

  /** Stores a new message when all four fields are non-empty strings
      (no trimming), unread and stamped with `now`. A duplicate id makes the
      insert throw, which the handler reports as a server error. */
  function Create(s: State, nom: Option<string>, email: Option<string>, sujet: Option<string>,
                  message: Option<string>, newId: Id, now: int): (t: Transition)
    ensures t.mail.None? && t.state.passwordFile == s.passwordFile
    ensures !AllFieldsFilled(nom, email, sujet, message) ==>
              t.state == s && t.response == Response(400, Error(MissingFields))
    ensures t.response.status == 201 <==> AllFieldsFilled(nom, email, sujet, message) && newId !in s.store
    ensures t.response.status != 201 ==> t.state == s
    ensures AllFieldsFilled(nom, email, sujet, message) && newId in s.store ==>
              t.response == Response(500, Error(ServerError))
    ensures t.response.status == 201 ==>
              && t.state.store.Keys == s.store.Keys + {newId}
              && (forall id :: id in s.store ==> t.state.store[id] == s.store[id])
              && t.state.store[newId] == Message(nom.value, email.value, sujet.value, message.value, Some(false), now)
  {
    if !AllFieldsFilled(nom, email, sujet, message) then Reject(s, 400, MissingFields)
    else if newId in s.store then Reject(s, 500, ServerError)
    else
      var m := Message(nom.value, email.value, sujet.value, message.value, Some(false), now);
      Transition(s.(store := s.store[newId := m]), Response(201, Success), None)
  }

  // ---------------------------------------------------------------------
  // GET /api/messages and GET /api/messages/stats/summary
  // ---------------------------------------------------------------------

  /** Every stored message, newest first; nothing changes. */
  function List(s: State): (t: Transition)
    ensures t.state == s && t.mail.None? && t.response.status == 200
    ensures t.response.body.MessageList?
    ensures var r := t.response.body.messages;
      && NewestFirst(r) && |r| == |s.store|
      && forall e :: e in r <==> e.id in s.store && s.store[e.id] == e.msg
  {
    Transition(s, Response(200, MessageList(ListNewestFirst(s.store))), None)
  }

  /** The four counters of the dashboard. `read` and `unread` never exceed
      `total`, and add up to it when every `lu` is a boolean; `today` counts
      messages created at or after local midnight. */
  function Stats(s: State, midnight: int): (t: Transition)
    ensures t.state == s && t.mail.None? && t.response.status == 200
    ensures t.response.body.Summary?
    ensures var b := t.response.body;
      && b.total == |s.store|
      && b.read + b.unread <= b.total
      && (AllLuBoolean(s.store) ==> b.read + b.unread == b.total)
      && b.today <= b.total
      && b.read == |ReadIds(s.store)|
      && b.unread == |UnreadIds(s.store)|
      && b.today == |TodayIds(s.store, midnight)|
  {
    ReadUnreadPartition(s.store);
    TodayBounded(s.store, midnight);
    var b := Summary(|s.store|, |ReadIds(s.store)|, |UnreadIds(s.store)|, |TodayIds(s.store, midnight)|);
    Transition(s, Response(200, b), None)
  }

  // ---------------------------------------------------------------------
  // PATCH /api/messages/:id/read
  // ---------------------------------------------------------------------

  /** `!msg.lu`: a missing or null field is falsy, so it flips to true. */
  function Flip(lu: Option<bool>): (r: Option<bool>)
    ensures r.Some?
    ensures r.value <==> lu != Some(true)
  {
    Some(lu != Some(true))
  }

  /** The new `lu`: the given value verbatim, else the flip of the old one. */
  function NewLu(isRead: ReadArg, lu: Option<bool>): (r: Option<bool>)
    ensures isRead.Flag? ==> r == Some(isRead.b)
    ensures isRead.Null? ==> r.None?
    ensures isRead.Omitted? ==> r.Some? && (r.value <==> lu != Some(true))
  {
    match isRead
    case Omitted => Flip(lu)
    case Null => None
    case Flag(b) => Some(b)
  }

  /** Sets `lu` of one message; every other message and every other field
      is left as it was. */
  function Toggle(s: State, target: PathId, isRead: ReadArg): (t: Transition)
    ensures t.mail.None? && t.state.passwordFile == s.passwordFile
    ensures target.Malformed? ==> t.state == s && t.response == Response(500, Error(ServerError))
    ensures target.Valid? && target.id !in s.store ==>
              t.state == s && t.response == Response(404, Error(MessageNotFound))
    ensures target.Valid? && target.id in s.store ==>
              var id := target.id;
              && t.state.store.Keys == s.store.Keys
              && (forall other :: other in s.store && other != id ==> t.state.store[other] == s.store[other])
              && t.state.store[id] == s.store[id].(lu := NewLu(isRead, s.store[id].lu))
              && t.response == Response(200, ReadState(t.state.store[id].lu))
  {
    match target
    case Malformed => Reject(s, 500, ServerError)
    case Valid(id) =>
      if id !in s.store then Reject(s, 404, MessageNotFound)
      else
        var m := s.store[id].(lu := NewLu(isRead, s.store[id].lu));
        Transition(s.(store := s.store[id := m]), Response(200, ReadState(m.lu)), None)
  }

  // ---------------------------------------------------------------------
  // DELETE /api/messages/:id
  // ---------------------------------------------------------------------

  /** Removes the message if present and reports success either way. */
  function Delete(s: State, target: PathId): (t: Transition)
    ensures t.mail.None? && t.state.passwordFile == s.passwordFile
    ensures target.Malformed? ==> t.state == s && t.response == Response(500, Error(ServerError))
    ensures target.Valid? ==>
              && t.response == Response(200, Success)
              && t.state.store.Keys == s.store.Keys - {target.id}
              && (forall id :: id in t.state.store ==> t.state.store[id] == s.store[id])
  {
    match target
    case Malformed => Reject(s, 500, ServerError)
    case Valid(id) => Transition(s.(store := s.store - {id}), Response(200, Success), None)
  }

  // ---------------------------------------------------------------------
  // POST /api/admin/login
  // ---------------------------------------------------------------------

  /** Succeeds exactly for the configured username with the current
      password; both mistakes share one 401 answer. */
  function LoginCheck(s: State, env: Env, username: Option<string>, password: Option<string>): (t: Transition)
    ensures t.state == s && t.mail.None?
    ensures !Filled(username) || !Filled(password) ==> t.response == Response(400, Error(CredentialsRequired))
    ensures Filled(username) && Filled(password) ==>
              (t.response.status == 200 <==>
                 username.value == AdminUsername(env) && password.value == GetAdminPassword(s.passwordFile, env))
    ensures t.response.status == 200 ==> t.response.body == Redirect("/messages")
    ensures t.response.status != 200 && Filled(username) && Filled(password) ==>
              t.response == Response(401, Error(BadCredentials))
  {
    if !Filled(username) || !Filled(password) then Reject(s, 400, CredentialsRequired)
    else if username.value == AdminUsername(env) && password.value == GetAdminPassword(s.passwordFile, env) then
      Transition(s, Response(200, Redirect("/messages")), None)
    else Reject(s, 401, BadCredentials)
  }

  // ---------------------------------------------------------------------
  // POST /api/admin/change-password
  // ---------------------------------------------------------------------

  /** Checks, in order: both fields present (400), current password right
      (401), new password at least four characters (400); only then is the
      file written. */
  function ChangePasswordCheck(s: State, env: Env, current: Option<string>, newPassword: Option<string>): (t: Transition)
    ensures t.mail.None? && t.state.store == s.store
    ensures t.response.status == 200 <==>
              Filled(current) && Filled(newPassword) && current.value == GetAdminPassword(s.passwordFile, env)
              && |newPassword.value| >= MinPasswordLength
    ensures t.response.status != 200 ==> t.state == s
    ensures !Filled(current) || !Filled(newPassword) ==> t.response == Response(400, Error(AllFieldsRequired))
    ensures Filled(current) && Filled(newPassword) && current.value != GetAdminPassword(s.passwordFile, env) ==>
              t.response == Response(401, Error(WrongCurrentPassword))
    ensures Filled(current) && Filled(newPassword) && current.value == GetAdminPassword(s.passwordFile, env)
            && |newPassword.value| < MinPasswordLength ==>
              t.response == Response(400, Error(PasswordTooShort))
    ensures t.response.status == 200 ==>
              t.response == Response(200, Notice(PasswordChanged))
              && t.state.passwordFile == Some(newPassword.value)
              && GetAdminPassword(t.state.passwordFile, env) == Trim(newPassword.value)
  {
    if !Filled(current) || !Filled(newPassword) then Reject(s, 400, AllFieldsRequired)
    else if current.value != GetAdminPassword(s.passwordFile, env) then Reject(s, 401, WrongCurrentPassword)
    else if |newPassword.value| < MinPasswordLength then Reject(s, 400, PasswordTooShort)
    else Transition(s.(passwordFile := SetAdminPassword(newPassword.value)), Response(200, Notice(PasswordChanged)), None)
  }

  // ---------------------------------------------------------------------
  // POST /api/messages/:id/reply
  // ---------------------------------------------------------------------

  predicate MailConfigured(env: Env) {
    Filled(env.gmailUser) && Filled(env.gmailPass)
  }

  /** The reply mail: to the sender's address, about their subject. */
  function ReplyMail(m: Message, text: string): (mail: Mail)
    ensures mail.to == m.email && mail.text == text
    ensures ReplySubjectPrefix <= mail.subject
    ensures mail.subject[|ReplySubjectPrefix|..] == m.sujet
  {
    Mail(m.email, ReplySubjectPrefix + m.sujet, text)
  }

  /** The checks of the reply route before anything is sent, in order:
      non-empty response, well-formed id (a cast error lands in the route's
      catch), known id, mail configuration. */
  predicate ReplyReady(s: State, env: Env, target: PathId, response: Option<string>) {
    Filled(response) && target.Valid? && target.id in s.store && MailConfigured(env)
  }

  /** Sends the response by mail and marks the message read, but only once
      the transport accepted it; every failure leaves the state alone. */
  function ReplyTo(s: State, env: Env, target: PathId, response: Option<string>, outcome: SendOutcome): (t: Transition)
    ensures t.state.passwordFile == s.passwordFile
    ensures !Filled(response) ==> t.state == s && t.response == Response(400, Error(EmptyReply))
    ensures Filled(response) && target.Malformed? ==> t.state == s && t.response == Response(500, Error(SendError))
    ensures Filled(response) && target.Valid? && target.id !in s.store ==>
              t.state == s && t.response == Response(404, Error(ReplyNotFound))
    ensures Filled(response) && target.Valid? && target.id in s.store && !MailConfigured(env) ==>
              t.state == s && t.response == Response(500, Error(MailNotConfigured))
    ensures t.mail.Some? <==> ReplyReady(s, env, target, response)
    ensures t.mail.Some? ==> t.mail.value == ReplyMail(s.store[target.id], response.value)
    ensures t.response.status == 200 <==> ReplyReady(s, env, target, response) && outcome.Sent?
    ensures t.response.status != 200 ==> t.state == s
    ensures t.response.status == 200 ==>
              var id := target.id;
              && t.state.store == s.store[id := s.store[id].(lu := Some(true))]
              && t.response.body == Notice(ReplySentPrefix + s.store[id].email)
    ensures ReplyReady(s, env, target, response) && outcome.SendFailed? ==>
              t.response == Response(500, Error(SendError))
  {
    if !Filled(response) then Reject(s, 400, EmptyReply)
    else match target
      case Malformed => Reject(s, 500, SendError)
      case Valid(id) =>
        if id !in s.store then Reject(s, 404, ReplyNotFound)
        else if !MailConfigured(env) then Reject(s, 500, MailNotConfigured)
        else
          var m := s.store[id];
          var mail := Some(ReplyMail(m, response.value));
          match outcome
          case SendFailed => Transition(s, Response(500, Error(SendError)), mail)
          case Sent =>
            Transition(s.(store := s.store[id := m.(lu := Some(true))]),
                       Response(200, Notice(ReplySentPrefix + m.email)), mail)
  }

  // ---------------------------------------------------------------------
  // Dispatch
  // ---------------------------------------------------------------------

  /** One request against the server. Only the password route writes the
      password file, only the reply route hands mail to the transport, only
      creation and deletion change which messages exist, and listing,
      statistics and login change nothing. */
  function Step(env: Env, s: State, req: Request): (t: Transition)
    ensures t.state.passwordFile != s.passwordFile ==> req.ChangePassword?
    ensures t.mail.Some? ==> req.Reply?
    ensures t.state.store.Keys != s.store.Keys ==> req.CreateMessage? || req.DeleteMessage?
    ensures req.ListMessages? || req.StatsSummary? || req.Login? ==> t.state == s
  {
    match req
    case CreateMessage(nom, email, sujet, message, newId, now) => Create(s, nom, email, sujet, message, newId, now)
    case ListMessages => List(s)
    case StatsSummary(midnight) => Stats(s, midnight)
    case ToggleRead(target, isRead) => Toggle(s, target, isRead)
    case DeleteMessage(target) => Delete(s, target)
    case Login(username, password) => LoginCheck(s, env, username, password)
    case ChangePassword(current, newPassword) => ChangePasswordCheck(s, env, current, newPassword)
    case Reply(target, response, outcome) => ReplyTo(s, env, target, response, outcome)
  }

  /** A sequence of requests, one after the other. */
  function Run(env: Env, s: State, reqs: seq<Request>): State
    decreases |reqs|
  {
    if reqs == [] then s
    else Run(env, Step(env, s, reqs[0]).state, reqs[1..])
  }
}
