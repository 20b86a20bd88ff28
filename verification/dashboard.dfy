/** The read model of the administrator dashboard (message.js): how the
    fetched list is coerced and normalised, how search and the read/unread
    filter narrow it, the card preview, and the guards the page applies
    before it calls the server. */
module Dashboard {
  import opened Wrappers
  import opened Text
  import opened Inbox
  import opened Credentials
  import opened Server

  /** A message object as the page holds it after `res.json()`: every field
      may be missing. `lu` is the server's field, `isRead` the seed
      script's. */
  datatype ClientMessage = ClientMessage(
    nom: Option<string>,
    email: Option<string>,
    sujet: Option<string>,
    message: Option<string>,
    lu: Option<bool>,
    isRead: Option<bool>,
    createdAt: Option<int>)

  /** JavaScript truthiness of `m.lu` (missing and null are falsy). */
  predicate LuTruthy(m: ClientMessage) {
    m.lu == Some(true)
  }

  // ---------------------------------------------------------------------
  // Loading
  // ---------------------------------------------------------------------

  /** `m.lu = m.lu ?? m.isRead ?? false`. */
  function Normalise(m: ClientMessage): (r: ClientMessage)
    ensures r.lu.Some?
    ensures m.lu.Some? ==> r.lu == m.lu
    ensures m.lu.None? && m.isRead.Some? ==> r.lu == m.isRead
    ensures m.lu.None? && m.isRead.None? ==> r.lu == Some(false)
    ensures r.(lu := m.lu) == m
  {
    m.(lu := Some(m.lu.GetOr(m.isRead.GetOr(false))))
  }

  /** Normalising twice is normalising once. */
  lemma NormaliseIdempotent(m: ClientMessage)
    ensures Normalise(Normalise(m)) == Normalise(m)
  {
  }

  /** The `messages` property of an object payload. */
  datatype MessagesField = ArrayField(items: seq<ClientMessage>) | NotAnArray

  /** The parsed JSON body of `GET /api/messages`. */
  datatype Payload =
    | ArrayPayload(items: seq<ClientMessage>)
    | ObjectPayload(messages: MessagesField)
    | NullPayload
    | ScalarPayload

  /** `Array.isArray(data) ? data : Array.isArray(data.messages) ? data.messages : []`.
      Reading `.messages` of `null` throws, which `loadMessages` reports as
      a load error (`None`). */
  function Coerce(data: Payload): (r: Option<seq<ClientMessage>>)
    ensures data.ArrayPayload? ==> r == Some(data.items)
    ensures data.ObjectPayload? && data.messages.ArrayField? ==> r == Some(data.messages.items)
    ensures data.ObjectPayload? && data.messages.NotAnArray? ==> r == Some([])
    ensures data.ScalarPayload? ==> r == Some([])
    ensures r.None? <==> data.NullPayload?
  {
    match data
    case ArrayPayload(items) => Some(items)
    case ObjectPayload(ArrayField(items)) => Some(items)
    case ObjectPayload(NotAnArray) => Some([])
    case NullPayload => None
    case ScalarPayload => Some([])
  }

  /** `messagesData` after `loadMessages`: on a good response the coerced
      list, each object normalised in place when it is displayed; on an
      HTTP error or a throw, the previous list. */
  function Load(previous: seq<ClientMessage>, ok: bool, data: Payload): (r: seq<ClientMessage>)
    ensures ok && Coerce(data).Some? ==>
              |r| == |Coerce(data).value|
              && forall i :: 0 <= i < |r| ==> r[i] == Normalise(Coerce(data).value[i])
    ensures !(ok && Coerce(data).Some?) ==> r == previous
  {
    if ok && Coerce(data).Some? then
      var items := Coerce(data).value;
      seq(|items|, i requires 0 <= i < |items| => Normalise(items[i]))
    else previous
  }

  /** After a successful load every message has a boolean `lu`. */
  lemma LoadNormalises(previous: seq<ClientMessage>, data: Payload)
    requires !data.NullPayload?
    ensures forall m :: m in Load(previous, true, data) ==> m.lu.Some?
  {
  }

  // ---------------------------------------------------------------------
  // Search and filter
  // ---------------------------------------------------------------------

  /** `a` can be obtained from `b` by deleting elements. */
  ghost predicate SubsequenceOf<T>(a: seq<T>, b: seq<T>)
    decreases |b|
  {
    if a == [] then true
    else if b == [] then false
    else (a[0] == b[0] && SubsequenceOf(a[1..], b[1..])) || SubsequenceOf(a, b[1..])
  }

  /** `Array.prototype.filter`: the elements satisfying `p`, in order. */
  function Keep(ms: seq<ClientMessage>, p: ClientMessage -> bool): (r: seq<ClientMessage>)
    ensures forall m :: m in r <==> m in ms && p(m)
    ensures SubsequenceOf(r, ms)
    ensures forall m :: p(m) ==> multiset(r)[m] == multiset(ms)[m]
    decreases |ms|
  {
    if ms == [] then []
    else
      var rest := Keep(ms[1..], p);
      assert ms == [ms[0]] + ms[1..];
      if p(ms[0]) then [ms[0]] + rest else rest
  }

  /** The read/unread filter applied to one message. */
  predicate PassesFilter(filter: string, m: ClientMessage) {
    if filter == "read" then LuTruthy(m)
    else if filter == "unread" then !LuTruthy(m)
    else true
  }

  /** `applyFilter`: "read" keeps the read messages, "unread" the others,
      any other filter keeps everything. Every kept message keeps all its
      copies. */
  function ApplyFilter(filter: string, ms: seq<ClientMessage>): (r: seq<ClientMessage>)
    ensures filter == "read" ==> forall m :: m in r <==> m in ms && LuTruthy(m)
    ensures filter == "unread" ==> forall m :: m in r <==> m in ms && !LuTruthy(m)
    ensures filter != "read" && filter != "unread" ==> r == ms
    ensures forall m :: PassesFilter(filter, m) ==> multiset(r)[m] == multiset(ms)[m]
    ensures SubsequenceOf(r, ms)
  {
    if filter == "read" then Keep(ms, m => LuTruthy(m))
    else if filter == "unread" then Keep(ms, m => !LuTruthy(m))
    else
      SubsequenceOfSelf(ms);
      ms
  }

  lemma {:induction false} SubsequenceOfSelf<T>(s: seq<T>)
    ensures SubsequenceOf(s, s)
    decreases |s|
  {
    if s != [] {
      SubsequenceOfSelf(s[1..]);
    }
  }

  /** The search predicate: the lower-cased query occurs in the lower-cased
      name, address, subject or text, a missing field counting as "". */
  predicate MatchesQuery(m: ClientMessage, query: string) {
    var q := Lower(query);
    || Includes(Lower(OrElse(m.nom, "")), q)
    || Includes(Lower(OrElse(m.email, "")), q)
    || Includes(Lower(OrElse(m.sujet, "")), q)
    || Includes(Lower(OrElse(m.message, "")), q)
  }

  /** The messages the query matches, in order, each with all its copies. */
  function Search(ms: seq<ClientMessage>, query: string): (r: seq<ClientMessage>)
    ensures forall m :: m in r <==> m in ms && MatchesQuery(m, query)
    ensures forall m :: MatchesQuery(m, query) ==> multiset(r)[m] == multiset(ms)[m]
    ensures SubsequenceOf(r, ms)
  {
    Keep(ms, m => MatchesQuery(m, query))
  }

  /** An empty query keeps every message. */
  lemma {:induction false} SearchEmptyKeepsAll(ms: seq<ClientMessage>)
    ensures Search(ms, "") == ms
    decreases |ms|
  {
    if ms != [] {
      IncludesEmpty(Lower(OrElse(ms[0].nom, "")));
      SearchEmptyKeepsAll(ms[1..]);
    }
  }

  /** What the search-input handler displays: always searches, then
      filters. The list holds exactly the messages that match the query and
      pass the filter, each with all its copies, in their original order. */
  function OnSearchInput(ms: seq<ClientMessage>, query: string, filter: string): (r: seq<ClientMessage>)
    ensures forall m :: m in r <==> m in ms && MatchesQuery(m, query) && PassesFilter(filter, m)
    ensures forall m :: MatchesQuery(m, query) && PassesFilter(filter, m) ==> multiset(r)[m] == multiset(ms)[m]
    ensures SubsequenceOf(r, ms)
  {
    var found := Search(ms, query);
    var r := ApplyFilter(filter, found);
    SubsequenceTransitive(r, found, ms);
    r
  }

  /** What a filter-button handler displays: searches only for a non-empty
      lower-cased query, then filters. */
  function OnFilterClick(ms: seq<ClientMessage>, query: string, filter: string): (r: seq<ClientMessage>)
    ensures Lower(query) != "" ==>
              forall m :: m in r <==> m in ms && MatchesQuery(m, query) && PassesFilter(filter, m)
    ensures Lower(query) == "" ==> forall m :: m in r <==> m in ms && PassesFilter(filter, m)
    ensures forall m :: PassesFilter(filter, m) && (Lower(query) != "" ==> MatchesQuery(m, query)) ==>
              multiset(r)[m] == multiset(ms)[m]
    ensures SubsequenceOf(r, ms)
  {
    if Lower(query) != "" then
      var found := Search(ms, query);
      SubsequenceTransitive(ApplyFilter(filter, found), found, ms);
      ApplyFilter(filter, found)
    else ApplyFilter(filter, ms)
  }

  /** Both handlers show the same list for the same query and filter. */
  lemma HandlersAgree(ms: seq<ClientMessage>, query: string, filter: string)
    ensures OnSearchInput(ms, query, filter) == OnFilterClick(ms, query, filter)
  {
    if query == "" {
      SearchEmptyKeepsAll(ms);
    }
  }

  lemma {:induction false} SubsequenceTransitive<T>(a: seq<T>, b: seq<T>, c: seq<T>)
    requires SubsequenceOf(a, b) && SubsequenceOf(b, c)
    ensures SubsequenceOf(a, c)
    decreases |c|
  {
    if a != [] && c != [] {
      if b[0] == c[0] && SubsequenceOf(b[1..], c[1..]) {
        if a[0] == b[0] && SubsequenceOf(a[1..], b[1..]) {
          SubsequenceTransitive(a[1..], b[1..], c[1..]);
        } else {
          SubsequenceTransitive(a, b[1..], c[1..]);
        }
      } else {
        SubsequenceTransitive(a, b, c[1..]);
      }
    }
  }

  // ---------------------------------------------------------------------
  // Message cards
  // ---------------------------------------------------------------------

  const PreviewLength := 120

  /** The text part of a card's preview, `(m.message || '').substring(0, 120)`;
      the card always prints "..." after it, whatever the length. */
  function Preview(m: ClientMessage): (r: string)
    ensures |r| <= PreviewLength
    ensures r <= OrElse(m.message, "")
    ensures |OrElse(m.message, "")| <= PreviewLength ==> r == OrElse(m.message, "")
    ensures |OrElse(m.message, "")| > PreviewLength ==> |r| == PreviewLength
  {
    var text := OrElse(m.message, "");
    if |text| <= PreviewLength then text else text[..PreviewLength]
  }

  // ---------------------------------------------------------------------
  // Guards in front of the server
  // ---------------------------------------------------------------------

  /** The body of the read/unread toggle request: `{ isRead: !lu }`. */
  function ToggleRequest(m: ClientMessage): (arg: ReadArg)
    ensures arg.Flag? && (arg.b <==> !LuTruthy(m))
  {
    Flag(!LuTruthy(m))
  }

  /** The local copy flips only once the server answered OK. */
  function AfterToggle(m: ClientMessage, ok: bool): (r: ClientMessage)
    ensures ok ==> r.lu == Some(!LuTruthy(m)) && r.(lu := m.lu) == m
    ensures !ok ==> r == m
  {
    if ok then m.(lu := Some(!LuTruthy(m))) else m
  }

  /** When the page and the server agree on whether a message is read, the
      explicit value the page sends stores what a server-side flip would
      store, and the page's updated copy agrees with the server again. */
  lemma ClientToggleMatchesServerFlip(s: State, id: Id, m: ClientMessage)
    requires id in s.store && LuTruthy(m) == IsRead(s.store[id])
    ensures var t := Toggle(s, Valid(id), ToggleRequest(m));
      && t.response.status == 200
      && t.state == Toggle(s, Valid(id), Omitted).state
      && t.state.store[id].lu == AfterToggle(m, true).lu
  {
  }

  const PasswordMismatch := "Les mots de passe ne correspondent pas"

  /** The settings form: the confirmation must match, then the new password
      must have at least four characters; `None` means the request is sent. */
  function PasswordFormCheck(newPassword: string, confirmPassword: string): (err: Option<string>)
    ensures err.None? <==> newPassword == confirmPassword && |newPassword| >= MinPasswordLength
    ensures newPassword != confirmPassword ==> err == Some(PasswordMismatch)
    ensures newPassword == confirmPassword && |newPassword| < MinPasswordLength ==> err == Some(PasswordTooShort)
  {
    if newPassword != confirmPassword then Some(PasswordMismatch)
    else if |newPassword| < MinPasswordLength then Some(PasswordTooShort)
    else None
  }

  /** A request that passed the form never fails the server's length
      check: the server answers 200 exactly when the current password is
      right, and otherwise 400 only for an empty current password. */
  lemma GuardedPasswordChange(s: State, env: Env, current: string, newPassword: string, confirmPassword: string)
    requires PasswordFormCheck(newPassword, confirmPassword).None?
    ensures var t := ChangePasswordCheck(s, env, Some(current), Some(newPassword));
      && (t.response.status == 200 <==> current != "" && current == GetAdminPassword(s.passwordFile, env))
      && t.response != Response(400, Error(PasswordTooShort))
      && (t.response.status == 400 <==> current == "")
  {
  }

  /** The reply box: the trimmed text, or `None` when it is blank. */
  function ReplyFormCheck(text: string): (r: Option<string>)
    ensures r.Some? <==> !AllSpace(text)
    ensures r.Some? ==> r.value == Trim(text) && r.value != ""
  {
    TrimEmptyIff(text);
    var t := Trim(text);
    if t == "" then None else Some(t)
  }

  /** A reply that passed the box is never refused by the server as
      empty. */
  lemma GuardedReplyNotEmpty(s: State, env: Env, target: PathId, text: string, outcome: SendOutcome)
    requires !AllSpace(text)
    ensures ReplyTo(s, env, target, ReplyFormCheck(text), outcome).response != Response(400, Error(EmptyReply))
  {
  }
}
