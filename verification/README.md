# SK Digitale message inbox — a Dafny model

The SK Digitale portfolio site has a public page and an administrator
inbox. An API client sends a message to `POST /api/messages` with a name
(`nom`), an address (`email`), a subject (`sujet`) and a text (`message`).
The Express server stores it in MongoDB, unread (`lu = false`) and stamped
with `createdAt`. In this repository that client is the API script (Test
api .js:28); the public page does not post to the server. The
administrator logs in with a password kept in a file. From the dashboard
they can list, count, search and filter messages, mark them read or
unread, delete them, reply by mail and export them as CSV. They can also
change the password. The public page has two further pieces: a
Konami-code easter egg, and a contact form whose submit handler only
composes a `mailto:` link (folio.js:200-224).

This project models that workflow as pure functions over immutable data
and proves properties of it.

- `wrappers.dfy` (`Wrappers`): the `Option` type.
- `text.dfy` (`Text`): the JavaScript string operations the code relies on.
  - JavaScript truthiness of an optional field, and `x || fallback`.
  - `trim`, with the full ECMAScript white-space set.
  - `toLowerCase` on ASCII letters.
  - `includes`.
  - `Array.prototype.join`.
  - Helpers for the model's own parsers, which the source does not call: `StartsWith`, `IndexOf` and `SplitOn` (a one-character `split`). `ContactForm.ParseBody`, `CsvExport.RowHasSixColumns` and `CsvExport.ExportLines` use them.
- `inbox.dfy` (`Inbox`): the collection as a map from id to record.
  - The newest-first listing.
  - The id sets behind the four dashboard counters.
- `credentials.dfy` (`Credentials`): `ADMIN_USERNAME`, `getAdminPassword` and `setAdminPassword`.
- `server.dfy` (`Server`): every API route handler of `serveur.js` as a transition `(state, request) -> (state', response)`.
  - `Step` dispatches one request.
  - `Run` replays a sequence of requests.
- `server_props.dfy` (`ServerProperties`): properties that relate several requests.
  - Round trips and idempotence.
  - How the counters move.
  - Invariants that every request keeps.
- `dashboard.dfy` (`Dashboard`): the read model of `message.js`.
  - Payload coercion and `lu` normalisation.
  - Search and the read/unread filter, and how the two compose.
  - The card preview.
  - The client-side guards in front of the toggle, password and reply requests.
- `csv.dfy` (`CsvExport`): `exportData`, together with a CSV reader that states what the file means. The reader follows section 2 of RFC 4180: quoted fields with doubled inner quotes, commas between fields and line breaks between records. It takes the line feed that `exportData` writes as the record separator, and it reads a quote inside a bare field literally.
- `konami.dfy` (`Konami`): the keydown recogniser of `folio.js`.
- `contact.dfy` (`ContactForm`): the subject and plain-text body of the contact form's `mailto:` link, with a parser that reads the body back.

Some things the handlers obtain from the outside world arrive as fields of
the request:

- the id MongoDB assigns to a new document;
- the current time;
- local midnight;
- whether the mail transport accepted a reply;
- whether the `:id` path segment is a castable ObjectId.

The password file is `Option<string>`, where `None` means the file does not
exist.

Behaviour of the code that a reader of its neighbours might not expect:

- Creating a message checks JavaScript truthiness (`!nom`), not emptiness after trimming (serveur.js:86). The server's schema declares no `trim` (serveur.js:38-43), unlike the seeding script's schema (Seed database .js:9-12). So fields made only of spaces are accepted and stored unchanged.
- `DELETE /api/messages/:id` answers 200 `{ success: true }` even when no document has that id (serveur.js:141-149). It never answers 404.
- `POST /api/messages` answers `{ success: true }` and does not return the stored record. The API script reads `createData.data._id` from that answer (Test api .js:45-46), which the server does not send.
- A stored `lu` is modelled as `Option<bool>`. It is `None` in two cases:
  - the field is missing, as on documents written by the seeding script, which use `isRead`;
  - it was set to `null`, by a PATCH whose body is `{ isRead: null }`.

  The dashboard counters read the raw field. So `read + unread == total` holds only while every `lu` is a boolean, and the model proves exactly that.

## Model

| member | source | states |
|---|---|---|
| Credentials.AdminUsername | serveur.js:154 | the admin username is `ADMIN_USERNAME` when non-empty, else "admin", and is never empty |
| Credentials.GetAdminPassword | serveur.js:53-58 | an existing password file yields its trimmed contents; without the file, `ADMIN_PASSWORD` if non-empty, else "1234" |
| Credentials.SetAdminPassword | serveur.js:60-62 | the file afterwards holds exactly the new password, untrimmed |
| Credentials.SetThenGet | serveur.js:53-62 | after a write, every read returns the trimmed new password whatever the environment holds |
| Credentials.GetFromFileIsStable | serveur.js:55 | writing back a password read from the file does not change later reads |
| Server.Create | serveur.js:82-96 | any missing or empty field gives 400 "Champs manquants" and stores nothing; otherwise exactly one record is added, unread, stamped `now`, with the four fields as given; other records are untouched; an id clash gives 500 |
| Server.List | serveur.js:98-106 | the listing holds exactly the stored records, each once, newest first, and changes nothing |
| Server.Stats | serveur.js:108-123 | `total` is the number of records and `read`/`unread`/`today` are the sizes of the matching id sets; `read + unread <= total`, with equality when every `lu` is boolean; `today <= total` |
| Server.Flip | serveur.js:131 | `!msg.lu` is true exactly when `lu` is not true, so a missing or null `lu` flips to true |
| Server.NewLu | serveur.js:130-131 | a given `isRead` is stored verbatim (null included); an absent one flips the old value |
| Server.Toggle | serveur.js:125-139 | a malformed id gives 500 and an unknown id 404, neither changing anything; otherwise only that record's `lu` changes, and the response echoes the stored value |
| Server.Delete | serveur.js:141-149 | a malformed id gives 500; any other id answers 200 and removes exactly that key, leaving every other record as it was |
| Server.LoginCheck | serveur.js:156-170 | an empty field gives 400; otherwise 200 with redirect "/messages" exactly when both username and password match; every other failure is the same 401; nothing changes |
| Server.ChangePasswordCheck | serveur.js:175-199 | the checks run in the source's order: empty field 400, wrong current password 401, new password shorter than 4 gives 400; only success writes the file and answers 200 with the "Mot de passe modifié avec succès" notice, and later reads return the trimmed new password |
| Server.ReplyMail | serveur.js:230-233 | the reply goes to the sender's address, its subject is "Réponse à votre message : " followed by their subject, and it carries the response |
| Server.ReplyTo | serveur.js:204-283 | the checks run in the source's order: empty response 400, uncastable id 500, unknown id 404, missing Gmail settings 500; a mail is attempted exactly when all pass; 200 exactly when it is sent, which marks the record read; a failed send gives 500 and changes nothing |
| Inbox.Entries | serveur.js:100 | the collection scan lists every record exactly once; ascending id order is the model's choice for records with equal `createdAt`, which the query leaves unspecified |
| Inbox.SortNewestFirst | serveur.js:100 | the sort yields `createdAt` descending and is a permutation of its input |
| Inbox.ListNewestFirst | serveur.js:100 | `find().sort({ createdAt: -1 })` holds exactly the stored records, one per id, newest first |
| Inbox.ReadUnreadPartition | serveur.js:110-112 | the read and unread counts never exceed the total together, and equal it when every `lu` is boolean |
| Inbox.TodayBounded | serveur.js:114-116 | messages created since midnight never out-number all messages |
| ServerProperties.CreateAcceptsWhitespace | serveur.js:84-92 | any non-empty fields made only of white space pass the check (201) and are stored exactly as given, unread |
| ServerProperties.CreateAddsOneUnread | serveur.js:84-91 | a successful submission grows the collection by one and the unread set by exactly the new id, leaving the read set alone |
| ServerProperties.NewestCreatedListedFirst | serveur.js:100 | a message created after every stored one heads the listing |
| ServerProperties.ToggleTwiceRestores | serveur.js:131 | two flips without a value restore a boolean `lu`, and with it the whole state |
| ServerProperties.ToggleTwiceFromMissing | serveur.js:131 | from a missing or null `lu`, the first flip writes true and the second false |
| ServerProperties.MarkReadMovesCounters | serveur.js:125-134 | marking an unread message read moves exactly its id from the unread set to the read set |
| ServerProperties.DeleteIdempotent | serveur.js:141-149 | deleting twice is deleting once, responses included |
| ServerProperties.DeletedIsGone | serveur.js:143 | after a delete, toggle and reply on that id answer 404 and the listing no longer shows it |
| ServerProperties.LoginFailuresIndistinguishable | serveur.js:165-169 | a wrong username and a wrong password produce identical responses |
| ServerProperties.DefaultCredentialsLogIn | serveur.js:154-166 | with no file and no environment settings, "admin" / "1234" logs in |
| ServerProperties.ChangeThenLogin | serveur.js:175-194 | after a successful change, the trimmed new password logs in and any other password is refused |
| ServerProperties.WhitespacePasswordLocksOut | serveur.js:188-193 | four spaces pass the length check but read back as "", after which no login and no password change can succeed |
| ServerProperties.EmptyPasswordLocksOut | serveur.js:159-184 | an empty stored password matches no filled login or current-password field |
| ServerProperties.EmptyReplyCheckedFirst | serveur.js:207 | an empty or missing response is refused with 400 whatever the id, configuration or transport |
| ServerProperties.ReplyReadIffSent | serveur.js:266-270 | with a known id and mail configured, the mail is built from the record; the record is read after a successful send and unchanged after a failed one |
| Server.Step | serveur.js:82-283 | only the password route writes the password file, only the reply route hands mail over, only creation and deletion change which ids exist, and listing, statistics and login change nothing |
| ServerProperties.StepKeepsContent | serveur.js:82-283 | no request edits the text or date of a stored message, and only a submission adds an id |
| ServerProperties.StepKeepsLuBoolean | serveur.js:131 | a request that does not send `isRead: null` keeps every `lu` boolean |
| ServerProperties.RunKeepsCountersBalanced | serveur.js:108-118 | from a collection with boolean `lu`, after any run of such requests `read + unread == total` |
| Dashboard.Normalise | message.js:267 | `lu` becomes the existing `lu`, else `isRead`, else false; no other field changes |
| Dashboard.NormaliseIdempotent | message.js:267 | normalising again changes nothing |
| Dashboard.Coerce | message.js:221-225 | an array payload is taken as is; otherwise its `messages` array is used; any other shape gives []; reading `.messages` of null fails |
| Dashboard.Load | message.js:207-229 | a successful load replaces the list with the normalised coerced payload; a failed one keeps the previous list |
| Dashboard.LoadNormalises | message.js:221-267 | after a successful load every message has a boolean `lu` |
| Dashboard.Keep | message.js:508-510 | `filter` keeps exactly the elements satisfying the predicate, in order, with their multiplicities |
| Dashboard.ApplyFilter | message.js:506-513 | "read" keeps exactly the messages with truthy `lu`, "unread" those with falsy `lu`, any other filter everything; every kept message keeps all its copies; the result is an ordered subsequence |
| Dashboard.Search | message.js:468-474 | a message is kept exactly when the lower-cased query occurs in its lower-cased name, address, subject or text (missing as ""), with all its copies; order is preserved |
| Dashboard.SearchEmptyKeepsAll | message.js:468-474 | an empty query keeps every message |
| Dashboard.HandlersAgree | message.js:466-501 | the search box and the filter buttons display the same list for the same query and filter |
| Dashboard.OnSearchInput | message.js:466-476 | the search box displays exactly the messages that match the query and pass the filter, each with all its copies, in their original order |
| Dashboard.OnFilterClick | message.js:486-501 | a filter button displays the messages that pass the filter and, when the lower-cased query is non-empty, match it; each with all its copies, in their original order |
| Dashboard.Preview | message.js:288 | the text before the card's "..." is the message text if at most 120 characters, else its first 120 |
| Dashboard.ToggleRequest | message.js:360 | the toggle request sends the negation of the current `lu` |
| Dashboard.AfterToggle | message.js:363-365 | the local copy flips only after an OK response, and nothing else changes |
| Dashboard.ClientToggleMatchesServerFlip | message.js:357-365 | when page and server agree on the read state, the explicit value sent stores what a server-side flip would, and the page's copy agrees again afterwards |
| Dashboard.PasswordFormCheck | message.js:647-655 | the form sends the request exactly when the confirmation matches and the new password has at least 4 characters, the mismatch being reported first |
| Dashboard.GuardedPasswordChange | message.js:647-662 | a request that passed the form never meets the server's too-short error; it succeeds exactly when the current password is right |
| Dashboard.ReplyFormCheck | message.js:427-431 | the reply is sent, trimmed and non-empty, exactly when the text is not all white space |
| Dashboard.GuardedReplyNotEmpty | message.js:427-442 | a reply that passed the box is never refused by the server as empty |
| Text.Trim | serveur.js:55 | `trim` yields the slice between white-space-only ends, and starts and ends with non-space |
| Text.TrimIdempotent | serveur.js:55 | trimming twice is trimming once |
| Text.TrimEmptyIff | message.js:427-428 | a string trims to "" exactly when it is all white space |
| Text.OrElse | serveur.js:57 | `x \|\| fallback`: the value when the field is present and non-empty (`Filled`, JavaScript truthiness), the fallback otherwise; every handler's falsy-field checks go through `Filled` |
| Text.JoinWith | message.js:698-699 | `Array.prototype.join`: no pieces give "", one piece gives itself, and the first piece starts the result; its contents are stated by Text.JoinSix and Text.SplitJoin |
| Text.JoinSix | message.js:698 | joining six pieces puts the separator between consecutive ones |
| Text.SplitJoin | message.js:699 | pieces free of the separator are recovered from their join by splitting on it |
| Text.IncludesIff | message.js:470 | `includes` holds exactly when the needle occurs at some position |
| Text.Lower | message.js:467 | lower-casing keeps the length, leaves no ASCII capital, turns each capital into its small letter and keeps every other character |
| CsvExport.Wrap | message.js:693 | wrapping puts one quote on each side of the unchanged text |
| CsvExport.Fields | message.js:691-698 | the six fields are date or "N/A", the quoted name, the address, the quoted subject, the message field (which a CSV reader reads back as the text) and "Lu"/"Non lu" by `lu` |
| CsvExport.DoubleQuotes | message.js:696 | doubling adds one character per quote, and a CSV reader recovers the original text from the result (so, for instance, `a""b` reads back as `a"b`) |
| CsvExport.UndoubleLength | message.js:693-696 | what a CSV reader recovers is shorter than the field's inside by one character per quote it produced |
| CsvExport.MessageFieldRoundTrip | message.js:696 | the message field reads back as the message text whatever it contains |
| CsvExport.WrappedFieldRoundTrip | message.js:693-695 | a name or subject without quotes reads back unchanged |
| CsvExport.WrappedQuoteNeverReadsBack | message.js:693-695 | a name or subject containing a quote never reads back unchanged |
| CsvExport.LoneQuoteIsMalformed | message.js:693 | the name `a"b` yields a field that the model's strict field reader (section 2 of RFC 4180) rejects; lenient readers may accept it |
| CsvExport.Row | message.js:691-698 | a line is the six fields in order with a comma between consecutive ones |
| CsvExport.Lines | message.js:689-699 | the header line, then one line per message in order |
| CsvExport.Export | message.js:683-699 | an empty list exports nothing; otherwise the file is the header line and the message lines joined by line breaks, starting with the header |
| CsvExport.RowHasSixColumns | message.js:691-698 | a line whose fields hold no comma splits back into exactly its six fields |
| CsvExport.ExportLines | message.js:689-699 | when no field holds a line break, the file splits into the header and exactly one line per message, in order |
| CsvExport.DoubleQuotesDoubled | message.js:696 | the escaped text is the text with each quote written twice |
| CsvExport.ReadFieldRoundTrip | message.js:693-697 | a field written quoted with doubled quotes, or bare when it needs no quoting, reads back as its value up to the next comma, line break or end |
| CsvExport.ReadRecordRoundTrip | message.js:698 | comma-joined encoded fields read back as the record of their values |
| CsvExport.ReadFileRoundTrip | message.js:699 | records joined by line breaks read back as the table of their values |
| CsvExport.ExportReadsBack | message.js:683-699 | a quote-aware reader recovers the header and, for each message in order, its date, name, address, subject, text and status, whatever the text holds (commas, quotes, line breaks) |
| Konami.Keydown | folio.js:440-450 | the position stays in 0..9; the expected key advances it by one; the tenth fires and resets to 0; any other key resets to 0 |
| Konami.MismatchNotRechecked | folio.js:447-449 | after two "ArrowUp", a third one resets to 0 instead of counting as a fresh start |
| Konami.FinalIsTypedPrefix | folio.js:440-450 | from 0, the position is the length of the run of code keys just typed |
| Konami.CodePrefixReaches | folio.js:441-442 | typing the first n code keys from 0 reaches position n |
| Konami.FiresOnlyAfterCode | folio.js:441-446 | the easter egg fires only on a key that completes the ten-key code |
| Konami.CodeFiresOnTenthKey | folio.js:437-446 | typing the code from 0 fires on the tenth key, never earlier, and leaves the position at 0 |
| Konami.ExtraUpNeverFires | folio.js:447-449 | "Up Up Up Down Down Left Right Left Right b a" never fires although its last ten keys are the code |
| ContactForm.Body | folio.js:210-213 | the body is the labelled name line first and the labelled message text last, with 24 characters of labels and line breaks around the three fields |
| ContactForm.Compose | folio.js:209-214 | the subject is `sujet` and the body is the labelled three-field body, which parses back into name, address and text when the first two are single-line |
| ContactForm.BodyRoundTrip | folio.js:210-214 | a body built from a single-line name and address reads back into the three fields |
| ContactForm.MultiLineNameIsAmbiguous | folio.js:211-212 | a line break in the name lets two different submissions produce the same body |

## Left out

- The canvas particle animations of both pages. They are floating-point physics driven by `Math.random` and `requestAnimationFrame`.
- DOM wiring, modals, notifications, menus, the confirm dialog, the refresh button and the timers. Only the values they compute are modelled.
- `openMessageModal`: the client looks up the clicked card's id in the loaded list. This is a DOM lookup with no decision logic.
- `fetch` and the Express and body-parser plumbing. Requests arrive already parsed into the `Request` datatype, and the HTTP status reaches the client model as an `ok` flag.
- The MongoDB connection, `process.exit` at start-up and `app.listen`.
- Storage and file-system failures, which the handlers report as 500 ("Erreur serveur", "Erreur lors de la modification"). The store and the password file are modelled as always available.
- Mongoose casting of body values. Fields are strings or absent; `isRead` is a boolean, `null` or absent. Other JSON types are not modelled.
- `updatedAt` from the schema's timestamps. Nothing reads it.
- The nodemailer transport and the HTML layout of the reply mail. The mail is modelled by its recipient, its subject and the response text it carries.
- The `details` field of the reply route's 500 body. It holds the transport's error message, which is outside the model.
- `toLocaleString('fr-FR')` date formatting. The CSV export takes a `formatDate` function parameter instead.
- `encodeURIComponent` on the `mailto:` subject and body. It is an encoding that does not change their meaning.
- The blob and file download at the end of `exportData`. The file name depends on the clock.
- The Konami `activateEasterEgg` effect itself. The model only records that it fired.
- `config.js` and the hard-coded `API_URL`. The former is a hostname switch that does not parse as written; the latter is a constant.
- Text.Lower: folds ASCII letters only. JavaScript's `toLowerCase` also folds non-ASCII letters, so the model's search finds fewer matches than the browser. For example, the query "é" matches a `nom` of "É" in the browser (message.js:467-473) but not in `Dashboard.MatchesQuery`.
- Dashboard.Preview: counts Unicode scalar values, whereas JavaScript's `substring` counts UTF-16 code units. Characters outside the Basic Multilingual Plane count as one here.
- Server.ChangePasswordCheck: counts Unicode scalar values for the minimum length of 4, for the same reason.
- Dashboard.PasswordFormCheck: counts Unicode scalar values for the minimum length of 4, whereas the page's `newPassword.length` counts UTF-16 code units.
- Server.List: lists each stored `lu` as the database holds it. When Mongoose loads a document that has no `lu` at all, it fills in the schema default `false`, so such a document reaches the page as unread and the page's `isRead` fallback never applies to it. The model's `Option<bool>` uses one value for a missing and a `null` field, so this load-time default is not modelled. `Server.Stats` counts the raw documents and is not affected.
- CsvExport.ExportLines: splits the file at every line break, so it covers only exports whose fields hold no line break. A message with a line break is ordinary input to `POST /api/messages`, which accepts any non-empty text. CsvExport.ExportReadsBack covers it, because it reads records with quotes honoured.
- CsvExport.ExportReadsBack: requires the date and the address to hold no comma, line break or quote, and the name and the subject to hold no quote. The export writes the first two bare and the last two without escaping. CsvExport.WrappedQuoteNeverReadsBack shows what a quote in a name does.
- CsvExport.RowHasSixColumns: covers only lines whose fields hold no comma. CsvExport.ExportReadsBack states the quote-aware reading that also covers commas inside quoted fields.
- Server.Stats: takes local midnight as an input rather than computing it from the clock and the time zone.
