/** The public contact form of folio.js: the `mailto:` subject and plain-text
    body built from the four form fields, before URI encoding. */
module ContactForm {
  import opened Wrappers
  import opened Text

  /** The mail the visitor's client is asked to open. */
  datatype Draft = Draft(subject: string, body: string)

  const NomLabel := "Nom: "
  const EmailLabel := "Email: "
  const MessageLabel := "\nMessage:\n"

  /** `Nom: <nom>\nEmail: <email>\n\nMessage:\n<message>`: the labelled
      name line first, the message text last, and 24 characters of labels
      and line breaks around the three fields. */
  function Body(nom: string, email: string, message: string): (r: string)
    ensures |r| == |nom| + |email| + |message| + 24
    ensures NomLabel + nom + "\n" <= r
    ensures r[|r| - |message| - |MessageLabel|..] == MessageLabel + message
  {
    NomLabel + nom + "\n" + EmailLabel + email + "\n" + MessageLabel + message
  }

  /** The subject is the `sujet` field itself. */
  function Compose(nom: string, email: string, sujet: string, message: string): (d: Draft)
    ensures d.subject == sujet
    ensures d.body == Body(nom, email, message)
    ensures '\n' !in nom && '\n' !in email ==> ParseBody(d.body) == Some((nom, email, message))
  {
    var d := Draft(sujet, Body(nom, email, message));
    if '\n' !in nom && '\n' !in email then
      BodyRoundTrip(nom, email, message);
      d
    else d
  }

  /** Reads the three fields back from a body: the name and the address
      each end at the first line break after their label. */
  function ParseBody(body: string): Option<(string, string, string)> {
    if !StartsWith(body, NomLabel) then None
    else
      var rest := body[|NomLabel|..];
      match IndexOf(rest, '\n')
      case None => None
      case Some(i) =>
        match ParseAfterName(rest[i + 1..])
        case None => None
        case Some((email, message)) => Some((rest[..i], email, message))
  }

  /** The address and the text, from the line after the name on. */
  function ParseAfterName(r: string): Option<(string, string)> {
    if !StartsWith(r, EmailLabel) then None
    else
      var rest := r[|EmailLabel|..];
      match IndexOf(rest, '\n')
      case None => None
      case Some(j) =>
        var tail := rest[j + 1..];
        if !StartsWith(tail, MessageLabel) then None
        else Some((rest[..j], tail[|MessageLabel|..]))
  }

  lemma AfterNameRoundTrip(email: string, message: string)
    requires '\n' !in email
    ensures ParseAfterName(EmailLabel + email + "\n" + MessageLabel + message) == Some((email, message))
  {
    var tail := MessageLabel + message;
    var rest := email + "\n" + tail;
    assert EmailLabel + email + "\n" + MessageLabel + message == EmailLabel + rest;
    assert (EmailLabel + rest)[|EmailLabel|..] == rest;
    IndexOfAfter(email, '\n', tail);
    assert rest[|email| + 1..] == tail;
    assert rest[..|email|] == email;
    assert tail[|MessageLabel|..] == message;
  }

  /** A single-line name in front of a readable rest parses into the name
      and the rest's two fields. */
  lemma ParseAfterSingleLineName(nom: string, after: string, email: string, message: string)
    requires '\n' !in nom
    requires ParseAfterName(after) == Some((email, message))
    ensures ParseBody(NomLabel + nom + "\n" + after) == Some((nom, email, message))
  {
    var rest := nom + "\n" + after;
    var body := NomLabel + nom + "\n" + after;
    assert body == NomLabel + rest;
    assert body[|NomLabel|..] == rest;
    IndexOfAfter(nom, '\n', after);
    assert rest[|nom| + 1..] == after;
    assert rest[..|nom|] == nom;
  }

  lemma BodySplitsAfterName(nom: string, email: string, message: string)
    ensures Body(nom, email, message) == NomLabel + nom + "\n" + (EmailLabel + email + "\n" + MessageLabel + message)
  {
  }

  /** The body determines the fields when the name and the address are
      single-line. */
  lemma BodyRoundTrip(nom: string, email: string, message: string)
    requires '\n' !in nom && '\n' !in email
    ensures ParseBody(Body(nom, email, message)) == Some((nom, email, message))
  {
    var after := EmailLabel + email + "\n" + MessageLabel + message;
    BodySplitsAfterName(nom, email, message);
    AfterNameRoundTrip(email, message);
    ParseAfterSingleLineName(nom, after, email, message);
  }

  /** A line break in the name can make two different submissions produce
      the same mail body. */
  lemma MultiLineNameIsAmbiguous()
    ensures Body("x\nEmail: y", "z", "m") == Body("x", "y\nEmail: z", "m")
  {
  }
}
