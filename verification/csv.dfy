/** The CSV file built by `exportData` in message.js: a header line and one
    line per message, joined with "\n", each line six comma-joined fields. */
module CsvExport {
  import opened Wrappers
  import opened Text
  import opened Dashboard

  /** The header line, `['Date', 'Nom', 'Email', 'Sujet', 'Message', 'Statut'].join(',')`. */
  const Header: string := "Date" + "," + "Nom" + "," + "Email" + "," + "Sujet" + "," + "Message" + "," + "Statut"
  const HeaderValues: seq<string> := ["Date", "Nom", "Email", "Sujet", "Message", "Statut"]

  /** `"` + s + `"`, the wrapping the export uses without escaping. */
  function Wrap(s: string): (r: string)
    ensures |r| == |s| + 2 && r[0] == '"' && r[|r| - 1] == '"' && r[1..|r| - 1] == s
  {
    "\"" + s + "\""
  }

  /** `s.replace(/"/g, '""')`: one extra character per quote, and a CSV
      reader recovers `s` from the result. */
  function DoubleQuotes(s: string): (r: string)
    ensures |r| == |s| + Quotes(s)
    ensures Undouble(r) == Some(s)
    decreases |s|
  {
    if s == [] then []
    else
      var rest := DoubleQuotes(s[1..]);
      assert s == [s[0]] + s[1..];
      if s[0] == '"' then
        assert ("\"\"" + rest)[2..] == rest;
        "\"\"" + rest
      else
        assert ([s[0]] + rest)[1..] == rest;
        [s[0]] + rest
  }

  /** The number of quotes in `s`. */
  function Quotes(s: string): nat
    decreases |s|
  {
    if s == [] then 0 else (if s[0] == '"' then 1 else 0) + Quotes(s[1..])
  }

  /** A string with a quote in it counts at least one. */
  lemma {:induction false} QuoteCounted(s: string)
    requires '"' in s
    ensures Quotes(s) > 0
    decreases |s|
  {
    if s[0] != '"' {
      assert s == [s[0]] + s[1..];
      QuoteCounted(s[1..]);
    }
  }

  /** Reads the inside of a quoted CSV field: `""` stands for one quote and
      a lone quote is malformed. */
  function Undouble(t: string): (r: Option<string>)
    decreases |t|
  {
    if t == [] then Some([])
    else if t[0] == '"' then
      if |t| >= 2 && t[1] == '"' then
        match Undouble(t[2..])
        case None => None
        case Some(rest) => Some("\"" + rest)
      else None
    else
      match Undouble(t[1..])
      case None => None
      case Some(rest) => Some([t[0]] + rest)
  }

  /** The value a CSV reader takes from a quoted field. */
  function UnquoteField(f: string): Option<string> {
    if |f| >= 2 && f[0] == '"' && f[|f| - 1] == '"' then Undouble(f[1..|f| - 1]) else None
  }

  /** Whatever a CSV reader recovers is shorter than what it read by one
      character per quote it produced. */
  lemma {:induction false} UndoubleLength(t: string)
    ensures Undouble(t).Some? ==> |t| == |Undouble(t).value| + Quotes(Undouble(t).value)
    decreases |t|
  {
    if t != [] {
      if t[0] == '"' {
        if |t| >= 2 && t[1] == '"' {
          UndoubleLength(t[2..]);
          if Undouble(t[2..]).Some? {
            var rest := Undouble(t[2..]).value;
            assert ("\"" + rest)[1..] == rest;
          }
        }
      } else {
        UndoubleLength(t[1..]);
        if Undouble(t[1..]).Some? {
          var rest := Undouble(t[1..]).value;
          assert ([t[0]] + rest)[1..] == rest;
        }
      }
    }
  }

  /** Text without quotes reads back unchanged. */
  lemma {:induction false} UndoubleQuoteFree(s: string)
    requires '"' !in s
    ensures Undouble(s) == Some(s)
    decreases |s|
  {
    if s != [] {
      UndoubleQuoteFree(s[1..]);
      assert [s[0]] + s[1..] == s;
    }
  }

  /** The message field survives a CSV reader whatever it contains. */
  lemma MessageFieldRoundTrip(s: string)
    ensures UnquoteField(Wrap(DoubleQuotes(s))) == Some(s)
  {
  }

  /** A quote-free name or subject survives the unescaped wrapping. */
  lemma WrappedFieldRoundTrip(s: string)
    requires '"' !in s
    ensures UnquoteField(Wrap(s)) == Some(s)
  {
    UndoubleQuoteFree(s);
  }

  /** A name or subject with a quote in it never reads back unchanged:
      `nom` and `sujet` are wrapped without doubling inner quotes. */
  lemma WrappedQuoteNeverReadsBack(s: string)
    requires '"' in s
    ensures UnquoteField(Wrap(s)) != Some(s)
  {
    assert UnquoteField(Wrap(s)) == Undouble(s);
    UndoubleLength(s);
    QuoteCounted(s);
  }

  /** A lone quote makes the field unreadable. */
  lemma LoneQuoteIsMalformed()
    ensures UnquoteField(Wrap("a\"b")) == None
  {
    assert Wrap("a\"b")[1..4] == "a\"b";
    assert Undouble("\"b") == None;
  }

  const Read := "Lu"
  const Unread := "Non lu"

  /** The six fields of one message's line. `formatDate` stands for
      `new Date(createdAt).toLocaleString('fr-FR')`. */
  function Fields(m: ClientMessage, formatDate: int -> string): (r: seq<string>)
    ensures |r| == 6
    ensures m.createdAt.Some? ==> r[0] == formatDate(m.createdAt.value)
    ensures m.createdAt.None? ==> r[0] == "N/A"
    ensures r[1] == Wrap(OrElse(m.nom, "N/A"))
    ensures r[2] == OrElse(m.email, "N/A")
    ensures r[3] == Wrap(OrElse(m.sujet, "N/A"))
    ensures r[4] == Wrap(DoubleQuotes(OrElse(m.message, "")))
    ensures UnquoteField(r[4]) == Some(OrElse(m.message, ""))
    ensures r[5] == (if LuTruthy(m) then Read else Unread)
  {
    MessageFieldRoundTrip(OrElse(m.message, ""));
    [ match m.createdAt case Some(t) => formatDate(t) case None => "N/A",
      Wrap(OrElse(m.nom, "N/A")),
      OrElse(m.email, "N/A"),
      Wrap(OrElse(m.sujet, "N/A")),
      Wrap(DoubleQuotes(OrElse(m.message, ""))),
      if LuTruthy(m) then Read else Unread ]
  }

  /** `[...].join(',')` on the six fields: each followed by a comma except
      the last. */
  function Row(m: ClientMessage, formatDate: int -> string): (r: string)
    ensures var f := Fields(m, formatDate);
      r == f[0] + "," + f[1] + "," + f[2] + "," + f[3] + "," + f[4] + "," + f[5]
  {
    var f := Fields(m, formatDate);
    JoinSix(f, ',');
    JoinWith(f, ',')
  }

  /** The header followed by one line per message. */
  function Lines(data: seq<ClientMessage>, formatDate: int -> string): (lines: seq<string>)
    ensures |lines| == |data| + 1 && lines[0] == Header
    ensures forall i :: 0 <= i < |data| ==> lines[i + 1] == Row(data[i], formatDate)
  {
    var rows := Rows(data, formatDate);
    assert forall i :: 0 <= i < |data| ==> ([Header] + rows)[i + 1] == rows[i];
    [Header] + rows
  }

  /** One line per message, in order. */
  function Rows(data: seq<ClientMessage>, formatDate: int -> string): (rows: seq<string>)
    ensures |rows| == |data|
    ensures forall i :: 0 <= i < |data| ==> rows[i] == Row(data[i], formatDate)
  {
    seq(|data|, i requires 0 <= i < |data| => Row(data[i], formatDate))
  }

  /** The export, or `None` ("Aucune donnée à exporter") for an empty list. */
  function Export(data: seq<ClientMessage>, formatDate: int -> string): (r: Option<string>)
    ensures r.None? <==> data == []
    ensures r.Some? ==> Header + "\n" <= r.value
    ensures r.Some? ==> r.value == JoinWith(Lines(data, formatDate), '\n')
  {
    if data == [] then None
    else
      var lines := Lines(data, formatDate);
      assert JoinWith(lines, '\n') == Header + "\n" + JoinWith(lines[1..], '\n');
      Some(JoinWith(lines, '\n'))
  }

  /** No field of the line contains `c`. */
  ghost predicate FieldsAvoid(m: ClientMessage, formatDate: int -> string, c: char) {
    forall k :: 0 <= k < 6 ==> c !in Fields(m, formatDate)[k]
  }

  /** A line whose fields hold no comma splits back into its six fields. */
  lemma RowHasSixColumns(m: ClientMessage, formatDate: int -> string)
    requires FieldsAvoid(m, formatDate, ',')
    ensures SplitOn(Row(m, formatDate), ',') == Fields(m, formatDate)
    ensures |SplitOn(Row(m, formatDate), ',')| == 6
  {
    SplitJoin(Fields(m, formatDate), ',');
  }

  lemma RowAvoids(m: ClientMessage, formatDate: int -> string)
    requires FieldsAvoid(m, formatDate, '\n')
    ensures '\n' !in Row(m, formatDate)
  {
    JoinWithAvoids(Fields(m, formatDate), ',', '\n');
  }

  /** When no field holds a line break, the file splits into the header
      followed by exactly one line per message, in order. */
  lemma ExportLines(data: seq<ClientMessage>, formatDate: int -> string)
    requires data != []
    requires forall i :: 0 <= i < |data| ==> FieldsAvoid(data[i], formatDate, '\n')
    ensures var lines := SplitOn(Export(data, formatDate).value, '\n');
      && |lines| == |data| + 1
      && lines[0] == Header
      && forall i :: 0 <= i < |data| ==> lines[i + 1] == Row(data[i], formatDate)
  {
    var lines := Lines(data, formatDate);
    forall k | 0 <= k < |lines|
      ensures '\n' !in lines[k]
    {
      if k > 0 {
        RowAvoids(data[k - 1], formatDate);
      }
    }
    SplitJoin(lines, '\n');
    assert Export(data, formatDate).value == JoinWith(lines, '\n');
  }

  // ---------------------------------------------------------------------
  // Reading the file back, record by record
  // ---------------------------------------------------------------------

  /** The inside of a quoted field, up to its closing quote: `""` stands
      for one quote. Gives the value and what follows the closing quote. */
  function ReadQuoted(t: string): (r: Option<(string, string)>)
    ensures r.Some? ==> |r.value.1| < |t|
    decreases |t|
  {
    if t == [] then None
    else if t[0] == '"' then
      if |t| >= 2 && t[1] == '"' then
        match ReadQuoted(t[2..])
        case None => None
        case Some((v, rest)) => Some(("\"" + v, rest))
      else Some(([], t[1..]))
    else
      match ReadQuoted(t[1..])
      case None => None
      case Some((v, rest)) => Some(([t[0]] + v, rest))
  }

  /** An unquoted field: everything up to the next comma or line break. */
  function ReadPlain(t: string): (r: (string, string))
    ensures |r.1| <= |t|
    decreases |t|
  {
    if t == [] || t[0] == ',' || t[0] == '\n' then ([], t)
    else
      var (v, rest) := ReadPlain(t[1..]);
      ([t[0]] + v, rest)
  }

  /** One field, quoted or not, and what follows it. */
  function ReadField(t: string): (r: Option<(string, string)>)
    ensures r.Some? ==> |r.value.1| <= |t|
  {
    if t != [] && t[0] == '"' then ReadQuoted(t[1..]) else Some(ReadPlain(t))
  }

  /** A record: fields separated by commas, ended by a line break or the
      end of the file, which is left in what follows. */
  function ReadRecord(t: string): (r: Option<(seq<string>, string)>)
    ensures r.Some? ==> |r.value.1| <= |t| && (r.value.1 == [] || r.value.1[0] == '\n')
    decreases |t|
  {
    match ReadField(t)
    case None => None
    case Some((v, rest)) =>
      if rest != [] && rest[0] == ',' then
        match ReadRecord(rest[1..])
        case None => None
        case Some((vs, after)) => Some(([v] + vs, after))
      else if rest == [] || rest[0] == '\n' then Some(([v], rest))
      else None
  }

  /** A whole file: records separated by line breaks. */
  function ReadFile(t: string): (r: Option<seq<seq<string>>>)
    decreases |t|
  {
    match ReadRecord(t)
    case None => None
    case Some((vs, rest)) =>
      if rest == [] then Some([vs])
      else
        match ReadFile(rest[1..])
        case None => None
        case Some(records) => Some([vs] + records)
  }

  /** A value that can stand in a line without quotes. */
  predicate PlainSafe(v: string) {
    ',' !in v && '\n' !in v && '"' !in v
  }

  /** `t` is `v` with every quote doubled. */
  predicate Doubled(t: string, v: string)
    decreases |v|
  {
    if v == [] then t == []
    else if v[0] == '"' then |t| >= 2 && t[0] == '"' && t[1] == '"' && Doubled(t[2..], v[1..])
    else |t| >= 1 && t[0] == v[0] && Doubled(t[1..], v[1..])
  }

  /** `f` is how the file writes the value `v`: between quotes with every
      inner quote doubled, or bare when nothing in `v` needs quoting. */
  predicate FieldEncodes(f: string, v: string) {
    || (|f| >= 2 && f[0] == '"' && f[|f| - 1] == '"' && Doubled(f[1..|f| - 1], v))
    || (f == v && PlainSafe(v))
  }

  /** What may follow a field: the end, a comma or a line break. */
  predicate FieldEnd(rest: string) {
    rest == [] || rest[0] == ',' || rest[0] == '\n'
  }

  lemma {:induction false} DoubleQuotesDoubled(v: string)
    ensures Doubled(DoubleQuotes(v), v)
    decreases |v|
  {
    if v != [] {
      DoubleQuotesDoubled(v[1..]);
      var rest := DoubleQuotes(v[1..]);
      if v[0] == '"' {
        assert ("\"\"" + rest)[2..] == rest;
      } else {
        assert ([v[0]] + rest)[1..] == rest;
      }
    }
  }

  lemma {:induction false} ReadQuotedRoundTrip(t: string, v: string, rest: string)
    requires Doubled(t, v)
    requires rest == [] || rest[0] != '"'
    ensures ReadQuoted(t + "\"" + rest) == Some((v, rest))
    decreases |v|
  {
    var u := t + "\"" + rest;
    if v == [] {
      assert u == "\"" + rest;
      assert u[1..] == rest;
    } else if v[0] == '"' {
      ReadQuotedRoundTrip(t[2..], v[1..], rest);
      assert u[2..] == t[2..] + "\"" + rest;
      assert v == "\"" + v[1..];
    } else {
      ReadQuotedRoundTrip(t[1..], v[1..], rest);
      assert u[1..] == t[1..] + "\"" + rest;
      assert v == [v[0]] + v[1..];
    }
  }

  lemma {:induction false} ReadPlainRoundTrip(v: string, rest: string)
    requires ',' !in v && '\n' !in v
    requires FieldEnd(rest)
    ensures ReadPlain(v + rest) == (v, rest)
    decreases |v|
  {
    if v == [] {
      assert v + rest == rest;
    } else {
      ReadPlainRoundTrip(v[1..], rest);
      assert (v + rest)[1..] == v[1..] + rest;
      assert v == [v[0]] + v[1..];
    }
  }

  /** A quoted field reads back as its value. */
  lemma ReadQuotedFieldRoundTrip(inner: string, v: string, rest: string)
    requires Doubled(inner, v) && FieldEnd(rest)
    ensures ReadField("\"" + inner + "\"" + rest) == Some((v, rest))
  {
    ReadQuotedRoundTrip(inner, v, rest);
    assert ("\"" + inner + "\"" + rest)[1..] == inner + "\"" + rest;
  }

  /** Every encoded field reads back as its value. */
  lemma ReadFieldRoundTrip(f: string, v: string, rest: string)
    requires FieldEncodes(f, v) && FieldEnd(rest)
    ensures ReadField(f + rest) == Some((v, rest))
  {
    if |f| >= 2 && f[0] == '"' && f[|f| - 1] == '"' && Doubled(f[1..|f| - 1], v) {
      var inner := f[1..|f| - 1];
      assert f == "\"" + inner + "\"";
      ReadQuotedFieldRoundTrip(inner, v, rest);
    } else {
      ReadPlainRoundTrip(v, rest);
    }
  }

  /** The fields of `fs` write the values of `vs`, one for one. */
  ghost predicate RecordEncodes(fs: seq<string>, vs: seq<string>) {
    |fs| == |vs| >= 1 && forall k :: 0 <= k < |fs| ==> FieldEncodes(fs[k], vs[k])
  }

  /** A field followed by a comma and a record reads as that field's value
      in front of the record's. */
  lemma ReadRecordStep(f: string, v: string, more: string, vs: seq<string>, rest: string)
    requires FieldEncodes(f, v)
    requires ReadRecord(more) == Some((vs, rest))
    ensures ReadRecord(f + ("," + more)) == Some(([v] + vs, rest))
  {
    ReadFieldRoundTrip(f, v, "," + more);
    assert ("," + more)[1..] == more;
  }

  /** A last field reads as a one-value record. */
  lemma ReadRecordLast(f: string, v: string, rest: string)
    requires FieldEncodes(f, v)
    requires rest == [] || rest[0] == '\n'
    ensures ReadRecord(f + rest) == Some(([v], rest))
  {
    ReadFieldRoundTrip(f, v, rest);
  }

  lemma RecordEncodesTail(fs: seq<string>, vs: seq<string>)
    requires RecordEncodes(fs, vs) && |fs| >= 2
    ensures RecordEncodes(fs[1..], vs[1..])
  {
    forall k | 0 <= k < |fs| - 1
      ensures FieldEncodes(fs[1..][k], vs[1..][k])
    {
      assert fs[1..][k] == fs[k + 1];
    }
  }

  lemma JoinCons(fs: seq<string>, sep: char, rest: string)
    requires |fs| >= 2
    ensures JoinWith(fs, sep) + rest == fs[0] + ([sep] + (JoinWith(fs[1..], sep) + rest))
  {
  }

  lemma {:induction false} ReadRecordRoundTrip(fs: seq<string>, vs: seq<string>, rest: string)
    requires RecordEncodes(fs, vs)
    requires rest == [] || rest[0] == '\n'
    ensures ReadRecord(JoinWith(fs, ',') + rest) == Some((vs, rest))
    decreases |fs|
  {
    if |fs| == 1 {
      ReadRecordLast(fs[0], vs[0], rest);
      assert vs == [vs[0]];
    } else {
      JoinCons(fs, ',', rest);
      RecordEncodesTail(fs, vs);
      ReadRecordRoundTrip(fs[1..], vs[1..], rest);
      ReadRecordStep(fs[0], vs[0], JoinWith(fs[1..], ',') + rest, vs[1..], rest);
      assert vs == [vs[0]] + vs[1..];
    }
  }

  /** Each record written as its comma-joined fields. */
  function JoinRecords(fss: seq<seq<string>>): (lines: seq<string>)
    ensures |lines| == |fss|
    ensures forall i :: 0 <= i < |fss| ==> lines[i] == JoinWith(fss[i], ',')
  {
    seq(|fss|, i requires 0 <= i < |fss| => JoinWith(fss[i], ','))
  }

  lemma {:induction false} ReadFileRoundTrip(fss: seq<seq<string>>, vss: seq<seq<string>>)
    requires |fss| == |vss| >= 1
    requires forall i :: 0 <= i < |fss| ==> RecordEncodes(fss[i], vss[i])
    ensures ReadFile(JoinWith(JoinRecords(fss), '\n')) == Some(vss)
    decreases |fss|
  {
    var lines := JoinRecords(fss);
    if |fss| == 1 {
      ReadRecordRoundTrip(fss[0], vss[0], []);
      assert JoinWith(lines, '\n') + [] == JoinWith(fss[0], ',');
      assert vss == [vss[0]];
    } else {
      var more := JoinWith(lines[1..], '\n');
      assert JoinRecords(fss[1..]) == lines[1..];
      ReadRecordRoundTrip(fss[0], vss[0], "\n" + more);
      assert JoinWith(lines, '\n') == JoinWith(fss[0], ',') + ("\n" + more);
      assert ("\n" + more)[1..] == more;
      ReadFileRoundTrip(fss[1..], vss[1..]);
      assert vss == [vss[0]] + vss[1..];
    }
  }

  /** The values a reader should find on one message's line. */
  function Values(m: ClientMessage, formatDate: int -> string): (vs: seq<string>)
    ensures |vs| == 6
  {
    [ match m.createdAt case Some(t) => formatDate(t) case None => "N/A",
      OrElse(m.nom, "N/A"),
      OrElse(m.email, "N/A"),
      OrElse(m.sujet, "N/A"),
      OrElse(m.message, ""),
      if LuTruthy(m) then Read else Unread ]
  }

  /** What the export writes bare or unescaped is safe there: the date and
      the address hold no comma, line break or quote, and the name and the
      subject hold no quote. The message text may hold anything. */
  predicate ExportSafe(m: ClientMessage, formatDate: int -> string) {
    && (m.createdAt.Some? ==> PlainSafe(formatDate(m.createdAt.value)))
    && PlainSafe(OrElse(m.email, "N/A"))
    && '"' !in OrElse(m.nom, "N/A")
    && '"' !in OrElse(m.sujet, "N/A")
  }

  lemma {:induction false} DoubleQuotesQuoteFree(s: string)
    requires '"' !in s
    ensures DoubleQuotes(s) == s
    decreases |s|
  {
    if s != [] {
      assert s == [s[0]] + s[1..];
      DoubleQuotesQuoteFree(s[1..]);
    }
  }

  lemma PlainEncodes(v: string)
    requires PlainSafe(v)
    ensures FieldEncodes(v, v)
  {
  }

  lemma QuotedEncodes(v: string)
    ensures FieldEncodes(Wrap(DoubleQuotes(v)), v)
  {
    DoubleQuotesDoubled(v);
  }

  /** The date field, and the status field, are written bare. */
  lemma DateAndStatusEncode(m: ClientMessage, formatDate: int -> string)
    requires m.createdAt.Some? ==> PlainSafe(formatDate(m.createdAt.value))
    ensures FieldEncodes(Fields(m, formatDate)[0], Values(m, formatDate)[0])
    ensures FieldEncodes(Fields(m, formatDate)[5], Values(m, formatDate)[5])
  {
    var d := Values(m, formatDate)[0];
    assert PlainSafe("N/A") && PlainSafe(Read) && PlainSafe(Unread);
    PlainEncodes(d);
    PlainEncodes(Values(m, formatDate)[5]);
  }

  /** The name, the address, the subject and the text are written as
      their values. */
  lemma MiddleFieldsEncode(m: ClientMessage, formatDate: int -> string)
    requires ExportSafe(m, formatDate)
    ensures forall k :: 1 <= k < 5 ==> FieldEncodes(Fields(m, formatDate)[k], Values(m, formatDate)[k])
  {
    var nom := OrElse(m.nom, "N/A");
    var sujet := OrElse(m.sujet, "N/A");
    DoubleQuotesQuoteFree(nom);
    DoubleQuotesQuoteFree(sujet);
    QuotedEncodes(nom);
    QuotedEncodes(sujet);
    QuotedEncodes(OrElse(m.message, ""));
    PlainEncodes(OrElse(m.email, "N/A"));
  }

  lemma FieldsEncode(m: ClientMessage, formatDate: int -> string)
    requires ExportSafe(m, formatDate)
    ensures RecordEncodes(Fields(m, formatDate), Values(m, formatDate))
  {
    MiddleFieldsEncode(m, formatDate);
    DateAndStatusEncode(m, formatDate);
  }

  lemma HeaderJoins()
    ensures JoinWith(HeaderValues, ',') == Header
  {
    JoinSix(HeaderValues, ',');
  }

  lemma HeaderEncodes()
    ensures RecordEncodes(HeaderValues, HeaderValues)
  {
    assert PlainSafe("Date") && PlainSafe("Nom") && PlainSafe("Email");
    assert PlainSafe("Sujet") && PlainSafe("Message") && PlainSafe("Statut");
  }

  /** The header's values, then each message's fields as written. */
  function FieldTable(data: seq<ClientMessage>, formatDate: int -> string): (fss: seq<seq<string>>)
    ensures |fss| == |data| + 1 && fss[0] == HeaderValues
    ensures forall i :: 0 <= i < |data| ==> fss[i + 1] == Fields(data[i], formatDate)
  {
    [HeaderValues] + seq(|data|, i requires 0 <= i < |data| => Fields(data[i], formatDate))
  }

  /** The header's values, then each message's values. */
  function ValueTable(data: seq<ClientMessage>, formatDate: int -> string): (vss: seq<seq<string>>)
    ensures |vss| == |data| + 1 && vss[0] == HeaderValues
    ensures forall i :: 0 <= i < |data| ==> vss[i + 1] == Values(data[i], formatDate)
  {
    [HeaderValues] + seq(|data|, i requires 0 <= i < |data| => Values(data[i], formatDate))
  }

  lemma LinesJoinFields(data: seq<ClientMessage>, formatDate: int -> string)
    ensures JoinRecords(FieldTable(data, formatDate)) == Lines(data, formatDate)
  {
    var joined := JoinRecords(FieldTable(data, formatDate));
    var lines := Lines(data, formatDate);
    HeaderJoins();
    forall i | 0 <= i < |lines|
      ensures joined[i] == lines[i]
    {
      if i > 0 {
        assert joined[i] == Row(data[i - 1], formatDate);
      }
    }
  }

  lemma TableEncodes(data: seq<ClientMessage>, formatDate: int -> string)
    requires forall i :: 0 <= i < |data| ==> ExportSafe(data[i], formatDate)
    ensures forall i :: 0 <= i < |data| + 1 ==>
              RecordEncodes(FieldTable(data, formatDate)[i], ValueTable(data, formatDate)[i])
  {
    var fss := FieldTable(data, formatDate);
    var vss := ValueTable(data, formatDate);
    forall i | 0 <= i < |data| + 1
      ensures RecordEncodes(fss[i], vss[i])
    {
      if i == 0 {
        HeaderEncodes();
      } else {
        FieldsEncode(data[i - 1], formatDate);
      }
    }
  }

  /** A quote-aware reader recovers the whole table from the file: the
      header, then each message's six values in order, whatever its text
      holds (commas, quotes, line breaks), as long as the fields written
      bare or unescaped are safe there. */
  lemma ExportReadsBack(data: seq<ClientMessage>, formatDate: int -> string)
    requires data != []
    requires forall i :: 0 <= i < |data| ==> ExportSafe(data[i], formatDate)
    ensures ReadFile(Export(data, formatDate).value) == Some(ValueTable(data, formatDate))
  {
    TableEncodes(data, formatDate);
    LinesJoinFields(data, formatDate);
    ReadFileRoundTrip(FieldTable(data, formatDate), ValueTable(data, formatDate));
  }
}
