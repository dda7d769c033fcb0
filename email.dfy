/** The address handling of services/email_service.py (app.py carries copies
    of `_split_emails`, `get_smtp_config`, `smtp_ok` and `send_email` that
    behave the same): splitting an address list, reading the SMTP settings,
    checking them, choosing the recipients and headers of a message, and
    gathering every known recipient. */
module Email {
  import opened Wrappers
  import opened Table
  import Text
  import Sorting

  // ---------------------------------------------------------------------------
  // _split_emails

  /** The separators of the pattern `[;,]\s*`. */
  predicate IsSep(c: char) {
    c == ';' || c == ','
  }

  /** `re.split(r"[;,]\s*", s)`: cut at every `;` or `,`, and let the cut
      swallow the whitespace that follows it. */
  function RegexSplit(s: string): (pieces: seq<string>)
    ensures |pieces| >= 1
    ensures forall k :: 0 <= k < |pieces| ==> Text.NoneOf(pieces[k], IsSep)
    decreases |s|
  {
    if s == [] then [[]]
    else if IsSep(s[0]) then [[]] + RegexSplit(Text.TrimLeft(s[1..]))
    else
      var rest := RegexSplit(s[1..]);
      [[s[0]] + rest[0]] + rest[1..]
  }

  /** `_split_emails(txt)`: nothing for empty text, otherwise the stripped,
      non-empty pieces, none holding a separator. */
  function SplitEmails(txt: string): (r: seq<string>)
    ensures txt == [] ==> r == []
    ensures forall k :: 0 <= k < |r| ==> r[k] != [] && Text.IsStripped(r[k]) && Text.NoneOf(r[k], IsSep)
  {
    if txt == [] then []
    else
      var pieces := RegexSplit(txt);
      Text.CleanPiecesAvoid(pieces, IsSep);
      Text.CleanPieces(pieces)
  }

  /** The regular expression splits like a plain cut at `;` and `,`, except
      that a piece after a separator loses its leading whitespace: the first
      pieces agree, and every other pair agrees once stripped. */
  lemma {:induction false} RegexSplitVersusSplit(s: string)
    ensures |RegexSplit(s)| == |Text.Split(s, IsSep)|
    ensures RegexSplit(s)[0] == Text.Split(s, IsSep)[0]
    ensures forall k :: 0 <= k < |RegexSplit(s)| ==> Text.Strip(RegexSplit(s)[k]) == Text.Strip(Text.Split(s, IsSep)[k])
    decreases |s|
  {
    if s != [] {
      var t := s[1..];
      if IsSep(s[0]) {
        var y := Text.TrimLeft(t);
        var w := t[..|t| - |y|];
        Text.TrimLeftRemovesSpace(t);
        assert t == w + y;
        RegexSplitVersusSplit(y);
        forall c | c in w ensures !IsSep(c) {
          var i :| 0 <= i < |w| && w[i] == c;
          assert Text.IsSpace(w[i]);
        }
        Text.SplitAfterPlain(w, y, IsSep);
        Text.StripSpacePrefix(w, Text.Split(y, IsSep)[0]);
      } else {
        RegexSplitVersusSplit(t);
      }
    }
  }

  /** `_split_emails` is the same as cutting at every `;` and `,` and keeping
      the stripped, non-empty pieces. */
  lemma SplitEmailsReference(txt: string)
    ensures SplitEmails(txt) == Text.CleanPieces(Text.Split(txt, IsSep))
  {
    if txt == [] {
      assert Text.Split([], IsSep) == [[]];
      assert Text.Strip([]) == [];
    } else {
      RegexSplitVersusSplit(txt);
      Text.CleanPiecesStripEqual(RegexSplit(txt), Text.Split(txt, IsSep));
    }
  }

  /** A separator-free prefix joins the first piece of the regular-expression
      split of what follows it. */
  lemma {:induction false} RegexSplitAfterPlain(x: string, rest: string)
    requires Text.NoneOf(x, IsSep)
    ensures RegexSplit(x + rest) == [x + RegexSplit(rest)[0]] + RegexSplit(rest)[1..]
  {
    if x != [] {
      assert (x + rest)[1..] == x[1..] + rest;
      assert x[0] in x;
      RegexSplitAfterPlain(x[1..], rest);
      assert [x[0]] + (x[1..] + RegexSplit(rest)[0]) == x + RegexSplit(rest)[0];
    } else {
      var pieces := RegexSplit(rest);
      assert x + rest == rest;
      assert x + pieces[0] == pieces[0];
      assert pieces == [pieces[0]] + pieces[1..];
    }
  }

  /** Addresses as they are written into a header: non-empty, stripped, and
      free of `;` and `,`. */
  predicate CleanAddresses(rs: seq<string>) {
    forall k :: 0 <= k < |rs| ==> rs[k] != [] && Text.IsStripped(rs[k]) && Text.NoneOf(rs[k], IsSep)
  }

  /** The regular-expression split of clean addresses joined by ", " gives
      them back. */
  lemma {:induction false} RegexSplitJoin(rs: seq<string>)
    requires rs != [] && CleanAddresses(rs)
    ensures RegexSplit(Text.Join(rs, ", ")) == rs
  {
    if |rs| == 1 {
      assert rs[0] + [] == rs[0];
      assert RegexSplit([]) == [[]];
      RegexSplitAfterPlain(rs[0], []);
    } else {
      var tail := Text.Join(rs[1..], ", ");
      RegexSplitJoin(rs[1..]);
      assert rs[1] != [] && !Text.IsSpace(rs[1][0]);
      assert tail != [] && tail[0] == rs[1][0] by {
        if |rs[1..]| == 1 {
          assert tail == rs[1];
        } else {
          assert tail == rs[1] + ", " + Text.Join(rs[2..], ", ");
        }
      }
      assert Text.TrimLeft(" " + tail) == tail by {
        assert (" " + tail)[1..] == tail;
      }
      assert (", " + tail)[1..] == " " + tail;
      assert RegexSplit(", " + tail) == [[]] + rs[1..];
      assert rs[0] + ", " + tail == rs[0] + (", " + tail);
      RegexSplitAfterPlain(rs[0], ", " + tail);
      assert rs[0] + [] == rs[0];
      assert rs == [rs[0]] + rs[1..];
    }
  }

  /** Splitting the `To` header again gives back the addresses it was made of. */
  lemma SplitEmailsJoin(rs: seq<string>)
    requires CleanAddresses(rs)
    ensures SplitEmails(Text.Join(rs, ", ")) == rs
  {
    if rs != [] {
      RegexSplitJoin(rs);
      Text.CleanPiecesOfClean(rs);
      assert Text.Join(rs, ", ") != [] by {
        if |rs| > 1 {
          assert Text.Join(rs, ", ") == rs[0] + ", " + Text.Join(rs[1..], ", ");
        }
      }
    }
  }

  // ---------------------------------------------------------------------------
  // get_smtp_config and smtp_ok

  /** A value of the `[smtp]` section of the secrets file. */
  datatype Secret = SText(text: string) | SInt(i: int) | SBool(b: bool)

  /** Python truthiness of a looked-up value; `None` is a missing key. */
  predicate Truthy(v: Option<Secret>) {
    match v
    case None => false
    case Some(SText(t)) => t != []
    case Some(SInt(i)) => i != 0
    case Some(SBool(b)) => b
  }

  /** `str(v)` */
  function SecretText(v: Secret): string {
    match v
    case SText(t) => t
    case SInt(i) => Text.ShowInt(i)
    case SBool(b) => if b then "True" else "False"
  }

  /** `int(v)`: text must be integer text (around which `int` ignores
      whitespace), a boolean is 0 or 1. */
  function SecretInt(v: Secret): (r: Option<int>)
    ensures v.SInt? ==> r == Some(v.i)
  {
    match v
    case SText(t) => Text.ParseInt(Text.Strip(t))
    case SInt(i) => Some(i)
    case SBool(b) => Some(if b then 1 else 0)
  }

  /** The dictionary `get_smtp_config` returns when reading succeeds. */
  datatype SmtpConfig = SmtpConfig(
    host: Option<Secret>, port: int, username: Option<Secret>, password: string,
    from: Option<Secret>, subjectPrefix: Secret, defaultTo: seq<string>, useSsl: bool)

  /** `get_smtp_config()` over the `[smtp]` section (`None` when the secrets
      have none). Any exception gives `{}`, here `None`: a missing section, a
      port `int` cannot convert, or a password that is not text. */
  function GetSmtpConfig(section: Option<map<string, Secret>>): (cfg: Option<SmtpConfig>)
    ensures cfg.Some? <==> && section.Some?
                           && (var s := section.value;
                               && ("port" in s ==> SecretInt(s["port"]).Some?)
                               && ("password" in s ==> s["password"].SText?))
    ensures cfg.Some? ==> ' ' !in cfg.value.password
    ensures cfg.Some? ==> var s := section.value;
              && cfg.value.port == (if "port" in s then SecretInt(s["port"]).value else 587)
              && cfg.value.host == (if "host" in s then Some(s["host"]) else None)
              && cfg.value.username == (if "user" in s then Some(s["user"]) else None)
              && cfg.value.from == (if "from" in s then Some(s["from"]) else None)
              && cfg.value.useSsl == Truthy(if "use_ssl" in s then Some(s["use_ssl"]) else None)
              && cfg.value.subjectPrefix == (if "subject_prefix" in s then s["subject_prefix"] else SText(""))
              && cfg.value.defaultTo == (if "to" in s && Truthy(Some(s["to"])) then SplitEmails(SecretText(s["to"])) else [])
  {
    if section.None? then None
    else
      var s := section.value;
      var port := if "port" in s then SecretInt(s["port"]) else Some(587);
      var password := if "password" in s then s["password"] else SText("");
      if port.None? || !password.SText? then None
      else
        var to := if "to" in s then Some(s["to"]) else None;
        Some(SmtpConfig(
          host := if "host" in s then Some(s["host"]) else None,
          port := port.value,
          username := if "user" in s then Some(s["user"]) else None,
          password := Text.RemoveSpaces(password.text),
          from := if "from" in s then Some(s["from"]) else None,
          subjectPrefix := if "subject_prefix" in s then s["subject_prefix"] else SText(""),
          defaultTo := if Truthy(to) then SplitEmails(SecretText(to.value)) else [],
          useSsl := Truthy(if "use_ssl" in s then Some(s["use_ssl"]) else None)))
  }

  /** The password keeps every character other than a space, in number. */
  lemma PasswordKeepsOthers(section: map<string, Secret>, c: char)
    requires GetSmtpConfig(Some(section)).Some? && "password" in section && c != ' '
    ensures multiset(GetSmtpConfig(Some(section)).value.password)[c] == multiset(section["password"].text)[c]
  {
    Text.RemoveSpacesKeepsOthers(section["password"].text, c);
  }

  /** The default recipients are always clean addresses, so they survive a
      round trip through a `To` header. */
  lemma DefaultRecipientsClean(section: Option<map<string, Secret>>)
    ensures GetSmtpConfig(section).Some? ==> CleanAddresses(GetSmtpConfig(section).value.defaultTo)
  {
  }

  /** `cfg.get(key)` for the keys `smtp_ok` asks for; `{}` has none of them. */
  function Field(cfg: Option<SmtpConfig>, key: string): Option<Secret> {
    match cfg
    case None => None
    case Some(c) =>
      if key == "host" then c.host
      else if key == "port" then Some(SInt(c.port))
      else if key == "username" then c.username
      else if key == "password" then Some(SText(c.password))
      else if key == "from" then c.from
      else None
  }

  const Required: seq<string> := ["host", "port", "username", "password", "from"]

  /** `smtp_ok()`: `all(cfg.get(k) for k in required)`. */
  predicate SmtpOk(cfg: Option<SmtpConfig>): (ok: bool)
    ensures ok ==> cfg.Some? && cfg.value.password != []
  {
    var ok := forall k :: 0 <= k < |Required| ==> Truthy(Field(cfg, Required[k]));
    assert ok ==> Truthy(Field(cfg, Required[3]));
    ok
  }

  /** `smtp_ok()` holds exactly when the settings were read and host, port,
      user, password and sender are all set and non-empty (the port
      non-zero); a settings failure makes it false. */
  lemma SmtpOkIff(cfg: Option<SmtpConfig>)
    ensures SmtpOk(cfg) <==> && cfg.Some?
                             && Truthy(cfg.value.host) && cfg.value.port != 0
                             && Truthy(cfg.value.username) && cfg.value.password != []
                             && Truthy(cfg.value.from)
  {
    if SmtpOk(cfg) {
      assert Truthy(Field(cfg, Required[0]));
      assert Truthy(Field(cfg, Required[1]));
      assert Truthy(Field(cfg, Required[2]));
      assert Truthy(Field(cfg, Required[3]));
      assert Truthy(Field(cfg, Required[4]));
    }
  }

  // ---------------------------------------------------------------------------
  // send_email

  /** `[e for e in xs if e and "@" in e]` */
  function WithAt(xs: seq<string>): (r: seq<string>)
    ensures forall e :: e in r <==> e in xs && '@' in e
  {
    if xs == [] then []
    else (if '@' in xs[0] then [xs[0]] else []) + WithAt(xs[1..])
  }

  /** `cfg.get("default_to", [])` */
  function DefaultTo(cfg: Option<SmtpConfig>): seq<string> {
    if cfg.Some? then cfg.value.defaultTo else []
  }

  /** `sorted({e for e in (to_emails or []) + default_to if e and "@" in e})`:
      the addresses with an `@`, each once, in increasing order. */
  function Recipients(toEmails: seq<string>, cfg: Option<SmtpConfig>): (r: seq<string>)
    ensures Sorting.StrictlySorted(r)
    ensures forall e :: e in r <==> (e in toEmails || e in DefaultTo(cfg)) && '@' in e
  {
    var candidates := WithAt(toEmails + DefaultTo(cfg));
    var r := Sorting.SortedSet(candidates);
    assert forall e :: e in r <==> e in Sorting.Elements(r);
    r
  }

  /** Why `send_email` raises: `RuntimeError("No recipients found.")`, a
      `KeyError` when the settings could not be read, or the `ValueError`
      `EmailMessage` raises for a header value of more than one line. */
  datatype SendError = NoRecipients | MissingSetting | HeaderLineBreak

  /** The headers `send_email` sets from its arguments and the settings. */
  datatype Message = Message(subject: string, to: string, from: Option<Secret>, useSsl: bool)

  /** The `Subject` value: the prefix in front when it is truthy. */
  function SubjectLine(subject: string, c: SmtpConfig): string {
    if Truthy(Some(c.subjectPrefix)) then SecretText(c.subjectPrefix) + subject else subject
  }

  /** The recipient and header logic of `send_email(subject, body, to_emails)`,
      up to the point where the message goes to the SMTP server. */
  function SendEmail(subject: string, toEmails: Option<seq<string>>, cfg: Option<SmtpConfig>): (r: Result<Message, SendError>)
    ensures var rs := Recipients(if toEmails.Some? then toEmails.value else [], cfg);
            && (r == Failure(NoRecipients) <==> rs == [])
            && (r == Failure(MissingSetting) <==> rs != [] && cfg.None?)
            && (r == Failure(HeaderLineBreak) <==>
                  rs != [] && cfg.Some? && (Text.MultiLine(SubjectLine(subject, cfg.value)) || Text.MultiLine(Text.Join(rs, ", "))))
            && (r.Success? ==> && r.value.to == Text.Join(rs, ", ")
                               && r.value.subject == SubjectLine(subject, cfg.value)
                               && r.value.from == cfg.value.from
                               && r.value.useSsl == cfg.value.useSsl)
  {
    var rs := Recipients(if toEmails.Some? then toEmails.value else [], cfg);
    if rs == [] then Failure(NoRecipients)
    else if cfg.None? then Failure(MissingSetting)
    else
      var c := cfg.value;
      var subjectLine := SubjectLine(subject, c);
      var to := Text.Join(rs, ", ");
      if Text.MultiLine(subjectLine) || Text.MultiLine(to) then Failure(HeaderLineBreak)
      else Success(Message(subject := subjectLine, to := to, from := c.from, useSsl := c.useSsl))
  }

  /** With settings, a one-line subject and recipients free of line breaks,
      `send_email` gets as far as the server; a recipient with a line break in
      its middle stops it. */
  lemma SendEmailHeaders(subject: string, toEmails: Option<seq<string>>, c: SmtpConfig)
    ensures var rs := Recipients(if toEmails.Some? then toEmails.value else [], Some(c));
            && (rs != [] && !Text.MultiLine(SubjectLine(subject, c))
                && (forall k :: 0 <= k < |rs| ==> Text.NoneOf(rs[k], Text.IsLineBreak))
                ==> SendEmail(subject, toEmails, Some(c)).Success?)
    ensures forall a, b :: a + "\n" + b in Recipients(if toEmails.Some? then toEmails.value else [], Some(c))
                           && Text.NoneOf(a, Text.IsLineBreak) && b != []
                           ==> SendEmail(subject, toEmails, Some(c)) == Failure(HeaderLineBreak)
  {
    var rs := Recipients(if toEmails.Some? then toEmails.value else [], Some(c));
    if rs != [] && forall k :: 0 <= k < |rs| ==> Text.NoneOf(rs[k], Text.IsLineBreak) {
      Text.JoinAvoids(rs, ", ", Text.IsLineBreak);
      Text.MultiLineCases(Text.Join(rs, ", "), []);
    }
    forall a, b | a + "\n" + b in rs && Text.NoneOf(a, Text.IsLineBreak) && b != []
      ensures SendEmail(subject, toEmails, Some(c)) == Failure(HeaderLineBreak)
    {
      JoinBreaks(rs, a + "\n" + b, a, b);
    }
  }

  /** A header value joined from addresses, one of which has a line break
      with text after it, spans more than one line. */
  lemma JoinBreaks(rs: seq<string>, e: string, a: string, b: string)
    requires e in rs && e == a + "\n" + b && Text.NoneOf(a, Text.IsLineBreak) && b != []
    ensures Text.MultiLine(Text.Join(rs, ", "))
  {
    var w := Text.Join(rs, ", ");
    var pre, post := JoinSplitAt(rs, e);
    assert w == pre + e + post;
    var i := |pre| + |a|;
    assert w[i] == '\n';
    assert w[i] != '\r' && i < |w| - 1;
  }

  /** An element of a joined list sits somewhere in the joined text. */
  lemma {:induction false} JoinSplitAt(rs: seq<string>, e: string) returns (pre: string, post: string)
    requires e in rs
    ensures Text.Join(rs, ", ") == pre + e + post
  {
    if |rs| == 1 {
      pre, post := [], [];
    } else if rs[0] == e {
      pre, post := [], ", " + Text.Join(rs[1..], ", ");
    } else {
      var p, q := JoinSplitAt(rs[1..], e);
      pre, post := rs[0] + ", " + p, q;
    }
  }

  /** The recipient list is the only strictly sorted list of exactly those
      addresses: `sorted(set(...))` leaves no choice. */
  lemma RecipientsDetermined(toEmails: seq<string>, cfg: Option<SmtpConfig>, other: seq<string>)
    requires Sorting.StrictlySorted(other)
    requires forall e :: e in other <==> (e in toEmails || e in DefaultTo(cfg)) && '@' in e
    ensures other == Recipients(toEmails, cfg)
  {
    var rs := Recipients(toEmails, cfg);
    assert Sorting.Elements(other) == Sorting.Elements(rs);
    Sorting.SortedDeterminedByElements(other, rs);
  }

  /** When the addresses are clean, the `To` header splits back into exactly
      the recipients. */
  lemma ToHeaderRoundTrip(subject: string, toEmails: Option<seq<string>>, cfg: Option<SmtpConfig>)
    requires SendEmail(subject, toEmails, cfg).Success?
    requires CleanAddresses(Recipients(if toEmails.Some? then toEmails.value else [], cfg))
    ensures SplitEmails(SendEmail(subject, toEmails, cfg).value.to)
            == Recipients(if toEmails.Some? then toEmails.value else [], cfg)
  {
    SplitEmailsJoin(Recipients(if toEmails.Some? then toEmails.value else [], cfg));
  }

  // ---------------------------------------------------------------------------
  // all_recipients

  /** A cell of the `email` column that the code cannot handle: `pd.NA`
      fails `if e`; `NaN` and a non-zero number pass it and then fail
      `"@" in e`. All of these raise `TypeError`. */
  predicate BadCell(c: Cell) {
    c.NA? || c.NaN? || (c.Num? && c.n != 0)
  }

  /** The texts of the cells `if e` keeps: non-empty strings. */
  function TextCells(cells: seq<Cell>): (r: seq<string>)
    ensures forall e :: e in r <==> e != [] && Str(e) in cells
  {
    if cells == [] then []
    else
      var rest := TextCells(cells[1..]);
      assert forall c :: c in cells <==> c == cells[0] || c in cells[1..];
      (if cells[0].Str? && cells[0].s != [] then [cells[0].s] else []) + rest
  }

  /** `emails_df["email"].tolist()` when the frame is non-empty and has that
      column, otherwise nothing. */
  function FileCells(emails: Frame<string>): seq<Cell> {
    if !Empty(emails) && "email" in emails.columns then Column(emails, "email") else []
  }

  /** `all_recipients(emails_df)`: the addresses with an `@` from the file and
      from the default recipients, each once, in increasing order; a cell
      that is neither text nor zero raises `TypeError`. */
  function AllRecipients(emails: Frame<string>, cfg: Option<SmtpConfig>): (r: Result<seq<string>, string>)
    ensures r.Failure? <==> exists c :: c in FileCells(emails) && BadCell(c)
    ensures r.Success? ==> Sorting.StrictlySorted(r.value)
    ensures r.Success? ==> forall e :: e in r.value <==> (Str(e) in FileCells(emails) || e in DefaultTo(cfg)) && '@' in e
  {
    var cells := FileCells(emails);
    if exists c :: c in cells && BadCell(c) then Failure("TypeError")
    else
      var rs := Recipients(TextCells(cells), cfg);
      assert forall e :: '@' in e ==> e != [];
      Success(rs)
  }

  /** Reading a file with no usable `email` column gives just the default
      recipients with an `@`, sorted and without repeats. */
  lemma AllRecipientsWithoutFile(emails: Frame<string>, cfg: Option<SmtpConfig>)
    requires Empty(emails) || "email" !in emails.columns
    ensures AllRecipients(emails, cfg) == Success(Recipients([], cfg))
  {
  }
}
