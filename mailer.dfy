/** The mail side: composing the report email, sending it with credentials
    from the environment and a bounded number of attempts, and the command
    line entry point that chooses subject, body and table.

    Files in the working directory are a map from path to what reading them
    yields; a path absent from the map does not exist. The SMTP server is the
    sequence of outcomes its attempts would have. */
module Mailer {
  import opened Outcome
  import opened Strings
  import opened Dotenv
  import opened HtmlTable
  import Csv

  /** What `csv.reader` yields for an existing file with each dialect: its
      rows, or None when reading raises (undecodable text, a directory, a
      malformed quoted field). */
  datatype StoredFile = StoredFile(comma: Option<Csv.Table>, tab: Option<Csv.Table>)

  type Files = map<string, StoredFile>

  /** Index of the last occurrence of `c` in `s`, or -1 when there is none. */
  function LastIndex(s: string, c: char): (i: int)
    ensures -1 <= i < |s|
    ensures i >= 0 ==> s[i] == c
    ensures forall j :: i < j < |s| ==> s[j] != c
  {
    if s == [] then -1
    else if s[|s| - 1] == c then |s| - 1
    else LastIndex(s[..|s| - 1], c)
  }

  /** `Path(path).name`: the text after the last `/`. */
  function FinalComponent(path: string): (name: string)
    ensures '/' !in name
    ensures EndsWith(path, name)
    ensures name == path || path[|path| - |name| - 1] == '/'
  {
    path[LastIndex(path, '/') + 1..]
  }

  /** `Path.suffix` of a final component: from its last `.` on, when that dot
      is neither the first nor the last character; otherwise empty. */
  function Suffix(name: string): string
  {
    var i := LastIndex(name, '.');
    if 0 < i < |name| - 1 then name[i..] else ""
  }

  /** A table is read with the comma dialect when its suffix is `.csv`, with
      the tab dialect otherwise. */
  predicate CommaDialect(path: string)
  {
    Suffix(FinalComponent(path)) == ".csv"
  }

  /** The comma dialect is chosen exactly for a file name that ends in `.csv`
      and has something before it. */
  lemma CommaDialectIff(path: string)
    ensures var name := FinalComponent(path);
      CommaDialect(path) <==> |name| > 4 && EndsWith(name, ".csv")
  {
    CsvSuffixIff(FinalComponent(path));
  }

  lemma CsvSuffixIff(name: string)
    ensures Suffix(name) == ".csv" <==> |name| > 4 && EndsWith(name, ".csv")
  {
    var i := LastIndex(name, '.');
    if |name| > 4 && EndsWith(name, ".csv") {
      assert name[|name| - 4..] == ".csv";
      assert name[|name| - 4] == '.';
      assert forall j :: |name| - 4 < j < |name| ==> name[j] != '.' by {
        forall j | |name| - 4 < j < |name|
          ensures name[j] != '.'
        {
          assert name[j] == ".csv"[j - (|name| - 4)];
        }
      }
      assert i == |name| - 4;
    }
    if Suffix(name) == ".csv" {
      assert 0 < i < |name| - 1 && name[i..] == ".csv";
    }
  }

  /** The rows `build_message` reads for a table path: none without a path,
      for a path that does not exist, or when reading raises. */
  function TableRows(tablePath: Option<string>, files: Files): (rows: Csv.Table)
    ensures tablePath.None? || tablePath.value !in files ==> rows == []
  {
    if tablePath.None? || tablePath.value !in files then []
    else
      var stored := files[tablePath.value];
      var read := if CommaDialect(tablePath.value) then stored.comma else stored.tab;
      if read.Some? then read.value else []
  }

  /** An email: addresses, subject, the plain text part and, when there is a
      table, an HTML alternative. */
  datatype Message = Message(sender: string, receiver: string, subject: string, plain: string, html: Option<string>)

  /** The message `build_message` composes from the rows it read. */
  function MessageFor(sender: string, receiver: string, subject: string, body: string, rows: Csv.Table): (m: Message)
    ensures m.sender == sender && m.receiver == receiver && m.subject == subject
    ensures m.plain == body
    ensures m.html.None? <==> rows == []
  {
    Message(sender, receiver, subject, body, if rows == [] then None else Some(Join(HtmlLines(body, rows), "\n")))
  }

  /** `build_message`: the plain body always; the HTML table as an
      alternative only when the table exists and yields at least one row. */
  method BuildMessage(sender: string, receiver: string, subject: string, body: string, tablePath: Option<string>, files: Files)
    returns (msg: Message)
    ensures msg == MessageFor(sender, receiver, subject, body, TableRows(tablePath, files))
  {
    var rows: Csv.Table := [];
    if tablePath.Some? && tablePath.value in files {
      var stored := files[tablePath.value];
      var read := if CommaDialect(tablePath.value) then stored.comma else stored.tab;
      if read.Some? {
        rows := read.value;
      }
    }
    if rows != [] {
      var html := RenderHtml(body, rows);
      return Message(sender, receiver, subject, body, Some(Join(html, "\n")));
    }
    return Message(sender, receiver, subject, body, None);
  }

  /** The HTML part carries the table: reading its lines back gives the rows
      that were read from the file. */
  lemma MessageCarriesTable(sender: string, receiver: string, subject: string, body: string, tablePath: Option<string>, files: Files)
    ensures var rows := TableRows(tablePath, files);
      var m := MessageFor(sender, receiver, subject, body, rows);
      m.html.Some? ==> exists lines :: m.html.value == Join(lines, "\n") && ParseTable(lines) == rows
  {
    var rows := TableRows(tablePath, files);
    if rows != [] {
      RenderParseRoundTrip(body, rows);
      var lines := HtmlLines(body, rows);
      assert MessageFor(sender, receiver, subject, body, rows).html.value == Join(lines, "\n");
    }
  }

  /** How one SMTP attempt ends: the message is delivered, an SMTP error is
      raised, or some other exception is. */
  datatype Attempt = Delivered | SmtpFailure | OtherFailure

  datatype SendError = MissingAddresses | MissingPassword | RetriesExhausted

  /** A successful send: the message and the number of attempts it took. */
  datatype Delivery = Delivery(message: Message, attempts: nat)

  /** Python's `a or b` on optional strings. */
  function Or(a: Option<string>, b: Option<string>): (r: Option<string>)
    ensures Truthy(a) ==> r == a
    ensures !Truthy(a) ==> r == b
  {
    if Truthy(a) then a else b
  }

  /** The password: `SMTP_PASSWORD` unless it is unset or empty, then `APP_PASSWORD`. */
  function Password(vars: map<string, string>): Option<string>
  {
    Or(EnvGet(vars, "SMTP_PASSWORD"), EnvGet(vars, "APP_PASSWORD"))
  }

  /** The index of the first delivered attempt among the first `limit`, if any. */
  function FirstDelivered(outcomes: seq<Attempt>, limit: int): (r: Option<nat>)
    ensures r.Some? ==> r.value < limit && r.value < |outcomes| && outcomes[r.value] == Delivered
    ensures r.Some? ==> forall j :: 0 <= j < r.value ==> outcomes[j] != Delivered
    ensures r.None? ==> forall j :: 0 <= j < limit && j < |outcomes| ==> outcomes[j] != Delivered
    decreases |outcomes|
  {
    if limit <= 0 || outcomes == [] then None
    else if outcomes[0] == Delivered then Some(0)
    else
      match FirstDelivered(outcomes[1..], limit - 1)
      case None => None
      case Some(i) => Some(i + 1)
  }

  /** What `send_email_from_env` does: refuse without both addresses or
      without a password, before any attempt; otherwise succeed on the first
      delivered attempt among the first `maxRetries`, or give up. */
  function Sending(vars: map<string, string>, subject: string, body: string, tablePath: Option<string>, files: Files,
                   maxRetries: int, outcomes: seq<Attempt>): (r: Result<Delivery, SendError>)
    ensures r == Err(MissingAddresses) <==> !Truthy(EnvGet(vars, "SENDER_EMAIL")) || !Truthy(EnvGet(vars, "RECEIVER_EMAIL"))
    ensures r == Err(MissingPassword) <==>
      Truthy(EnvGet(vars, "SENDER_EMAIL")) && Truthy(EnvGet(vars, "RECEIVER_EMAIL")) && !Truthy(Password(vars))
    ensures r.Ok? ==> 1 <= r.value.attempts <= maxRetries && r.value.attempts <= |outcomes|
    ensures r.Ok? ==> outcomes[r.value.attempts - 1] == Delivered && forall j :: 0 <= j < r.value.attempts - 1 ==> outcomes[j] != Delivered
    ensures r.Ok? ==> (r.value.message ==
      MessageFor(EnvGet(vars, "SENDER_EMAIL").value, EnvGet(vars, "RECEIVER_EMAIL").value, subject, body, TableRows(tablePath, files)))
    ensures r == Err(RetriesExhausted) ==> forall j :: 0 <= j < maxRetries && j < |outcomes| ==> outcomes[j] != Delivered
  {
    var sender := EnvGet(vars, "SENDER_EMAIL");
    var receiver := EnvGet(vars, "RECEIVER_EMAIL");
    if !Truthy(sender) || !Truthy(receiver) then Err(MissingAddresses)
    else if !Truthy(Password(vars)) then Err(MissingPassword)
    else
      match FirstDelivered(outcomes, maxRetries)
      case None => Err(RetriesExhausted)
      case Some(i) => Ok(Delivery(MessageFor(sender.value, receiver.value, subject, body, TableRows(tablePath, files)), i + 1))
  }

  /** `send_email_from_env`: the checks, the message, then up to `maxRetries`
      attempts, each ending the loop on success. `outcomes` holds the outcome
      of every attempt the loop may make. */
  method SendEmailFromEnv(env: Environment, subject: string, body: string, tablePath: Option<string>, files: Files,
                          maxRetries: int, outcomes: seq<Attempt>) returns (r: Result<Delivery, SendError>)
    requires maxRetries <= |outcomes|
    ensures r == Sending(env.vars, subject, body, tablePath, files, maxRetries, outcomes)
  {
    var sender := EnvGet(env.vars, "SENDER_EMAIL");
    var receiver := EnvGet(env.vars, "RECEIVER_EMAIL");
    var password := Password(env.vars);
    if !Truthy(sender) || !Truthy(receiver) {
      return Err(MissingAddresses);
    }
    if !Truthy(password) {
      return Err(MissingPassword);
    }
    var msg := BuildMessage(sender.value, receiver.value, subject, body, tablePath, files);
    var attempt := 1;
    while attempt <= maxRetries
      invariant 1 <= attempt <= if maxRetries < 1 then 1 else maxRetries + 1
      invariant forall j :: 0 <= j < attempt - 1 ==> outcomes[j] != Delivered
    {
      if outcomes[attempt - 1] == Delivered {
        return Ok(Delivery(msg, attempt));
      }
      attempt := attempt + 1;
    }
    return Err(RetriesExhausted);
  }

  const DefaultSubject: string := "Report from alerting_mail"
  const DefaultBody: string := "Please find the attached report."
  const Candidates: seq<string> := ["table.csv", "table.tsv"]

  /** `arg or os.environ.get(key, default)`: a non-empty argument wins, then
      the variable (even when it is empty), then the default. */
  function ChooseText(arg: Option<string>, fromEnv: Option<string>, default: string): (r: string)
    ensures Truthy(arg) ==> r == arg.value
    ensures !Truthy(arg) && fromEnv.Some? ==> r == fromEnv.value
    ensures !Truthy(arg) && fromEnv.None? ==> r == default
  {
    if Truthy(arg) then arg.value else if fromEnv.Some? then fromEnv.value else default
  }

  /** The first candidate that exists, if any. */
  function FirstExisting(candidates: seq<string>, files: Files): (r: Option<string>)
    ensures r.Some? ==> r.value in files
    ensures r.Some? ==> exists i :: (0 <= i < |candidates| && candidates[i] == r.value &&
      forall j :: 0 <= j < i ==> candidates[j] !in files)
    ensures r.None? ==> forall i :: 0 <= i < |candidates| ==> candidates[i] !in files
    decreases |candidates|
  {
    if candidates == [] then None
    else if candidates[0] in files then Some(candidates[0])
    else
      var r := FirstExisting(candidates[1..], files);
      if r.Some? then
        var i :| 0 <= i < |candidates[1..]| && candidates[1..][i] == r.value &&
          forall j :: 0 <= j < i ==> candidates[1..][j] !in files;
        assert candidates[i + 1] == r.value;
        r
      else r
  }

  /** With no table given, `table.csv` is preferred to `table.tsv`; neither
      existing means no table. */
  lemma DetectedTable(files: Files)
    ensures "table.csv" in files ==> FirstExisting(Candidates, files) == Some("table.csv")
    ensures "table.csv" !in files && "table.tsv" in files ==> FirstExisting(Candidates, files) == Some("table.tsv")
    ensures "table.csv" !in files && "table.tsv" !in files ==> FirstExisting(Candidates, files) == None
  {
    assert Candidates[0] == "table.csv" && Candidates[1] == "table.tsv";
  }

  /** The table `_cli_main` picks: the `--table` argument when it is given
      and not empty; otherwise the first of `table.csv` and `table.tsv` that
      exists, or none. */
  method ChooseTable(arg: Option<string>, files: Files) returns (path: Option<string>)
    ensures Truthy(arg) ==> path == arg
    ensures !Truthy(arg) ==> path == FirstExisting(Candidates, files)
  {
    if Truthy(arg) {
      return arg;
    }
    path := None;
    var k := 0;
    while k < |Candidates|
      invariant 0 <= k <= |Candidates|
      invariant FirstExisting(Candidates[k..], files) == FirstExisting(Candidates, files)
    {
      assert Candidates[k..][0] == Candidates[k] && Candidates[k..][1..] == Candidates[k + 1..];
      if Candidates[k] in files {
        return Some(Candidates[k]);
      }
      k := k + 1;
    }
    assert Candidates[k..] == [];
  }

  /** The command line: `--send`, `--subject`, `--body`, `--table`. */
  datatype CliArgs = CliArgs(send: bool, subject: Option<string>, body: Option<string>, table: Option<string>)

  /** How the command ends when it does not raise: a preview only, or a sent email. */
  datatype CliOutcome =
    | Previewed(subject: string, body: string, table: Option<string>)
    | Sent(subject: string, body: string, table: Option<string>, delivery: Delivery)

  const CliRetries: int := 3

  /** `_cli_main`: load `.env`, choose subject, body and table, then stop
      after the preview unless `--send` is given, in which case send with at
      most three attempts. An error of the send is the command's error. */
  method CliMain(env: Environment, dotenv: Option<seq<string>>, args: CliArgs, files: Files, outcomes: seq<Attempt>)
    returns (r: Result<CliOutcome, SendError>)
    requires CliRetries <= |outcomes|
    modifies env
    ensures env.vars == Loading(old(env.vars), dotenv)
    ensures var subject := ChooseText(args.subject, EnvGet(env.vars, "SUBJECT"), DefaultSubject);
      var body := ChooseText(args.body, EnvGet(env.vars, "BODY"), DefaultBody);
      var table := if Truthy(args.table) then args.table else FirstExisting(Candidates, files);
      if !args.send then r == Ok(Previewed(subject, body, table))
      else
        match Sending(env.vars, subject, body, table, files, CliRetries, outcomes)
        case Ok(d) => r == Ok(Sent(subject, body, table, d))
        case Err(e) => r == Err(e)
  {
    LoadDotenv(env, dotenv);
    var subject := ChooseText(args.subject, EnvGet(env.vars, "SUBJECT"), DefaultSubject);
    var body := ChooseText(args.body, EnvGet(env.vars, "BODY"), DefaultBody);
    var table := ChooseTable(args.table, files);
    if !args.send {
      return Ok(Previewed(subject, body, table));
    }
    var sent := SendEmailFromEnv(env, subject, body, table, files, CliRetries, outcomes);
    match sent
    case Ok(d) => r := Ok(Sent(subject, body, table, d));
    case Err(e) => r := Err(e);
  }
}
