/** xp_notifier.py: for every tracked character, find yesterday's row in the
    character's XP table and turn it into one line of a report, then put the
    report together under a header. The fetched page is an input: a response
    is either the table rows of the page or the reason the request failed. */
module XpNotifier {
  import opened Wrappers
  import opened Text

  /** What `requests.get` plus `raise_for_status` gave for one character. */
  datatype Response = Fetched(rows: seq<Row>) | RequestFailed(reason: string)

  /** The one exception that escapes: `IndexError` from `.split()[0]` on a
      date cell that is blank after stripping. */
  datatype Raised = IndexError

  /** `CHARACTERS`. */
  const Characters: seq<string> := ["Ilumine", "Kamikedzei", "Hex good", "Jay the pally", "Zanron the monk"]

  // ---------------------------------------------------------------------------
  // fetch_character_xp

  /** `cols[0].text.strip().split()[0]`, or `None` where that raises. */
  function DateToken(cell: string): Option<string> {
    FirstToken(Strip(cell))
  }

  /** `f"- {name}: {xp_gained} XP"` */
  function XpLine(name: string, xp: string): string {
    "- " + name + ": " + xp + " XP"
  }

  /** `f"- {name}: ⚠️ No XP data for {yesterday}"` */
  function NoDataLine(name: string, yesterday: string): string {
    "- " + name + ": \U{26A0}\U{FE0F} No XP data for " + yesterday
  }

  /** `f"- {name}: ❌ Failed to fetch data ({e})"` */
  function FailureLine(name: string, reason: string): string {
    "- " + name + ": \U{274C} Failed to fetch data (" + reason + ")"
  }

  /** The scan over `rows`, front to back: rows with fewer than three cells
      are passed over, a blank date raises, the first row dated `yesterday`
      gives its stripped third cell, and running out of rows gives the
      no-data line. */
  function Scan(name: string, rows: seq<Row>, yesterday: string): Result<string, Raised> {
    if rows == [] then
      Success(NoDataLine(name, yesterday))
    else if |rows[0]| < 3 then
      Scan(name, rows[1..], yesterday)
    else
      match DateToken(rows[0][0])
      case None => Failure(IndexError)
      case Some(date) =>
        if date == yesterday then Success(XpLine(name, Strip(rows[0][2])))
        else Scan(name, rows[1..], yesterday)
  }

  /** `fetch_character_xp(name)` given the response its request got. */
  function FetchLine(name: string, response: Response, yesterday: string): Result<string, Raised> {
    match response
    case RequestFailed(reason) => Success(FailureLine(name, reason))
    case Fetched(rows) => Scan(name, rows, yesterday)
  }

  /** A row that ends the scan: three cells or more, and a date that either
      raises or is `yesterday`. */
  predicate Decisive(row: Row, yesterday: string) {
    |row| >= 3 && (DateToken(row[0]).None? || DateToken(row[0]) == Some(yesterday))
  }

  /** The first row that ends the scan, or `|rows|` when none does. */
  function FirstDecisive(rows: seq<Row>, yesterday: string): (k: nat)
    ensures k <= |rows|
    ensures forall j :: 0 <= j < k ==> !Decisive(rows[j], yesterday)
    ensures k < |rows| ==> Decisive(rows[k], yesterday)
  {
    if rows == [] then 0
    else if Decisive(rows[0], yesterday) then 0
    else 1 + FirstDecisive(rows[1..], yesterday)
  }

  /** The scan's result is decided by the first decisive row alone: no such
      row gives the no-data line, a blank date raises, and a row dated
      `yesterday` gives the line with its stripped third cell, whatever rows
      come after it. */
  lemma {:induction false} ScanByFirstDecisive(name: string, rows: seq<Row>, yesterday: string)
    ensures var k := FirstDecisive(rows, yesterday);
            Scan(name, rows, yesterday) ==
              if k == |rows| then Success(NoDataLine(name, yesterday))
              else if DateToken(rows[k][0]).None? then Failure(IndexError)
              else Success(XpLine(name, Strip(rows[k][2])))
  {
    if rows != [] && !Decisive(rows[0], yesterday) {
      ScanByFirstDecisive(name, rows[1..], yesterday);
    }
  }

  /** A row with fewer than three cells never changes the scan, whatever its
      cells hold. */
  lemma {:induction false} ShortRowsSkipped(name: string, rows: seq<Row>, i: nat, yesterday: string)
    requires i < |rows| && |rows[i]| < 3
    ensures Scan(name, rows, yesterday) == Scan(name, rows[..i] + rows[i + 1..], yesterday)
  {
    if i == 0 {
      assert rows[..0] + rows[1..] == rows[1..];
    } else {
      ShortRowsSkipped(name, rows[1..], i - 1, yesterday);
      assert rows[1..][..i - 1] + rows[1..][i..] == (rows[..i] + rows[i + 1..])[1..];
    }
  }

  /** The rows from `k` on are scanned the same way as the whole table when
      no row before `k` ends the scan. */
  lemma {:induction false} ScanSuffix(name: string, rows: seq<Row>, k: nat, yesterday: string)
    requires k <= |rows|
    requires forall j :: 0 <= j < k ==> !Decisive(rows[j], yesterday)
    ensures Scan(name, rows, yesterday) == Scan(name, rows[k..], yesterday)
  {
    if k > 0 {
      assert rows[1..][k - 1..] == rows[k..];
      ScanSuffix(name, rows[1..], k - 1, yesterday);
    }
  }

  /** The `for row in rows` loop of `fetch_character_xp`, with the request's
      outcome taken as an input. */
  method FetchCharacterXp(name: string, response: Response, yesterday: string) returns (r: Result<string, Raised>)
    ensures r == FetchLine(name, response, yesterday)
  {
    if response.RequestFailed? {
      return Success(FailureLine(name, response.reason));
    }
    var rows := response.rows;
    for k := 0 to |rows|
      invariant forall j :: 0 <= j < k ==> !Decisive(rows[j], yesterday)
    {
      var cols := rows[k];
      if |cols| >= 3 {
        var dateText := DateToken(cols[0]);
        if dateText.None? {
          ScanSuffix(name, rows, k, yesterday);
          return Failure(IndexError);
        }
        var xpGained := Strip(cols[2]);
        if dateText.value == yesterday {
          ScanSuffix(name, rows, k, yesterday);
          return Success(XpLine(name, xpGained));
        }
      }
    }
    ScanSuffix(name, rows, |rows|, yesterday);
    return Success(NoDataLine(name, yesterday));
  }

  // ---------------------------------------------------------------------------
  // build_report

  /** `f"📊 **Tibia XP Gains – {yesterday}**"` */
  function Header(yesterday: string): string {
    "\U{1F4CA} **Tibia XP Gains \U{2013} " + yesterday + "**"
  }

  /** The lines of `characters`, each followed by `"\n"`, as the loop of
      `build_report` appends them; the first line that raises aborts it. */
  function Body(characters: seq<string>, respond: string -> Response, yesterday: string): Result<string, Raised> {
    if characters == [] then
      Success("")
    else
      var n := |characters| - 1;
      match Body(characters[..n], respond, yesterday)
      case Failure(e) => Failure(e)
      case Success(b) =>
        match FetchLine(characters[n], respond(characters[n]), yesterday)
        case Failure(e) => Failure(e)
        case Success(line) => Success(b + line + "\n")
  }

  /** `"\n".join(lines)` */
  function JoinLines(lines: seq<string>): string {
    if lines == [] then ""
    else if |lines| == 1 then lines[0]
    else JoinLines(lines[..|lines| - 1]) + "\n" + lines[|lines| - 1]
  }

  /** `build_report()`, with the roster, the responses and yesterday's date
      as inputs: the header, then one line per character in roster order,
      with the surrounding whitespace stripped; or the `IndexError` a line
      raised. */
  method BuildReport(characters: seq<string>, respond: string -> Response, yesterday: string) returns (r: Result<string, Raised>)
    ensures Body(characters, respond, yesterday).Failure? ==> r == Failure(IndexError)
    ensures Body(characters, respond, yesterday).Success? ==>
              r == Success(Strip(Header(yesterday) + "\n" + Body(characters, respond, yesterday).value))
  {
    var report := Header(yesterday) + "\n";
    for k := 0 to |characters|
      invariant Reported(characters, respond, yesterday, k, report)
    {
      var line := FetchCharacterXp(characters[k], respond(characters[k]), yesterday);
      ReportStep(characters, respond, yesterday, k, report);
      if line.Failure? {
        BodyFailurePersists(characters, k + 1, respond, yesterday);
        return Failure(IndexError);
      }
      report := report + line.value + "\n";
    }
    assert characters[..|characters|] == characters;
    return Success(Strip(report));
  }

  /** The report after the first `k` characters of the roster. */
  predicate Reported(characters: seq<string>, respond: string -> Response, yesterday: string, k: nat, report: string) {
    k <= |characters|
    && Body(characters[..k], respond, yesterday).Success?
    && report == Header(yesterday) + "\n" + Body(characters[..k], respond, yesterday).value
  }

  /** One turn of the report loop: the next character's line either raises,
      and so does the report up to it, or is appended with its newline. */
  lemma ReportStep(characters: seq<string>, respond: string -> Response, yesterday: string, k: nat, report: string)
    requires k < |characters| && Reported(characters, respond, yesterday, k, report)
    ensures var line := FetchLine(characters[k], respond(characters[k]), yesterday);
            (line.Failure? ==> Body(characters[..k + 1], respond, yesterday).Failure?)
            && (line.Success? ==> Reported(characters, respond, yesterday, k + 1, report + line.value + "\n"))
  {
    assert characters[..k + 1][..k] == characters[..k];
  }

  /** Once a line raises, the whole report does. */
  lemma {:induction false} BodyFailurePersists(characters: seq<string>, k: nat, respond: string -> Response, yesterday: string)
    requires k <= |characters|
    requires Body(characters[..k], respond, yesterday).Failure?
    ensures Body(characters, respond, yesterday).Failure?
    decreases |characters| - k
  {
    if k < |characters| {
      assert characters[..k + 1][..k] == characters[..k];
      BodyFailurePersists(characters, k + 1, respond, yesterday);
    } else {
      assert characters[..k] == characters;
    }
  }

  /** The report raises exactly when some character's line raises; in
      particular failed requests never stop it. */
  lemma {:induction false} BodyFailsIffALineRaises(characters: seq<string>, respond: string -> Response, yesterday: string)
    ensures Body(characters, respond, yesterday).Failure? <==>
            exists i :: 0 <= i < |characters| && FetchLine(characters[i], respond(characters[i]), yesterday).Failure?
  {
    if characters != [] {
      var n := |characters| - 1;
      var init := characters[..n];
      BodyFailsIffALineRaises(init, respond, yesterday);
      assert forall i :: 0 <= i < n ==> init[i] == characters[i];
      if exists i :: 0 <= i < |characters| && FetchLine(characters[i], respond(characters[i]), yesterday).Failure? {
        var i :| 0 <= i < |characters| && FetchLine(characters[i], respond(characters[i]), yesterday).Failure?;
        if i < n {
          assert FetchLine(init[i], respond(init[i]), yesterday).Failure?;
        }
      }
    }
  }

  /** The line each character gets, when its line does not raise. */
  function LineOf(name: string, respond: string -> Response, yesterday: string): string {
    match FetchLine(name, respond(name), yesterday)
    case Success(line) => line
    case Failure(_) => ""
  }

  /** The characters' lines, in roster order. */
  function ReportLines(characters: seq<string>, respond: string -> Response, yesterday: string): (lines: seq<string>)
    ensures |lines| == |characters|
    ensures forall i :: 0 <= i < |characters| ==> lines[i] == LineOf(characters[i], respond, yesterday)
  {
    if characters == [] then []
    else
      var n := |characters| - 1;
      assert forall i :: 0 <= i < n ==> characters[..n][i] == characters[i];
      ReportLines(characters[..n], respond, yesterday) + [LineOf(characters[n], respond, yesterday)]
  }

  /** A report that does not raise is its lines in roster order, each ended by
      a newline. */
  lemma {:induction false} BodyIsTerminatedLines(characters: seq<string>, respond: string -> Response, yesterday: string)
    requires Body(characters, respond, yesterday).Success?
    ensures |characters| > 0 ==>
              Header(yesterday) + "\n" + Body(characters, respond, yesterday).value ==
                JoinLines([Header(yesterday)] + ReportLines(characters, respond, yesterday)) + "\n"
  {
    if characters != [] {
      var n := |characters| - 1;
      var init := characters[..n];
      var all := [Header(yesterday)] + ReportLines(characters, respond, yesterday);
      assert all == ([Header(yesterday)] + ReportLines(init, respond, yesterday)) + [LineOf(characters[n], respond, yesterday)];
      assert all[..|all| - 1] == [Header(yesterday)] + ReportLines(init, respond, yesterday);
      if n > 0 {
        BodyIsTerminatedLines(init, respond, yesterday);
      }
    }
  }

  /** `"\n".join` starts with its first line and ends with its last. */
  lemma {:induction false} JoinLinesEnds(lines: seq<string>)
    requires |lines| >= 1 && forall i :: 0 <= i < |lines| ==> lines[i] != []
    ensures JoinLines(lines) != []
    ensures JoinLines(lines)[0] == lines[0][0]
    ensures JoinLines(lines)[|JoinLines(lines)| - 1] == lines[|lines| - 1][|lines[|lines| - 1]| - 1]
  {
    if |lines| > 1 {
      var init := lines[..|lines| - 1];
      assert forall i :: 0 <= i < |init| ==> init[i] == lines[i];
      JoinLinesEnds(init);
    }
  }

  /** A character's line that does not raise ends in a visible character, as
      long as yesterday's date does. */
  lemma {:induction false} ScanLineEnds(name: string, rows: seq<Row>, yesterday: string)
    requires yesterday != [] && !IsSpace(yesterday[|yesterday| - 1])
    requires Scan(name, rows, yesterday).Success?
    ensures var line := Scan(name, rows, yesterday).value;
            line != [] && line[0] == '-' && !IsSpace(line[|line| - 1])
  {
    if rows != [] && Scan(name, rows, yesterday) == Scan(name, rows[1..], yesterday) {
      ScanLineEnds(name, rows[1..], yesterday);
    }
  }

  /** Every line of a report that does not raise starts with `-` and ends in
      a visible character, as long as yesterday's date does. */
  lemma LinesOfReport(characters: seq<string>, respond: string -> Response, yesterday: string, i: nat)
    requires yesterday != [] && !IsSpace(yesterday[|yesterday| - 1])
    requires Body(characters, respond, yesterday).Success?
    requires i < |characters|
    ensures var line := LineOf(characters[i], respond, yesterday);
            line != [] && !IsSpace(line[|line| - 1])
  {
    BodyFailsIffALineRaises(characters, respond, yesterday);
    var response := respond(characters[i]);
    assert FetchLine(characters[i], response, yesterday).Success?;
    if response.Fetched? {
      ScanLineEnds(characters[i], response.rows, yesterday);
    } else {
      var f := FailureLine(characters[i], response.reason);
      assert f[|f| - 1] == ')';
    }
  }

  /** The header has no surrounding whitespace. */
  lemma HeaderStripped(yesterday: string)
    ensures var h := Header(yesterday);
            h != [] && !IsSpace(h[0]) && !IsSpace(h[|h| - 1])
  {
    var h := Header(yesterday);
    assert h[0] == '\U{1F4CA}' && h[|h| - 1] == '*';
  }

  /** Stripping lines joined by newlines, plus a final newline, leaves the
      joined lines when the first starts and the last ends in a visible
      character. */
  lemma StripJoinedLines(all: seq<string>)
    requires |all| >= 1 && forall i :: 0 <= i < |all| ==> all[i] != []
    requires !IsSpace(all[0][0]) && !IsSpace(all[|all| - 1][|all[|all| - 1]| - 1])
    ensures Strip(JoinLines(all) + "\n") == JoinLines(all)
  {
    JoinLinesEnds(all);
    StripNewline(JoinLines(all));
  }

  /** With nobody on the roster the report is the header alone. */
  lemma EmptyRosterReport(yesterday: string)
    ensures Strip(Header(yesterday) + "\n") == JoinLines([Header(yesterday)])
  {
    HeaderStripped(yesterday);
    StripNewline(Header(yesterday));
  }

  /** With somebody on the roster the report ends with the last one's line. */
  lemma RosterReport(characters: seq<string>, respond: string -> Response, yesterday: string)
    requires yesterday != [] && !IsSpace(yesterday[|yesterday| - 1])
    requires Body(characters, respond, yesterday).Success? && characters != []
    ensures Strip(Header(yesterday) + "\n" + Body(characters, respond, yesterday).value) ==
              JoinLines([Header(yesterday)] + ReportLines(characters, respond, yesterday))
  {
    var lines := ReportLines(characters, respond, yesterday);
    var all := [Header(yesterday)] + lines;
    HeaderStripped(yesterday);
    BodyIsTerminatedLines(characters, respond, yesterday);
    forall i | 0 <= i < |characters|
      ensures lines[i] != [] && !IsSpace(lines[i][|lines[i]| - 1])
    {
      LinesOfReport(characters, respond, yesterday, i);
    }
    assert forall i :: 1 <= i < |all| ==> all[i] == lines[i - 1];
    StripJoinedLines(all);
  }

  /** The report `build_report` returns: the header and the characters' lines
      joined by newlines, in roster order; `strip()` removes only the newline
      after the last line. */
  lemma ReportIsJoinedLines(characters: seq<string>, respond: string -> Response, yesterday: string)
    requires yesterday != [] && !IsSpace(yesterday[|yesterday| - 1])
    requires Body(characters, respond, yesterday).Success?
    ensures Strip(Header(yesterday) + "\n" + Body(characters, respond, yesterday).value) ==
              JoinLines([Header(yesterday)] + ReportLines(characters, respond, yesterday))
  {
    var lines := ReportLines(characters, respond, yesterday);
    var all := [Header(yesterday)] + lines;
    if characters == [] {
      assert lines == [] && all == [Header(yesterday)];
      assert Header(yesterday) + "\n" + Body(characters, respond, yesterday).value == Header(yesterday) + "\n";
      EmptyRosterReport(yesterday);
    } else {
      RosterReport(characters, respond, yesterday);
    }
  }

  /** The report over the tracked roster, when no line raises: the header and
      then one line for each of the five characters, in the order
      `CHARACTERS` lists them. */
  lemma TrackedRosterReport(respond: string -> Response, yesterday: string)
    requires yesterday != [] && !IsSpace(yesterday[|yesterday| - 1])
    requires Body(Characters, respond, yesterday).Success?
    ensures var lines := ReportLines(Characters, respond, yesterday);
            |lines| == 5 && lines[0] == LineOf("Ilumine", respond, yesterday)
            && lines[4] == LineOf("Zanron the monk", respond, yesterday)
            && Strip(Header(yesterday) + "\n" + Body(Characters, respond, yesterday).value) == JoinLines([Header(yesterday)] + lines)
  {
    ReportIsJoinedLines(Characters, respond, yesterday);
  }
}
