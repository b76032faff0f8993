/**
 * main (src/query.go) run as one sequential pass. The client's output
 * arrives in three installments: what it prints before it asks for the
 * password (`login`), what it prints after the password until it waits for
 * a command (`connected`), and what it prints for the script (`output`).
 * Each prompt wait reads what has arrived so far; a prompt that is not there
 * is a time-out. One transcript buffer serves both waits and the final scan.
 */
module Session {
  import opened Wrappers
  import opened Transcript
  import opened ErrorScan
  import opened PromptScan
  import opened Settings

  const PASSWORD_PROMPT: seq<byte> := Ascii("Enter password:")
  const SQL_PROMPT: seq<byte> := Ascii("SQL>")

  /** How sqlplus.Wait() ends within its five-second window. */
  datatype Exit = Exited(status: int) | StillRunning

  /** The fatal exits of main after the client has started. */
  datatype Failure =
    | BadConfig(error: ConfigError)
    | PasswordPromptTimeout
    | SqlPromptTimeout
    | StopFailed(status: int)
    | FinishTimeout
    | ScriptErrors(count: nat, message: string)

  datatype Outcome = Finished | Failed(failure: Failure)

  /** What the SQL prompt wait reads: what the password wait left, then `connected`. */
  ghost function AfterLogin(login: seq<byte>, connected: seq<byte>): seq<byte>
  {
    Unconsumed(login, PASSWORD_PROMPT) + connected
  }

  /** The bytes check_for_errors scans: what neither wait consumed, then `output`. */
  ghost function ScannedText(login: seq<byte>, connected: seq<byte>, output: seq<byte>): seq<byte>
  {
    Unconsumed(AfterLogin(login, connected), SQL_PROMPT) + output
  }

  ghost function SessionOutcome(env: Env, login: seq<byte>, connected: seq<byte>, output: seq<byte>, exit: Exit): Outcome
  {
    match LoadConfig(env)
    case Failure(e) => Failed(BadConfig(e))
    case Success(_) =>
      if !PromptSeen(login, PASSWORD_PROMPT) then Failed(PasswordPromptTimeout)
      else if !PromptSeen(AfterLogin(login, connected), SQL_PROMPT) then Failed(SqlPromptTimeout)
      else match exit
        case StillRunning => Failed(FinishTimeout)
        case Exited(status) =>
          if status != 0 then Failed(StopFailed(status))
          else
            var count := CountErrors(ScannedText(login, connected, output));
            match ScanVerdict(count)
            case None => Finished
            case Some(message) => Failed(ScriptErrors(count, message))
  }

  /** The handshake: validate, wait for each prompt, wait for the exit, scan. */
  method Run(env: Env, login: seq<byte>, connected: seq<byte>, output: seq<byte>, exit: Exit)
    returns (outcome: Outcome)
    ensures outcome == SessionOutcome(env, login, connected, output, exit)
  {
    var config := LoadConfig(env);
    if config.Failure? {
      return Failed(BadConfig(config.error));
    }
    var hay := new Buffer();
    hay.Write(login);
    assert hay.Unread() == login;
    var found := WaitForString(hay, PASSWORD_PROMPT);
    if !found {
      return Failed(PasswordPromptTimeout);
    }
    hay.Write(connected);
    assert hay.Unread() == AfterLogin(login, connected);
    found := WaitForString(hay, SQL_PROMPT);
    if !found {
      return Failed(SqlPromptTimeout);
    }
    hay.Write(output);
    assert hay.Unread() == ScannedText(login, connected, output);
    if exit.StillRunning? {
      return Failed(FinishTimeout);
    }
    if exit.status != 0 {
      return Failed(StopFailed(exit.status));
    }
    var count := CheckForErrors(hay);
    match ScanVerdict(count)
    case None =>
      outcome := Finished;
    case Some(message) =>
      outcome := Failed(ScriptErrors(count, message));
  }

  /**
   * The run finishes exactly when the settings are complete, both prompts
   * appear, the client exits with status 0, and no error code occurs in the
   * scanned text.
   */
  lemma FinishedIff(env: Env, login: seq<byte>, connected: seq<byte>, output: seq<byte>, exit: Exit)
    ensures SessionOutcome(env, login, connected, output, exit) == Finished <==>
      LoadConfig(env).Success? &&
      PromptSeen(login, PASSWORD_PROMPT) &&
      PromptSeen(AfterLogin(login, connected), SQL_PROMPT) &&
      exit == Exited(0) &&
      !MatchesPattern(ScannedText(login, connected, output))
  {
    CountErrorsZeroIff(ScannedText(login, connected, output));
  }

  /** A failed scan reports the count it found, and the count is never 0. */
  lemma ScriptErrorsReportCount(env: Env, login: seq<byte>, connected: seq<byte>, output: seq<byte>, exit: Exit)
    requires SessionOutcome(env, login, connected, output, exit).Failed?
    requires SessionOutcome(env, login, connected, output, exit).failure.ScriptErrors?
    ensures var f := SessionOutcome(env, login, connected, output, exit).failure;
      f.count > 0 && f.message == ErrorSummary(f.count) &&
      ParseDecimal(LeadingDigits(f.message)) == f.count &&
      MatchesPattern(ScannedText(login, connected, output))
  {
    var f := SessionOutcome(env, login, connected, output, exit).failure;
    ErrorSummaryCarriesCount(f.count);
    CountErrorsZeroIff(ScannedText(login, connected, output));
  }

  /**
   * When the client prints each prompt as an unterminated last line, both
   * waits consume everything before it, so only the script's output is
   * scanned: an error code printed while logging in is not counted.
   */
  lemma OnlyScriptOutputScanned(
    loginLines: seq<seq<byte>>, passwordLine: seq<byte>,
    connectedLines: seq<seq<byte>>, sqlLine: seq<byte>, output: seq<byte>)
    requires forall i :: 0 <= i < |loginLines| ==>
      Terminated(loginLines[i]) && !HasPrefix(loginLines[i], PASSWORD_PROMPT)
    requires NoNewline(passwordLine) && HasPrefix(passwordLine, PASSWORD_PROMPT)
    requires forall i :: 0 <= i < |connectedLines| ==>
      Terminated(connectedLines[i]) && !HasPrefix(connectedLines[i], SQL_PROMPT)
    requires NoNewline(sqlLine) && HasPrefix(sqlLine, SQL_PROMPT)
    ensures var login := Flatten(loginLines) + passwordLine;
      var connected := Flatten(connectedLines) + sqlLine;
      PromptSeen(login, PASSWORD_PROMPT) &&
      PromptSeen(AfterLogin(login, connected), SQL_PROMPT) &&
      ScannedText(login, connected, output) == output
  {
    var login := Flatten(loginLines) + passwordLine;
    var connected := Flatten(connectedLines) + sqlLine;
    PromptConsumesAll(loginLines, passwordLine, PASSWORD_PROMPT);
    assert AfterLogin(login, connected) == connected;
    PromptConsumesAll(connectedLines, sqlLine, SQL_PROMPT);
    assert ScannedText(login, connected, output) == [] + output;
  }

  /** Without the password prompt nothing further happens: the run times out. */
  lemma NoPasswordPromptTimesOut(env: Env, login: seq<byte>, connected: seq<byte>, output: seq<byte>, exit: Exit)
    requires LoadConfig(env).Success?
    requires forall i :: 0 <= i < |Lines(login)| ==> !HasPrefix(Lines(login)[i], PASSWORD_PROMPT)
    ensures SessionOutcome(env, login, connected, output, exit) == Failed(PasswordPromptTimeout)
  {
  }
}
