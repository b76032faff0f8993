/**
 * The decisions main (src/query.go) takes on plain values: which settings
 * are required, the default client executable, the client's argument, and
 * how the error count is reported.
 */
module Settings {
  import opened Wrappers

  /**
   * The variables DBR_HOST, DBR_USER, DBR_PASS, DBR_QUERY and
   * DBR_SQLPLUS_PATH as os.Getenv returns them ("" when unset).
   */
  datatype Env = Env(host: string, user: string, pass: string, query: string, sqlplusPath: string)

  datatype Config = Config(host: string, user: string, password: string, script: string, sqlplusPath: string)

  /** The fatal configuration errors, in the order main checks them. */
  datatype ConfigError = HostUnset | UserUnset | PasswordUnset | QueryUnset

  const DEFAULT_SQLPLUS: string := "sqlplus"

  ghost predicate ValidConfig(c: Config)
  {
    c.host != "" && c.user != "" && c.password != "" && c.script != "" && c.sqlplusPath != ""
  }

  /** An empty DBR_SQLPLUS_PATH falls back to the bare command name. */
  function SqlplusPath(path: string): (r: string)
    ensures r != ""
    ensures path != "" ==> r == path
    ensures path == "" ==> r == DEFAULT_SQLPLUS
  {
    if path == "" then DEFAULT_SQLPLUS else path
  }

  /**
   * Validation: host, user, password and query must be set; the first one
   * found empty is the error reported.
   */
  function LoadConfig(env: Env): (r: Result<Config, ConfigError>)
    ensures r.Success? <==> env.host != "" && env.user != "" && env.pass != "" && env.query != ""
    ensures r.Success? ==> ValidConfig(r.value)
    ensures r.Success? ==>
      r.value.host == env.host && r.value.user == env.user && r.value.password == env.pass &&
      r.value.script == env.query && r.value.sqlplusPath == SqlplusPath(env.sqlplusPath)
    ensures r == Failure(HostUnset) <==> env.host == ""
    ensures r == Failure(UserUnset) <==> env.host != "" && env.user == ""
    ensures r == Failure(PasswordUnset) <==> env.host != "" && env.user != "" && env.pass == ""
    ensures r == Failure(QueryUnset) <==>
      env.host != "" && env.user != "" && env.pass != "" && env.query == ""
  {
    if env.host == "" then Failure(HostUnset)
    else if env.user == "" then Failure(UserUnset)
    else if env.pass == "" then Failure(PasswordUnset)
    else if env.query == "" then Failure(QueryUnset)
    else Success(Config(env.host, env.user, env.pass, env.query, SqlplusPath(env.sqlplusPath)))
  }

  /** The single argument handed to the client: user@host. */
  function ConnectString(user: string, host: string): (arg: string)
    ensures |arg| == |user| + 1 + |host|
    ensures arg[..|user|] == user && arg[|user|] == '@' && arg[|user| + 1..] == host
  {
    user + "@" + host
  }

  /** exec.Command(path, user@host): the argument vector of the client process. */
  function ClientArgs(c: Config): (args: seq<string>)
    ensures |args| == 2 && args[0] == c.sqlplusPath
    ensures ValidConfig(c) ==> args[0] != ""
    ensures args[1] == ConnectString(c.user, c.host)
    ensures '@' !in c.user ==> SplitConnect(args[1]) == (c.user, c.host)
  {
    var args := [c.sqlplusPath, ConnectString(c.user, c.host)];
    if '@' !in c.user then
      ConnectStringRoundTrip(c.user, c.host);
      args
    else
      args
  }

  /** Split a connect string at its first '@'. */
  function SplitConnect(arg: string): (r: (string, string))
    ensures '@' in arg ==> arg == r.0 + "@" + r.1 && '@' !in r.0
    ensures '@' !in arg ==> r == (arg, "")
  {
    if arg == [] then ("", "")
    else if arg[0] == '@' then ("", arg[1..])
    else
      var (u, h) := SplitConnect(arg[1..]);
      assert arg == [arg[0]] + arg[1..];
      ([arg[0]] + u, h)
  }

  /** The argument determines user and host whenever the user name holds no '@'. */
  lemma {:induction false} ConnectStringRoundTrip(user: string, host: string)
    requires '@' !in user
    ensures SplitConnect(ConnectString(user, host)) == (user, host)
  {
    var arg := ConnectString(user, host);
    if user == [] {
      assert arg == "@" + host;
    } else {
      assert arg[0] == user[0] && arg[1..] == ConnectString(user[1..], host);
      ConnectStringRoundTrip(user[1..], host);
      assert user == [user[0]] + user[1..];
    }
  }

  // ---------------------------------------------------------------------------
  // Reporting the error count: "%d %s occurred during SQL execution".

  predicate IsDigitChar(c: char)
  {
    '0' <= c <= '9'
  }

  function DigitChar(d: nat): char
    requires d < 10
  {
    ('0' as int + d) as char
  }

  function DigitValue(c: char): (d: nat)
    requires IsDigitChar(c)
    ensures d < 10 && DigitChar(d) == c
  {
    c as int - '0' as int
  }

  /** fmt's %d of a non-negative integer. */
  function Decimal(n: nat): (s: string)
    ensures |s| > 0 && forall i :: 0 <= i < |s| ==> IsDigitChar(s[i])
    ensures n > 0 ==> s[0] != '0'
  {
    if n < 10 then [DigitChar(n)] else Decimal(n / 10) + [DigitChar(n % 10)]
  }

  /** Reads back a run of decimal digits. */
  function ParseDecimal(s: string): nat
    requires forall i :: 0 <= i < |s| ==> IsDigitChar(s[i])
  {
    if s == [] then 0 else ParseDecimal(s[..|s| - 1]) * 10 + DigitValue(s[|s| - 1])
  }

  lemma {:induction false} DecimalRoundTrip(n: nat)
    ensures ParseDecimal(Decimal(n)) == n
  {
    if n >= 10 {
      var s := Decimal(n);
      assert s[..|s| - 1] == Decimal(n / 10);
      DecimalRoundTrip(n / 10);
    }
  }

  /** The leading run of decimal digits of `s`. */
  function LeadingDigits(s: string): (d: string)
    ensures forall i :: 0 <= i < |d| ==> IsDigitChar(d[i])
  {
    if s == [] || !IsDigitChar(s[0]) then [] else [s[0]] + LeadingDigits(s[1..])
  }

  lemma {:induction false} LeadingDigitsOf(d: string, rest: string)
    requires forall i :: 0 <= i < |d| ==> IsDigitChar(d[i])
    requires rest != [] && !IsDigitChar(rest[0])
    ensures LeadingDigits(d + rest) == d
  {
    if d == [] {
      assert d + rest == rest;
    } else {
      assert (d + rest)[1..] == d[1..] + rest;
      LeadingDigitsOf(d[1..], rest);
    }
  }

  function ErrorNoun(count: nat): (s: string)
    ensures s == "error" <==> count == 1
    ensures count != 1 ==> s == "errors"
  {
    if count != 1 then "errors" else "error"
  }

  function ErrorSummary(count: nat): string
  {
    Decimal(count) + " " + ErrorNoun(count) + " occurred during SQL execution"
  }

  /** None: "finished"; Some(message): the fatal report. */
  function ScanVerdict(count: nat): (r: Option<string>)
    ensures r.None? <==> count == 0
    ensures r.Some? ==> r.value == ErrorSummary(count)
  {
    if count != 0 then Some(ErrorSummary(count)) else None
  }

  /** The report starts with the count, which can be read back from it. */
  lemma ErrorSummaryCarriesCount(count: nat)
    ensures ParseDecimal(LeadingDigits(ErrorSummary(count))) == count
  {
    var rest := " " + ErrorNoun(count) + " occurred during SQL execution";
    assert ErrorSummary(count) == Decimal(count) + rest;
    LeadingDigitsOf(Decimal(count), rest);
    DecimalRoundTrip(count);
  }

  /** Different counts give different reports. */
  lemma ErrorSummaryInjective(a: nat, b: nat)
    requires ErrorSummary(a) == ErrorSummary(b)
    ensures a == b
  {
    ErrorSummaryCarriesCount(a);
    ErrorSummaryCarriesCount(b);
  }

  /** No error is success; one error is reported in the singular. */
  lemma ReportOneError()
    ensures ScanVerdict(0) == None
    ensures ScanVerdict(1) == Some("1 error occurred during SQL execution")
  {
    assert DigitChar(1) == '1';
    assert Decimal(1) == "1";
    assert ErrorNoun(1) == "error";
    var m := "1" + " " + "error" + " occurred during SQL execution";
    assert ErrorSummary(1) == m;
    assert m == "1 error occurred during SQL execution" by {
      assert forall i :: 0 <= i < |m| ==> m[i] == "1 error occurred during SQL execution"[i];
    }
  }

  /** Any other count is reported in the plural. */
  lemma ReportTwoErrors()
    ensures ScanVerdict(2) == Some("2 errors occurred during SQL execution")
  {
    assert DigitChar(2) == '2';
    assert Decimal(2) == "2";
    assert ErrorNoun(2) == "errors";
    var m := "2" + " " + "errors" + " occurred during SQL execution";
    assert ErrorSummary(2) == m;
    assert m == "2 errors occurred during SQL execution" by {
      assert forall i :: 0 <= i < |m| ==> m[i] == "2 errors occurred during SQL execution"[i];
    }
  }
}
