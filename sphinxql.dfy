/** The SphinxQL driver object: its connection lifecycle, the text it sends
    for a query, how it shapes a query's result, and the operations the
    search server does not support.  The server's answers are parameters. */
module DatabaseSphinxQL {

  datatype Option<T> = None | Some(value: T)

  /** A configuration value as PHP holds it. */
  datatype ConfigValue = Text(text: string) | Int(n: int)

  /** The driver's configuration array: the `connection` sub-array and the
      top-level options (among them `max_matches`). */
  datatype Config = Config(connection: map<string, ConfigValue>, options: map<string, ConfigValue>)

  /** The host and port a connection handle was opened to. */
  datatype Endpoint = Endpoint(hostname: ConfigValue, port: ConfigValue)

  /** A `Database_Exception`: its formatted message and its code. */
  datatype DbError = DbError(message: string, code: int)

  /** A call that either returns a value or raises a `Database_Exception`. */
  datatype Outcome<T> = Ok(value: T) | Raised(error: DbError)

  /** The query types the driver tells apart. */
  datatype QueryType = Select | Insert | Update | Delete

  /** The server's result set, kept as an opaque handle. */
  datatype ResultSet = ResultSet(handle: nat)

  /** What `query` returns on success: a result iterator for SELECT, the
      pair (insert id, affected rows) for INSERT, affected rows otherwise. */
  datatype QueryResult =
    | Rows(resultSet: ResultSet, sql: string, asObject: bool, params: Option<seq<string>>)
    | Inserted(insertId: int, affectedRows: int)
    | Affected(affectedRows: int)

  /** How the server answers an attempt to open a connection. */
  datatype ConnectResponse = Accepted | Refused(message: string, code: int)

  /** How the server answers a statement. */
  datatype ExecResponse =
    | ExecFailed(error: string, errno: int)
    | ExecOk(resultSet: ResultSet, insertId: int, affectedRows: int)

  /** How closing the handle goes: it closes, it reports failure, or it throws. */
  datatype CloseResponse = Closed | NotClosed | CloseThrew

  /** The connection defaults merged under the configured values. */
  const ConnectionDefaults: map<string, ConfigValue> :=
    map["hostname" := Text("127.0.0.1"), "port" := Int(9306)]

  /** The `max_matches` used when the configuration has none. */
  const DefaultMaxMatches: ConfigValue := Int(1000)

  /** The text put between the statement and the `max_matches` value. */
  const OptionPrefix: string := " option max_matches="

  /** The error every transaction operation raises (the message is spelled
      as the driver spells it). */
  const TransactionsUnsupported: DbError := DbError("Transactions not suported", 0)

  /** PHP's array union `left + right`: every key of either side, with the
      left side's value wherever both have the key. */
  function ArrayUnion<K, V>(left: map<K, V>, right: map<K, V>): (r: map<K, V>)
    ensures r.Keys == left.Keys + right.Keys
    ensures forall k :: k in left ==> r[k] == left[k]
    ensures forall k :: k in right && k !in left ==> r[k] == right[k]
  {
    right + left
  }

  /** Where `connect` opens its connection: the configured hostname and
      port, each falling back to its default only when its key is missing. */
  function ConnectEndpoint(config: Config): (e: Endpoint)
    ensures e.hostname == if "hostname" in config.connection then config.connection["hostname"] else Text("127.0.0.1")
    ensures e.port == if "port" in config.connection then config.connection["port"] else Int(9306)
  {
    var params := ArrayUnion(config.connection, ConnectionDefaults);
    Endpoint(params["hostname"], params["port"])
  }

  function DigitChar(d: nat): (c: char)
    requires d < 10
  {
    "0123456789"[d]
  }

  /** The number a string of decimal digits denotes. */
  function DecimalValue(s: string): nat
  {
    if s == [] then 0
    else DecimalValue(s[..|s| - 1]) * 10 + (if '0' <= s[|s| - 1] <= '9' then s[|s| - 1] as int - '0' as int else 0)
  }

  /** PHP's decimal rendering of a non-negative integer. */
  function NatToDecimal(n: nat): (r: string)
    ensures 1 <= |r|
    ensures forall i :: 0 <= i < |r| ==> '0' <= r[i] <= '9'
    ensures |r| > 1 ==> r[0] != '0'
    ensures DecimalValue(r) == n
  {
    if n < 10 then [DigitChar(n)]
    else
      var prefix := NatToDecimal(n / 10);
      var r := prefix + [DigitChar(n % 10)];
      assert r[..|r| - 1] == prefix && r[0] == prefix[0];
      r
  }

  /** PHP's conversion of a configuration value to string, as done when it
      is concatenated. */
  function PhpToString(v: ConfigValue): (r: string)
    ensures v.Text? ==> r == v.text
  {
    match v
    case Text(t) => t
    case Int(n) => if n < 0 then "-" + NatToDecimal(-n) else NatToDecimal(n)
  }

  /** An integer renders as an optional minus sign followed by the decimal
      digits of its magnitude, so the rendering holds no underscore and
      determines the integer. */
  lemma IntRendering(n: int)
    ensures PhpToString(Int(n)) == (if n < 0 then "-" else "") + NatToDecimal(if n < 0 then -n else n)
    ensures 1 <= |PhpToString(Int(n))| && (PhpToString(Int(n))[0] == '-' <==> n < 0)
    ensures '_' !in PhpToString(Int(n))
  {
    var d := NatToDecimal(if n < 0 then -n else n);
    assert d[0] != '-' && '_' !in d;
    if n < 0 {
      assert PhpToString(Int(n)) == "-" + d;
    } else {
      assert PhpToString(Int(n)) == [] + d;
    }
  }

  /** Different integers render differently. */
  lemma IntRenderingInjective(x: int, y: int)
    requires PhpToString(Int(x)) == PhpToString(Int(y))
    ensures x == y
  {
    IntRendering(x);
    IntRendering(y);
    var r := PhpToString(Int(x));
    if x < 0 {
      assert NatToDecimal(-x) == r[1..] == NatToDecimal(-y);
    } else {
      assert NatToDecimal(x) == r == NatToDecimal(y);
    }
  }

  /** `Arr::get($config, 'max_matches', 1000)`. */
  function MaxMatches(config: Config): (v: ConfigValue)
    ensures "max_matches" in config.options ==> v == config.options["max_matches"]
    ensures "max_matches" !in config.options ==> v == Int(1000)
  {
    if "max_matches" in config.options then config.options["max_matches"] else DefaultMaxMatches
  }

  /** The statement `query` sends: the caller's text with one option clause
      appended, carrying the configured `max_matches`, or 1000. */
  function SentText(config: Config, sql: string): (r: string)
    ensures |r| >= |sql| + |OptionPrefix| && r[..|sql|] == sql
    ensures r[|sql|..|sql| + |OptionPrefix|] == OptionPrefix
    ensures "max_matches" !in config.options ==> r == sql + " option max_matches=1000"
    ensures "max_matches" in config.options ==>
      r == sql + OptionPrefix + PhpToString(config.options["max_matches"])
  {
    var clause := OptionPrefix + PhpToString(MaxMatches(config));
    DefaultMaxMatchesText();
    assert (sql + clause)[..|sql|] == sql;
    assert (sql + clause)[|sql|..|sql| + |OptionPrefix|] == OptionPrefix;
    sql + clause
  }

  /** The default renders as the four characters `1000`. */
  lemma DefaultMaxMatchesText()
    ensures PhpToString(DefaultMaxMatches) == "1000"
  {
    assert NatToDecimal(1) == "1";
    assert NatToDecimal(10) == "10";
    assert NatToDecimal(100) == "100";
  }

  /** The text the driver hashes into its connection identifier: hostname,
      an underscore, and port.  The hash itself is not modelled. */
  function Fingerprint(e: Endpoint): (r: string)
    ensures |r| == |PhpToString(e.hostname)| + 1 + |PhpToString(e.port)|
    ensures r[|PhpToString(e.hostname)|] == '_'
  {
    PhpToString(e.hostname) + "_" + PhpToString(e.port)
  }

  /** A string joined at an underscore splits back uniquely when the right
      part holds no underscore: the separator is the last underscore. */
  lemma SplitAtLastUnderscore(h1: string, p1: string, h2: string, p2: string)
    requires '_' !in p1 && '_' !in p2
    requires h1 + "_" + p1 == h2 + "_" + p2
    ensures h1 == h2 && p1 == p2
  {
    var x := h1 + "_" + p1;
    assert x[|h1|] == '_' && x[|h2|] == '_';
    assert forall i :: |h1| < i < |x| ==> x[i] == p1[i - |h1| - 1];
    assert forall i :: |h2| < i < |x| ==> x[i] == p2[i - |h2| - 1];
    assert |h1| == |h2|;
    assert h1 == x[..|h1|] && p1 == x[|h1| + 1..];
  }

  /** With integer ports, the identifier tells endpoints apart: an integer
      renders without an underscore, so the last underscore of the
      identifier is the separator, and the rendering of an integer
      determines it. */
  lemma {:induction false} FingerprintDeterminesEndpoint(a: Endpoint, b: Endpoint)
    requires a.port.Int? && b.port.Int?
    requires Fingerprint(a) == Fingerprint(b)
    ensures PhpToString(a.hostname) == PhpToString(b.hostname) && a.port == b.port
  {
    var ha, pa := PhpToString(a.hostname), PhpToString(a.port);
    var hb, pb := PhpToString(b.hostname), PhpToString(b.port);
    var f := Fingerprint(a);
    assert f == ha + "_" + pa && f == hb + "_" + pb;
    IntRendering(a.port.n);
    IntRendering(b.port.n);
    SplitAtLastUnderscore(ha, pa, hb, pb);
    IntRenderingInjective(a.port.n, b.port.n);
  }

  /** The message of a failed statement: the server's error, then the
      statement text in brackets. */
  function QueryErrorMessage(error: string, sent: string): string
  {
    error + " [ " + sent + " ]"
  }

  /** The message starts with the server's error and ends with the sent
      statement between ` [ ` and ` ]`: given the server's error, the sent
      statement can be read back from it. */
  lemma QueryErrorMessageParts(error: string, sent: string)
    ensures var m := QueryErrorMessage(error, sent);
      |m| == |error| + |sent| + 5 &&
      m[..|error|] == error && m[|error|..|error| + 3] == " [ " &&
      m[|error| + 3..|m| - 2] == sent && m[|m| - 2..] == " ]"
  {
    var m := QueryErrorMessage(error, sent);
    assert m[..|error|] == error && m[|error|..|error| + 3] == " [ ";
    assert m[|error| + 3..|m| - 2] == sent && m[|m| - 2..] == " ]";
  }

  /** One driver instance.  `connection` is the live handle (None when
      there is none), `connectionId` the identifier's pre-image, and
      `lastQuery` the last statement that ran successfully. */
  class SphinxQL {
    const config: Config
    var connection: Option<Endpoint>
    var connectionId: Option<string>
    var lastQuery: Option<string>

    constructor (config: Config)
      ensures this.config == config
      ensures connection == None && connectionId == None && lastQuery == None
    {
      this.config := config;
      connection := None;
      connectionId := None;
      lastQuery := None;
    }

    /** `connect()`: nothing happens when a handle exists; otherwise a
        handle to the configured endpoint is opened, or the refusal is
        raised and no handle is left. */
    method Connect(response: ConnectResponse) returns (r: Outcome<()>)
      modifies this
      ensures old(connection).Some? ==> r == Ok(()) && unchanged(this)
      ensures old(connection).None? && response.Refused? ==>
        r == Raised(DbError(response.message, response.code)) &&
        connection == None && connectionId == old(connectionId) && lastQuery == old(lastQuery)
      ensures old(connection).None? && response.Accepted? ==>
        r == Ok(()) && connection == Some(ConnectEndpoint(config)) && lastQuery == old(lastQuery)
      ensures old(connection).None? && response.Accepted? ==>
        connectionId == Some(Fingerprint(ConnectEndpoint(config)))
    {
      if connection.Some? {
        return Ok(());
      }
      var endpoint := ConnectEndpoint(config);
      match response
      case Refused(message, code) =>
        connection := None;
        return Raised(DbError(message, code));
      case Accepted =>
        connection := Some(endpoint);
        connectionId := Some(Fingerprint(endpoint));
        return Ok(());
    }

    /** `disconnect()`: with no live resource the database counts as
        disconnected and the result is true; otherwise the handle is closed,
        and dropped only when closing succeeds.  A close that throws leaves
        the handle and reports false. */
    method Disconnect(isResource: bool, response: CloseResponse) returns (status: bool)
      modifies this
      ensures !(old(connection).Some? && isResource) ==> status && unchanged(this)
      ensures old(connection).Some? && isResource ==>
        status == response.Closed? &&
        connection == (if response.Closed? then None else old(connection)) &&
        connectionId == old(connectionId) && lastQuery == old(lastQuery)
    {
      status := true;
      if connection.Some? && isResource {
        match response
        case Closed =>
          connection := None;
        case NotClosed =>
          status := false;
        case CloseThrew =>
          status := false;
      }
    }

    /** `query(type, sql, as_object, params)`: appends the option clause,
        connects if needed, runs the statement, and on success records it as
        the last query and returns the shape its type calls for.  On failure
        the error carries the sent text and `lastQuery` is untouched. */
    method Query(qtype: QueryType, sql: string, asObject: bool, params: Option<seq<string>>,
                 connectResponse: ConnectResponse, response: ExecResponse)
      returns (r: Outcome<QueryResult>)
      modifies this
      // An existing handle and its identifier are kept.
      ensures old(connection).Some? ==> connection == old(connection) && connectionId == old(connectionId)
      // The connection is refused: its error is raised and nothing else changes.
      ensures old(connection).None? && connectResponse.Refused? ==>
        r == Raised(DbError(connectResponse.message, connectResponse.code)) &&
        connection == None && connectionId == old(connectionId) && lastQuery == old(lastQuery)
      // The connection is opened: the handle and its identifier are recorded.
      ensures old(connection).None? && connectResponse.Accepted? ==>
        connection == Some(ConnectEndpoint(config)) &&
        connectionId == Some(Fingerprint(ConnectEndpoint(config)))
      // The statement fails: the server's error is raised with the sent text.
      ensures (old(connection).Some? || connectResponse.Accepted?) && response.ExecFailed? ==>
        r == Raised(DbError(QueryErrorMessage(response.error, SentText(config, sql)), response.errno)) &&
        lastQuery == old(lastQuery)
      // The statement runs: it becomes the last query and the result has its type's shape.
      ensures (old(connection).Some? || connectResponse.Accepted?) && response.ExecOk? ==>
        lastQuery == Some(SentText(config, sql)) &&
        r == Ok(match qtype
                case Select => Rows(response.resultSet, SentText(config, sql), asObject, params)
                case Insert => Inserted(response.insertId, response.affectedRows)
                case _ => Affected(response.affectedRows))
    {
      var sent := SentText(config, sql);
      if connection.None? {
        var connected := Connect(connectResponse);
        if connected.Raised? {
          return Raised(connected.error);
        }
      }
      r := Execute(qtype, sent, asObject, params, response);
    }

    /** The second half of `query`: the statement runs on the open handle;
        only `lastQuery` may change. */
    method Execute(qtype: QueryType, sent: string, asObject: bool, params: Option<seq<string>>,
                   response: ExecResponse)
      returns (r: Outcome<QueryResult>)
      modifies this
      ensures connection == old(connection) && connectionId == old(connectionId)
      ensures response.ExecFailed? ==>
        r == Raised(DbError(QueryErrorMessage(response.error, sent), response.errno)) &&
        lastQuery == old(lastQuery)
      ensures response.ExecOk? ==>
        lastQuery == Some(sent) &&
        r == Ok(match qtype
                case Select => Rows(response.resultSet, sent, asObject, params)
                case Insert => Inserted(response.insertId, response.affectedRows)
                case _ => Affected(response.affectedRows))
    {
      match response
      case ExecFailed(error, errno) =>
        r := Raised(DbError(QueryErrorMessage(error, sent), errno));
      case ExecOk(resultSet, insertId, affectedRows) =>
        lastQuery := Some(sent);
        match qtype
        case Select =>
          r := Ok(Rows(resultSet, sent, asObject, params));
        case Insert =>
          r := Ok(Inserted(insertId, affectedRows));
        case _ =>
          r := Ok(Affected(affectedRows));
    }

    /** `begin($mode)`: the server has no transactions; always raises. */
    method Begin(mode: Option<string>) returns (r: Outcome<bool>)
      ensures r == Raised(TransactionsUnsupported)
    {
      r := Raised(TransactionsUnsupported);
    }

    /** `commit()`: always raises. */
    method Commit() returns (r: Outcome<()>)
      ensures r == Raised(TransactionsUnsupported)
    {
      r := Raised(TransactionsUnsupported);
    }

    /** `rollback()`: always raises. */
    method Rollback() returns (r: Outcome<()>)
      ensures r == Raised(TransactionsUnsupported)
    {
      r := Raised(TransactionsUnsupported);
    }

    /** `list_tables($like)`: the server does not list tables; always FALSE. */
    method ListTables(like: Option<string>) returns (r: bool)
      ensures !r
    {
      r := false;
    }

    /** `list_columns($table, $like, $add_prefix)`: always FALSE. */
    method ListColumns(table: string, like: Option<string>, addPrefix: bool) returns (r: bool)
      ensures !r
    {
      r := false;
    }
  }
}
