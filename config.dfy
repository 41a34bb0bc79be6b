/** The configuration of a migration run (database_migrator.h): two
    database endpoints and an ordered list of table rules, built by
    validating a parsed JSON document as DatabaseConfig::operator=,
    TableConfig::operator= and DatabaseMigrator::load_config do. */
module Config {
  import opened Wrappers
  import opened JsonValue
  import Text

  /** A column rule: the subset of the keys "target_name", "type" and
      "exclude" that the rule sets, each with a string value. */
  type ColumnRule = map<string, string>

  datatype DatabaseConfig = DatabaseConfig(
    host: string, port: int, dbname: string, user: string, password: string)

  datatype TableConfig = TableConfig(
    source: string,
    target: string,
    exclude: bool,
    createIfMissing: bool,
    columns: map<string, ColumnRule>)

  datatype MigrationConfig = MigrationConfig(
    sourceDb: DatabaseConfig, targetDb: DatabaseConfig, tables: seq<TableConfig>)

  datatype ConfigError =
    | MissingDatabaseField     // one of host, port, dbname, user, password is absent
    | MissingSource            // a table rule has no "source"
    | ColumnsNotObject         // "columns" is present but not an object
    | TablesNotArray           // "tables" is present but not an array
    | WrongType(key: string)   // json::get found a value of another type
    | DocumentNotObject        // the document is neither an object nor null

  /** The table name used on the target side. */
  function TargetName(t: TableConfig): string {
    if t.target == "" then t.source else t.target
  }

  const EndpointKeys: seq<string> := ["host", "port", "dbname", "user", "password"]
  const RuleKeys: set<string> := {"target_name", "type", "exclude"}

  function StringAt(j: Json, key: string): Result<string, ConfigError>
    requires Contains(j, key)
  {
    if j.fields[key].JString? then Success(j.fields[key].s) else Failure(WrongType(key))
  }

  /** json::value(key, default) for a string. */
  function StringOr(j: Json, key: string, default: string): Result<string, ConfigError> {
    if Contains(j, key) then StringAt(j, key) else Success(default)
  }

  /** json::value(key, default) for a bool. */
  function BoolOr(j: Json, key: string, default: bool): Result<bool, ConfigError> {
    if !Contains(j, key) then Success(default)
    else if j.fields[key].JBool? then Success(j.fields[key].b)
    else Failure(WrongType(key))
  }

  predicate HasEndpointFields(j: Json) {
    Contains(j, "host") && Contains(j, "port") && Contains(j, "dbname") && Contains(j, "user") && Contains(j, "password")
  }

  /** DatabaseConfig::operator=: all five fields must be present; host,
      dbname, user and password are strings and port an integer. */
  function ParseEndpoint(j: Json): Result<DatabaseConfig, ConfigError> {
    if !HasEndpointFields(j) then Failure(MissingDatabaseField)
    else
      var host :- StringAt(j, "host");
      var port :- if j.fields["port"].JInt? then Success(j.fields["port"].i) else Failure(WrongType("port"));
      var dbname :- StringAt(j, "dbname");
      var user :- StringAt(j, "user");
      var password :- StringAt(j, "password");
      Success(DatabaseConfig(host, port, dbname, user, password))
  }

  /** A column configuration is accepted when each recognised key it has
      holds a string. A column configuration that is not an object contains
      no key and gives an empty rule. */
  predicate ColumnJsonOk(c: Json) {
    forall k :: k in RuleKeys && Contains(c, k) ==> c.fields[k].JString?
  }

  function ParseColumnRule(c: Json): ColumnRule
    requires ColumnJsonOk(c)
  {
    map k | k in RuleKeys && Contains(c, k) :: c.fields[k].s
  }

  function ParseColumns(cj: Json): Result<map<string, ColumnRule>, ConfigError> {
    if !cj.JObject? then Failure(ColumnsNotObject)
    else if exists name :: name in cj.fields && !ColumnJsonOk(cj.fields[name]) then Failure(WrongType("columns"))
    else Success(map name | name in cj.fields :: ParseColumnRule(cj.fields[name]))
  }

  /** TableConfig::operator=. */
  function ParseTable(j: Json): Result<TableConfig, ConfigError> {
    if !Contains(j, "source") then Failure(MissingSource)
    else
      var source :- StringAt(j, "source");
      var target :- StringOr(j, "target", "");
      var exclude :- BoolOr(j, "exclude", false);
      var createIfMissing :- BoolOr(j, "create_if_missing", false);
      var columns :- if Contains(j, "columns") then ParseColumns(j.fields["columns"]) else Success(map[]);
      Success(TableConfig(source, target, exclude, createIfMissing, columns))
  }

  /** The table rules in order; the first rule that fails decides the error. */
  function ParseTables(items: seq<Json>): Result<seq<TableConfig>, ConfigError> {
    if items == [] then Success([])
    else
      var init :- ParseTables(items[..|items| - 1]);
      var last :- ParseTable(items[|items| - 1]);
      Success(init + [last])
  }

  /** json::operator[] on a missing key of a non-const object yields null. */
  function Member(fields: map<string, Json>, key: string): Json {
    if key in fields then fields[key] else JNull
  }

  /** DatabaseMigrator::load_config on an already parsed document. */
  function ParseConfig(doc: Json): Result<MigrationConfig, ConfigError> {
    var top :- if doc.JObject? then Success(doc.fields)
               else if doc.JNull? then Success(map[])
               else Failure(DocumentNotObject);
    var sourceDb :- ParseEndpoint(Member(top, "source_database"));
    var targetDb :- ParseEndpoint(Member(top, "target_database"));
    var tables :- if "tables" !in top then Success([])
                  else if top["tables"].JArray? then ParseTables(top["tables"].items)
                  else Failure(TablesNotArray);
    Success(MigrationConfig(sourceDb, targetDb, tables))
  }

  // ------------------------------------------------------------- properties

  /** An endpoint is rejected when any of its five fields is missing. */
  lemma EndpointNeedsAllFields(j: Json, k: string)
    requires k in EndpointKeys && !Contains(j, k)
    ensures ParseEndpoint(j) == Failure(MissingDatabaseField)
  {
  }

  /** An endpoint parses exactly when its five fields are present and
      typed, and then it carries them unchanged. */
  lemma EndpointParsed(j: Json)
    ensures ParseEndpoint(j).Success? <==>
              HasEndpointFields(j) &&
              j.fields["host"].JString? && j.fields["port"].JInt? && j.fields["dbname"].JString? &&
              j.fields["user"].JString? && j.fields["password"].JString?
    ensures ParseEndpoint(j).Success? ==>
              ParseEndpoint(j).value ==
              DatabaseConfig(j.fields["host"].s, j.fields["port"].i, j.fields["dbname"].s,
                             j.fields["user"].s, j.fields["password"].s)
  {
  }

  /** A missing endpoint field in either database section fails the whole
      configuration; the source section is checked first. */
  lemma ConfigNeedsEndpointFields(doc: Json, section: string, k: string)
    requires doc.JObject?
    requires section == "source_database" || section == "target_database"
    requires k in EndpointKeys && !Contains(Member(doc.fields, section), k)
    requires section == "target_database" ==> ParseEndpoint(Member(doc.fields, "source_database")).Success?
    ensures ParseConfig(doc) == Failure(MissingDatabaseField)
  {
    EndpointNeedsAllFields(Member(doc.fields, section), k);
  }

  /** A table rule without "source" is rejected. */
  lemma TableNeedsSource(j: Json)
    requires !Contains(j, "source")
    ensures ParseTable(j) == Failure(MissingSource)
  {
  }

  /** A "columns" entry that is not an object is rejected once the scalar
      fields before it have parsed. */
  lemma ColumnsMustBeObject(j: Json)
    requires Contains(j, "source") && j.fields["source"].JString?
    requires StringOr(j, "target", "").Success?
    requires BoolOr(j, "exclude", false).Success? && BoolOr(j, "create_if_missing", false).Success?
    requires Contains(j, "columns") && !j.fields["columns"].JObject?
    ensures ParseTable(j) == Failure(ColumnsNotObject)
  {
  }

  /** On success a table rule takes its fields from the document, with ""
      and false as the defaults of the optional ones; its column rules are
      keyed exactly as the "columns" object and hold only the recognised
      keys, copied unchanged. */
  lemma TableParsed(j: Json)
    requires ParseTable(j).Success?
    ensures var t := ParseTable(j).value;
      && t.source == j.fields["source"].s
      && t.target == (if Contains(j, "target") then j.fields["target"].s else "")
      && t.exclude == (Contains(j, "exclude") && j.fields["exclude"].b)
      && t.createIfMissing == (Contains(j, "create_if_missing") && j.fields["create_if_missing"].b)
      && t.columns.Keys == (if Contains(j, "columns") then j.fields["columns"].fields.Keys else {})
      && forall name :: name in t.columns ==>
           var c := j.fields["columns"].fields[name];
           && t.columns[name].Keys <= RuleKeys
           && forall k :: k in RuleKeys ==>
                (k in t.columns[name] <==> Contains(c, k)) &&
                (k in t.columns[name] ==> c.fields[k] == JString(t.columns[name][k]))
  {
  }

  /** The table list parses exactly when every rule parses, and then it is
      the rules' results in document order. */
  lemma {:induction false} TablesParsed(items: seq<Json>)
    ensures ParseTables(items).Success? <==> forall i :: 0 <= i < |items| ==> ParseTable(items[i]).Success?
    ensures ParseTables(items).Success? ==>
              |ParseTables(items).value| == |items| &&
              forall i :: 0 <= i < |items| ==> ParseTable(items[i]) == Success(ParseTables(items).value[i])
  {
    if items != [] {
      var init := items[..|items| - 1];
      TablesParsed(init);
      assert forall i :: 0 <= i < |init| ==> init[i] == items[i];
    }
  }

  /** The first rule that fails decides the error of the whole list. */
  lemma {:induction false} TablesFirstError(items: seq<Json>, k: nat)
    requires k < |items|
    requires forall i :: 0 <= i < k ==> ParseTable(items[i]).Success?
    requires ParseTable(items[k]).Failure?
    ensures ParseTables(items) == Failure(ParseTable(items[k]).error)
  {
    var init := items[..|items| - 1];
    if k < |items| - 1 {
      assert init[k] == items[k];
      assert forall i :: 0 <= i < k ==> init[i] == items[i];
      TablesFirstError(init, k);
    } else {
      TablesParsed(init);
      assert forall i :: 0 <= i < |init| ==> init[i] == items[i];
    }
  }

  /** Shape of a successful load: both endpoints parsed from their
      sections, an absent "tables" gives no tables, and a present one must
      be an array whose every rule parsed, in order. */
  lemma ConfigParsed(doc: Json)
    requires ParseConfig(doc).Success?
    ensures doc.JObject? || doc.JNull?
    ensures var top := if doc.JObject? then doc.fields else map[];
      var c := ParseConfig(doc).value;
      && ParseEndpoint(Member(top, "source_database")) == Success(c.sourceDb)
      && ParseEndpoint(Member(top, "target_database")) == Success(c.targetDb)
      && ("tables" !in top ==> c.tables == [])
      && ("tables" in top ==> top["tables"].JArray? && ParseTables(top["tables"].items) == Success(c.tables))
  {
  }

  /** A "tables" entry that is not an array fails the load once both
      endpoints have parsed. */
  lemma TablesMustBeArray(doc: Json)
    requires doc.JObject?
    requires ParseEndpoint(Member(doc.fields, "source_database")).Success?
    requires ParseEndpoint(Member(doc.fields, "target_database")).Success?
    requires "tables" in doc.fields && !doc.fields["tables"].JArray?
    ensures ParseConfig(doc) == Failure(TablesNotArray)
  {
  }

  // ------------------------------------------------------ connection string

  /** DatabaseMigrator::create_connection_string: libpq keyword/value
      pairs separated by single spaces, values written unquoted. */
  function ConnectionString(c: DatabaseConfig): string {
    Text.Joined(ConnectionPairs(c), " ")
  }

  /** The five keyword=value pairs, in the order they are written. */
  function ConnectionPairs(c: DatabaseConfig): seq<string> {
    ["host=" + c.host, "port=" + Text.DecimalString(c.port), "dbname=" + c.dbname, "user=" + c.user, "password=" + c.password]
  }

  predicate NoSpace(s: string) {
    forall k :: 0 <= k < |s| ==> s[k] != ' '
  }

  /** Index of the first space, or the length when there is none. */
  function SpaceIndex(s: string): (k: nat)
    ensures k <= |s| && NoSpace(s[..k]) && (k < |s| ==> s[k] == ' ')
  {
    if s == [] || s[0] == ' ' then 0
    else
      var k := 1 + SpaceIndex(s[1..]);
      assert s[..k] == [s[0]] + s[1..][..k - 1];
      k
  }

  /** Splits at every space. */
  function SplitSpaces(s: string): seq<string>
    decreases |s|
  {
    var k := SpaceIndex(s);
    if k == |s| then [s] else [s[..k]] + SplitSpaces(s[k + 1..])
  }

  /** Reads a keyword/value string back into an endpoint by splitting it at
      spaces. This is not libpq's conninfo parser (which also splits at tabs
      and newlines, skips blanks after '=', removes backslash escapes and
      honours quotes); it is the inverse that shows that ConnectionString
      drops no field. */
  function ParseConnectionString(s: string): Option<DatabaseConfig> {
    var parts := SplitSpaces(s);
    if |parts| != 5 then None
    else
      var host := StripKey("host=", parts[0]);
      var port := StripKey("port=", parts[1]);
      var dbname := StripKey("dbname=", parts[2]);
      var user := StripKey("user=", parts[3]);
      var password := StripKey("password=", parts[4]);
      if host.None? || port.None? || dbname.None? || user.None? || password.None? then None
      else match Text.ParseDecimal(port.value)
        case None => None
        case Some(p) => Some(DatabaseConfig(host.value, p, dbname.value, user.value, password.value))
  }

  function StripKey(key: string, part: string): Option<string> {
    if key <= part then Some(part[|key|..]) else None
  }

  lemma {:induction false} SpaceIndexAfter(a: string, b: string)
    requires NoSpace(a)
    ensures SpaceIndex(a + " " + b) == |a|
  {
    if a != [] {
      assert (a + " " + b)[1..] == a[1..] + " " + b;
      SpaceIndexAfter(a[1..], b);
    }
  }

  lemma FirstSpace(a: string, b: string)
    requires NoSpace(a)
    ensures SplitSpaces(a + " " + b) == [a] + SplitSpaces(b)
  {
    var s := a + " " + b;
    SpaceIndexAfter(a, b);
    assert s[..|a|] == a && s[|a| + 1..] == b;
  }

  lemma LastPart(a: string)
    requires NoSpace(a)
    ensures SplitSpaces(a) == [a]
  {
  }

  lemma DecimalNoSpace(n: int)
    ensures NoSpace(Text.DecimalString(n))
  {
    var s := Text.DecimalString(n);
    if n < 0 {
      assert forall k :: 1 <= k < |s| ==> s[k] == Text.NatDigits(-n)[k - 1];
    }
  }

  /** Splitting at spaces undoes joining with spaces when no part holds one. */
  lemma {:induction false} SplitJoined(parts: seq<string>)
    requires parts != [] && forall i :: 0 <= i < |parts| ==> NoSpace(parts[i])
    ensures SplitSpaces(Text.Joined(parts, " ")) == parts
    decreases |parts|
  {
    if |parts| == 1 {
      LastPart(parts[0]);
    } else {
      var rest := Text.Joined(parts[1..], " ");
      assert Text.Joined(parts, " ") == parts[0] + " " + rest;
      SplitJoined(parts[1..]);
      FirstSpace(parts[0], rest);
      assert parts == [parts[0]] + parts[1..];
    }
  }

  lemma PrefixedNoSpace(key: string, v: string)
    requires NoSpace(key) && NoSpace(v)
    ensures NoSpace(key + v) && StripKey(key, key + v) == Some(v)
  {
    assert forall k :: |key| <= k < |key + v| ==> (key + v)[k] == v[k - |key|];
  }

  /** As long as no field contains a space, the connection string carries
      every field of the endpoint, in order, and splitting it at spaces
      gives the endpoint back. */
  lemma ConnectionStringRoundTrip(c: DatabaseConfig)
    requires NoSpace(c.host) && NoSpace(c.dbname) && NoSpace(c.user) && NoSpace(c.password)
    ensures ParseConnectionString(ConnectionString(c)) == Some(c)
  {
    var p := Text.DecimalString(c.port);
    DecimalNoSpace(c.port);
    PrefixedNoSpace("host=", c.host);
    PrefixedNoSpace("port=", p);
    PrefixedNoSpace("dbname=", c.dbname);
    PrefixedNoSpace("user=", c.user);
    PrefixedNoSpace("password=", c.password);
    SplitJoined(ConnectionPairs(c));
    Text.DecimalRoundTrip(c.port);
  }
}
