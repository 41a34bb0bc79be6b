/** DatabaseMigrator::generate_ddl: the CREATE TABLE statement run on the
    target when a table rule asks for create_if_missing. */
module Ddl {
  import opened Config
  import Text

  /** A column rule leaves the DDL only when its "exclude" is exactly "true". */
  predicate Excluded(rule: ColumnRule) {
    "exclude" in rule && rule["exclude"] == "true"
  }

  /** One column definition: the target name (or the source column name)
      and the declared type (or TEXT). */
  function ColumnDef(name: string, rule: ColumnRule): string {
    (if "target_name" in rule then rule["target_name"] else name) + " " +
    (if "type" in rule then rule["type"] else "TEXT")
  }

  /** The keys, among `keys`, of the columns that are not excluded, in the
      order of `keys`. */
  function IncludedKeys(keys: seq<string>, cols: map<string, ColumnRule>): seq<string>
    requires forall i :: 0 <= i < |keys| ==> keys[i] in cols
  {
    if keys == [] then []
    else
      var last := keys[|keys| - 1];
      IncludedKeys(keys[..|keys| - 1], cols) + (if Excluded(cols[last]) then [] else [last])
  }

  /** The column definitions the DDL lists for `keys`, in the order of `keys`. */
  function IncludedDefs(keys: seq<string>, cols: map<string, ColumnRule>): seq<string>
    requires forall i :: 0 <= i < |keys| ==> keys[i] in cols
  {
    if keys == [] then []
    else
      var last := keys[|keys| - 1];
      IncludedDefs(keys[..|keys| - 1], cols) + (if Excluded(cols[last]) then [] else [ColumnDef(last, cols[last])])
  }

  function Header(t: TableConfig): string {
    "CREATE TABLE IF NOT EXISTS " + TargetName(t) + " (\n"
  }

  /** Line i of the column list: indented, followed by a comma unless it is
      the last one, and ended by a newline. */
  function Line(defs: seq<string>, i: nat): string
    requires i < |defs|
  {
    "    " + defs[i] + (if i < |defs| - 1 then "," else "") + "\n"
  }

  /** The first k lines of the column list. */
  function Lines(defs: seq<string>, k: nat): string
    requires k <= |defs|
  {
    if k == 0 then "" else Lines(defs, k - 1) + Line(defs, k - 1)
  }

  /** The column definitions of a table rule, in ascending key order. */
  function TableDefs(t: TableConfig): seq<string> {
    IncludedDefs(Text.SortedKeys(t.columns.Keys), t.columns)
  }

  function DdlText(t: TableConfig): string {
    var defs := TableDefs(t);
    Header(t) + Lines(defs, |defs|) + ");"
  }

  /** generate_ddl: collects the definitions of the columns in the map's
      (ascending) key order, then writes them one per line. */
  method GenerateDdl(t: TableConfig) returns (ddl: string)
    ensures ddl == DdlText(t)
  {
    ddl := "CREATE TABLE IF NOT EXISTS " + TargetName(t) + " (\n";
    var keys := Text.SortedKeys(t.columns.Keys);
    forall j | 0 <= j < |keys|
      ensures keys[j] in t.columns
    {
      assert keys[j] in keys;
    }
    var columns := CollectDefs(keys, t.columns);
    ddl := WriteLines(ddl, columns);
    ddl := ddl + ");";
  }

  /** The first loop of generate_ddl: the definitions of the columns that are
      not excluded, in the order of `keys`. */
  method CollectDefs(keys: seq<string>, cols: map<string, ColumnRule>) returns (columns: seq<string>)
    requires forall j :: 0 <= j < |keys| ==> keys[j] in cols
    ensures columns == IncludedDefs(keys, cols)
  {
    columns := [];
    for i := 0 to |keys|
      invariant columns == IncludedDefs(keys[..i], cols)
    {
      var rule := cols[keys[i]];
      if !Excluded(rule) {
        var columnDef := keys[i];
        if "target_name" in rule {
          columnDef := rule["target_name"];
        }
        columnDef := columnDef + " " + (if "type" in rule then rule["type"] else "TEXT");
        columns := columns + [columnDef];
      }
      DefsStep(keys, i, cols);
    }
    assert keys[..|keys|] == keys;
  }

  /** The second loop of generate_ddl: writes the collected definitions. */
  method WriteLines(header: string, columns: seq<string>) returns (ddl: string)
    ensures ddl == header + Lines(columns, |columns|)
  {
    ddl := header;
    for i := 0 to |columns|
      invariant ddl == header + Lines(columns, i)
    {
      var line := "    " + columns[i];
      if i < |columns| - 1 {
        line := line + ",";
      }
      line := line + "\n";
      assert line == Line(columns, i);
      ddl := ddl + line;
    }
  }

  lemma DefsStep(keys: seq<string>, i: nat, cols: map<string, ColumnRule>)
    requires i < |keys| && forall j :: 0 <= j < |keys| ==> keys[j] in cols
    ensures IncludedDefs(keys[..i + 1], cols) ==
            IncludedDefs(keys[..i], cols) + (if Excluded(cols[keys[i]]) then [] else [ColumnDef(keys[i], cols[keys[i]])])
  {
    assert keys[..i + 1][..i] == keys[..i];
  }

  // ------------------------------------------------------------- properties

  /** The definitions are those of the included keys, one for one. */
  lemma {:induction false} DefsOfIncludedKeys(keys: seq<string>, cols: map<string, ColumnRule>)
    requires forall i :: 0 <= i < |keys| ==> keys[i] in cols
    ensures var ks := IncludedKeys(keys, cols);
      && |IncludedDefs(keys, cols)| == |ks|
      && (forall i :: 0 <= i < |ks| ==> ks[i] in cols)
      && forall i :: 0 <= i < |ks| ==> IncludedDefs(keys, cols)[i] == ColumnDef(ks[i], cols[ks[i]])
  {
    if keys != [] {
      DefsOfIncludedKeys(keys[..|keys| - 1], cols);
    }
  }

  /** The included keys are exactly the keys whose rule is not excluded,
      and they keep the (strictly ascending) order of `keys`. */
  lemma {:induction false} IncludedKeysExact(keys: seq<string>, cols: map<string, ColumnRule>)
    requires forall i :: 0 <= i < |keys| ==> keys[i] in cols
    requires Text.StrictlyAscending(keys)
    ensures var ks := IncludedKeys(keys, cols);
      && Text.StrictlyAscending(ks)
      && forall k :: k in ks <==> k in keys && !Excluded(cols[k])
  {
    if keys != [] {
      var init := keys[..|keys| - 1];
      var last := keys[|keys| - 1];
      assert Text.StrictlyAscending(init);
      IncludedKeysExact(init, cols);
      var ks := IncludedKeys(init, cols);
      forall i | 0 <= i < |ks|
        ensures Text.Less(ks[i], last)
      {
        assert ks[i] in init;
        var j :| 0 <= j < |init| && init[j] == ks[i];
        assert keys[j] == ks[i];
      }
      assert forall k :: k in keys <==> k in init || k == last;
    }
  }

  /** The DDL names exactly the columns whose rule is not excluded, in
      ascending order of their source column names: entry i of the list is
      the definition of the i-th such column. */
  lemma TableDefsExact(t: TableConfig)
    ensures var ks := IncludedKeys(Text.SortedKeys(t.columns.Keys), t.columns);
      && Text.StrictlyAscending(ks)
      && (forall k :: k in ks <==> k in t.columns && !Excluded(t.columns[k]))
      && |TableDefs(t)| == |ks|
      && forall i :: 0 <= i < |ks| ==> TableDefs(t)[i] == ColumnDef(ks[i], t.columns[ks[i]])
  {
    var keys := Text.SortedKeys(t.columns.Keys);
    IncludedKeysExact(keys, t.columns);
    DefsOfIncludedKeys(keys, t.columns);
  }

  lemma {:induction false} LinesJoined(defs: seq<string>, k: nat)
    requires 1 <= k <= |defs|
    ensures Lines(defs, k) == "    " + Text.Joined(defs[..k], ",\n    ") + (if k < |defs| then ",\n" else "\n")
  {
    if k == 1 {
      assert defs[..1] == [defs[0]];
    } else {
      LinesJoined(defs, k - 1);
      assert defs[..k] == defs[..k - 1] + [defs[k - 1]];
      Text.JoinedSnoc(defs[..k - 1], defs[k - 1], ",\n    ");
    }
  }

  /** The whole statement: the header, then the definitions indented and
      separated by ",\n", a final newline, and ");". Without any column
      the header is directly followed by ");". */
  lemma DdlShape(t: TableConfig)
    ensures TableDefs(t) == [] ==> DdlText(t) == "CREATE TABLE IF NOT EXISTS " + TargetName(t) + " (\n);"
    ensures TableDefs(t) != [] ==>
              DdlText(t) == "CREATE TABLE IF NOT EXISTS " + TargetName(t) + " (\n" +
                            "    " + Text.Joined(TableDefs(t), ",\n    ") + "\n" + ");"
  {
    var defs := TableDefs(t);
    if defs != [] {
      LinesJoined(defs, |defs|);
      assert defs[..|defs|] == defs;
    }
  }
}
