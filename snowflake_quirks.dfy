/**
 * The dialect-specific behaviour of the Snowflake (Go driver) quirks object used by
 * the ADBC validation suite: how a table is dropped, how a "table not found" error
 * is recognised, how an identifier is quoted, and which DDL exercises constraints.
 * The quirks object holds only constant class attributes, so every operation is a
 * function of its arguments.
 */
module SnowflakeQuirks {
  import opened Text

  /** `str | None`. */
  datatype Option<T> = None | Some(value: T)

  /** The only failure the quirks raise. */
  datatype QuirkError = NotImplemented

  datatype Result<T> = Ok(value: T) | Err(error: QuirkError)

  /** Python truthiness of an optional string: neither None nor empty. */
  predicate Truthy(p: Option<string>) {
    p.Some? && p.value != ""
  }

  /** `[part for part in parts if part]`: the truthy parts, in their order. */
  function KeepTruthy(parts: seq<Option<string>>): (r: seq<string>)
    ensures |r| <= |parts|
    ensures forall k :: 0 <= k < |r| ==> r[k] != ""
    ensures forall s :: s in r <==> Some(s) in parts && s != ""
  {
    if parts == [] then []
    else
      var rest := KeepTruthy(parts[1..]);
      assert forall p :: p in parts <==> p == parts[0] || p in parts[1..];
      if Truthy(parts[0]) then [parts[0].value] + rest else rest
  }

  /** Filtering distributes over concatenation, so it keeps the parts' relative order. */
  lemma {:induction false} KeepTruthyAppend(a: seq<Option<string>>, b: seq<Option<string>>)
    ensures KeepTruthy(a + b) == KeepTruthy(a) + KeepTruthy(b)
  {
    if a == [] {
      assert a + b == b;
    } else {
      assert (a + b)[0] == a[0];
      assert (a + b)[1..] == a[1..] + b;
      KeepTruthyAppend(a[1..], b);
    }
  }

  /** The kept name parts, catalog first and table last. */
  function NameParts(catalog: Option<string>, schema: Option<string>, table: string): seq<string> {
    KeepTruthy([catalog, schema, Some(table)])
  }

  /** The kept parts joined with `.`, without quoting. */
  function QualifiedName(catalog: Option<string>, schema: Option<string>, table: string): string {
    Join(NameParts(catalog, schema, table), ".")
  }

  const DropIfExistsPrefix := "DROP TABLE IF EXISTS "
  const DropPrefix := "DROP TABLE "

  /** `drop_table`: a DROP TABLE statement, or NotImplemented for a temporary table. */
  function DropTable(table: string, schema: Option<string> := None, catalog: Option<string> := None,
                     ifExists: bool := true, temporary: bool := false): (r: Result<string>)
    ensures r.Err? <==> temporary
    ensures r.Err? ==> r.error == NotImplemented
    ensures r.Ok? ==> r.value == (if ifExists then DropIfExistsPrefix else DropPrefix) + QualifiedName(catalog, schema, table)
  {
    if temporary then Err(NotImplemented)
    else
      var name := QualifiedName(catalog, schema, table);
      if ifExists then Ok(DropIfExistsPrefix + name) else Ok(DropPrefix + name)
  }

  /** Each part of the name is kept exactly when it is truthy, and the kept parts stay in catalog, schema, table order. */
  lemma NamePartsOrder(catalog: Option<string>, schema: Option<string>, table: string)
    ensures NameParts(catalog, schema, table) ==
              (if Truthy(catalog) then [catalog.value] else [])
            + (if Truthy(schema) then [schema.value] else [])
            + (if table != "" then [table] else [])
  {
    KeepTruthyAppend([catalog], [schema, Some(table)]);
    KeepTruthyAppend([schema], [Some(table)]);
    assert [catalog] + [schema, Some(table)] == [catalog, schema, Some(table)];
    assert [schema] + [Some(table)] == [schema, Some(table)];
  }

  /** `table_name="t"` alone gives `t`; `c`, `s`, `t` give `c.s.t`; and so on for the mixed cases. */
  lemma QualifiedNameCases(catalog: Option<string>, schema: Option<string>, table: string)
    ensures Truthy(catalog) && Truthy(schema) && table != "" ==>
              QualifiedName(catalog, schema, table) == catalog.value + "." + schema.value + "." + table
    ensures !Truthy(catalog) && !Truthy(schema) ==> QualifiedName(catalog, schema, table) == table
    ensures !Truthy(catalog) && Truthy(schema) && table != "" ==>
              QualifiedName(catalog, schema, table) == schema.value + "." + table
    ensures Truthy(catalog) && !Truthy(schema) && table != "" ==>
              QualifiedName(catalog, schema, table) == catalog.value + "." + table
  {
    NamePartsOrder(catalog, schema, table);
    if Truthy(catalog) && Truthy(schema) && table != "" {
      assert NameParts(catalog, schema, table) == [catalog.value, schema.value, table];
      JoinThree(catalog.value, schema.value, table, ".");
    } else if Truthy(catalog) && table != "" {
      assert NameParts(catalog, schema, table) == [catalog.value, table];
      JoinTwo(catalog.value, table, ".");
    } else if Truthy(schema) && table != "" {
      assert NameParts(catalog, schema, table) == [schema.value, table];
      JoinTwo(schema.value, table, ".");
    }
  }

  /** Sample calls: a bare table, a fully qualified table, no IF EXISTS, and a temporary table. */
  lemma DropTableExamples()
    ensures DropTable("t") == Ok("DROP TABLE IF EXISTS t")
    ensures DropTable("t", Some("s"), Some("c")) == Ok("DROP TABLE IF EXISTS c.s.t")
    ensures DropTable("t", ifExists := false) == Ok("DROP TABLE t")
    ensures DropTable("t", temporary := true) == Err(NotImplemented)
  {
    QualifiedNameCases(None, None, "t");
    QualifiedNameCases(Some("c"), Some("s"), "t");
    assert QualifiedName(None, None, "t") == "t";
    assert QualifiedName(Some("c"), Some("s"), "t") == "c.s.t";
    assert DropIfExistsPrefix + "t" == "DROP TABLE IF EXISTS t";
    assert DropIfExistsPrefix + "c.s.t" == "DROP TABLE IF EXISTS c.s.t";
    assert DropPrefix + "t" == "DROP TABLE t";
  }

  /** With nothing truthy the statement is the bare prefix, trailing space included. */
  lemma DropTableNoName(catalog: Option<string>, schema: Option<string>, ifExists: bool)
    requires !Truthy(catalog) && !Truthy(schema)
    ensures DropTable("", schema, catalog, ifExists, false) == Ok(if ifExists then "DROP TABLE IF EXISTS " else "DROP TABLE ")
  {
    NamePartsOrder(catalog, schema, "");
    assert DropIfExistsPrefix + "" == DropIfExistsPrefix;
    assert DropPrefix + "" == DropPrefix;
  }

  /** Round trip: the dotted name of a statement splits back into the kept parts when none holds a `.`. */
  lemma DropTableNameRoundTrip(table: string, schema: Option<string>, catalog: Option<string>, ifExists: bool)
    requires NameParts(catalog, schema, table) != []
    requires forall k :: 0 <= k < |NameParts(catalog, schema, table)| ==> '.' !in NameParts(catalog, schema, table)[k]
    ensures var prefix := if ifExists then DropIfExistsPrefix else DropPrefix;
            var r := DropTable(table, schema, catalog, ifExists, false);
            r.Ok? && |prefix| <= |r.value| && r.value[..|prefix|] == prefix
            && Split(r.value[|prefix|..], '.') == NameParts(catalog, schema, table)
  {
    var prefix := if ifExists then DropIfExistsPrefix else DropPrefix;
    var name := QualifiedName(catalog, schema, table);
    assert (prefix + name)[|prefix|..] == name;
    assert (prefix + name)[..|prefix|] == prefix;
    SplitJoin(NameParts(catalog, schema, table), '.');
  }

  /** No quoting is added: every character of the name is a `.` or comes from a kept part. */
  lemma QualifiedNameUnquoted(catalog: Option<string>, schema: Option<string>, table: string, c: char)
    requires c in QualifiedName(catalog, schema, table)
    ensures c == '.' || (Truthy(catalog) && c in catalog.value) || (Truthy(schema) && c in schema.value) || c in table
  {
    var parts := NameParts(catalog, schema, table);
    JoinChars(parts, ".", c);
    if c != '.' {
      var k :| 0 <= k < |parts| && c in parts[k];
      assert parts[k] in parts;
    }
  }

  /** `quote_one_identifier`: identifiers stay unquoted, so Snowflake upper-cases them. */
  function QuoteOneIdentifier(identifier: string): (r: string)
    ensures r == identifier
  {
    identifier
  }

  /** Quoting each kept part and joining gives the very name DROP TABLE uses. */
  lemma QuotingMatchesDropTable(catalog: Option<string>, schema: Option<string>, table: string)
    ensures var parts := NameParts(catalog, schema, table);
            Join(seq(|parts|, k requires 0 <= k < |parts| => QuoteOneIdentifier(parts[k])), ".")
              == QualifiedName(catalog, schema, table)
  {
    var parts := NameParts(catalog, schema, table);
    assert seq(|parts|, k requires 0 <= k < |parts| => QuoteOneIdentifier(parts[k])) == parts;
  }

  const NotExistPhrase := "does not exist"

  /** `is_table_not_found`: the error text, case-insensitively, mentions both the phrase and the table. */
  function IsTableNotFound(tableName: string, error: string): (r: bool)
    ensures r <==> Occurs(NotExistPhrase, Lower(error)) && Occurs(Lower(tableName), Lower(error))
  {
    var text := Lower(error);
    Contains(text, NotExistPhrase) && Contains(text, Lower(tableName))
  }

  /** The answer does not depend on the case of either argument. */
  lemma IsTableNotFoundIgnoresCase(tableName: string, error: string)
    ensures IsTableNotFound(Upper(tableName), error) == IsTableNotFound(tableName, error)
    ensures IsTableNotFound(Lower(tableName), error) == IsTableNotFound(tableName, error)
    ensures IsTableNotFound(tableName, Upper(error)) == IsTableNotFound(tableName, error)
    ensures IsTableNotFound(tableName, Lower(error)) == IsTableNotFound(tableName, error)
  {
    LowerCaseFolds(tableName);
    LowerCaseFolds(error);
  }

  /** An empty table name leaves only the phrase test. */
  lemma IsTableNotFoundEmptyName(error: string)
    ensures IsTableNotFound("", error) <==> Occurs(NotExistPhrase, Lower(error))
  {
  }

  /**
   * A message that names the table in any letter case, followed later by the phrase
   * in any letter case, reports that table missing.
   */
  lemma IsTableNotFoundWhenNamed(tableName: string, named: string, phrase: string,
                                 before: string, between: string, after: string)
    requires Lower(named) == Lower(tableName)
    requires Lower(phrase) == NotExistPhrase
    ensures IsTableNotFound(tableName, before + named + between + phrase + after)
  {
    var error := before + named + between + phrase + after;
    LowerAppend(before + named + between + phrase, after);
    LowerAppend(before + named + between, phrase);
    LowerAppend(before + named, between);
    LowerAppend(before, named);
    var low := Lower(error);
    assert low == Lower(before) + Lower(tableName) + (Lower(between) + NotExistPhrase + Lower(after));
    OccursAt(Lower(tableName), Lower(before), Lower(between) + NotExistPhrase + Lower(after));
    assert low == (Lower(before) + Lower(tableName) + Lower(between)) + NotExistPhrase + Lower(after);
    OccursAt(NotExistPhrase, Lower(before) + Lower(tableName) + Lower(between), Lower(after));
  }

  /** `Table T1 does not exist` reports `T1`, and reports `t1` too. */
  lemma IsTableNotFoundT1()
    ensures IsTableNotFound("T1", "Table T1 does not exist")
    ensures IsTableNotFound("t1", "Table T1 does not exist")
  {
    var t, error := "T1", "Table T1 does not exist";
    assert error == "Table " + t + " " + NotExistPhrase + "";
    LowerUnchanged(NotExistPhrase);
    IsTableNotFoundWhenNamed(t, t, NotExistPhrase, "Table ", " ", "");
    assert Lower("t1") == Lower(t);
    IsTableNotFoundWhenNamed("t1", t, NotExistPhrase, "Table ", " ", "");
  }

  /** An all-capitals message still reports the table. */
  lemma IsTableNotFoundUpperCaseMessage()
    ensures IsTableNotFound("t1", "TABLE T1 DOES NOT EXIST")
  {
    var t, phrase := "T1", "DOES NOT EXIST";
    assert Lower(phrase) == NotExistPhrase;
    assert Lower("t1") == Lower(t);
    assert "TABLE T1 DOES NOT EXIST" == "TABLE " + t + " " + phrase + "";
    IsTableNotFoundWhenNamed("t1", t, phrase, "TABLE ", " ", "");
  }

  /** `Table T1 does not exist` does not report `T2`. */
  lemma IsTableNotFoundT2()
    ensures !IsTableNotFound("T2", "Table T1 does not exist")
  {
    var error := "Table T1 does not exist";
    assert Lower("T2") == "t2";
    assert '2' !in error;
    OccursKeepsChars("t2", Lower(error));
    LowerKeepsNonLetters(error, '2');
  }

  /** The five tables the constraint DDL creates, in creation order. */
  const ConstraintTables: seq<string> := [
    "constraint_primary",
    "constraint_primary_multi",
    "constraint_primary_multi2",
    "constraint_foreign",
    "constraint_foreign_multi"
  ]

  /** `CREATE TABLE <name> (<columns>)`. */
  function CreateTableStatement(name: string, columns: string): string {
    "CREATE TABLE " + name + " (" + columns + ")"
  }

  /** `ALTER TABLE <name> DROP COLUMN z`. */
  function DropColumnZStatement(name: string): string {
    "ALTER TABLE " + name + " DROP COLUMN z"
  }

  /** `stmt` creates table `name`: it starts `CREATE TABLE <name> (`. */
  predicate CreatesTable(stmt: string, name: string) {
    IsPrefix("CREATE TABLE " + name + " (", stmt)
  }

  /**
   * `sample_ddl_constraints`: create five keyed tables, then drop the auxiliary column `z`
   * from each, in creation order. The ten strings are the statements `sample_ddl_constraints` returns, assembled from
   * the table names.
   */
  function SampleDdlConstraints(): (r: seq<string>)
    ensures |r| == 10
    ensures forall k :: 0 <= k < 5 ==> CreatesTable(r[k], ConstraintTables[k])
    ensures forall k :: 5 <= k < 10 ==> r[k] == "ALTER TABLE " + ConstraintTables[k - 5] + " DROP COLUMN z"
  {
    var columns := [
      "z INT, a INT, b STRING, PRIMARY KEY (a)",
      "z INT, a INT, b STRING, PRIMARY KEY (b, a)",
      "z INT, a STRING, b INT, PRIMARY KEY (a, b)",
      "z INT, a INT, b INT, FOREIGN KEY (b) REFERENCES constraint_primary(a)",
      "z INT, a INT, b INT, c STRING, FOREIGN KEY (c, b) REFERENCES constraint_primary_multi2(a, b)"
    ];
    var creates := seq(5, k requires 0 <= k < 5 => CreateTableStatement(ConstraintTables[k], columns[k]));
    var drops := seq(5, k requires 0 <= k < 5 => DropColumnZStatement(ConstraintTables[k]));
    forall k | 0 <= k < 5 ensures CreatesTable(creates[k], ConstraintTables[k]) {
      var head := "CREATE TABLE " + ConstraintTables[k] + " (";
      assert creates[k] == head + (columns[k] + ")");
      PrefixOfAppend(head, columns[k] + ")");
    }
    creates + drops
  }
}
