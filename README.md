# Snowflake driver quirks, modelled in Dafny

The ADBC driver validation suite tests each database driver against one shared set of
conformance tests. A per-driver *quirks* object tells the suite how that driver differs
from the baseline. This project models the part of the Snowflake (Go driver) quirks
object that computes something:

- `drop_table` builds a `DROP TABLE [IF EXISTS] <name>` statement. The name is the
  non-empty parts of catalog, schema and table, joined with `.`. A request for a
  temporary table is refused with `NotImplementedError`.
- `is_table_not_found` decides, ignoring case, whether an error message reports a
  missing table. The message must contain both the phrase `does not exist` and the
  table name.
- `quote_one_identifier` leaves identifiers unquoted, so Snowflake upper-cases them just
  as it does for the unquoted names in the setup SQL and in `drop_table`.
- `sample_ddl_constraints` is the DDL that sets up the primary-key and foreign-key tables.

The quirks object has only constant class attributes, so every operation is a pure
function of its arguments. Module `SnowflakeQuirks` (`snowflake_quirks.dfy`) holds these
operations. Module `Text` (`text.dfy`) holds the Python string operations they use, each
with the meaning Python gives it:
- `str.lower()` on ASCII letters;
- substring membership `needle in hay`, as a scan proved equal to the reference
  definition "occurs at some offset";
- `sep.join(parts)`;
- `s.split(sep)`, where `"".split(".") == [""]`.

Python's `str | None` parameters become `Option<string>`. The `NotImplementedError` becomes
the `Err(NotImplemented)` case of a `Result`. A part is kept when it is Python-truthy:
neither `None` nor the empty string.

## Model

| member | source | states |
|---|---|---|
| `SnowflakeQuirks.DropTable` | go/validation/tests/snowflake.py:84-105 | For any arguments: `temporary` holds exactly when the result is the NotImplemented error. Otherwise the statement is `DROP TABLE IF EXISTS ` (when `if_exists`) or `DROP TABLE ` followed by the dotted name. The dotted name is `QualifiedName`: `Text.Join` of the kept parts with `.`, as `".".join(parts)`. The lemmas below pin it down. |
| `SnowflakeQuirks.KeepTruthy` | go/validation/tests/snowflake.py:99 | The comprehension keeps no empty string and never more parts than it was given. A string is kept exactly when it is given as a non-empty `Some`. |
| `SnowflakeQuirks.KeepTruthyAppend` | go/validation/tests/snowflake.py:99 | Filtering a concatenation gives the concatenation of the filtered halves, so the kept parts stay in their original order. |
| `SnowflakeQuirks.NamePartsOrder` | go/validation/tests/snowflake.py:99 | Catalog, schema and table are each kept exactly when truthy. The kept ones appear in catalog, schema, table order. |
| `SnowflakeQuirks.QualifiedNameCases` | go/validation/tests/snowflake.py:99-100 | All three parts give `c.s.t`, schema and table give `s.t`, and catalog and table give `c.t`. With no catalog and no schema, the name is the table alone. No quoting is added. |
| `SnowflakeQuirks.DropTableExamples` | go/validation/tests/snowflake.py:84-105 | `("t")` gives `DROP TABLE IF EXISTS t`, `("t","s","c")` gives `DROP TABLE IF EXISTS c.s.t`, and `if_exists=False` gives `DROP TABLE t`. `temporary=True` gives the NotImplemented error. |
| `SnowflakeQuirks.DropTableNoName` | go/validation/tests/snowflake.py:99-105 | When every part is `None` or empty, the statement is the bare prefix, with its trailing space. |
| `SnowflakeQuirks.DropTableNameRoundTrip` | go/validation/tests/snowflake.py:99-103 | The statement starts with its prefix. When at least one part is kept and no kept part contains `.`, splitting the rest on `.` recovers exactly the kept parts, in order. |
| `SnowflakeQuirks.QualifiedNameUnquoted` | go/validation/tests/snowflake.py:97-100 | Every character of the name is a `.` or a character of a kept part. No quote or other decoration is added. |
| `SnowflakeQuirks.QuoteOneIdentifier` | go/validation/tests/snowflake.py:76-79 | Quoting returns every identifier unchanged. |
| `SnowflakeQuirks.QuotingMatchesDropTable` | go/validation/tests/snowflake.py:76-79 | Quoting each kept part and joining with `.` gives the same name that `drop_table` uses. |
| `SnowflakeQuirks.IsTableNotFound` | go/validation/tests/snowflake.py:73-74 | True exactly when the lower-cased message contains `does not exist` and also contains the lower-cased table name, where "contains" means occurs at some offset. Lower-casing is `Text.Lower`, ASCII `str.lower()` applied character by character. |
| `SnowflakeQuirks.IsTableNotFoundIgnoresCase` | go/validation/tests/snowflake.py:73-74 | Upper-casing or lower-casing the table name or the message never changes the answer. |
| `SnowflakeQuirks.IsTableNotFoundEmptyName` | go/validation/tests/snowflake.py:73-74 | For an empty table name, only the phrase test remains. |
| `SnowflakeQuirks.IsTableNotFoundWhenNamed` | go/validation/tests/snowflake.py:73-74 | A message that contains the table name in any ASCII letter case, followed later by `does not exist` in any ASCII letter case, reports the table missing. |
| `SnowflakeQuirks.IsTableNotFoundT1` | go/validation/tests/snowflake.py:73-74 | `("T1", "Table T1 does not exist")` gives true, and so does `("t1", "Table T1 does not exist")`. |
| `SnowflakeQuirks.IsTableNotFoundUpperCaseMessage` | go/validation/tests/snowflake.py:73-74 | `("t1", "TABLE T1 DOES NOT EXIST")` gives true: the phrase matches in capitals too. |
| `SnowflakeQuirks.IsTableNotFoundT2` | go/validation/tests/snowflake.py:73-74 | `("T2", "Table T1 does not exist")` gives false. |
| `SnowflakeQuirks.SampleDdlConstraints` | go/validation/tests/snowflake.py:108-122 | There are exactly 10 statements. The first five create the five constraint tables, in order. The last five are `ALTER TABLE <t> DROP COLUMN z` for those same tables, in the same order. |
| `Text.Contains` | go/validation/tests/snowflake.py:74 | The left-to-right scan answers true exactly when the needle occurs at some offset of the haystack. |
| `Text.LowerCaseFolds` | go/validation/tests/snowflake.py:74 | Lower-casing is idempotent and cancels any earlier upper-casing. |
| `Text.SplitJoin` | go/validation/tests/snowflake.py:99-100 | Splitting a `.`-join of at least one part on `.` gives back the parts, provided no part contains `.`. |

## Left out

- `split_statement` (snowflake.py:81-82) only passes its argument to `quirks.split_statement` from the `adbc_drivers_validation` package. That package is not part of this model.
- `queries_paths` (snowflake.py:69-71) is path arithmetic on the module's own file location, which is filesystem state.
- The `name`, `driver`, `driver_name`, `vendor_name`, `vendor_version`, `short_version`, `features` and `setup` class attributes are static configuration data with no behaviour. `model.FromEnv` placeholders are resolved against environment variables by the harness, not here.
- The `model.DriverQuirks` base class and the module-level `QUIRKS` list are external types and registration. They are not part of this model.
- `str(error)` on an arbitrary exception is a foreign call. The error is modelled as its message string.
- `Text.Lower`: Python's `str.lower()` is Unicode-aware. The model folds only ASCII `A`-`Z`, which approximates the source for non-ASCII messages.
- `SnowflakeQuirks.DropTableNameRoundTrip` requires at least one kept part. With none, the name is empty, and Python's `"".split(".")` gives `[""]`, not an empty list.
- `SnowflakeQuirks.SampleDdlConstraints` assembles its ten strings from the table names and column lists. The strings are exactly the statements `sample_ddl_constraints` returns, but the contract says nothing about the column lists beyond their place in the statement.
- A second Snowflake quirks variant, one that quotes identifiers and matches error codes, is not in the modelled file and is not modelled.
