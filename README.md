# CSQL backend in Dafny

A model of the backend of CSQL, a tool that stages a CSV file for insertion
into a MySQL database. The model covers four parts of the backend:

- **Cell type validator** (`src/backend/parser.rs`). A cell's field has a
  declared type such as `varchar(255)` or `decimal(6,2)`. The validator
  splits it into a type name and an argument text, then writes a success or
  failure outcome into the cell according to that type's rule.
- **Grid loader** (`src/backend/csv_handler.rs`). Builds a row-major grid of
  cells from what the CSV reader delivers. Row 0 holds the header record, or
  is an empty row when there is no readable header.
- **Schema catalog** (`src/backend/database_handler.rs`). The tables that
  `SHOW TABLES` lists, the fields that `DESCRIBE` lists, and the credentials
  with their verified flag.
- **Command processor** (`src/backend/backend_manager.rs`). The
  `BackendManger` actor handles one `Communication` command per `listen`
  call.

The database, the CSV reader and the connection attempt are outside the
model. Their answers are parameters: whether the server accepts the
connection, the `SHOW TABLES` and `DESCRIBE` rows, and the header and
records the reader yields for a path.

Modules: `Wrappers` (Option/Result), `Text` (the `str` operations used:
`find`, `trim`, `split`), `Numbers` (Rust's integer and `f32` text
grammars), `Dates` (calendar-valid dates), `Schema`, `CsvHandler`, `Parser`
and `Backend`.

The model follows the code, including where it departs from the intended design:

- The first `decimal`/`double` bound is compared with the character count
  minus one, so a sign or fraction digits count toward it. It is not the
  count of digits before the point.
- `describe_table` has no guard. Describing a table twice lists its fields twice.
- A load is atomic only when the file cannot be opened. Without a readable
  header, an empty row is pushed onto the previous grid without resetting it.
- `double` without arguments fails with "Not a number", and `double` on
  non-float text leaves the outcome as it was. `decimal` does the opposite.
- `enum` and a quoted argument list reach `todo!()`. They are not a failure
  outcome.
- There is no header-to-field mapper and no insert, commit or rollback
  pipeline in the backend code. The command enum has none of those commands.

## Model

| member | source | states |
|---|---|---|
| `Parser.SplitType` | src/backend/parser.rs:9-52 | the name is the text before the first `(` (the whole text when there is none) and contains no `(`; the args are present exactly when there is a `(`, start with it, and name + args rebuilds the declared type |
| `Parser.SplitDeclaredType` | src/backend/parser.rs:9-52 | a name without `(` splits to itself and no args; name + `(`... splits back into the same name and argument text |
| `Parser.ProcessArgs` | src/backend/parser.rs:74-101 | no argument text gives `None`; otherwise the trimmed text loses its first and last character, is split on `,`, and the `u32` tokens are kept in order (the loop is proved against `NumericArgs`) |
| `Parser.NumericArgs` | src/backend/parser.rs:74-101 | never more values than tokens, every value within `u32` |
| `Parser.KeepU32` | src/backend/parser.rs:89-95 | the kept values are at most as many as the tokens and all within `u32` |
| `Parser.KeepU32Append` | src/backend/parser.rs:89-95 | dropping non-numeric tokens preserves input order: the filter distributes over concatenation |
| `Parser.KeepU32AllValid` | src/backend/parser.rs:89-95 | when every token is a `u32`, each one is kept at its own position |
| `Parser.ArgsRoundTrip` | src/backend/parser.rs:74-101 | the argument text `(n1,...,nk)` written for `u32` values avoids the panicking branches and processes back to exactly those values |
| `Parser.CharRule` | src/backend/parser.rs:102-114 | `char(n)` accepts exactly when the text has MORE than `n` characters, otherwise "Too long"; no args writes nothing |
| `Parser.VarcharRule` | src/backend/parser.rs:116-128 | `varchar(n)` accepts exactly when the text has at most `n` characters, otherwise "Too long"; no args writes nothing |
| `Parser.CharRejectsWhatVarcharAccepts` | src/backend/parser.rs:102-128 | with the same arguments `char` accepts exactly the texts `varchar` rejects |
| `Parser.DoubleRule` | src/backend/parser.rs:133-155 | `double(p,s)`: float text is accepted iff count - 1 <= p and MORE than `s` characters follow the dot, else "too many numbers"; non-float text writes nothing; no args is "Not a number" |
| `Parser.DecimalRule` | src/backend/parser.rs:156-178 | `decimal(p,s)`: float text is accepted iff count - 1 <= p and AT LEAST `s` characters follow the dot, else "too many numbers"; non-float text is "Not a number"; no args writes nothing |
| `Parser.DoubleWithinDecimal` | src/backend/parser.rs:133-178 | every text `double` accepts, `decimal` with the same args accepts |
| `Parser.IntRule` | src/backend/parser.rs:179-190 | accepted exactly when the text is an `i32`, else "Number too big or not a number." |
| `Parser.TinyintRule` | src/backend/parser.rs:191-203 | accepted exactly when the text is an `i8`, else the same message |
| `Parser.TinyintWithinInt` | src/backend/parser.rs:179-203 | every text valid for `tinyint` is valid for `int` |
| `Parser.DateRule` | src/backend/parser.rs:204-221 | accepted exactly for the sentinel `0000-00-00` or a calendar-valid `YYYY-MM-DD`, else "Invalid date: ..." |
| `Parser.DateTimeRule` | src/backend/parser.rs:222-239 | accepted exactly for `0000-00-00 00:00:00` or a valid `YYYY-MM-DD HH:MM:SS`, else "Invalid date: ..." |
| `Parser.ZeroDateIsNotCalendarDate` | src/backend/parser.rs:205-207 | the sentinel is not a calendar date and is accepted only as the sentinel |
| `Parser.Outcome` | src/backend/parser.rs:54-71 | an unknown type name fails with that name; `text` always succeeds; `int`, `tinyint`, `date`, `datetime`, `char`, `varchar`, `decimal`, `double` follow their rules |
| `Parser.Parse` | src/backend/parser.rs:5-72 | only the outcome changes: it becomes the rule's outcome when the rule writes one and is kept otherwise; text and field are unchanged |
| `Parser.UnknownTypeFails` | src/backend/parser.rs:65-70 | an unknown type name never validates; the stored message is the type name |
| `Parser.ParseIdempotent` | src/backend/parser.rs:5-72 | validating a cell twice gives the same cell as validating it once |
| `Parser.VarcharBoundaryAtFive` | src/backend/parser.rs:116-128 | `varchar(5)` accepts `hello` and rejects `hello!` |
| `Parser.CharBoundaryAtFive` | src/backend/parser.rs:102-114 | `char(5)` rejects `hello` and accepts `hello!` |
| `Parser.IntAcceptsSmall` | src/backend/parser.rs:179-190 | `int` accepts `123` |
| `Parser.IntRejects` | src/backend/parser.rs:179-190 | `int` rejects `99999999999` and `12a` |
| `Parser.ElevenNinesOverflow` | src/backend/parser.rs:180 | `99999999999` does not parse as an `i32` |
| `Parser.DateExamples` | src/backend/parser.rs:204-221 | `date` accepts `0000-00-00` and `2024-02-29` and rejects `2024-02-30` |
| `Parser.FiveArgs` | src/backend/parser.rs:74-101 | the argument text `(5)` processes to `[5]` |
| `Parser.VarcharFiveSplits` | src/backend/parser.rs:9-52 | `varchar(5)` splits into `varchar` and `(5)` |
| `Parser.CharFiveSplits` | src/backend/parser.rs:9-52 | `char(5)` splits into `char` and `(5)` |
| `Parser.DigitsAfterDot` | src/backend/parser.rs:161-164 | the count of characters after the first `.`: the character that many places from the end is a `.` and no `.` comes before it |
| `Parser.DigitsAfterDotOfSplit` | src/backend/parser.rs:161-164 | for a whole part without a `.`, a dot and a fraction, the count is the fraction's length |
| `Text.Find` | src/backend/parser.rs:9-14 | `None` exactly when the character is absent; otherwise the index of its first occurrence |
| `Text.TrimStart` | src/backend/parser.rs:77 | removes exactly the leading white space: the result is a suffix that does not start with white space |
| `Text.TrimEnd` | src/backend/parser.rs:77 | removes exactly the trailing white space: the result is a prefix that does not end with white space |
| `Text.Trim` | src/backend/parser.rs:77 | the result neither starts nor ends with white space |
| `Text.TrimSlice` | src/backend/parser.rs:77 | the result is the slice of the text right after its leading white space, and only white space follows it |
| `Text.TrimEmpty` | src/backend/parser.rs:77 | the result is empty exactly when the text is all white space |
| `Text.TrimKeepsTrimmed` | src/backend/parser.rs:77 | text that starts and ends without white space is its own trim |
| `Text.Inner` | src/backend/parser.rs:77-79 | for two or more characters the text is first + result + last; otherwise the result is empty |
| `Text.Split` | src/backend/parser.rs:82 | at least one token, no token holds the separator, and joining the tokens with it gives the text back |
| `Text.SplitJoin` | src/backend/parser.rs:82 | splitting a join of separator-free tokens gives the tokens back |
| `Text.FindAfterPrefix` | src/backend/parser.rs:9-14 | in p + c + t with no c in p, the first c is at index \|p\| |
| `Numbers.ParseInteger` | src/backend/parser.rs:180 | a parsed value is within the type's range and the text starts with a digit or an allowed sign |
| `Numbers.ParseU16` | src/backend/database_handler.rs:105 | a parsed port is within `0..=65535` and is not written with a `-` |
| `Numbers.ParseU32` | src/backend/parser.rs:91 | a parsed type argument is within `0..=4294967295` and is not written with a `-` |
| `Numbers.ParseI8` | src/backend/parser.rs:193 | a parsed `tinyint` value is within `-128..=127` |
| `Numbers.ParseI32` | src/backend/parser.rs:180 | a parsed `int` value is within `-2147483648..=2147483647` |
| `Numbers.ParseDigits` | src/backend/parser.rs:180 | a digit string, leading zeros included, is read as its value exactly when that value is in range |
| `Numbers.ParseNegative` | src/backend/parser.rs:180 | for a signed type, `-` and a digit string is read as the negated value exactly when it is in range |
| `Numbers.ParsePlus` | src/backend/parser.rs:180 | `+` and a digit string is read as the value of the digits exactly when it is in range |
| `Numbers.ParseAcceptsOnlyDigits` | src/backend/parser.rs:180 | an accepted text is a sign followed by a non-empty digit string (or just the digits), and its value is theirs, negated after a `-` |
| `Numbers.DecimalRoundTrip` | src/backend/parser.rs:91 | the decimal rendering of an in-range value parses back to it |
| `Numbers.NegativeRoundTrip` | src/backend/parser.rs:180 | `-` and the rendering of an in-range value parse back to the negative value for a signed type |
| `Numbers.ParseWidens` | src/backend/parser.rs:179-203 | a wider range accepts every text a narrower one accepts, with the same value |
| `Numbers.I8WithinI32` | src/backend/parser.rs:179-203 | every `i8` text is an `i32` text with the same value |
| `Numbers.ToDecimal` | src/backend/parser.rs:91 | a non-empty digit string whose value is the number |
| `Numbers.LeadingDigitBound` | src/backend/parser.rs:180 | digits without a leading zero are worth at least 10^(length-1) |
| `Numbers.DottedDigitsAreFloat` | src/backend/parser.rs:136 | digits with a dot among them, and at least one digit, are accepted as `f32` text |
| `Numbers.ExponentMark` | src/backend/parser.rs:136 | the index of an `e`/`E` with no `e`/`E` before it, or none when the text has none |
| `Numbers.IsFloatText` | src/backend/parser.rs:136 | the empty text is never `f32` text; every digit string, with or without a sign, is |
| `Dates.DaysInMonth` | src/backend/parser.rs:209 | between 28 and 31, and 29 exactly for February of a leap year |
| `Dates.Padded` | src/backend/parser.rs:209 | exactly `w` digits whose value is the number |
| `Dates.DateRoundTrip` | src/backend/parser.rs:209 | a rendered date reads back to its fields, and is date text exactly when it names a real day |
| `Dates.DateTextIsRendered` | src/backend/parser.rs:209 | every date text is the rendering of the day it names |
| `Dates.PaddedOfDigits` | src/backend/parser.rs:209 | a digit string is the padded rendering of its own value |
| `Dates.LeapDay` | src/backend/parser.rs:209 | February 29th is a date exactly in leap years |
| `Dates.DateTimeRoundTrip` | src/backend/parser.rs:227 | a rendered date-time is accepted exactly when its date is real and hour <= 23, minute <= 59, second <= 59 |
| `Dates.IsDateText` | src/backend/parser.rs:209 | a date text has 10 characters with `-` at 4 and 7, a month in 1..12, a day in 1..31, and at most 29 in February |
| `Dates.IsDateTimeText` | src/backend/parser.rs:227 | a date-time text has 19 characters, starts with a date text, and its clock names a second within the day |
| `Dates.LeapDayExample` | src/backend/parser.rs:209 | `2024-02-29` is a date |
| `Dates.NoThirtiethOfFebruary` | src/backend/parser.rs:209 | `2024-02-30` is not a date |
| `Parser.Message` | src/backend/parser.rs:65-239 | an unknown type stores its name as the message; every other error stores a non-empty text |
| `Parser.MessagesDistinct` | src/backend/parser.rs:102-239 | the fixed error texts differ, so the stored text tells the errors apart |
| `CsvHandler.ImportedData.constructor` | src/backend/csv_handler.rs:62-70 | the default import: a 0x0 grid, an empty path, no headers |
| `CsvHandler.ImportedData.LoadCsv` | src/backend/csv_handler.rs:18-59 | an unopenable file fails and changes nothing; otherwise the headers flag says whether a header was read and the grid becomes `LoadedGrid` of the old grid; the path is never modified |
| `CsvHandler.MakeRow` | src/backend/csv_handler.rs:26-32 | the row built in the loop is one new cell per field, in order |
| `CsvHandler.EntryRow` | src/backend/csv_handler.rs:43-49 | one cell per field, in order, holding the field's text with no field description and no outcome |
| `CsvHandler.NewEntry` | src/backend/csv_handler.rs:28-31 | a created cell holds its text and has no field description and no outcome |
| `CsvHandler.ReadRecords` | src/backend/csv_handler.rs:40-52 | the records read are at most as many as the records |
| `CsvHandler.ReadRecordsCount` | src/backend/csv_handler.rs:40-52 | as many rows are added as records were read |
| `CsvHandler.ReadRecordsAllRead` | src/backend/csv_handler.rs:40-52 | when no record fails, every record becomes a row, in input order |
| `CsvHandler.ReadRecordsSnoc` | src/backend/csv_handler.rs:40-52 | a failed record adds no row; a read one adds its row at the end |
| `CsvHandler.LoadedGrid` | src/backend/csv_handler.rs:23-52 | the loaded grid has the base rows (1 with a header, the old grid plus 1 without) plus one row per record read, and its last rows are the records read, in order, as new cells |
| `CsvHandler.LoadedGridWithHeaders` | src/backend/csv_handler.rs:23-52 | with a header the grid is reset: row 0 is the header row, there is 1 + (records read) rows, and every cell is new |
| `CsvHandler.LoadedGridWithoutHeaders` | src/backend/csv_handler.rs:35-52 | without a header the old grid is kept, then an empty row, then one row per record read |
| `Schema.Unmapped` | src/backend/database_handler.rs:68-79 | one field per column, in order, each with that column's description and no mapped column |
| `Schema.Table.constructor` | src/backend/database_handler.rs:44-51 | a listed table has its name and no fields |
| `Schema.Table.DescribeTable` | src/backend/database_handler.rs:58-80 | the name is unchanged; the fields become present: the earlier fields (none counts as empty) followed by the unmapped columns |
| `Schema.DescribeTwice` | src/backend/database_handler.rs:58-80 | calling `describe_table` twice with the same reply leaves the old fields followed by two copies of the columns: each column's description sits at `n + k` and at `n + \|columns\| + k` |
| `Schema.Tables.constructor` | src/backend/database_handler.rs:6-9 | the default table list is empty |
| `Schema.Tables.QueryForTables` | src/backend/database_handler.rs:35-54 | returns `Ok`; earlier tables are kept; one new, name-only table per reply row is appended, in reply order |
| `Schema.DBLoginData.constructor` | src/backend/database_handler.rs:88-97 | credentials as entered, not verified |
| `Schema.DBLoginData.ValidateCreditentials` | src/backend/database_handler.rs:99-130 | a port that is not a `u16` fails before connecting and leaves the flag; otherwise the flag becomes whether the connect succeeded, with the connection or a failure returned; the credentials are unchanged |
| `Backend.ParseCellAt` | src/backend/backend_manager.rs:85-91 | only the cell at the column changes, and only when it has a field, to its validated form |
| `Backend.ParseColumn` | src/backend/backend_manager.rs:82-92 | same shape; the cells of the column with a field are validated; every other cell is unchanged |
| `Backend.ParseColumnKeepsTextAndFields` | src/backend/backend_manager.rs:82-92 | every cell keeps its text and field, and the column can be validated again |
| `Backend.ParseColumnIdempotent` | src/backend/backend_manager.rs:82-92 | validating a column twice gives the same grid as once |
| `Backend.BackendManager.constructor` | src/main.rs:21-28 | the manager starts with default credentials (all texts empty, not remembered, not verified) and a default import, no connection, and the shared grid and table list |
| `Backend.BackendManager.ValidateCreditentials` | src/backend/backend_manager.rs:22-44 | the credentials are replaced by the given ones, whose texts, password and remember flag stay as given; success (valid port and accepted connect) sets the connection and appends the listed tables; failure keeps connection and tables and replies `Err` with the reason |
| `Backend.BackendManager.AreCreditentialsValidated` | src/backend/backend_manager.rs:45-49 | replies with the verified flag; changes nothing |
| `Backend.BackendManager.LoadImportFilePath` | src/backend/backend_manager.rs:50-72 | the import path is set first; on success the shared import gets the headers flag, the grid and the path and the reply is `true`; on failure the shared import is untouched and the reply is `false` |
| `Backend.BackendManager.GetTableDescription` | src/backend/backend_manager.rs:73-81 | table `i` is described with the reply; no other table's name or fields change |
| `Backend.BackendManager.TryParseCol` | src/backend/backend_manager.rs:82-92 | the shared grid becomes `ParseColumn` of itself for the column (the in-place loop is proved against it); path and headers flag unchanged |
| `Backend.BackendManager.Listen` | src/backend/backend_manager.rs:19-95 | handles at most one command (none when the channel is closed) with that command's effects and reply. Each command may modify only its own objects: credentials and the table list for a login, the two imports for a load, table `i` for a description, the shared grid for a column validation. Every other part of the state, including every table object, is stated unchanged |

## Left out

- The user interface (`src/ui/*.rs`) and the start-up in `src/main.rs`. Only
  the initial manager state from `src/main.rs` is modelled, as the constructor.
- Locks, channels and concurrency with the render loop. Each command is one
  atomic step. Failed reply sends and all `println!` output are not modelled.
- The reply order inside `ValidateCreditentials` is not modelled. The source
  replies before it lists the tables; in one atomic step the order is not
  observable.
- The database and the CSV reader. Their answers are parameters. A connection
  is represented by the parameters it was opened with. The `unwrap` panics
  on a failed `SHOW TABLES` or `DESCRIBE` query are not modelled.
- Panics become preconditions:
  - `todo!()` for `enum` and for a quoted argument list;
  - the `unwrap` on an empty first argument token (for example `char()`);
  - the `unwrap` on a float text without a dot (`12`, `1e5`, `inf`) under
    `decimal`/`double` with arguments;
  - indexing past the arguments supplied;
  - the `unwrap` on an out-of-range table index or a missing connection;
  - the `unwrap` on a cell without a field in `parse`.
- The grid crate's internals. The grid is a sequence of rows. The crate's
  row-length assertions in `push_row` and its column-bound check in
  `iter_col_mut` are not modelled. Validating column `c` touches the rows
  that have a cell at `c`.
- Floating-point values. `f32` acceptance is modelled as the syntax of
  Rust's `f32::from_str`, which does not depend on magnitude. Values are
  never computed.
- DigitsAfterDot: counts characters after the dot's character index. The
  source skips by the dot's byte index, which is the same for the ASCII-only
  texts that pass as `f32` text, the only texts it is applied to.
- DateRule: accepts exactly `YYYY-MM-DD` with four-digit years and
  two-digit fields. chrono's `%Y-%m-%d` is more lenient: it also accepts
  unpadded fields, signed years and years with more than four digits.
- DateTimeRule: accepts only seconds 00-59 with two-digit fields. chrono
  also accepts a leap second `60` and unpadded fields.
- Message: for `InvalidDate`, only the prefix `Invalid date: ` is modelled,
  not chrono's detail text.
- CharRule: the `as u32` cast of the character count is not modelled.
  Counts are unbounded, so a text of more than 4294967295 characters would
  compare differently.
- VarcharRule: the same `as u32` cast of the character count is not modelled.
- DoubleRule: the `as u32` casts of both character counts are not modelled.
- DecimalRule: the `as u32` casts of both character counts are not modelled.
- The `password` and `should_remember` fields are stored but have no behaviour.
