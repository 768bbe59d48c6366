/**
 * The cell type validator: splits the declared MySQL type of a cell's
 * field into a name and an argument text, and decides, per type, the
 * outcome written into the cell.  Each rule gives `None` when the source
 * leaves the cell's outcome as it was.
 */
module Parser {
  import opened Wrappers
  import opened Text
  import opened Numbers
  import Dates
  import opened CsvHandler
  import Schema

  /** The stored error text (for `InvalidDate`, the fixed prefix of it). */
  function Message(e: CellError): (m: string)
    ensures e.UnknownType? ==> m == e.typeName
    ensures !e.UnknownType? ==> |m| > 0
  {
    match e
    case UnknownType(n) => n
    case TooLong => "Too long"
    case TooManyNumbers => "too many numbers"
    case NotANumber => "Not a number"
    case NumberTooBig => "Number too big or not a number."
    case InvalidDate => "Invalid date: "
  }

  /** Apart from an unknown type name, stored as it is, each error has a text of its own. */
  lemma MessagesDistinct(a: CellError, b: CellError)
    requires !a.UnknownType? && !b.UnknownType? && a != b
    ensures Message(a) != Message(b)
  {
  }

  // ---------------------------------------------------------------------
  // Type name and arguments

  /** The name before the first `(` and, when there is one, the text from that `(` to the end. */
  function SplitType(fieldType: string): (r: (string, Option<string>))
    ensures r.1.None? <==> '(' !in fieldType
    ensures '(' !in r.0
    ensures r.1.Some? ==> |r.1.value| >= 1 && r.1.value[0] == '('
    ensures r.0 + (if r.1.Some? then r.1.value else "") == fieldType
  {
    match Find(fieldType, '(')
    case None => (fieldType, None)
    case Some(i) =>
      assert fieldType[..i] + fieldType[i..] == fieldType;
      (fieldType[..i], Some(fieldType[i..]))
  }

  /** A type written as a name and a parenthesised argument text splits back into the two. */
  lemma SplitDeclaredType(name: string, inside: string)
    requires '(' !in name
    ensures SplitType(name) == (name, None)
    ensures SplitType(name + "(" + inside) == (name, Some("(" + inside))
  {
    FindAfterPrefix(name, '(', inside);
    var s := name + "(" + inside;
    assert s[..|name|] == name;
    assert s[|name|..] == "(" + inside;
  }

  /** The comma-separated tokens `process_args` sees: trimmed, first and last character dropped. */
  function ArgTokens(args: string): (r: seq<string>)
    ensures |r| >= 1
  {
    Split(Inner(Trim(args)), ',')
  }

  /** The argument text does not hit the unwrap of an empty first token or the unimplemented quoted (enum) branch. */
  predicate NumericArgList(args: string) {
    var first := ArgTokens(args)[0];
    |first| > 0 && first[0] != '"'
  }

  /** The tokens that parse as `u32`, in order; the others are dropped. */
  function KeepU32(tokens: seq<string>): (r: seq<nat>)
    ensures |r| <= |tokens|
    ensures forall k :: 0 <= k < |r| ==> r[k] <= U32_MAX
  {
    if |tokens| == 0 then []
    else
      var front := KeepU32(tokens[..|tokens| - 1]);
      match ParseU32(tokens[|tokens| - 1])
      case None => front
      case Some(v) => front + [v as nat]
  }

  /** Filtering distributes over concatenation: the kept values keep their input order. */
  lemma {:induction false} KeepU32Append(a: seq<string>, b: seq<string>)
    ensures KeepU32(a + b) == KeepU32(a) + KeepU32(b)
    decreases |b|
  {
    if |b| > 0 {
      var b' := b[..|b| - 1];
      assert (a + b)[..|a + b| - 1] == a + b';
      KeepU32Append(a, b');
    } else {
      assert a + b == a;
    }
  }

  /** When every token is a `u32`, each one is kept, position for position. */
  lemma {:induction false} KeepU32AllValid(tokens: seq<string>)
    requires forall k :: 0 <= k < |tokens| ==> ParseU32(tokens[k]).Some?
    ensures |KeepU32(tokens)| == |tokens|
    ensures forall k :: 0 <= k < |tokens| ==> KeepU32(tokens)[k] == ParseU32(tokens[k]).value
  {
    if |tokens| > 0 {
      KeepU32AllValid(tokens[..|tokens| - 1]);
    }
  }

  /** The numeric arguments of an argument text. */
  function NumericArgs(args: string): (r: seq<nat>)
    ensures |r| <= |ArgTokens(args)|
    ensures forall k :: 0 <= k < |r| ==> r[k] <= U32_MAX
  {
    KeepU32(ArgTokens(args))
  }

  /** `process_args`: no argument text gives `None`; otherwise the `u32` tokens, in order. */
  method ProcessArgs(args: Option<string>) returns (r: Option<seq<nat>>)
    requires args.Some? ==> NumericArgList(args.value)
    ensures r.None? <==> args.None?
    ensures r.Some? ==> r.value == NumericArgs(args.value)
  {
    if args.None? {
      return None;
    }
    var tokens := Split(Inner(Trim(args.value)), ',');
    var nums: seq<nat> := [];
    var i := 0;
    while i < |tokens|
      invariant 0 <= i <= |tokens|
      invariant nums == KeepU32(tokens[..i])
    {
      assert tokens[..i + 1][..i] == tokens[..i];
      var parsed := ParseU32(tokens[i]);
      if parsed.Some? {
        assert KeepU32(tokens[..i + 1]) == KeepU32(tokens[..i]) + [parsed.value as nat];
        nums := nums + [parsed.value as nat];
      } else {
        assert KeepU32(tokens[..i + 1]) == KeepU32(tokens[..i]);
      }
      i := i + 1;
    }
    assert tokens[..i] == tokens;
    r := Some(nums);
  }

  /** The argument text `(n1,n2,...)` written for a list of `u32` values. */
  function RenderArgs(ns: seq<nat>): string
    requires |ns| >= 1
  {
    "(" + Join(seq(|ns|, k requires 0 <= k < |ns| => ToDecimal(ns[k])), ',') + ")"
  }

  /** Rendered arguments are processable and process back to the same values. */
  lemma ArgsRoundTrip(ns: seq<nat>)
    requires |ns| >= 1
    requires forall k :: 0 <= k < |ns| ==> ns[k] <= U32_MAX
    ensures NumericArgList(RenderArgs(ns))
    ensures NumericArgs(RenderArgs(ns)) == ns
  {
    var tokens := seq(|ns|, k requires 0 <= k < |ns| => ToDecimal(ns[k]));
    var s := RenderArgs(ns);
    TrimKeepsTrimmed(s);
    assert Inner(s) == Join(tokens, ',');
    forall k | 0 <= k < |tokens| ensures ',' !in tokens[k] {
      assert forall j :: 0 <= j < |tokens[k]| ==> IsDigit(tokens[k][j]);
    }
    SplitJoin(tokens, ',');
    assert ArgTokens(s) == tokens;
    forall k | 0 <= k < |tokens| ensures ParseU32(tokens[k]) == Some(ns[k] as int) {
      DecimalRoundTrip(ns[k], false, 0, U32_MAX);
    }
    KeepU32AllValid(tokens);
    assert IsDigit(tokens[0][0]);
  }

  // ---------------------------------------------------------------------
  // Per-type rules

  /** The arguments `char` and `varchar` read: processable, with at least one number. */
  predicate LengthArgsOk(args: Option<string>) {
    args.Some? ==> NumericArgList(args.value) && |NumericArgs(args.value)| >= 1
  }

  /** `char(n)`: accepted when the text has MORE than `n` characters; no arguments writes nothing. */
  function CharRule(text: string, args: Option<string>): (w: Option<ParseOutcome>)
    requires LengthArgsOk(args)
    ensures w.None? <==> args.None?
    ensures w == Some(Parsed) <==> args.Some? && |text| > NumericArgs(args.value)[0]
    ensures w.Some? ==> w.value in {Parsed, Failed(TooLong)}
  {
    if args.None? then None
    else if |text| > NumericArgs(args.value)[0] then Some(Parsed)
    else Some(Failed(TooLong))
  }

  /** `varchar(n)`: accepted when the text has at most `n` characters; no arguments writes nothing. */
  function VarcharRule(text: string, args: Option<string>): (w: Option<ParseOutcome>)
    requires LengthArgsOk(args)
    ensures w.None? <==> args.None?
    ensures w == Some(Parsed) <==> args.Some? && |text| <= NumericArgs(args.value)[0]
    ensures w.Some? ==> w.value in {Parsed, Failed(TooLong)}
  {
    if args.None? then None
    else if |text| <= NumericArgs(args.value)[0] then Some(Parsed)
    else Some(Failed(TooLong))
  }

  /** With the same arguments, `char` accepts exactly the texts `varchar` rejects. */
  lemma CharRejectsWhatVarcharAccepts(text: string, args: string)
    requires LengthArgsOk(Some(args))
    ensures CharRule(text, Some(args)) == Some(Parsed) <==> VarcharRule(text, Some(args)) == Some(Failed(TooLong))
  {
  }

  /** The number of characters after the first `.`. */
  function DigitsAfterDot(text: string): (n: nat)
    requires '.' in text
    ensures n < |text|
    ensures text[|text| - n - 1] == '.' && '.' !in text[..|text| - n - 1]
  {
    |text| - Find(text, '.').value - 1
  }

  /** Written as a whole part without a `.`, a dot and a fraction, the count is the fraction's length. */
  lemma DigitsAfterDotOfSplit(whole: string, frac: string)
    requires '.' !in whole
    ensures DigitsAfterDot(whole + "." + frac) == |frac|
  {
    var text := whole + "." + frac;
    assert text[|whole|] == '.';
  }

  /**
   * The arguments and text `double` and `decimal` read without a panic:
   * processable arguments and, for float text, a `.` in it, a first
   * argument, and a second one whenever the first comparison succeeds.
   */
  predicate FloatArgsOk(text: string, args: Option<string>) {
    args.Some? ==>
      && NumericArgList(args.value)
      && (IsFloatText(text) ==>
            var ns := NumericArgs(args.value);
            '.' in text && |ns| >= 1 && (|text| - 1 <= ns[0] ==> |ns| >= 2))
  }

  /**
   * `decimal(p,s)`: float text is accepted when its characters other than
   * the dot number at most `p` and at least `s` follow the dot; other text
   * is "Not a number".  No arguments writes nothing.
   */
  function DecimalRule(text: string, args: Option<string>): (w: Option<ParseOutcome>)
    requires FloatArgsOk(text, args)
    ensures w.None? <==> args.None?
    ensures args.Some? && !IsFloatText(text) ==> w == Some(Failed(NotANumber))
    ensures args.Some? && IsFloatText(text) && w != Some(Parsed) ==> w == Some(Failed(TooManyNumbers))
    ensures w == Some(Parsed) <==>
      && args.Some? && IsFloatText(text)
      && |text| - 1 <= NumericArgs(args.value)[0]
      && DigitsAfterDot(text) >= NumericArgs(args.value)[1]
    ensures w.Some? ==> w.value in {Parsed, Failed(TooManyNumbers), Failed(NotANumber)}
  {
    if args.None? then None
    else if !IsFloatText(text) then Some(Failed(NotANumber))
    else
      var ns := NumericArgs(args.value);
      if |text| - 1 <= ns[0] && DigitsAfterDot(text) >= ns[1] then Some(Parsed)
      else Some(Failed(TooManyNumbers))
  }

  /**
   * `double(p,s)`: the `decimal` test with MORE than `s` characters after
   * the dot.  Text that is not a float writes nothing; no arguments is
   * "Not a number".
   */
  function DoubleRule(text: string, args: Option<string>): (w: Option<ParseOutcome>)
    requires FloatArgsOk(text, args)
    ensures args.None? ==> w == Some(Failed(NotANumber))
    ensures args.Some? ==> (w.None? <==> !IsFloatText(text))
    ensures args.Some? && IsFloatText(text) && w != Some(Parsed) ==> w == Some(Failed(TooManyNumbers))
    ensures w == Some(Parsed) <==>
      && args.Some? && IsFloatText(text)
      && |text| - 1 <= NumericArgs(args.value)[0]
      && DigitsAfterDot(text) > NumericArgs(args.value)[1]
    ensures w.Some? ==> w.value in {Parsed, Failed(TooManyNumbers), Failed(NotANumber)}
  {
    if args.None? then Some(Failed(NotANumber))
    else if !IsFloatText(text) then None
    else
      var ns := NumericArgs(args.value);
      if |text| - 1 <= ns[0] && DigitsAfterDot(text) > ns[1] then Some(Parsed)
      else Some(Failed(TooManyNumbers))
  }

  /** Whatever `double` accepts, `decimal` with the same arguments accepts too. */
  lemma DoubleWithinDecimal(text: string, args: Option<string>)
    requires FloatArgsOk(text, args)
    requires DoubleRule(text, args) == Some(Parsed)
    ensures DecimalRule(text, args) == Some(Parsed)
  {
  }

  /** `int`: accepted exactly when the text is an `i32`. */
  function IntRule(text: string): (w: ParseOutcome)
    ensures w == Parsed <==> ParseI32(text).Some?
    ensures w.Failed? ==> w.error == NumberTooBig
  {
    if ParseI32(text).Some? then Parsed else Failed(NumberTooBig)
  }

  /** `tinyint`: accepted exactly when the text is an `i8`. */
  function TinyintRule(text: string): (w: ParseOutcome)
    ensures w == Parsed <==> ParseI8(text).Some?
    ensures w.Failed? ==> w.error == NumberTooBig
  {
    if ParseI8(text).Some? then Parsed else Failed(NumberTooBig)
  }

  /** Every text `tinyint` accepts, `int` accepts. */
  lemma TinyintWithinInt(text: string)
    requires TinyintRule(text) == Parsed
    ensures IntRule(text) == Parsed
  {
  }

  const ZERO_DATE: string := "0000-00-00"
  const ZERO_DATETIME: string := "0000-00-00 00:00:00"

  /** `date`: the zero date, or a calendar-valid `YYYY-MM-DD`. */
  function DateRule(text: string): (w: ParseOutcome)
    ensures w == Parsed <==> text == ZERO_DATE || Dates.IsDateText(text)
    ensures w.Failed? ==> w.error == InvalidDate
  {
    if text == ZERO_DATE then Parsed
    else if Dates.IsDateText(text) then Parsed
    else Failed(InvalidDate)
  }

  /** `datetime`: the zero date-time, or a valid `YYYY-MM-DD HH:MM:SS`. */
  function DateTimeRule(text: string): (w: ParseOutcome)
    ensures w == Parsed <==> text == ZERO_DATETIME || Dates.IsDateTimeText(text)
    ensures w.Failed? ==> w.error == InvalidDate
  {
    if text == ZERO_DATETIME then Parsed
    else if Dates.IsDateTimeText(text) then Parsed
    else Failed(InvalidDate)
  }

  /** The sentinel is not a calendar date: it is accepted only because it is the sentinel. */
  lemma ZeroDateIsNotCalendarDate()
    ensures !Dates.IsDateText(ZERO_DATE)
    ensures DateRule(ZERO_DATE) == Parsed
  {
    assert ZERO_DATE[5..7] == "00";
  }

  // ---------------------------------------------------------------------
  // Dispatch

  const KNOWN_TYPES: set<string> :=
    {"char", "varchar", "text", "double", "decimal", "int", "tinyint", "date", "datetime", "enum"}

  /** The declared type and the text do not reach a panic or an unimplemented branch of the validator. */
  predicate CanParse(fieldType: string, text: string) {
    var (name, args) := SplitType(fieldType);
    if name == "char" || name == "varchar" then LengthArgsOk(args)
    else if name == "double" || name == "decimal" then FloatArgsOk(text, args)
    else name != "enum"
  }

  /** The outcome `parse` writes for `text` under the declared type; `None` writes nothing. */
  function Outcome(fieldType: string, text: string): (w: Option<ParseOutcome>)
    requires CanParse(fieldType, text)
    ensures var (name, args) := SplitType(fieldType);
      && (name !in KNOWN_TYPES ==> w == Some(Failed(UnknownType(name))))
      && (name == "text" ==> w == Some(Parsed))
      && (name == "int" ==> w == Some(IntRule(text)))
      && (name == "tinyint" ==> w == Some(TinyintRule(text)))
      && (name == "date" ==> w == Some(DateRule(text)))
      && (name == "datetime" ==> w == Some(DateTimeRule(text)))
    ensures var (name, args) := SplitType(fieldType);
      && (name == "char" ==> w == CharRule(text, args))
      && (name == "varchar" ==> w == VarcharRule(text, args))
      && (name == "decimal" ==> w == DecimalRule(text, args))
      && (name == "double" ==> w == DoubleRule(text, args))
  {
    var (name, args) := SplitType(fieldType);
    if name == "char" then CharRule(text, args)
    else if name == "varchar" then VarcharRule(text, args)
    else if name == "text" then Some(Parsed)
    else if name == "double" then DoubleRule(text, args)
    else if name == "decimal" then DecimalRule(text, args)
    else if name == "int" then Some(IntRule(text))
    else if name == "tinyint" then Some(TinyintRule(text))
    else if name == "date" then Some(DateRule(text))
    else if name == "datetime" then Some(DateTimeRule(text))
    else Some(Failed(UnknownType(name)))
  }

  /** A cell the validator can run on: it has a field, and its type and text are free of panics. */
  predicate Parsable(cell: DataEntry) {
    cell.currFieldDescription.Some? && CanParse(cell.currFieldDescription.value.fieldType, cell.data)
  }

  /**
   * `parse`: validates the cell against its field's declared type.  Only
   * the outcome changes; it becomes the rule's outcome when the rule
   * writes one and stays as it was otherwise.
   */
  function Parse(cell: DataEntry): (r: DataEntry)
    requires Parsable(cell)
    ensures r.data == cell.data && r.currFieldDescription == cell.currFieldDescription
    ensures var w := Outcome(cell.currFieldDescription.value.fieldType, cell.data);
      (w.Some? ==> r.isParsed == w) && (w.None? ==> r.isParsed == cell.isParsed)
  {
    var w := Outcome(cell.currFieldDescription.value.fieldType, cell.data);
    if w.Some? then cell.(isParsed := w) else cell
  }

  /** An unknown type name is never accepted: the cell fails with that name as its message. */
  lemma UnknownTypeFails(cell: DataEntry)
    requires Parsable(cell)
    requires SplitType(cell.currFieldDescription.value.fieldType).0 !in KNOWN_TYPES
    ensures Parse(cell).isParsed.Some? && Parse(cell).isParsed.value.Failed?
    ensures Message(Parse(cell).isParsed.value.error) == SplitType(cell.currFieldDescription.value.fieldType).0
  {
  }

  /** Validating twice gives the same cell as validating once. */
  lemma ParseIdempotent(cell: DataEntry)
    requires Parsable(cell)
    ensures Parsable(Parse(cell)) && Parse(Parse(cell)) == Parse(cell)
  {
  }

  // ---------------------------------------------------------------------
  // Boundary cases

  /** A cell holding `text`, assigned to a field of the declared type. */
  function Typed(text: string, fieldType: string): (cell: DataEntry)
    ensures cell.data == text && cell.currFieldDescription.Some?
    ensures cell.currFieldDescription.value.fieldType == fieldType
  {
    DataEntry(text, Some(Schema.FieldDescription("f", fieldType, "YES", "", None, "")), None)
  }

  /** The argument text `(5)` processes to the single number 5. */
  lemma FiveArgs()
    ensures NumericArgList("(5)") && NumericArgs("(5)") == [5]
  {
    ArgsRoundTrip([5]);
    assert RenderArgs([5]) == "(5)";
  }

  /** `varchar(5)` splits into the name `varchar` and the argument text `(5)`. */
  lemma VarcharFiveSplits()
    ensures SplitType("varchar(5)") == ("varchar", Some("(5)"))
  {
    SplitDeclaredType("varchar", "5)");
    assert "varchar" + "(" + "5)" == "varchar(5)";
  }

  /** `char(5)` splits into the name `char` and the argument text `(5)`. */
  lemma CharFiveSplits()
    ensures SplitType("char(5)") == ("char", Some("(5)"))
  {
    SplitDeclaredType("char", "5)");
    assert "char" + "(" + "5)" == "char(5)";
  }

  /** `varchar(5)` accepts five characters and rejects six. */
  lemma VarcharBoundaryAtFive()
    ensures Parsable(Typed("hello", "varchar(5)")) && Parsable(Typed("hello!", "varchar(5)"))
    ensures Parse(Typed("hello", "varchar(5)")).isParsed == Some(Parsed)
    ensures Parse(Typed("hello!", "varchar(5)")).isParsed == Some(Failed(TooLong))
  {
    FiveArgs();
    VarcharFiveSplits();
  }

  /** `char(5)`, as written, rejects five characters and accepts six. */
  lemma CharBoundaryAtFive()
    ensures Parsable(Typed("hello", "char(5)")) && Parsable(Typed("hello!", "char(5)"))
    ensures Parse(Typed("hello", "char(5)")).isParsed == Some(Failed(TooLong))
    ensures Parse(Typed("hello!", "char(5)")).isParsed == Some(Parsed)
  {
    FiveArgs();
    CharFiveSplits();
  }

  /** `int` accepts `123`. */
  lemma IntAcceptsSmall()
    ensures Parsable(Typed("123", "int")) && Parse(Typed("123", "int")).isParsed == Some(Parsed)
  {
    SplitDeclaredType("int", "");
    DecimalRoundTrip(123, true, I32_MIN, I32_MAX);
    assert ToDecimal(123) == "123";
  }

  /** Eleven digits without a leading zero are beyond `i32`. */
  lemma ElevenNinesOverflow()
    ensures ParseI32("99999999999").None?
  {
    var big := "99999999999";
    assert AllDigits(big);
    LeadingDigitBound(big);
    assert Pow10(10) == 10000000000;
  }

  /** `int` rejects `99999999999` (beyond `i32`) and `12a` (not a number). */
  lemma IntRejects()
    ensures Parsable(Typed("99999999999", "int"))
    ensures Parse(Typed("99999999999", "int")).isParsed == Some(Failed(NumberTooBig))
    ensures Parsable(Typed("12a", "int")) && Parse(Typed("12a", "int")).isParsed == Some(Failed(NumberTooBig))
  {
    SplitDeclaredType("int", "");
    ElevenNinesOverflow();
    assert !IsDigit("12a"[2]);
  }

  /** `date` accepts the zero date and 2024-02-29, and rejects 2024-02-30. */
  lemma DateExamples()
    ensures Parsable(Typed("0000-00-00", "date")) && Parse(Typed("0000-00-00", "date")).isParsed == Some(Parsed)
    ensures Parsable(Typed("2024-02-29", "date")) && Parse(Typed("2024-02-29", "date")).isParsed == Some(Parsed)
    ensures Parsable(Typed("2024-02-30", "date"))
    ensures Parse(Typed("2024-02-30", "date")).isParsed == Some(Failed(InvalidDate))
  {
    SplitDeclaredType("date", "");
    Dates.LeapDayExample();
    Dates.NoThirtiethOfFebruary();
  }
}
