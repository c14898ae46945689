/** The form-validation helpers of the admin front end: the rule-chain
    combinator `createRule`, the emptiness tests `optional` and `notEmpty`, the
    digit-string tests and the `YYYY-MM-DD` date test. */
module Validator {
  import opened Wrappers
  import opened Json
  import Text
  import Calendar

  /** What one rule returned for the field's value. */
  datatype RuleOutput =
    | Message(text: string)   // a string, returned to the form as it is
    | Absent                  // `undefined`: stop and accept
    | Holds                   // `true`: go on to the next rule
    | Fails                   // `false`: stop with the combined rule's message
    | Unrecognised            // any other value: none of the tests match, go on
    | Threw(shown: string)    // the rule threw; `shown` is `${error}`

  /** What the combined rule returns to the form: a string, `true`, or
      `undefined` (a failure when no message was given). */
  datatype Verdict = Returns(text: string) | ReturnsTrue | ReturnsUndefined

  type Rule = JsValue -> RuleOutput

  /** The outputs that end the loop. */
  predicate Stops(o: RuleOutput) {
    !(o.Holds? || o.Unrecognised?)
  }

  /** The verdict a stopping output settles on. */
  function Settle(o: RuleOutput, message: Option<string>): Verdict
    requires Stops(o)
  {
    match o
    case Message(t) => Returns(t)
    case Absent => ReturnsTrue
    case Fails => if message.Some? then Returns(message.value) else ReturnsUndefined
    case Threw(e) => Returns(e)
  }

  /** The outputs of all rules on one value. */
  function Outputs(rules: seq<Rule>, data: JsValue): (outs: seq<RuleOutput>)
    ensures |outs| == |rules|
    ensures forall i :: 0 <= i < |rules| ==> outs[i] == rules[i](data)
  {
    seq(|rules|, i requires 0 <= i < |rules| => rules[i](data))
  }

  /** The combined rule's verdict on a list of outputs, read left to right. */
  function Evaluate(outs: seq<RuleOutput>, message: Option<string>): (v: Verdict)
    ensures (forall j :: 0 <= j < |outs| ==> !Stops(outs[j])) ==> v == ReturnsTrue
    ensures v == ReturnsTrue || exists j :: 0 <= j < |outs| && Stops(outs[j]) && v == Settle(outs[j], message)
  {
    if |outs| == 0 then ReturnsTrue
    else if Stops(outs[0]) then Settle(outs[0], message)
    else
      var v := Evaluate(outs[1..], message);
      assert forall j :: 1 <= j < |outs| ==> outs[j] == outs[1..][j - 1];
      v
  }

  /** The verdict is settled by the first stopping output; if none stops, the
      value is accepted. */
  lemma {:induction false} EvaluateFirstStop(outs: seq<RuleOutput>, message: Option<string>, k: nat)
    requires k <= |outs|
    requires forall j :: 0 <= j < k ==> !Stops(outs[j])
    ensures k < |outs| && Stops(outs[k]) ==> Evaluate(outs, message) == Settle(outs[k], message)
    ensures k == |outs| ==> Evaluate(outs, message) == ReturnsTrue
  {
    if k > 0 {
      EvaluateFirstStop(outs[1..], message, k - 1);
    }
  }

  /** The function the combined rule runs: rules are consulted in order until one
      stops the loop; `consulted` counts the rules that were called. */
  method RunRules(rules: seq<Rule>, message: Option<string>, data: JsValue)
    returns (v: Verdict, consulted: nat)
    ensures consulted <= |rules|
    ensures forall j :: 0 <= j < consulted - 1 ==> !Stops(rules[j](data))
    ensures consulted < |rules| ==> 0 < consulted && Stops(rules[consulted - 1](data))
    ensures 0 < consulted && Stops(rules[consulted - 1](data))
            ==> v == Settle(rules[consulted - 1](data), message)
    ensures (consulted == 0 || !Stops(rules[consulted - 1](data))) ==> v == ReturnsTrue
    ensures v == Evaluate(Outputs(rules, data), message)
  {
    var i := 0;
    while i < |rules|
      invariant i <= |rules|
      invariant forall j :: 0 <= j < i ==> !Stops(rules[j](data))
    {
      var o := rules[i](data);
      if Stops(o) {
        EvaluateFirstStop(Outputs(rules, data), message, i);
        return Settle(o, message), i + 1;
      }
      i := i + 1;
    }
    EvaluateFirstStop(Outputs(rules, data), message, i);
    return ReturnsTrue, i;
  }

  /** `createRule`: always a one-element list, whose function gives the verdict of
      the rules on the value it is called with. */
  function CreateRule(rules: seq<Rule>, message: Option<string>): (validators: seq<JsValue -> Verdict>)
    ensures |validators| == 1
    ensures forall data :: validators[0](data) == Evaluate(Outputs(rules, data), message)
  {
    [data => Evaluate(Outputs(rules, data), message)]
  }

  // ---------------------------------------------------------------------------
  // Emptiness

  /** `isOptional`: an array is empty when it has no elements; anything else when
      it is `null`, `undefined` or `''`. */
  function IsOptional(v: JsValue): (b: bool)
    ensures b <==> v in {Null, Undefined, Str(""), Arr([])}
  {
    if v.Arr? then |v.items| == 0 else IsNullish(v) || v == Str("")
  }

  /** `optional`: `undefined` for the four empty values, `true` otherwise. */
  function Optional(v: JsValue): (o: RuleOutput)
    ensures o == Absent || o == Holds
    ensures o == Absent <==> v in {Null, Undefined, Str(""), Arr([])}
  {
    if IsOptional(v) then Absent else Holds
  }

  /** `notEmpty`: false exactly for the four empty values. */
  function NotEmpty(v: JsValue): (b: bool)
    ensures !b <==> v in {Null, Undefined, Str(""), Arr([])}
  {
    !IsOptional(v)
  }

  /** A boolean-valued rule as the loop sees it. */
  function FromBool(b: bool): RuleOutput {
    if b then Holds else Fails
  }

  /** `optional` stops the chain with `true` on an empty value, so the later rules
      are never consulted; on any other value the chain goes on as if it were not
      there. */
  lemma OptionalShortCircuit(v: JsValue, rest: seq<RuleOutput>, message: Option<string>)
    ensures IsOptional(v) ==> Evaluate([Optional(v)] + rest, message) == ReturnsTrue
    ensures !IsOptional(v) ==> Evaluate([Optional(v)] + rest, message) == Evaluate(rest, message)
  {
    assert ([Optional(v)] + rest)[1..] == rest;
  }

  /** `optional` and `notEmpty` test the same thing from opposite sides. */
  lemma OptionalNotEmptyComplement(v: JsValue)
    ensures Optional(v) == Absent <==> FromBool(NotEmpty(v)) == Fails
  {
  }

  // ---------------------------------------------------------------------------
  // Digit strings

  /** `isPositiveNumber`: `/^\d+$/` on the string form. On numbers it means what
      its name says, and `null`, `undefined` and the booleans are refused. */
  function IsPositiveNumber(v: JsValue): (b: bool)
    ensures v.Num? ==> (b <==> v.n >= 0)
    ensures IsNullish(v) || v.Bool? ==> !b
  {
    var s := ToJsString(v);
    NumberForm(v);
    |s| > 0 && Text.AllDigits(s)
  }

  /** The string form of an integer is all digits exactly when it is not
      negative, and then has a non-zero digit exactly when it is positive; those
      of `null`, `undefined` and the booleans start with a letter. */
  lemma NumberForm(v: JsValue)
    ensures IsNullish(v) || v.Bool? ==> |ToJsString(v)| > 0 && !Text.IsDigit(ToJsString(v)[0])
    ensures v.Num? ==>
              var s := ToJsString(v);
              && (|s| > 0 && Text.AllDigits(s) <==> v.n >= 0)
              && (v.n >= 0 ==> (HasNonZeroDigit(s) <==> v.n > 0))
  {
    var s := ToJsString(v);
    if !v.Num? {
      assert IsNullish(v) || v.Bool? ==> s[0] in {'n', 'u', 't', 'f'};
    } else if v.n < 0 {
      assert s[0] == '-';
    } else if v.n > 0 {
      assert s[0] != '0';
    } else {
      assert s == "0";
    }
  }

  /** Some character of `s` is not `'0'`. */
  predicate HasNonZeroDigit(s: string) {
    exists i :: 0 <= i < |s| && s[i] != '0'
  }

  /** `/^0*[1-9]\d*$/`: some zeros, one non-zero digit, then any digits. */
  predicate MatchesZerosThenNonZero(s: string) {
    exists k :: 0 <= k < |s|
      && (forall j :: 0 <= j < k ==> s[j] == '0')
      && '1' <= s[k] <= '9'
      && Text.AllDigits(s[k + 1..])
  }

  /** `isPositiveNumberGreaterThan0`: a positive number with a non-zero digit, so
      on numbers it means greater than zero. */
  function IsPositiveNumberGreaterThan0(v: JsValue): (b: bool)
    ensures b <==> IsPositiveNumber(v) && HasNonZeroDigit(ToJsString(v))
    ensures v.Num? ==> (b <==> v.n > 0)
  {
    var s := ToJsString(v);
    ZerosThenNonZeroIff(s);
    NumberForm(v);
    assert IsPositiveNumber(v) == (|s| > 0 && Text.AllDigits(s));
    MatchesZerosThenNonZero(s)
  }

  /** The first character of `s` that is not `'0'`. */
  function FirstNonZero(s: string): (k: nat)
    requires exists i :: 0 <= i < |s| && s[i] != '0'
    ensures k < |s| && s[k] != '0'
    ensures forall j :: 0 <= j < k ==> s[j] == '0'
  {
    if s[0] != '0' then 0
    else
      assert exists i :: 0 <= i < |s[1..]| && s[1..][i] != '0' by {
        var i :| 0 <= i < |s| && s[i] != '0';
        assert s[1..][i - 1] == s[i];
      }
      1 + FirstNonZero(s[1..])
  }

  /** A digit string with a non-zero digit matches the pattern. */
  lemma DigitsWithNonZeroMatch(s: string)
    requires |s| > 0 && Text.AllDigits(s) && exists i :: 0 <= i < |s| && s[i] != '0'
    ensures MatchesZerosThenNonZero(s)
  {
    var k := FirstNonZero(s);
    var t := s[k + 1..];
    forall j | 0 <= j < |t| ensures Text.IsDigit(t[j]) {
      assert t[j] == s[k + 1 + j];
    }
    assert '1' <= s[k] <= '9';
  }

  /** A string the pattern matches is all digits, one of them non-zero. */
  lemma MatchIsDigitsWithNonZero(s: string)
    requires MatchesZerosThenNonZero(s)
    ensures |s| > 0 && Text.AllDigits(s) && exists i :: 0 <= i < |s| && s[i] != '0'
  {
    var k :| 0 <= k < |s| && (forall j :: 0 <= j < k ==> s[j] == '0')
             && '1' <= s[k] <= '9' && Text.AllDigits(s[k + 1..]);
    forall j | 0 <= j < |s| ensures Text.IsDigit(s[j]) {
      if j > k {
        assert s[j] == s[k + 1..][j - k - 1];
      }
    }
  }

  /** The pattern accepts exactly the digit strings with a non-zero digit. */
  lemma ZerosThenNonZeroIff(s: string)
    ensures MatchesZerosThenNonZero(s)
            <==> |s| > 0 && Text.AllDigits(s) && HasNonZeroDigit(s)
  {
    if |s| > 0 && Text.AllDigits(s) && HasNonZeroDigit(s) {
      DigitsWithNonZeroMatch(s);
    }
    if MatchesZerosThenNonZero(s) {
      MatchIsDigitsWithNonZero(s);
    }
  }

  // ---------------------------------------------------------------------------
  // Dates

  /** `/^(\d{4})-(\d{2})-(\d{2})$/`. */
  predicate HasDateShape(s: string) {
    && |s| == 10 && s[4] == '-' && s[7] == '-'
    && Text.AllDigits(s[..4]) && Text.AllDigits(s[5..7]) && Text.AllDigits(s[8..])
  }

  function YearOf(s: string): nat requires HasDateShape(s) { Text.DecimalValue(s[..4]) }
  function MonthOf(s: string): nat requires HasDateShape(s) { Text.DecimalValue(s[5..7]) }
  function DayOf(s: string): nat requires HasDateShape(s) { Text.DecimalValue(s[8..]) }

  /** `isDate`: the string form has the shape, and building a date from its three
      numbers reads the same three numbers back. That holds exactly for the
      `YYYY-MM-DD` strings naming a real date in a year from 100 on: years 0000
      to 0099 are rejected because `Date` remaps them to the 1900s. */
  function IsDate(v: JsValue): (b: bool)
    ensures b <==>
              var s := ToJsString(v);
              && HasDateShape(s) && YearOf(s) >= 100
              && Calendar.IsRealDate(Calendar.CivilDate(YearOf(s), MonthOf(s), DayOf(s)))
  {
    var s := ToJsString(v);
    if !HasDateShape(s) then false
    else
      Calendar.NewLocalDateRoundTripIff(YearOf(s), MonthOf(s), DayOf(s));
      var d := Calendar.NewLocalDate(YearOf(s), MonthOf(s) - 1, DayOf(s));
      d.year == YearOf(s) && d.month == MonthOf(s) && d.day == DayOf(s)
  }

  /** The three numbers of a well-shaped date string, digit by digit. */
  lemma DateFields(s: string, y: seq<nat>, m: seq<nat>, d: seq<nat>)
    requires |y| == 4 && |m| == 2 && |d| == 2
    requires forall i :: 0 <= i < 4 ==> y[i] < 10
    requires forall i :: 0 <= i < 2 ==> m[i] < 10 && d[i] < 10
    requires s == [Text.DigitChar(y[0]), Text.DigitChar(y[1]), Text.DigitChar(y[2]), Text.DigitChar(y[3]), '-',
                   Text.DigitChar(m[0]), Text.DigitChar(m[1]), '-', Text.DigitChar(d[0]), Text.DigitChar(d[1])]
    ensures HasDateShape(s)
    ensures YearOf(s) == 1000 * y[0] + 100 * y[1] + 10 * y[2] + y[3]
    ensures MonthOf(s) == 10 * m[0] + m[1]
    ensures DayOf(s) == 10 * d[0] + d[1]
  {
    assert s[..4] == [Text.DigitChar(y[0]), Text.DigitChar(y[1]), Text.DigitChar(y[2]), Text.DigitChar(y[3])];
    assert s[5..7] == [Text.DigitChar(m[0]), Text.DigitChar(m[1])];
    assert s[8..] == [Text.DigitChar(d[0]), Text.DigitChar(d[1])];
    Text.DecimalOfDigits(y[0], y[1], y[2], y[3]);
    Text.DecimalOfDigits(m[0], m[1], 0, 0);
    Text.DecimalOfDigits(d[0], d[1], 0, 0);
  }

  /** A date the program's tests accept. */
  lemma IsDateAcceptsNewYear()
    ensures IsDate(Str("2024-01-01"))
  {
    DateFields("2024-01-01", [2, 0, 2, 4], [0, 1], [0, 1]);
    assert Calendar.IsRealDate(Calendar.CivilDate(2024, 1, 1));
  }

  /** Another date the program's tests accept. */
  lemma IsDateAcceptsNewYearsEve()
    ensures IsDate(Str("1999-12-31"))
  {
    DateFields("1999-12-31", [1, 9, 9, 9], [1, 2], [3, 1]);
    assert Calendar.DaysInMonth(1999, 12) == 31;
  }

  /** The last day of February in a common year. */
  lemma IsDateAcceptsEndOfFebruary()
    ensures IsDate(Str("2023-02-28"))
  {
    DateFields("2023-02-28", [2, 0, 2, 3], [0, 2], [2, 8]);
  }

  /** The leap day of a leap year. */
  lemma IsDateAcceptsLeapDay()
    ensures IsDate(Str("2024-02-29"))
  {
    DateFields("2024-02-29", [2, 0, 2, 4], [0, 2], [2, 9]);
    assert Calendar.DaysInMonth(2024, 2) == 29;
  }

  /** A day and a month that do not exist, as in the program's tests. */
  lemma IsDateRejectsImpossibleDates()
    ensures !IsDate(Str("2024-01-32")) && !IsDate(Str("2024-13-01"))
  {
    DateFields("2024-01-32", [2, 0, 2, 4], [0, 1], [3, 2]);
    DateFields("2024-13-01", [2, 0, 2, 4], [1, 3], [0, 1]);
  }

  /** February 29 of a common year rolls over to March 1 and is rejected. */
  lemma IsDateRejectsCommonYearLeapDay()
    ensures !IsDate(Str("2023-02-29"))
  {
    DateFields("2023-02-29", [2, 0, 2, 3], [0, 2], [2, 9]);
  }

  /** Years 0000 to 0099 are rejected even when month and day are fine. */
  lemma IsDateRejectsTwoDigitYears()
    ensures !IsDate(Str("0099-01-01")) && !IsDate(Str("0000-06-15"))
  {
    DateFields("0099-01-01", [0, 0, 9, 9], [0, 1], [0, 1]);
    DateFields("0000-06-15", [0, 0, 0, 0], [0, 6], [1, 5]);
  }

  /** Strings of any other shape are rejected. */
  lemma IsDateRejectsOtherShapes()
    ensures !IsDate(Str("2024-1-1")) && !IsDate(Str("2024/01/01")) && !IsDate(Str("01-01-2024"))
    ensures !IsDate(Str("not-a-date"))
  {
    assert !HasDateShape("2024/01/01");
    assert !HasDateShape("01-01-2024");
  }

  /** `null`, `undefined` and objects are not dates. */
  lemma IsDateRejectsNonStrings()
    ensures !IsDate(Null) && !IsDate(Undefined) && !IsDate(Obj([]))
  {
  }

  /** A number is written out as its digits, which have no date's shape. */
  lemma IsDateRejectsNumbers()
    ensures !IsDate(Num(12345))
  {
    assert |ToJsString(Num(12345))| == 5 by {
      assert ToJsString(Num(12345)) == Text.NatToDecimal(12345);
      assert Text.NatToDecimal(12345) == Text.NatToDecimal(1234) + [Text.DigitChar(5)];
      assert Text.NatToDecimal(1234) == Text.NatToDecimal(123) + [Text.DigitChar(4)];
      assert Text.NatToDecimal(123) == Text.NatToDecimal(12) + [Text.DigitChar(3)];
      assert Text.NatToDecimal(12) == Text.NatToDecimal(1) + [Text.DigitChar(2)];
    }
  }

  /** A rule that throws ends the chain; the error's text becomes the verdict,
      whatever the rules after it would say. */
  lemma ThrownErrorIsShown(passed: seq<RuleOutput>, shown: string, rest: seq<RuleOutput>, message: Option<string>)
    requires forall j :: 0 <= j < |passed| ==> passed[j] == Holds || passed[j] == Unrecognised
    ensures Evaluate(passed + [Threw(shown)] + rest, message) == Returns(shown)
  {
    var outs := passed + [Threw(shown)] + rest;
    assert outs[|passed|] == Threw(shown);
    forall j | 0 <= j < |passed| ensures !Stops(outs[j]) { assert outs[j] == passed[j]; }
    EvaluateFirstStop(outs, message, |passed|);
  }

  /** `createRule([optional, isDate, ...more], message)`: an empty value is
      accepted without consulting the other rules, a non-empty value that is not
      a date gets the message, and a date is left to the rules that follow. */
  lemma OptionalDateRule(v: JsValue, more: seq<Rule>, message: Option<string>)
    ensures var rule := CreateRule([x => Optional(x), x => FromBool(IsDate(x))] + more, message)[0];
            rule(v) == if IsOptional(v) then ReturnsTrue
                       else if !IsDate(v) then Settle(Fails, message)
                       else Evaluate(Outputs(more, v), message)
  {
    var rules := [x => Optional(x), x => FromBool(IsDate(x))] + more;
    var outs := Outputs(rules, v);
    assert outs == [Optional(v)] + ([FromBool(IsDate(v))] + Outputs(more, v));
    OptionalShortCircuit(v, [FromBool(IsDate(v))] + Outputs(more, v), message);
    assert ([FromBool(IsDate(v))] + Outputs(more, v))[1..] == Outputs(more, v);
  }
}
