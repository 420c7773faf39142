/** The detailed log form (`DetailedLogForm`): parsing the typed drink
    count, the submit checks, the notes clean-up and the mood buttons. */
module LogForm {
  import opened Wrappers
  import opened Text
  import opened Types
  import Validation

  /** What JavaScript's `parseInt(text, 10)` yields. A negative zero is
      represented by `Num(0)`: it compares and serialises as zero. */
  datatype ParsedInt = NaN | Num(value: int)

  /** The longest prefix of decimal digits. */
  function LeadingDigits(s: string): (r: string)
    ensures |r| <= |s| && r == s[..|r|] && AllDigits(r)
    ensures |r| < |s| ==> !IsDigit(s[|r|])
  {
    if |s| == 0 || !IsDigit(s[0]) then [] else [s[0]] + LeadingDigits(s[1..])
  }

  /** `parseInt(text, 10)`: leading whitespace is skipped, one `+` or `-`
      is read, then as many digits as follow; no digit there gives NaN. */
  function ParseInt(text: string): ParsedInt {
    ParseSigned(TrimStart(text))
  }

  /** The number read after the whitespace: an optional sign, then digits. */
  function ParseSigned(t: string): ParsedInt {
    if |t| > 0 && t[0] == '-' then Negate(ParseDigits(t[1..]))
    else if |t| > 0 && t[0] == '+' then ParseDigits(t[1..])
    else ParseDigits(t)
  }

  function ParseDigits(u: string): ParsedInt {
    var ds := LeadingDigits(u);
    if ds == [] then NaN else Num(DigitsValue(ds))
  }

  function Negate(p: ParsedInt): ParsedInt {
    match p
    case NaN => NaN
    case Num(v) => Num(-v)
  }

  /** Leading whitespace does not change the number read. */
  lemma ParseSkipsSpaces(ws: string, t: string)
    requires IsBlank(ws)
    requires t == [] || !IsSpace(t[0])
    ensures ParseInt(ws + t) == ParseInt(t)
  {
    SkipSpaces(ws, t);
    SkipSpaces([], t);
    assert [] + t == t;
  }

  /** Digits followed by anything that is not a digit parse as the digits'
      value. */
  lemma ParseDigitPrefix(ds: string, rest: string)
    requires ds != [] && AllDigits(ds)
    requires rest == [] || !IsDigit(rest[0])
    ensures ParseInt(ds + rest) == Num(DigitsValue(ds))
  {
    var t := ds + rest;
    assert IsDigit(t[0]) by { assert t[0] == ds[0]; }
    StartsWithDigit(t);
    DigitRun(ds, rest);
  }

  lemma StartsWithDigit(t: string)
    requires |t| > 0 && IsDigit(t[0])
    ensures ParseInt(t) == ParseDigits(t)
  {
    assert TrimStart(t) == t;
  }

  /** The same after a minus sign, which negates the value. */
  lemma ParseNegativePrefix(ds: string, rest: string)
    requires ds != [] && AllDigits(ds)
    requires rest == [] || !IsDigit(rest[0])
    ensures ParseInt(['-'] + ds + rest) == Num(-(DigitsValue(ds) as int))
  {
    var t := ['-'] + (ds + rest);
    assert ['-'] + ds + rest == t;
    assert !IsSpace('-');
    SkipSpaces([], t);
    assert [] + t == t;
    NegativeDigits(ds, rest);
  }

  lemma NegativeDigits(ds: string, rest: string)
    requires ds != [] && AllDigits(ds)
    requires rest == [] || !IsDigit(rest[0])
    ensures ParseSigned(['-'] + (ds + rest)) == Num(-(DigitsValue(ds) as int))
  {
    var u := ds + rest;
    var t := ['-'] + u;
    assert t[0] == '-' && t[1..] == u;
    DigitRun(ds, rest);
    assert ParseDigits(u) == Num(DigitsValue(ds));
  }

  /** Text whose first non-whitespace character is neither a sign nor a
      digit, and blank text, are not a number. */
  lemma ParseNotANumber(text: string)
    requires var t := TrimStart(text); t == [] || (t[0] != '-' && t[0] != '+' && !IsDigit(t[0]))
    ensures ParseInt(text) == NaN
  {
  }

  /** Reading back the decimal form of a count gives the count. */
  lemma ParseIntRoundTrip(n: nat)
    ensures ParseInt(NatToString(n)) == Num(n)
  {
    ParseDigitPrefix(NatToString(n), []);
    assert NatToString(n) + [] == NatToString(n);
  }

  lemma {:induction false} DigitRun(ds: string, rest: string)
    requires AllDigits(ds)
    requires rest == [] || !IsDigit(rest[0])
    ensures LeadingDigits(ds + rest) == ds
    decreases |ds|
  {
    if |ds| > 0 {
      DigitRun(ds[1..], rest);
      assert (ds + rest)[1..] == ds[1..] + rest;
      assert [ds[0]] + ds[1..] == ds;
    } else {
      assert ds + rest == rest;
    }
  }

  // ---------------------------------------------------------------------
  // Submitting

  const InvalidCountMessage := "Voer een geldig aantal glazen in (0 of hoger)"

  /** What pressing "Opslaan" does: an alert, or the submitted values. */
  datatype SubmitOutcome =
    | SubmitAlert(message: string)
    | Submit(drinksCount: nat, notes: Option<string>, mood: Option<Mood>)

  /** Trimmed notes, with blank notes sent as absent (`trim() || undefined`). */
  function CleanNotes(notes: string): (r: Option<string>)
    ensures r.None? <==> IsBlank(notes)
    ensures r.Some? ==> r.value == Trim(notes) && r.value != []
  {
    var t := Trim(notes);
    if t == [] then None else Some(t)
  }

  /** `handleSubmit`: refused when the count is not a number or negative;
      otherwise the parsed count, the cleaned notes and the selected mood
      are submitted. There is no upper bound on the count. */
  function HandleSubmit(drinksText: string, notes: string, mood: Option<Mood>): (r: SubmitOutcome)
    ensures r.Submit? <==> ParseInt(drinksText).Num? && ParseInt(drinksText).value >= 0
    ensures r.SubmitAlert? ==> r.message == InvalidCountMessage
    ensures r.Submit? ==>
              r.drinksCount == ParseInt(drinksText).value && r.mood == mood
              && (r.notes.None? <==> IsBlank(notes))
              && (r.notes.Some? ==> r.notes.value == Trim(notes))
  {
    match ParseInt(drinksText)
    case NaN => SubmitAlert(InvalidCountMessage)
    case Num(v) => if v < 0 then SubmitAlert(InvalidCountMessage) else Submit(v, CleanNotes(notes), mood)
  }

  /** A count that starts with digits submits the digits' value. */
  lemma SubmitDigits(ds: string, rest: string, notes: string, mood: Option<Mood>)
    requires ds != [] && AllDigits(ds)
    requires rest == [] || !IsDigit(rest[0])
    ensures HandleSubmit(ds + rest, notes, mood) == Submit(DigitsValue(ds), CleanNotes(notes), mood)
  {
    ParseDigitPrefix(ds, rest);
    SubmitParsed(ds + rest, DigitsValue(ds), notes, mood);
  }

  lemma SubmitParsed(text: string, n: nat, notes: string, mood: Option<Mood>)
    requires ParseInt(text) == Num(n)
    ensures HandleSubmit(text, notes, mood) == Submit(n, CleanNotes(notes), mood)
  {
  }

  /** Only the leading integer is read: "3abc" submits three ... */
  lemma SubmitReadsLeadingDigits(text: string, notes: string, mood: Option<Mood>)
    requires text == "3abc"
    ensures HandleSubmit(text, notes, mood) == Submit(3, CleanNotes(notes), mood)
  {
    SubmitDigits(text[..1], text[1..], notes, mood);
    assert text[..1] + text[1..] == text;
  }

  /** ... and "1.5" submits one. */
  lemma SubmitTruncatesFraction(text: string, notes: string, mood: Option<Mood>)
    requires text == "1.5"
    ensures HandleSubmit(text, notes, mood) == Submit(1, CleanNotes(notes), mood)
  {
    SubmitDigits(text[..1], text[1..], notes, mood);
    assert text[..1] + text[1..] == text;
  }

  /** A negative count is refused. */
  lemma SubmitRefusesNegative(text: string, notes: string, mood: Option<Mood>)
    requires text == "-1"
    ensures HandleSubmit(text, notes, mood) == SubmitAlert(InvalidCountMessage)
  {
    ParseNegativePrefix(text[1..], []);
    assert ['-'] + text[1..] + [] == text;
  }

  /** A count that is not a number is refused. */
  lemma SubmitRefusesText(text: string, notes: string, mood: Option<Mood>)
    requires text == "abc"
    ensures HandleSubmit(text, notes, mood) == SubmitAlert(InvalidCountMessage)
  {
    SkipSpaces([], text);
    assert [] + text == text;
  }

  /** The form lets through counts the daily-log schema refuses. */
  lemma FormLaxerThanSchema(text: string, date: string, notes: string, mood: Option<Mood>)
    requires text == "51"
    ensures HandleSubmit(text, notes, mood) == Submit(51, CleanNotes(notes), mood)
    ensures !Validation.DailyLogAccepts(date, 51, CleanNotes(notes), mood)
  {
    var head := text[..1];
    assert DigitsValue(head) == 5 by {
      assert head[..0] == [];
    }
    assert text[..|text| - 1] == head;
    SubmitDigits(text, [], notes, mood);
    assert text + [] == text;
  }

  /** What the form submits (a count and the cleaned notes) passes the
      daily-log schema exactly when the date has the right shape, the count
      is at most 50 and the trimmed notes at most 1000 characters: those are
      the schema checks the form does not make itself. */
  lemma SubmitMeetsSchemaExactly(date: string, count: nat, notes: string, mood: Option<Mood>)
    ensures Validation.DailyLogAccepts(date, count, CleanNotes(notes), mood) <==>
              Validation.IsDateShape(date) && count <= 50 && |Trim(notes)| <= 1000
  {
  }

  // ---------------------------------------------------------------------
  // The mood buttons

  /** Pressing a mood button: the selected mood is cleared, any other mood
      is selected. */
  function ToggleMood(current: Option<Mood>, pressed: Mood): (r: Option<Mood>)
    ensures current == Some(pressed) ==> r.None?
    ensures current != Some(pressed) ==> r == Some(pressed)
  {
    if current == Some(pressed) then None else Some(pressed)
  }

  /** Pressing the same button twice gives back the state before exactly
      when no other mood was selected; from another mood it ends with none. */
  lemma ToggleTwice(current: Option<Mood>, pressed: Mood)
    ensures ToggleMood(ToggleMood(current, pressed), pressed) == current <==>
              current.None? || current == Some(pressed)
    ensures ToggleMood(ToggleMood(current, pressed), pressed) != current ==>
              ToggleMood(ToggleMood(current, pressed), pressed).None?
  {
  }

  /** After a press at most the pressed mood is selected. */
  lemma ToggleSelectsOnlyPressed(current: Option<Mood>, pressed: Mood)
    ensures ToggleMood(current, pressed).Some? <==> current != Some(pressed)
    ensures ToggleMood(current, pressed).Some? ==> ToggleMood(current, pressed).value == pressed
  {
  }
}
