/**
 * The inline parser in app.py: the text is split at every comma, each
 * field is stripped, blank fields are skipped and the rest are converted
 * with float(); one field float() rejects raises ValueError, which the
 * handler reports as invalid input.
 */
module InlineParse {
  import opened Wrappers
  import opened Chars
  import opened PyStr
  import opened PyFloat
  import opened Screening
  import EegParse

  /** The fields eeg_data.split(",") produces. */
  function Fields(s: string): (r: seq<string>)
  {
    SplitOn(s, ',')
  }

  /** What one field contributes: its stripped text, unless that is blank. */
  function FieldText(f: string): (r: seq<string>)
  {
    var t := Strip(f);
    if t == [] then [] else [t]
  }

  /** [x.strip() for x in fs if x.strip()] */
  function StrippedNonBlank(fs: seq<string>): (r: seq<string>)
    decreases |fs|
  {
    if fs == [] then [] else FieldText(fs[0]) + StrippedNonBlank(fs[1..])
  }

  /** [float(x.strip()) for x in s.split(",") if x.strip()] */
  function ParseStrict(s: string): (r: Result<seq<Float>, ParseError>)
  {
    ConvertAll(StrippedNonBlank(Fields(s)))
  }

  /** Pressing the predict button with s in the text area. */
  function Submit(s: string): (o: Outcome)
  {
    Screen(ParseStrict(s))
  }

  /** A field that is blank, or that float() accepts once stripped. */
  predicate FieldOk(f: string)
  {
    Strip(f) == [] || ParseFloat(Strip(f)).Some?
  }

  // ---------------------------------------------------------------------
  // When the comprehension succeeds
  // ---------------------------------------------------------------------

  lemma {:induction false} StrippedNonBlankAppend(a: seq<string>, b: seq<string>)
    ensures StrippedNonBlank(a + b) == StrippedNonBlank(a) + StrippedNonBlank(b)
    decreases |a|
  {
    if a == [] {
      assert a + b == b;
    } else {
      assert (a + b)[1..] == a[1..] + b;
      StrippedNonBlankAppend(a[1..], b);
      var x, y, z := FieldText(a[0]), StrippedNonBlank(a[1..]), StrippedNonBlank(b);
      assert x + (y + z) == x + y + z;
    }
  }

  /** A blank field, or one convert accepts once stripped. */
  predicate FieldAccepted(convert: string -> Option<Float>, f: string)
  {
    Strip(f) == [] || convert(Strip(f)).Some?
  }

  lemma FieldTextAccepted(convert: string -> Option<Float>, f: string)
    ensures ConvertEach(convert, FieldText(f)).Ok? <==> FieldAccepted(convert, f)
  {
    if Strip(f) != [] {
      assert FieldText(f)[0] == Strip(f);
    }
  }

  lemma {:induction false} FieldsAccepted(convert: string -> Option<Float>, fs: seq<string>)
    ensures ConvertEach(convert, StrippedNonBlank(fs)).Ok? <==> forall i :: 0 <= i < |fs| ==> FieldAccepted(convert, fs[i])
    decreases |fs|
  {
    if fs != [] {
      var x, rest := FieldText(fs[0]), StrippedNonBlank(fs[1..]);
      FieldsAccepted(convert, fs[1..]);
      ConvertEachAppend(convert, x, rest);
      FieldTextAccepted(convert, fs[0]);
      assert forall i :: 1 <= i < |fs| ==> fs[1..][i - 1] == fs[i];
    }
  }

  /** The parse succeeds exactly when every field is blank or a float literal. */
  lemma StrictOk(s: string)
    ensures ParseStrict(s).Ok? <==> forall i :: 0 <= i < |Fields(s)| ==> FieldOk(Fields(s)[i])
  {
    FieldsAccepted(ParseFloat, Fields(s));
    assert forall i :: 0 <= i < |Fields(s)| ==> (FieldOk(Fields(s)[i]) <==> FieldAccepted(ParseFloat, Fields(s)[i]));
  }

  /**
   * Two texts joined by a comma parse as the values of the first followed
   * by those of the second, and fail when either fails.
   */
  lemma StrictAppend(u: string, v: string)
    ensures ParseStrict(u + "," + v).Ok? <==> ParseStrict(u).Ok? && ParseStrict(v).Ok?
    ensures ParseStrict(u + "," + v).Ok? ==>
              ParseStrict(u + "," + v).value == ParseStrict(u).value + ParseStrict(v).value
  {
    SplitOnAppend(u, ',', v);
    StrippedNonBlankAppend(Fields(u), Fields(v));
    ConvertEachAppend(ParseFloat, StrippedNonBlank(Fields(u)), StrippedNonBlank(Fields(v)));
  }

  /** A blank field, a trailing comma's empty field included, contributes nothing. */
  lemma BlankField(w: string)
    requires AllSpace(w)
    ensures ParseStrict(w) == Ok([])
  {
    SplitOnNoSep(w, ',');
    StripEmpty(w);
    var fs := Fields(w);
    assert fs == [w] && fs[1..] == [];
    assert FieldText(w) == [];
    assert StrippedNonBlank(fs) == [];
  }

  /** A non-blank field that float() accepts is a token free of brackets and commas. */
  lemma FieldOkShape(f: string)
    ensures FieldOk(f) && Strip(f) != [] ==> IsToken(Strip(f)) && EegParse.NoBracketOrComma(Strip(f))
  {
    if FieldOk(f) && Strip(f) != [] {
      StripShape(f);
      ParseFloatOfStripped(Strip(f));
      LiteralIsToken(Strip(f));
    }
  }

  /** A field with whitespace or a bracket inside is rejected. */
  lemma FieldRejected(f: string, j: nat)
    requires j < |Strip(f)| && EegParse.IsSeparator(Strip(f)[j])
    ensures !FieldOk(f)
  {
    FieldOkShape(f);
  }

  /**
   * Whitespace, or a bracket, inside a field makes the whole parse fail:
   * the comprehension splits only at commas.
   */
  lemma InnerSeparatorFails(s: string, i: nat, j: nat)
    requires i < |Fields(s)| && j < |Strip(Fields(s)[i])|
    requires EegParse.IsSeparator(Strip(Fields(s)[i])[j])
    ensures ParseStrict(s).Err?
  {
    var fs := Fields(s);
    FieldRejected(fs[i], j);
    StrictOk(s);
  }

  /**
   * The warning is shown exactly when fewer than ten non-blank fields were
   * read; a rejected field names the stripped text float() refused.
   */
  lemma WarningRule(s: string)
    ensures Submit(s).Analysed? ==>
              (Submit(s).shortWarning <==> |StrippedNonBlank(Fields(s))| < MIN_SAMPLES)
    ensures Submit(s).InvalidInput? ==>
              exists k :: 0 <= k < |StrippedNonBlank(Fields(s))| && Submit(s).error == NotANumber(StrippedNonBlank(Fields(s))[k])
  {
  }

  // ---------------------------------------------------------------------
  // Agreement with parse_eeg_input
  // ---------------------------------------------------------------------

  /** An accepted field is unchanged by the substitution and splits into its stripped text. */
  lemma FieldAgrees(f: string)
    requires FieldOk(f)
    ensures EegParse.Clean(f) == f
    ensures Split(f) == FieldText(f)
  {
    var t := Strip(f);
    var pre, post := StripParts(f);
    if t == [] {
      StripEmpty(f);
      SplitEmpty(f);
      EegParse.CleanKeeps(f);
    } else {
      FieldOkShape(f);
      EegParse.CleanKeeps(pre);
      EegParse.CleanKeeps(t);
      EegParse.CleanKeeps(post);
      EegParse.CleanAppend(pre + t, post);
      EegParse.CleanAppend(pre, t);
      AppendAssoc(pre, t, post);
      SplitSpacePrefix(pre, t + post);
      SplitAppend(t, post);
      SplitEmpty(post);
      SplitToken(t);
    }
  }

  lemma {:induction false} CleanJoin(fs: seq<string>)
    requires |fs| >= 1
    requires forall i :: 0 <= i < |fs| ==> EegParse.Clean(fs[i]) == fs[i]
    ensures EegParse.Clean(Join(fs, ',')) == Join(fs, ' ')
    decreases |fs|
  {
    if |fs| > 1 {
      var rest := Join(fs[1..], ',');
      assert forall i :: 1 <= i < |fs| ==> fs[1..][i - 1] == fs[i];
      CleanJoin(fs[1..]);
      EegParse.CleanAppend(fs[0] + [','], rest);
      EegParse.CleanAppend(fs[0], [',']);
      assert [','][1..] == [];
    }
  }

  lemma {:induction false} SplitJoin(fs: seq<string>)
    requires |fs| >= 1
    requires forall i :: 0 <= i < |fs| ==> Split(fs[i]) == FieldText(fs[i])
    ensures Split(Join(fs, ' ')) == StrippedNonBlank(fs)
    decreases |fs|
  {
    if |fs| == 1 {
      assert fs[1..] == [];
    } else {
      var rest := Join(fs[1..], ' ');
      assert forall i :: 1 <= i < |fs| ==> fs[1..][i - 1] == fs[i];
      SplitJoin(fs[1..]);
      AppendAssoc(fs[0], [' '], rest);
      SplitAppend(fs[0], [' '] + rest);
      SplitSpacePrefix([' '], rest);
    }
  }

  /**
   * Whatever the comma-separated parser accepts, parse_eeg_input accepts
   * too, with the same list of values.
   */
  lemma StrictImpliesLenient(s: string)
    requires ParseStrict(s).Ok?
    ensures EegParse.Tokens(s) == StrippedNonBlank(Fields(s))
    ensures EegParse.ParseEegInput(s) == ParseStrict(s)
  {
    var fs := Fields(s);
    StrictOk(s);
    forall i | 0 <= i < |fs|
      ensures EegParse.Clean(fs[i]) == fs[i] && Split(fs[i]) == FieldText(fs[i])
    {
      FieldAgrees(fs[i]);
    }
    JoinSplitOn(s, ',');
    CleanJoin(fs);
    SplitJoin(fs);
    EegParse.FilterIsNoOp(s);
  }

  // ---------------------------------------------------------------------
  // Two inputs
  // ---------------------------------------------------------------------

  /** float() of a one-digit numeral. */
  lemma ParseDigit(d: nat)
    requires d < 10
    ensures ParseFloat([DigitChar(d)]) == Some(Finite(d as real))
  {
    NatRoundTrip(d);
  }

  lemma ConvertPair(convert: string -> Option<Float>, a: string, b: string, x: Float, y: Float)
    requires convert(a) == Some(x) && convert(b) == Some(y)
    ensures ConvertEach(convert, [a, b]) == Ok([x, y])
  {
    var r := ConvertEach(convert, [a, b]);
    assert [a, b][0] == a && [a, b][1] == b;
    assert r.Ok? && |r.value| == 2;
    assert r.value == [x, y];
  }

  lemma ParseOneTwo()
    ensures ConvertAll(["1", "2"]) == Ok([Finite(1.0), Finite(2.0)])
  {
    ParseDigit(1);
    ParseDigit(2);
    assert [DigitChar(1)] == "1" && [DigitChar(2)] == "2";
    ConvertPair(ParseFloat, "1", "2", Finite(1.0), Finite(2.0));
  }

  lemma EmptyFieldsText()
    ensures StrippedNonBlank(Fields("1,,2,")) == ["1", "2"]
  {
    var fs: seq<string> := ["1", "", "2", ""];
    assert Join(fs, ',') == "1,,2,";
    SplitOnJoin(fs, ',');
    StripOfStripped("1");
    StripOfStripped("2");
    assert StrippedNonBlank(fs[3..]) == [];
    assert StrippedNonBlank(fs[2..]) == ["2"];
    assert StrippedNonBlank(fs[1..]) == ["2"];
  }

  /** "1,,2,": the empty middle field and the trailing comma are skipped. */
  lemma EmptyFieldsSkipped()
    ensures ParseStrict("1,,2,") == Ok([Finite(1.0), Finite(2.0)])
  {
    EmptyFieldsText();
    ParseOneTwo();
  }

  /** "1 2" is a single field with a space inside, so the comma-separated parser rejects it. */
  lemma SpaceInsideField()
    ensures ParseStrict("1 2").Err?
  {
    SplitOnNoSep("1 2", ',');
    StripOfStripped("1 2");
    InnerSeparatorFails("1 2", 0, 1);
  }

  lemma SpaceSeparatedTokens()
    ensures EegParse.Tokens("1 2") == ["1", "2"]
  {
    var gaps: seq<string> := ["", " ", ""];
    var ws: seq<string> := ["1", "2"];
    assert Interleave(gaps, ws) == "1 2";
    EegParse.LayoutIrrelevant(gaps, ws);
  }

  /**
   * "1 2": the comma-separated parser rejects the input, while
   * parse_eeg_input reads two values.
   */
  lemma SpaceSeparatedInput()
    ensures ParseStrict("1 2").Err?
    ensures EegParse.ParseEegInput("1 2") == Ok([Finite(1.0), Finite(2.0)])
  {
    SpaceInsideField();
    SpaceSeparatedTokens();
    ParseOneTwo();
  }
}
