/**
 * parse_eeg_input from eeg_seizure_app/app.py and the button handler
 * that uses it. The parser replaces every bracket and comma by a space,
 * splits the result on whitespace, drops empty pieces and converts each
 * piece with float(); a piece float() rejects raises ValueError, which
 * the handler reports as invalid input.
 */
module EegParse {
  import opened Wrappers
  import opened Chars
  import opened PyStr
  import opened PyFloat
  import opened Screening

  /** Whitespace, or a character the regular expression replaces by a space. */
  predicate IsSeparator(c: char)
  {
    IsSpace(c) || IsBracketOrComma(c)
  }

  predicate AllSeparators(s: string)
  {
    forall i :: 0 <= i < |s| ==> IsSeparator(s[i])
  }

  predicate NoBracketOrComma(s: string)
  {
    forall i :: 0 <= i < |s| ==> !IsBracketOrComma(s[i])
  }

  function CleanChar(c: char): (r: char)
  {
    if IsBracketOrComma(c) then ' ' else c
  }

  /** re.sub(r'[\[\],]', ' ', s), one character at a time from the left. */
  function Clean(s: string): (r: string)
    decreases |s|
  {
    if s == [] then [] else [CleanChar(s[0])] + Clean(s[1..])
  }

  /** [x for x in ws if x] */
  function NonEmpty(ws: seq<string>): (r: seq<string>)
    decreases |ws|
  {
    if ws == [] then [] else (if ws[0] == [] then [] else [ws[0]]) + NonEmpty(ws[1..])
  }

  /** The texts parse_eeg_input hands to float(). */
  function Tokens(s: string): (ws: seq<string>)
  {
    NonEmpty(Split(Clean(s)))
  }

  /** parse_eeg_input(raw_input) */
  function ParseEegInput(s: string): (r: Result<seq<Float>, ParseError>)
  {
    ConvertAll(Tokens(s))
  }

  /** Pressing the predict button with s in the text area. */
  function Submit(s: string): (o: Outcome)
  {
    Screen(ParseEegInput(s))
  }

  // ---------------------------------------------------------------------
  // The substitution
  // ---------------------------------------------------------------------

  /** The substitution keeps the length and works character by character. */
  lemma {:induction false} CleanPointwise(s: string)
    ensures |Clean(s)| == |s|
    ensures forall i :: 0 <= i < |s| ==> Clean(s)[i] == CleanChar(s[i])
    decreases |s|
  {
    if s != [] {
      CleanPointwise(s[1..]);
    }
  }

  lemma {:induction false} CleanAppend(a: string, b: string)
    ensures Clean(a + b) == Clean(a) + Clean(b)
    decreases |a|
  {
    if a == [] {
      assert a + b == b;
    } else {
      assert (a + b)[1..] == a[1..] + b;
      CleanAppend(a[1..], b);
      AppendAssoc([CleanChar(a[0])], Clean(a[1..]), Clean(b));
    }
  }

  /** After the substitution no bracket or comma is left. */
  lemma CleanRemoves(s: string)
    ensures NoBracketOrComma(Clean(s))
  {
    CleanPointwise(s);
  }

  /** Text without brackets or commas is left as it is. */
  lemma CleanKeeps(s: string)
    requires NoBracketOrComma(s)
    ensures Clean(s) == s
  {
    CleanPointwise(s);
  }

  lemma CleanIdempotent(s: string)
    ensures Clean(Clean(s)) == Clean(s)
  {
    CleanRemoves(s);
    CleanKeeps(Clean(s));
  }

  /** The substitution turns exactly the separators into whitespace. */
  lemma CleanSpaces(s: string)
    ensures AllSpace(Clean(s)) <==> AllSeparators(s)
  {
    CleanPointwise(s);
    assert forall i :: 0 <= i < |s| ==> (IsSpace(Clean(s)[i]) <==> IsSeparator(s[i]));
  }

  /** The only text that cleans to a token is the token itself. */
  lemma CleanTokenPreimage(b: string, w: string)
    requires Clean(b) == w && NoSpace(w)
    ensures b == w
  {
    CleanPointwise(b);
    assert forall i :: 0 <= i < |b| ==> b[i] == w[i];
  }

  // ---------------------------------------------------------------------
  // The tokens
  // ---------------------------------------------------------------------

  lemma {:induction false} NonEmptyKeepsAll(ws: seq<string>)
    requires forall i :: 0 <= i < |ws| ==> ws[i] != []
    ensures NonEmpty(ws) == ws
    decreases |ws|
  {
    if ws != [] {
      NonEmptyKeepsAll(ws[1..]);
    }
  }

  /** The `if x` in the comprehension never drops anything. */
  lemma FilterIsNoOp(s: string)
    ensures Tokens(s) == Split(Clean(s))
  {
    SplitTokens(Clean(s));
    NonEmptyKeepsAll(Split(Clean(s)));
  }

  lemma {:induction false} SplitKeepsNoBracket(t: string)
    requires NoBracketOrComma(t)
    ensures forall k :: 0 <= k < |Split(t)| ==> NoBracketOrComma(Split(t)[k])
    decreases |t|
  {
    if t != [] {
      var rest := Split(t[1..]);
      assert NoBracketOrComma(t[1..]) by {
        assert forall i :: 0 <= i < |t| - 1 ==> t[1..][i] == t[i + 1];
      }
      SplitKeepsNoBracket(t[1..]);
      if !IsSpace(t[0]) && |t| > 1 && !IsSpace(t[1]) {
        var w := [t[0]] + rest[0];
        assert forall j :: 1 <= j < |w| ==> w[j] == rest[0][j - 1];
      }
    }
  }

  /**
   * Every text handed to float() is non-empty and holds no whitespace,
   * bracket or comma.
   */
  lemma TokensAreClean(s: string)
    ensures forall k :: 0 <= k < |Tokens(s)| ==> IsToken(Tokens(s)[k])
    ensures forall k :: 0 <= k < |Tokens(s)| ==> NoBracketOrComma(Tokens(s)[k])
  {
    FilterIsNoOp(s);
    SplitTokens(Clean(s));
    CleanRemoves(s);
    SplitKeepsNoBracket(Clean(s));
  }

  /** Runs of separators around and between the tokens. */
  predicate SeparatorGaps(gaps: seq<string>, n: nat)
  {
    && |gaps| == n + 1
    && (forall i :: 0 <= i < |gaps| ==> AllSeparators(gaps[i]))
    && (forall i :: 0 < i < n ==> gaps[i] != [])
  }

  /** Splitting an equation between two three-part texts whose parts have equal lengths. */
  lemma ThreeEqual(a: string, b: string, c: string, x: string, y: string, z: string)
    requires a + b + c == x + y + z
    requires |a| == |x| && |b| == |y|
    ensures a == x && b == y && c == z
  {
    var s := a + b + c;
    assert a == s[..|a|] == x;
    assert b == s[|a|..|a| + |b|] == y;
    assert c == s[|a| + |b|..] == z;
  }

  /**
   * A text whose cleaned form is tokens in whitespace is the same tokens
   * in runs of separators of the same lengths.
   */
  lemma {:induction false} Unclean(s: string, g: seq<string>, ws: seq<string>) returns (gaps: seq<string>)
    requires forall i :: 0 <= i < |ws| ==> IsToken(ws[i])
    requires ProperGaps(g, |ws|)
    requires Clean(s) == Interleave(g, ws)
    ensures |gaps| == |g|
    ensures forall i :: 0 <= i < |gaps| ==> |gaps[i]| == |g[i]| && AllSeparators(gaps[i])
    ensures Interleave(gaps, ws) == s
    decreases ws
  {
    CleanPointwise(s);
    if ws == [] {
      CleanSpaces(s);
      gaps := [s];
    } else {
      var n0, n1 := |g[0]|, |ws[0]|;
      var rest := Interleave(g[1..], ws[1..]);
      var a, b, c := s[..n0], s[n0..n0 + n1], s[n0 + n1..];
      assert s == a + b + c;
      CleanAppend(a + b, c);
      CleanAppend(a, b);
      CleanPointwise(a);
      CleanPointwise(b);
      ThreeEqual(Clean(a), Clean(b), Clean(c), g[0], ws[0], rest);
      CleanSpaces(a);
      CleanTokenPreimage(b, ws[0]);
      assert forall i :: 0 <= i < |g| - 1 ==> g[1..][i] == g[i + 1];
      var gs := Unclean(c, g[1..], ws[1..]);
      gaps := [a] + gs;
      assert gaps[1..] == gs;
    }
  }

  /**
   * The tokens are the maximal runs of non-separators of the input, in
   * order: the input is the tokens with runs of separators around and
   * between them.
   */
  lemma TokensAreRuns(s: string) returns (gaps: seq<string>)
    ensures SeparatorGaps(gaps, |Tokens(s)|)
    ensures Interleave(gaps, Tokens(s)) == s
  {
    var t := Clean(s);
    var g := SplitGaps(t);
    FilterIsNoOp(s);
    SplitTokens(t);
    gaps := Unclean(s, g, Split(t));
  }

  function CleanAll(gs: seq<string>): (r: seq<string>)
  {
    seq(|gs|, i requires 0 <= i < |gs| => Clean(gs[i]))
  }

  lemma {:induction false} CleanInterleave(gaps: seq<string>, ws: seq<string>)
    requires |gaps| == |ws| + 1
    requires forall i :: 0 <= i < |ws| ==> NoBracketOrComma(ws[i])
    ensures Clean(Interleave(gaps, ws)) == Interleave(CleanAll(gaps), ws)
    decreases ws
  {
    if ws != [] {
      var rest := Interleave(gaps[1..], ws[1..]);
      CleanAppend(gaps[0] + ws[0], rest);
      CleanAppend(gaps[0], ws[0]);
      CleanKeeps(ws[0]);
      CleanInterleave(gaps[1..], ws[1..]);
      assert CleanAll(gaps)[1..] == CleanAll(gaps[1..]);
    }
  }

  /**
   * The converse: tokens laid out with any runs of separators parse as
   * those tokens, so brackets, commas and whitespace are interchangeable.
   */
  lemma LayoutIrrelevant(gaps: seq<string>, ws: seq<string>)
    requires forall i :: 0 <= i < |ws| ==> IsToken(ws[i]) && NoBracketOrComma(ws[i])
    requires SeparatorGaps(gaps, |ws|)
    ensures Tokens(Interleave(gaps, ws)) == ws
  {
    var s := Interleave(gaps, ws);
    CleanInterleave(gaps, ws);
    var cg := CleanAll(gaps);
    forall i | 0 <= i < |gaps|
      ensures AllSpace(cg[i]) && |cg[i]| == |gaps[i]|
    {
      CleanSpaces(gaps[i]);
      CleanPointwise(gaps[i]);
    }
    SplitInterleave(cg, ws);
    FilterIsNoOp(s);
  }

  // ---------------------------------------------------------------------
  // Consequences for parse_eeg_input
  // ---------------------------------------------------------------------

  /** Input made of separators only gives the empty list, and only such input does. */
  lemma OnlySeparators(s: string)
    ensures ParseEegInput(s) == Ok([]) <==> AllSeparators(s)
  {
    FilterIsNoOp(s);
    SplitEmpty(Clean(s));
    CleanSpaces(s);
  }

  /** A separator becomes whitespace under the substitution. */
  lemma CleanSeparator(x: char)
    requires IsSeparator(x)
    ensures Clean([x]) == [CleanChar(x)] && IsSpace(CleanChar(x))
  {
    assert [x][1..] == [];
  }

  /** Leading separators contribute no token. */
  lemma TokensAfterSeparators(g: string, v: string)
    requires AllSeparators(g)
    ensures Tokens(g + v) == Tokens(v)
  {
    CleanAppend(g, v);
    CleanSpaces(g);
    SplitSpacePrefix(Clean(g), Clean(v));
    FilterIsNoOp(g + v);
    FilterIsNoOp(v);
  }

  /** Splitting the input at a separator splits the tokens there. */
  lemma TokensAtSeparator(u: string, x: char, v: string)
    requires IsSeparator(x)
    ensures Tokens(u + [x] + v) == Tokens(u) + Tokens(v)
  {
    var cu, cv := Clean(u), Clean(v);
    CleanSeparator(x);
    var cx := [CleanChar(x)];
    CleanAppend(u + [x], v);
    CleanAppend(u, [x]);
    AppendAssoc(cu, cx, cv);
    assert (cx + cv)[0] == CleanChar(x);
    SplitAppend(cu, cx + cv);
    assert AllSpace(cx);
    SplitSpacePrefix(cx, cv);
    FilterIsNoOp(u + [x] + v);
    FilterIsNoOp(u);
    FilterIsNoOp(v);
  }

  /** Any non-empty run of separators acts like one space. */
  lemma SeparatorRun(u: string, g: string, v: string)
    requires g != [] && AllSeparators(g)
    ensures Tokens(u + g + v) == Tokens(u + " " + v)
    ensures ParseEegInput(u + g + v) == ParseEegInput(u + " " + v)
  {
    assert u + g + v == u + [g[0]] + (g[1..] + v);
    TokensAtSeparator(u, g[0], g[1..] + v);
    TokensAtSeparator(u, ' ', v);
    assert AllSeparators(g[1..]) by {
      assert forall i :: 0 <= i < |g| - 1 ==> g[1..][i] == g[i + 1];
    }
    TokensAfterSeparators(g[1..], v);
  }

  /**
   * Two inputs joined by a separator parse as the values of the first
   * followed by those of the second, and fail when either fails.
   */
  lemma JoinedInputs(u: string, x: char, v: string)
    requires IsSeparator(x)
    ensures ParseEegInput(u + [x] + v).Ok? <==> ParseEegInput(u).Ok? && ParseEegInput(v).Ok?
    ensures ParseEegInput(u + [x] + v).Ok? ==>
              ParseEegInput(u + [x] + v).value == ParseEegInput(u).value + ParseEegInput(v).value
  {
    TokensAtSeparator(u, x, v);
    ConvertEachAppend(ParseFloat, Tokens(u), Tokens(v));
  }

  /** The warning is shown exactly when fewer than ten runs were read. */
  lemma WarningRule(s: string)
    ensures Submit(s).Analysed? ==> (Submit(s).shortWarning <==> |Tokens(s)| < MIN_SAMPLES)
    ensures Submit(s).InvalidInput? ==> exists k :: 0 <= k < |Tokens(s)| && Submit(s).error == NotANumber(Tokens(s)[k])
  {
  }
}
