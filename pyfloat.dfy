/**
 * Python's float(x) on a str x, and the list comprehension
 * [float(x) for x in xs] that raises at the first text float() rejects.
 *
 * float() strips blanks from both ends (Chars.IsFloatSpace: Python
 * whitespace except U+001C..U+001F) and then accepts
 *   sign? (digitpart ["." [digitpart]] | "." digitpart) ([eE] sign? digitpart)?
 * or sign? followed by "inf", "infinity" or "nan" in any ASCII case,
 * where a digitpart is a run of ASCII digits in which single underscores
 * may stand between two digits. Finite values are kept exact.
 */
module PyFloat {
  import opened Wrappers
  import opened Chars
  import opened PyStr

  /** A Python float: a finite value (kept exact), an infinity, or NaN. */
  datatype Float = Finite(value: real) | Infinity(negative: bool) | NaN

  /** The ValueError "could not convert string to float", with the text. */
  datatype ParseError = NotANumber(text: string)

  // ---------------------------------------------------------------------
  // Lexical pieces
  // ---------------------------------------------------------------------

  /** Digits, with single underscores allowed between two of them. */
  predicate IsDigitPart(p: string)
  {
    && p != [] && IsDigit(p[0]) && IsDigit(p[|p| - 1])
    && (forall i :: 0 <= i < |p| ==> IsDigit(p[i]) || p[i] == '_')
    && (forall i :: 0 <= i < |p| - 1 ==> p[i] == '_' ==> IsDigit(p[i + 1]))
  }

  /** The value of the digits of p, read in decimal; underscores are skipped. */
  function Value(p: string): (r: nat)
    decreases |p|
  {
    if p == [] then 0
    else
      var c := p[|p| - 1];
      var v := Value(p[..|p| - 1]);
      if IsDigit(c) then 10 * v + DigitValue(c) else v
  }

  /** The number of digits in p. */
  function DigitCount(p: string): (r: nat)
    decreases |p|
  {
    if p == [] then 0
    else (if IsDigit(p[|p| - 1]) then 1 else 0) + DigitCount(p[..|p| - 1])
  }

  function Pow10(n: nat): (r: nat)
    ensures r >= 1
  {
    if n == 0 then 1 else 10 * Pow10(n - 1)
  }

  /** m * 10^e as an exact real. */
  function Scale(m: nat, e: int): (r: real)
  {
    if e >= 0 then (m * Pow10(e)) as real else m as real / Pow10(-e) as real
  }

  /**
   * The index of the first c or d in s, or |s| when there is none. The
   * exponent marker may be 'e' or 'E'; for the decimal point, c == d == '.'
   * searches for one character.
   */
  function Find(s: string, c: char, d: char): (k: nat)
    ensures k <= |s|
    ensures k < |s| ==> s[k] == c || s[k] == d
    ensures forall i :: 0 <= i < k ==> s[i] != c && s[i] != d
    decreases |s|
  {
    if s == [] || s[0] == c || s[0] == d then 0 else 1 + Find(s[1..], c, d)
  }

  function Lower(s: string): (r: string)
  {
    seq(|s|, i requires 0 <= i < |s| => AsciiLower(s[i]))
  }

  /** An optional sign followed by a digitpart, as in an exponent. */
  function SignedInt(x: string): (r: Option<int>)
  {
    var neg := x != [] && x[0] == '-';
    var p := if x != [] && (x[0] == '+' || x[0] == '-') then x[1..] else x;
    var v: int := Value(p);
    if IsDigitPart(p) then Some(if neg then -v else v) else None
  }

  // ---------------------------------------------------------------------
  // The literal grammar
  // ---------------------------------------------------------------------

  /**
   * A mantissa: digitparts around at most one point, with digits on at
   * least one side of it. Gives the value of all its digits and the
   * number of digits after the point.
   */
  function Mantissa(m: string): (r: Option<(nat, nat)>)
  {
    var j := Find(m, '.', '.');
    var ip := m[..j];
    var fp := if j < |m| then m[j + 1..] else [];
    if (ip == [] || IsDigitPart(ip)) && (fp == [] || IsDigitPart(fp)) && (ip != [] || fp != []) then
      var d := DigitCount(fp);
      Some((Value(ip) * Pow10(d) + Value(fp), d))
    else None
  }

  /** An unsigned decimal literal: a mantissa and an optional exponent. */
  function Decimal(b: string): (r: Option<real>)
  {
    var k := Find(b, 'e', 'E');
    var mant := Mantissa(b[..k]);
    var ex := if k < |b| then SignedInt(b[k + 1..]) else Some(0);
    if mant.Some? && ex.Some? then Some(Scale(mant.value.0, ex.value - mant.value.1)) else None
  }

  /** body spelt as word, ignoring ASCII case. */
  predicate IsWord(body: string, word: string)
  {
    Lower(body) == word
  }

  /** A literal without its sign. */
  function Unsigned(body: string): (r: Option<Float>)
  {
    if IsWord(body, "inf") || IsWord(body, "infinity") then Some(Infinity(false))
    else if IsWord(body, "nan") then Some(NaN)
    else match Decimal(body)
      case Some(v) => Some(Finite(v))
      case None => None
  }

  function Negate(f: Float): (r: Float)
  {
    match f
    case Finite(v) => Finite(-v)
    case Infinity(neg) => Infinity(!neg)
    case NaN => NaN
  }

  /** float() on text that has already been stripped. */
  function Literal(t: string): (r: Option<Float>)
  {
    var signed := t != [] && (t[0] == '+' || t[0] == '-');
    var body := if signed then t[1..] else t;
    match Unsigned(body)
    case Some(f) => Some(if t[0] == '-' then Negate(f) else f)
    case None => None
  }

  /** The blanks float() strips from the left. */
  function FloatTrimLeft(s: string): (r: string)
    ensures |r| <= |s|
    decreases |s|
  {
    if s != [] && IsFloatSpace(s[0]) then FloatTrimLeft(s[1..]) else s
  }

  /** The blanks float() strips from the right. */
  function FloatTrimRight(s: string): (r: string)
    ensures |r| <= |s|
    decreases |s|
  {
    if s != [] && IsFloatSpace(s[|s| - 1]) then FloatTrimRight(s[..|s| - 1]) else s
  }

  /** The text float() reads once its blanks are stripped. */
  function FloatStrip(x: string): (r: string)
  {
    FloatTrimRight(FloatTrimLeft(x))
  }

  /** float(x) for a str x; None stands for the ValueError. */
  function ParseFloat(x: string): (r: Option<Float>)
  {
    Literal(FloatStrip(x))
  }

  /**
   * [convert(x) for x in xs]: every value, or the error for the first
   * text that convert rejects (the comprehension stops there).
   */
  function ConvertEach(convert: string -> Option<Float>, xs: seq<string>): (r: Result<seq<Float>, ParseError>)
    ensures r.Ok? <==> forall i :: 0 <= i < |xs| ==> convert(xs[i]).Some?
    ensures r.Ok? ==> |r.value| == |xs|
    ensures r.Ok? ==> forall i :: 0 <= i < |xs| ==> r.value[i] == convert(xs[i]).value
    ensures r.Err? ==> exists i :: 0 <= i < |xs| && r.error == NotANumber(xs[i])
                                     && convert(xs[i]).None?
                                     && forall j :: 0 <= j < i ==> convert(xs[j]).Some?
    decreases |xs|
  {
    if xs == [] then Ok([])
    else match convert(xs[0])
      case None => Err(NotANumber(xs[0]))
      case Some(v) =>
        match ConvertEach(convert, xs[1..])
        case Err(e) => Err(e)
        case Ok(vs) => Ok([v] + vs)
  }

  /** [float(x) for x in xs] */
  function ConvertAll(xs: seq<string>): (r: Result<seq<Float>, ParseError>)
  {
    ConvertEach(ParseFloat, xs)
  }

  /** Converting a concatenation succeeds when both halves do, with the values in order. */
  lemma ConvertEachAppend(convert: string -> Option<Float>, xs: seq<string>, ys: seq<string>)
    ensures ConvertEach(convert, xs + ys).Ok? <==> ConvertEach(convert, xs).Ok? && ConvertEach(convert, ys).Ok?
    ensures ConvertEach(convert, xs + ys).Ok? ==>
              ConvertEach(convert, xs + ys).value == ConvertEach(convert, xs).value + ConvertEach(convert, ys).value
  {
    var zs := xs + ys;
    assert forall i :: 0 <= i < |xs| ==> zs[i] == xs[i];
    assert forall j :: 0 <= j < |ys| ==> zs[|xs| + j] == ys[j];
    var r, a, b := ConvertEach(convert, zs), ConvertEach(convert, xs), ConvertEach(convert, ys);
    if a.Ok? && b.Ok? {
      assert forall i :: 0 <= i < |zs| ==> convert(zs[i]).Some? by {
        forall i | 0 <= i < |zs|
          ensures convert(zs[i]).Some?
        {
          if i >= |xs| {
            assert zs[i] == ys[i - |xs|];
          }
        }
      }
      assert r.value == a.value + b.value by {
        forall i | 0 <= i < |zs|
          ensures r.value[i] == (a.value + b.value)[i]
        {
          if i >= |xs| {
            assert zs[i] == ys[i - |xs|];
          }
        }
      }
    } else if !a.Ok? {
      var i :| 0 <= i < |xs| && convert(xs[i]).None?;
      assert convert(zs[i]).None?;
    } else {
      var j :| 0 <= j < |ys| && convert(ys[j]).None?;
      assert convert(zs[|xs| + j]).None?;
    }
  }

  // ---------------------------------------------------------------------
  // What float() accepts
  // ---------------------------------------------------------------------

  /** The characters a numeral can contain. */
  predicate IsNumeralChar(c: char)
  {
    IsDigit(c) || c == '_' || c == '.' || c == '+' || c == '-' || c == 'e' || c == 'E'
  }

  /** The characters of a numeral and, in either case, of inf, infinity and nan. */
  predicate IsLiteralChar(c: char)
  {
    var l := AsciiLower(c);
    IsNumeralChar(c) || l == 'i' || l == 'n' || l == 'f' || l == 't' || l == 'y' || l == 'a'
  }

  /** No whitespace, bracket or comma can be part of an accepted literal. */
  lemma LiteralCharIsNoSeparator(c: char)
    requires IsLiteralChar(c)
    ensures !IsSpace(c) && !IsBracketOrComma(c)
  {
  }

  lemma {:induction false} SignedIntAlphabet(x: string)
    requires SignedInt(x).Some?
    ensures x != [] && forall i :: 0 <= i < |x| ==> IsNumeralChar(x[i])
  {
    if x[0] == '+' || x[0] == '-' {
      var p := x[1..];
      assert forall i :: 1 <= i < |x| ==> x[i] == p[i - 1];
    }
  }

  lemma MantissaAlphabet(m: string)
    requires Mantissa(m).Some?
    ensures m != [] && forall i :: 0 <= i < |m| ==> IsNumeralChar(m[i])
  {
    var j := Find(m, '.', '.');
    var ip := m[..j];
    var fp := if j < |m| then m[j + 1..] else [];
    forall i | 0 <= i < |m|
      ensures IsNumeralChar(m[i])
    {
      if i < j {
        assert m[i] == ip[i];
      } else if i > j {
        assert m[i] == fp[i - j - 1];
      }
    }
  }

  lemma DecimalAlphabet(b: string)
    requires Decimal(b).Some?
    ensures b != [] && forall i :: 0 <= i < |b| ==> IsNumeralChar(b[i])
  {
    var k := Find(b, 'e', 'E');
    var m := b[..k];
    MantissaAlphabet(m);
    if k < |b| {
      SignedIntAlphabet(b[k + 1..]);
    }
    forall i | 0 <= i < |b|
      ensures IsNumeralChar(b[i])
    {
      if i < k {
        assert b[i] == m[i];
      } else if i > k {
        assert b[i] == b[k + 1..][i - k - 1];
      }
    }
  }

  lemma UnsignedAlphabet(body: string)
    requires Unsigned(body).Some?
    ensures body != [] && forall i :: 0 <= i < |body| ==> IsLiteralChar(body[i])
  {
    var word := Lower(body);
    if IsWord(body, "inf") || IsWord(body, "infinity") || IsWord(body, "nan") {
      assert forall i :: 0 <= i < |body| ==> AsciiLower(body[i]) == word[i];
    } else {
      DecimalAlphabet(body);
    }
  }

  /** Everything float() accepts (after stripping) is spelt with literal characters. */
  lemma {:induction false} LiteralAlphabet(t: string)
    requires Literal(t).Some?
    ensures t != [] && forall i :: 0 <= i < |t| ==> IsLiteralChar(t[i])
  {
    var signed := t != [] && (t[0] == '+' || t[0] == '-');
    var body := if signed then t[1..] else t;
    UnsignedAlphabet(body);
    assert forall i :: 0 <= i < |t| ==> t[i] == if signed && i == 0 then t[0] else body[if signed then i - 1 else i];
  }

  /**
   * An accepted literal is a single token of str.split() and holds no
   * bracket or comma, so neither parser can cut it in two.
   */
  lemma LiteralIsToken(t: string)
    requires Literal(t).Some?
    ensures IsToken(t)
    ensures forall i :: 0 <= i < |t| ==> !IsBracketOrComma(t[i])
  {
    LiteralAlphabet(t);
    forall i | 0 <= i < |t|
      ensures !IsSpace(t[i]) && !IsBracketOrComma(t[i])
    {
      LiteralCharIsNoSeparator(t[i]);
    }
  }

  // ---------------------------------------------------------------------
  // What float() strips
  // ---------------------------------------------------------------------

  predicate AllFloatSpace(s: string)
  {
    forall i :: 0 <= i < |s| ==> IsFloatSpace(s[i])
  }

  /** Neither starts nor ends with a blank float() strips. */
  predicate IsFloatStripped(s: string)
  {
    s == [] || (!IsFloatSpace(s[0]) && !IsFloatSpace(s[|s| - 1]))
  }

  lemma {:induction false} FloatTrimLeftShape(s: string)
    ensures FloatTrimLeft(s) == s[|s| - |FloatTrimLeft(s)|..]
    ensures FloatTrimLeft(s) == [] || !IsFloatSpace(FloatTrimLeft(s)[0])
    ensures AllFloatSpace(s[..|s| - |FloatTrimLeft(s)|])
    decreases |s|
  {
    if s != [] && IsFloatSpace(s[0]) {
      FloatTrimLeftShape(s[1..]);
      var k := |s| - |FloatTrimLeft(s)|;
      assert forall i :: 1 <= i < k ==> s[i] == s[1..][i - 1];
    }
  }

  lemma {:induction false} FloatTrimRightShape(s: string)
    ensures FloatTrimRight(s) == s[..|FloatTrimRight(s)|]
    ensures FloatTrimRight(s) == [] || !IsFloatSpace(FloatTrimRight(s)[|FloatTrimRight(s)| - 1])
    ensures AllFloatSpace(s[|FloatTrimRight(s)|..])
    decreases |s|
  {
    if s != [] && IsFloatSpace(s[|s| - 1]) {
      var s' := s[..|s| - 1];
      FloatTrimRightShape(s');
      var k := |FloatTrimRight(s)|;
      assert forall i :: k <= i < |s| - 1 ==> s[i] == s'[i];
    }
  }

  /** x is what float() reads, with blanks on both sides. */
  lemma FloatStripParts(x: string) returns (pre: string, post: string)
    ensures x == pre + FloatStrip(x) + post
    ensures AllFloatSpace(pre) && AllFloatSpace(post)
    ensures IsFloatStripped(FloatStrip(x))
  {
    var t := FloatTrimLeft(x);
    FloatTrimLeftShape(x);
    FloatTrimRightShape(t);
    pre, post := x[..|x| - |t|], t[|FloatStrip(x)|..];
    assert t == FloatStrip(x) + post;
    assert x == pre + t;
    assert FloatStrip(x) != [] ==> FloatStrip(x)[0] == t[0];
  }

  lemma {:induction false} FloatTrimLeftPadded(pre: string, x: string)
    requires AllFloatSpace(pre)
    requires x == [] || !IsFloatSpace(x[0])
    ensures FloatTrimLeft(pre + x) == x
    decreases |pre|
  {
    if pre == [] {
      assert pre + x == x;
    } else {
      assert (pre + x)[1..] == pre[1..] + x;
      FloatTrimLeftPadded(pre[1..], x);
    }
  }

  lemma {:induction false} FloatTrimRightPadded(x: string, post: string)
    requires AllFloatSpace(post)
    requires x == [] || !IsFloatSpace(x[|x| - 1])
    ensures FloatTrimRight(x + post) == x
    decreases |post|
  {
    if post == [] {
      assert x + post == x;
    } else {
      var post' := post[..|post| - 1];
      assert (x + post)[..|x + post| - 1] == x + post';
      FloatTrimRightPadded(x, post');
    }
  }

  /** Stripping blank-padded text that has no blank at its ends gives it back. */
  lemma FloatStripPadded(pre: string, w: string, post: string)
    requires AllFloatSpace(pre) && AllFloatSpace(post) && IsFloatStripped(w)
    ensures FloatStrip(pre + w + post) == w
  {
    var s := pre + w + post;
    if w == [] {
      assert AllFloatSpace(s) by {
        assert forall i :: 0 <= i < |s| ==> s[i] == if i < |pre| then pre[i] else post[i - |pre|];
      }
      FloatTrimLeftPadded(s, []);
      assert s + [] == s;
    } else {
      assert s == pre + (w + post);
      FloatTrimLeftPadded(pre, w + post);
      FloatTrimRightPadded(w, post);
    }
  }

  /** float() ignores the blanks it strips around any argument. */
  lemma ParseFloatPadded(pre: string, x: string, post: string)
    requires AllFloatSpace(pre) && AllFloatSpace(post)
    ensures ParseFloat(pre + x + post) == ParseFloat(x)
  {
    var p, q := FloatStripParts(x);
    var w := FloatStrip(x);
    assert AllFloatSpace(pre + p) by {
      assert forall i :: 0 <= i < |pre + p| ==> (pre + p)[i] == if i < |pre| then pre[i] else p[i - |pre|];
    }
    assert AllFloatSpace(q + post) by {
      assert forall i :: 0 <= i < |q + post| ==> (q + post)[i] == if i < |q| then q[i] else post[i - |q|];
    }
    assert pre + x + post == (pre + p) + w + (q + post);
    FloatStripPadded(pre + p, w, q + post);
  }

  /** Text with no whitespace at its ends has no blank float() strips. */
  lemma FloatStripOfStripped(t: string)
    requires IsStripped(t)
    ensures FloatStrip(t) == t
  {
  }

  /** Text with no whitespace at its ends is read by the literal grammar alone. */
  lemma ParseFloatOfStripped(t: string)
    requires IsStripped(t)
    ensures ParseFloat(t) == Literal(t)
  {
    FloatStripOfStripped(t);
  }

  /** float(x.strip()): the stripped text is read by the literal grammar alone. */
  lemma ParseFloatStrip(x: string)
    ensures ParseFloat(Strip(x)) == Literal(Strip(x))
  {
    StripShape(x);
    ParseFloatOfStripped(Strip(x));
  }

  /** A character that cannot occur in a literal makes float() reject the text. */
  lemma NonLiteralCharRejected(t: string, i: nat)
    requires i < |t| && !IsLiteralChar(t[i])
    ensures Literal(t).None?
  {
    if Literal(t).Some? {
      LiteralAlphabet(t);
    }
  }

  /** float() keeps a leading character that is not one of its blanks. */
  lemma FloatStripKeepsFirst(x: string)
    requires x != [] && !IsFloatSpace(x[0])
    ensures FloatStrip(x) != [] && FloatStrip(x)[0] == x[0]
  {
    assert FloatTrimLeft(x) == x;
    FloatTrimRightShape(x);
    assert x[..1] == [x[0]];
  }

  /**
   * An information separator U+001C..U+001F in front of a number: str.strip()
   * removes it, float() does not and rejects the text.
   */
  lemma SeparatorControlKept(c: char, t: string)
    requires '\U{1C}' <= c <= '\U{1F}'
    ensures ParseFloat([c] + t).None?
    ensures Strip([c] + t) == Strip(t)
  {
    var x := [c] + t;
    FloatStripKeepsFirst(x);
    NonLiteralCharRejected(FloatStrip(x), 0);
    StripSurrounded([c], t, []);
    assert [c] + t + [] == x;
  }

  // ---------------------------------------------------------------------
  // Integers written in decimal read back as themselves
  // ---------------------------------------------------------------------

  function DigitChar(d: nat): (c: char)
    requires d < 10
    ensures IsDigit(c) && DigitValue(c) == d
  {
    ('0' as int + d) as char
  }

  /** The decimal numeral of n, as str(n) writes it. */
  function NatToString(n: nat): (r: string)
    decreases n
  {
    if n < 10 then [DigitChar(n)] else NatToString(n / 10) + [DigitChar(n % 10)]
  }

  lemma {:induction false} NatToStringValue(n: nat)
    ensures NatToString(n) != []
    ensures AllDigits(NatToString(n))
    ensures Value(NatToString(n)) == n
    decreases n
  {
    var s := NatToString(n);
    if n < 10 {
      assert s[..0] == [];
    } else {
      var a := NatToString(n / 10);
      NatToStringValue(n / 10);
      assert s[..|s| - 1] == a;
      AllDigitsAppend(a, [DigitChar(n % 10)]);
    }
  }

  /** Only ASCII digits, no underscore. */
  predicate AllDigits(s: string)
    decreases |s|
  {
    s == [] || (IsDigit(s[0]) && AllDigits(s[1..]))
  }

  lemma {:induction false} AllDigitsIndex(s: string)
    requires AllDigits(s)
    ensures forall i :: 0 <= i < |s| ==> IsDigit(s[i])
    decreases |s|
  {
    if s != [] {
      AllDigitsIndex(s[1..]);
      assert forall i :: 1 <= i < |s| ==> s[i] == s[1..][i - 1];
    }
  }

  lemma {:induction false} AllDigitsAppend(a: string, b: string)
    requires AllDigits(a) && AllDigits(b)
    ensures AllDigits(a + b)
    decreases |a|
  {
    if a != [] {
      assert (a + b)[1..] == a[1..] + b;
      AllDigitsAppend(a[1..], b);
    } else {
      assert a + b == b;
    }
  }

  lemma {:induction false} FindAbsent(s: string, c: char, d: char)
    requires AllDigits(s) && !IsDigit(c) && !IsDigit(d)
    ensures Find(s, c, d) == |s|
    decreases |s|
  {
    if s != [] {
      FindAbsent(s[1..], c, d);
    }
  }

  lemma AllDigitsLast(s: string)
    requires s != [] && AllDigits(s)
    ensures IsDigit(s[|s| - 1])
  {
    AllDigitsIndex(s);
  }

  lemma DigitsAreDigitPart(s: string)
    requires s != [] && AllDigits(s)
    ensures IsDigitPart(s)
  {
    AllDigitsIndex(s);
  }

  lemma DigitsMantissa(s: string)
    requires s != [] && AllDigits(s)
    ensures Mantissa(s) == Some((Value(s), 0))
  {
    FindAbsent(s, '.', '.');
    assert s[..|s|] == s;
    DigitsAreDigitPart(s);
  }

  lemma DigitsDecimal(s: string)
    requires s != [] && AllDigits(s)
    ensures Decimal(s) == Some(Value(s) as real)
  {
    FindAbsent(s, 'e', 'E');
    assert s[..|s|] == s;
    DigitsMantissa(s);
  }

  lemma DigitsUnsigned(s: string)
    requires s != [] && AllDigits(s)
    ensures Unsigned(s) == Some(Finite(Value(s) as real))
  {
    assert Lower(s)[0] == s[0];
    DigitsDecimal(s);
  }

  /** A plain run of digits is read as its decimal value. */
  lemma DigitsLiteral(s: string)
    requires s != [] && AllDigits(s)
    ensures Literal(s) == Some(Finite(Value(s) as real))
  {
    DigitsUnsigned(s);
  }

  /** A leading minus sign negates what the rest of the literal reads as. */
  lemma LiteralMinus(s: string, f: Float)
    requires Unsigned(s) == Some(f)
    ensures Literal("-" + s) == Some(Negate(f))
  {
    assert ("-" + s)[1..] == s;
  }

  lemma NegatedDigitsLiteral(s: string)
    requires s != [] && AllDigits(s)
    ensures Literal("-" + s) == Some(Finite(-(Value(s) as real)))
  {
    var v := Value(s) as real;
    DigitsUnsigned(s);
    LiteralMinus(s, Finite(v));
    assert Negate(Finite(v)) == Finite(-v);
  }

  lemma DigitsStripped(s: string)
    requires s != [] && AllDigits(s)
    ensures IsStripped(s) && IsStripped("-" + s)
  {
    AllDigitsLast(s);
    var t := "-" + s;
    assert t[|t| - 1] == s[|s| - 1];
  }

  lemma DigitsRead(s: string)
    requires s != [] && AllDigits(s)
    ensures ParseFloat(s) == Some(Finite(Value(s) as real))
  {
    DigitsStripped(s);
    ParseFloatOfStripped(s);
    DigitsLiteral(s);
  }

  lemma NegatedDigitsRead(s: string)
    requires s != [] && AllDigits(s)
    ensures ParseFloat("-" + s) == Some(Finite(-(Value(s) as real)))
  {
    DigitsStripped(s);
    ParseFloatOfStripped("-" + s);
    NegatedDigitsLiteral(s);
  }

  /** A run of digits, with or without a minus sign, reads back as its value. */
  lemma DigitsRoundTrip(s: string)
    requires s != [] && AllDigits(s)
    ensures ParseFloat(s) == Some(Finite(Value(s) as real))
    ensures ParseFloat("-" + s) == Some(Finite(-(Value(s) as real)))
  {
    DigitsRead(s);
    NegatedDigitsRead(s);
  }

  /** float(str(n)) == n and float("-" + str(n)) == -n for every natural n. */
  lemma NatRoundTrip(n: nat)
    ensures ParseFloat(NatToString(n)) == Some(Finite(n as real))
    ensures ParseFloat("-" + NatToString(n)) == Some(Finite(-(n as real)))
  {
    NatToStringValue(n);
    DigitsRoundTrip(NatToString(n));
  }
}
