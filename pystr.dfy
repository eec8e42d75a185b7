/**
 * The three Python string methods the parsers rely on:
 *   s.strip()       -- drop leading and trailing whitespace,
 *   s.split()       -- the maximal runs of non-whitespace, in order,
 *   s.split(sep)    -- the fields between occurrences of one character.
 * Each is defined by a character-at-a-time recursion and comes with an
 * independent description of its result (a decomposition of the input)
 * and the lemmas that connect the two.
 */
module PyStr {
  import opened Chars

  predicate AllSpace(s: string)
  {
    forall i :: 0 <= i < |s| ==> IsSpace(s[i])
  }

  predicate NoSpace(s: string)
  {
    forall i :: 0 <= i < |s| ==> !IsSpace(s[i])
  }

  /** Neither starts nor ends with whitespace. */
  predicate IsStripped(s: string)
  {
    s == [] || (!IsSpace(s[0]) && !IsSpace(s[|s| - 1]))
  }

  // ---------------------------------------------------------------------
  // str.strip()
  // ---------------------------------------------------------------------

  /** s.lstrip() */
  function TrimLeft(s: string): (r: string)
    ensures |r| <= |s|
    decreases |s|
  {
    if s != [] && IsSpace(s[0]) then TrimLeft(s[1..]) else s
  }

  /** s.rstrip() */
  function TrimRight(s: string): (r: string)
    ensures |r| <= |s|
    decreases |s|
  {
    if s != [] && IsSpace(s[|s| - 1]) then TrimRight(s[..|s| - 1]) else s
  }

  /** s.strip(), which Python computes as s.lstrip().rstrip(). */
  function Strip(s: string): (r: string)
  {
    TrimRight(TrimLeft(s))
  }

  /** lstrip() keeps a suffix that is empty or starts with a non-space. */
  lemma {:induction false} TrimLeftShape(s: string)
    ensures TrimLeft(s) == s[|s| - |TrimLeft(s)|..]
    ensures TrimLeft(s) == [] || !IsSpace(TrimLeft(s)[0])
    decreases |s|
  {
    if s != [] && IsSpace(s[0]) {
      TrimLeftShape(s[1..]);
    }
  }

  /** rstrip() keeps a prefix that is empty or ends with a non-space. */
  lemma {:induction false} TrimRightShape(s: string)
    ensures TrimRight(s) == s[..|TrimRight(s)|]
    ensures TrimRight(s) == [] || !IsSpace(TrimRight(s)[|TrimRight(s)| - 1])
    decreases |s|
  {
    if s != [] && IsSpace(s[|s| - 1]) {
      TrimRightShape(s[..|s| - 1]);
    }
  }

  /** strip() leaves no whitespace at either end. */
  lemma StripShape(s: string)
    ensures IsStripped(Strip(s))
  {
    var t := TrimLeft(s);
    TrimLeftShape(s);
    TrimRightShape(t);
    assert Strip(s) != [] ==> Strip(s)[0] == t[0];
  }

  /** What lstrip() removes is whitespace. */
  lemma {:induction false} TrimLeftRemovesSpace(s: string)
    ensures AllSpace(s[..|s| - |TrimLeft(s)|])
    decreases |s|
  {
    if s != [] && IsSpace(s[0]) {
      TrimLeftRemovesSpace(s[1..]);
      var k := |s| - |TrimLeft(s)|;
      assert forall i :: 1 <= i < k ==> s[i] == s[1..][i - 1];
    }
  }

  /** What rstrip() removes is whitespace. */
  lemma {:induction false} TrimRightRemovesSpace(s: string)
    ensures AllSpace(s[|TrimRight(s)|..])
    decreases |s|
  {
    if s != [] && IsSpace(s[|s| - 1]) {
      var s' := s[..|s| - 1];
      TrimRightRemovesSpace(s');
      var k := |TrimRight(s)|;
      assert forall i :: k <= i < |s| - 1 ==> s[i] == s'[i];
    }
  }

  /** s is the stripped text surrounded by whitespace on both sides. */
  lemma StripParts(s: string) returns (pre: string, post: string)
    ensures s == pre + Strip(s) + post
    ensures AllSpace(pre) && AllSpace(post)
  {
    var t := TrimLeft(s);
    TrimLeftShape(s);
    TrimRightShape(t);
    TrimLeftRemovesSpace(s);
    TrimRightRemovesSpace(t);
    pre, post := s[..|s| - |t|], t[|Strip(s)|..];
    assert t == Strip(s) + post;
    assert s == pre + t;
  }

  /** lstrip() stops at the first non-space. */
  lemma {:induction false} TrimLeftPadded(pre: string, x: string)
    requires AllSpace(pre)
    requires x == [] || !IsSpace(x[0])
    ensures TrimLeft(pre + x) == x
    decreases |pre|
  {
    if pre == [] {
      assert pre + x == x;
    } else {
      assert (pre + x)[1..] == pre[1..] + x;
      TrimLeftPadded(pre[1..], x);
    }
  }

  /** rstrip() stops at the last non-space. */
  lemma {:induction false} TrimRightPadded(x: string, post: string)
    requires AllSpace(post)
    requires x == [] || !IsSpace(x[|x| - 1])
    ensures TrimRight(x + post) == x
    decreases |post|
  {
    if post == [] {
      assert x + post == x;
    } else {
      var post' := post[..|post| - 1];
      assert (x + post)[..|x + post| - 1] == x + post';
      TrimRightPadded(x, post');
    }
  }

  lemma {:induction false} TrimLeftAllSpace(s: string)
    requires AllSpace(s)
    ensures TrimLeft(s) == []
    decreases |s|
  {
    if s != [] {
      assert AllSpace(s[1..]) by {
        assert forall i :: 0 <= i < |s| - 1 ==> s[1..][i] == s[i + 1];
      }
      TrimLeftAllSpace(s[1..]);
    }
  }

  /** A text strips to nothing exactly when it is all whitespace. */
  lemma StripEmpty(s: string)
    ensures Strip(s) == [] <==> AllSpace(s)
  {
    if AllSpace(s) {
      TrimLeftAllSpace(s);
    }
    if Strip(s) == [] {
      var pre, post := StripParts(s);
      assert s == pre + post;
      forall i | 0 <= i < |s|
        ensures IsSpace(s[i])
      {
        if i < |pre| {
          assert s[i] == pre[i];
        } else {
          assert s[i] == post[i - |pre|];
        }
      }
    }
  }

  /** Whitespace on the outside does not change the stripped text. */
  lemma StripPadded(pre: string, w: string, post: string)
    requires AllSpace(pre) && AllSpace(post) && IsStripped(w)
    ensures Strip(pre + w + post) == w
  {
    var s := pre + w + post;
    if w == [] {
      assert AllSpace(s) by {
        assert forall i :: 0 <= i < |s| ==> s[i] == if i < |pre| then pre[i] else post[i - |pre|];
      }
      StripEmpty(s);
    } else {
      assert s == pre + (w + post);
      TrimLeftPadded(pre, w + post);
      TrimRightPadded(w, post);
    }
  }

  lemma AllSpaceAppend(a: string, b: string)
    requires AllSpace(a) && AllSpace(b)
    ensures AllSpace(a + b)
  {
    assert forall i :: 0 <= i < |a + b| ==> (a + b)[i] == if i < |a| then a[i] else b[i - |a|];
  }

  lemma AppendAssoc(a: string, b: string, c: string)
    ensures a + (b + c) == a + b + c
  {
  }

  /** Extra whitespace around any text does not change what it strips to. */
  lemma StripSurrounded(pre: string, x: string, post: string)
    requires AllSpace(pre) && AllSpace(post)
    ensures Strip(pre + x + post) == Strip(x)
  {
    var p, q := StripParts(x);
    var w := Strip(x);
    StripShape(x);
    AllSpaceAppend(pre, p);
    AllSpaceAppend(q, post);
    calc {
      pre + x + post;
      { AppendAssoc(pre, p + w, q); }
      pre + (p + w) + q + post;
      { AppendAssoc(pre, p, w); }
      (pre + p) + w + q + post;
      { AppendAssoc(pre + p + w, q, post); }
      (pre + p) + w + (q + post);
    }
    StripPadded(pre + p, w, q + post);
  }

  /** Stripping text that is already stripped changes nothing. */
  lemma StripOfStripped(s: string)
    requires IsStripped(s)
    ensures Strip(s) == s
  {
    StripPadded([], s, []);
    assert [] + s + [] == s;
  }

  lemma StripIdempotent(s: string)
    ensures Strip(Strip(s)) == Strip(s)
  {
    StripShape(s);
    StripOfStripped(Strip(s));
  }

  // ---------------------------------------------------------------------
  // str.split() with no argument
  // ---------------------------------------------------------------------

  /** A token of str.split(): non-empty and free of whitespace. */
  predicate IsToken(w: string)
  {
    w != [] && NoSpace(w)
  }

  /**
   * s.split(): a space is dropped; a non-space either starts a new token
   * (when what follows is the end or a space) or is put in front of the
   * token that the rest of the text begins with.
   */
  function Split(s: string): (ws: seq<string>)
    ensures s != [] && !IsSpace(s[0]) ==> ws != []
    decreases |s|
  {
    if s == [] then []
    else
      var rest := Split(s[1..]);
      if IsSpace(s[0]) then rest
      else if |s| > 1 && !IsSpace(s[1]) then [[s[0]] + rest[0]] + rest[1..]
      else [[s[0]]] + rest
  }

  /** Every element of s.split() is a token. */
  lemma {:induction false} SplitTokens(s: string)
    ensures forall i :: 0 <= i < |Split(s)| ==> IsToken(Split(s)[i])
    decreases |s|
  {
    if s != [] {
      var rest := Split(s[1..]);
      SplitTokens(s[1..]);
      if !IsSpace(s[0]) && |s| > 1 && !IsSpace(s[1]) {
        var w := [s[0]] + rest[0];
        assert forall j :: 1 <= j < |w| ==> w[j] == rest[0][j - 1];
        assert IsToken(w);
      }
    }
  }

  /** A text splits into nothing exactly when it is all whitespace. */
  lemma {:induction false} SplitEmpty(s: string)
    ensures Split(s) == [] <==> AllSpace(s)
    decreases |s|
  {
    if s != [] {
      SplitEmpty(s[1..]);
      assert AllSpace(s) <==> IsSpace(s[0]) && AllSpace(s[1..]) by {
        assert forall i :: 1 <= i < |s| ==> s[i] == s[1..][i - 1];
      }
    }
  }

  /** A single token splits into itself. */
  lemma {:induction false} SplitToken(w: string)
    requires IsToken(w)
    ensures Split(w) == [w]
    decreases |w|
  {
    if |w| > 1 {
      var w' := w[1..];
      assert IsToken(w') by {
        assert forall i :: 0 <= i < |w'| ==> w'[i] == w[i + 1];
      }
      SplitToken(w');
      assert [w[0]] + w' == w;
    } else {
      assert [w[0]] == w;
    }
  }

  /**
   * Splitting is a homomorphism across a whitespace boundary: when the
   * join point of u and v touches whitespace (or an end), the tokens of
   * u + v are those of u followed by those of v.
   */
  lemma {:induction false} SplitAppend(u: string, v: string)
    requires u == [] || v == [] || IsSpace(u[|u| - 1]) || IsSpace(v[0])
    ensures Split(u + v) == Split(u) + Split(v)
    decreases |u|
  {
    if u == [] {
      assert u + v == v;
    } else if v == [] {
      assert u + v == u;
    } else {
      var u' := u[1..];
      assert (u + v)[1..] == u' + v;
      SplitAppend(u', v);
      if IsSpace(u[0]) {
      } else if u' == [] {
        assert Split(u) == [[u[0]]];
      } else if IsSpace(u'[0]) {
        assert Split(u) == [[u[0]]] + Split(u');
      } else {
        var a, b := Split(u'), Split(v);
        assert (a + b)[0] == a[0];
        assert (a + b)[1..] == a[1..] + b;
      }
    }
  }

  /** Leading whitespace does not change the tokens. */
  lemma SplitSpacePrefix(pre: string, s: string)
    requires AllSpace(pre)
    ensures Split(pre + s) == Split(s)
  {
    SplitAppend(pre, s);
    SplitEmpty(pre);
  }

  /**
   * The text gaps[0] + ws[0] + gaps[1] + ... + ws[n-1] + gaps[n]:
   * the words ws with the whitespace runs gaps between and around them.
   */
  function Interleave(gaps: seq<string>, ws: seq<string>): (r: string)
    requires |gaps| == |ws| + 1
    decreases ws
  {
    if ws == [] then gaps[0] else gaps[0] + ws[0] + Interleave(gaps[1..], ws[1..])
  }

  /**
   * Gaps that keep the words of Interleave(gaps, ws) apart: all
   * whitespace, and the inner ones non-empty so that no two words touch.
   */
  predicate ProperGaps(gaps: seq<string>, n: nat)
  {
    && |gaps| == n + 1
    && (forall i :: 0 <= i < |gaps| ==> AllSpace(gaps[i]))
    && (forall i :: 0 < i < n ==> gaps[i] != [])
  }

  /**
   * Half of "s.split() gives the maximal runs of non-whitespace": any
   * text built from tokens separated by whitespace splits into exactly
   * those tokens.
   */
  lemma {:induction false} SplitInterleave(gaps: seq<string>, ws: seq<string>)
    requires forall i :: 0 <= i < |ws| ==> IsToken(ws[i])
    requires ProperGaps(gaps, |ws|)
    ensures Split(Interleave(gaps, ws)) == ws
    decreases ws
  {
    if ws == [] {
      SplitEmpty(gaps[0]);
    } else {
      var rest := Interleave(gaps[1..], ws[1..]);
      assert rest == [] || IsSpace(rest[0]) by {
        if |ws| > 1 {
          assert rest == gaps[1] + ws[1] + Interleave(gaps[2..], ws[2..]);
          assert gaps[1] != [] && IsSpace(gaps[1][0]);
        } else {
          assert rest == gaps[1];
        }
      }
      assert Interleave(gaps, ws) == gaps[0] + (ws[0] + rest);
      SplitSpacePrefix(gaps[0], ws[0] + rest);
      SplitAppend(ws[0], rest);
      SplitToken(ws[0]);
      assert forall i :: 0 <= i < |gaps| - 1 ==> gaps[1..][i] == gaps[i + 1];
      SplitInterleave(gaps[1..], ws[1..]);
    }
  }

  /** Whitespace put in front of the first gap ends up in front of the text. */
  lemma {:induction false} InterleaveWiden(x: string, gaps: seq<string>, ws: seq<string>)
    requires |gaps| == |ws| + 1
    ensures Interleave([x + gaps[0]] + gaps[1..], ws) == x + Interleave(gaps, ws)
  {
    var gaps' := [x + gaps[0]] + gaps[1..];
    assert gaps'[1..] == gaps[1..];
    if ws != [] {
      var rest := Interleave(gaps[1..], ws[1..]);
      assert x + gaps[0] + ws[0] + rest == x + (gaps[0] + ws[0] + rest);
    }
  }

  // The three steps of SplitGaps, one per branch of Split: g are the
  // gaps of the tail t, and the result the gaps of [c] + t.

  lemma GapsSpace(c: char, t: string, g: seq<string>) returns (gaps: seq<string>)
    requires IsSpace(c)
    requires ProperGaps(g, |Split(t)|) && Interleave(g, Split(t)) == t
    ensures ProperGaps(gaps, |Split(t)|) && Interleave(gaps, Split(t)) == [c] + t
  {
    gaps := [[c] + g[0]] + g[1..];
    InterleaveWiden([c], g, Split(t));
    assert AllSpace(gaps[0]) by {
      assert forall i :: 1 <= i < |gaps[0]| ==> gaps[0][i] == g[0][i - 1];
    }
    assert forall i :: 0 < i < |gaps| ==> gaps[i] == g[i];
  }

  lemma GapsExtend(c: char, t: string, g: seq<string>) returns (gaps: seq<string>)
    requires t != [] && !IsSpace(t[0])
    requires ProperGaps(g, |Split(t)|) && Interleave(g, Split(t)) == t
    ensures var ws := Split(t);
      ProperGaps(gaps, |ws|) && Interleave(gaps, [[c] + ws[0]] + ws[1..]) == [c] + t
  {
    var ws := Split(t);
    assert t == g[0] + (ws[0] + Interleave(g[1..], ws[1..]));
    assert g[0] == [];
    gaps := [[]] + g[1..];
    var ws' := [[c] + ws[0]] + ws[1..];
    assert ws'[1..] == ws[1..];
    assert Interleave(gaps, ws') == [c] + ws[0] + Interleave(g[1..], ws[1..]);
    assert forall i :: 0 < i < |gaps| ==> gaps[i] == g[i];
  }

  lemma GapsStart(c: char, t: string, g: seq<string>) returns (gaps: seq<string>)
    requires t == [] || IsSpace(t[0])
    requires ProperGaps(g, |Split(t)|) && Interleave(g, Split(t)) == t
    ensures ProperGaps(gaps, |Split(t)| + 1) && Interleave(gaps, [[c]] + Split(t)) == [c] + t
  {
    var ws := Split(t);
    assert ws != [] ==> g[0] != [] by {
      if ws != [] {
        SplitTokens(t);
        assert t == g[0] + (ws[0] + Interleave(g[1..], ws[1..]));
        assert g[0] != [];
      }
    }
    gaps := [[]] + g;
    assert gaps[1..] == g;
    assert ([[c]] + ws)[1..] == ws;
    assert forall i :: 0 < i < |gaps| ==> gaps[i] == g[i - 1];
  }

  /**
   * The other half: every text is the tokens of its split separated by
   * whitespace, so the tokens are its maximal runs of non-whitespace.
   */
  lemma {:induction false} SplitGaps(s: string) returns (gaps: seq<string>)
    ensures ProperGaps(gaps, |Split(s)|)
    ensures Interleave(gaps, Split(s)) == s
    decreases |s|
  {
    if s == [] {
      gaps := [[]];
    } else {
      var t := s[1..];
      var g := SplitGaps(t);
      assert s == [s[0]] + t;
      if IsSpace(s[0]) {
        gaps := GapsSpace(s[0], t, g);
      } else if |s| > 1 && !IsSpace(s[1]) {
        gaps := GapsExtend(s[0], t, g);
      } else {
        gaps := GapsStart(s[0], t, g);
      }
    }
  }

  // ---------------------------------------------------------------------
  // str.split(sep) with a one-character separator
  // ---------------------------------------------------------------------

  /** The number of occurrences of c in s. */
  function Count(s: string, c: char): (r: nat)
    decreases |s|
  {
    if s == [] then 0 else (if s[0] == c then 1 else 0) + Count(s[1..], c)
  }

  /**
   * s.split(sep): the fields between occurrences of sep. There is always
   * one more field than there are separators, so "" gives [""].
   */
  function SplitOn(s: string, sep: char): (fs: seq<string>)
    ensures |fs| == Count(s, sep) + 1
    ensures forall i :: 0 <= i < |fs| ==> sep !in fs[i]
    decreases |s|
  {
    if s == [] then [[]]
    else
      assert s == [s[0]] + s[1..];
      var rest := SplitOn(s[1..], sep);
      if s[0] == sep then [[]] + rest else [[s[0]] + rest[0]] + rest[1..]
  }

  /** sep.join(fs) */
  function Join(fs: seq<string>, sep: char): (r: string)
    requires |fs| >= 1
    decreases |fs|
  {
    if |fs| == 1 then fs[0] else fs[0] + [sep] + Join(fs[1..], sep)
  }

  /** Joining the fields with the separator gives back the text. */
  lemma {:induction false} JoinSplitOn(s: string, sep: char)
    ensures Join(SplitOn(s, sep), sep) == s
    decreases |s|
  {
    if s != [] {
      var rest := SplitOn(s[1..], sep);
      JoinSplitOn(s[1..], sep);
      if s[0] != sep && |rest| > 1 {
        assert Join(rest, sep) == rest[0] + [sep] + Join(rest[1..], sep);
        assert rest[1..][1..] == rest[2..];
      }
    }
  }

  lemma {:induction false} SplitOnNoSep(a: string, sep: char)
    requires sep !in a
    ensures SplitOn(a, sep) == [a]
    decreases |a|
  {
    if a != [] {
      SplitOnNoSep(a[1..], sep);
      assert [a[0]] + a[1..] == a;
    }
  }

  lemma {:induction false} SplitOnCons(a: string, sep: char, b: string)
    requires sep !in a
    ensures SplitOn(a + [sep] + b, sep) == [a] + SplitOn(b, sep)
    decreases |a|
  {
    var s := a + [sep] + b;
    if a == [] {
      assert s[1..] == b;
    } else {
      assert s[1..] == a[1..] + [sep] + b;
      SplitOnCons(a[1..], sep, b);
      assert [a[0]] + a[1..] == a;
    }
  }

  /** Fields free of the separator are recovered by splitting their join. */
  lemma {:induction false} SplitOnJoin(fs: seq<string>, sep: char)
    requires |fs| >= 1
    requires forall i :: 0 <= i < |fs| ==> sep !in fs[i]
    ensures SplitOn(Join(fs, sep), sep) == fs
    decreases |fs|
  {
    if |fs| == 1 {
      SplitOnNoSep(fs[0], sep);
    } else {
      SplitOnCons(fs[0], sep, Join(fs[1..], sep));
      SplitOnJoin(fs[1..], sep);
    }
  }

  /** Splitting at one occurrence of the separator splits the fields there. */
  lemma {:induction false} SplitOnAppend(u: string, sep: char, v: string)
    ensures SplitOn(u + [sep] + v, sep) == SplitOn(u, sep) + SplitOn(v, sep)
    decreases |u|
  {
    var s := u + [sep] + v;
    if u == [] {
      assert s[1..] == v;
    } else {
      assert s[1..] == u[1..] + [sep] + v;
      SplitOnAppend(u[1..], sep, v);
      var a, b := SplitOn(u[1..], sep), SplitOn(v, sep);
      if u[0] != sep {
        assert (a + b)[0] == a[0];
        assert (a + b)[1..] == a[1..] + b;
      }
    }
  }
}
