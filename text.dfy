/**
 * The string handling the reservation code relies on: Python's `str.strip()`,
 * `", ".join(...)` and `str.split(",")`.
 */
module Text {

  /** Python's `str.isspace()` for one character. */
  predicate IsSpace(c: char)
  {
    || c == ' '
    || ('\t' <= c <= '\r')
    || ('\U{1C}' <= c <= '\U{1F}')
    || c == '\U{85}' || c == '\U{A0}' || c == '\U{1680}'
    || ('\U{2000}' <= c <= '\U{200A}')
    || c == '\U{2028}' || c == '\U{2029}' || c == '\U{202F}' || c == '\U{205F}' || c == '\U{3000}'
  }

  /** `s.lstrip()`: drops the leading whitespace and nothing else. */
  function StripLeft(s: string): (r: string)
    ensures |r| <= |s| && r == s[|s| - |r|..]
    ensures r == [] || !IsSpace(r[0])
    ensures forall i :: 0 <= i < |s| - |r| ==> IsSpace(s[i])
  {
    if s != [] && IsSpace(s[0]) then
      var r := StripLeft(s[1..]);
      assert s[1..][|s| - 1 - |r|..] == s[|s| - |r|..];
      assert forall i :: 1 <= i < |s| - |r| ==> s[i] == s[1..][i - 1];
      r
    else s
  }

  /** `s.rstrip()`: drops the trailing whitespace and nothing else. */
  function StripRight(s: string): (r: string)
    ensures |r| <= |s| && r == s[..|r|]
    ensures r == [] || !IsSpace(r[|r| - 1])
    ensures forall i :: |r| <= i < |s| ==> IsSpace(s[i])
  {
    if s != [] && IsSpace(s[|s| - 1]) then
      var r := StripRight(s[..|s| - 1]);
      assert s[..|s| - 1][..|r|] == s[..|r|];
      assert forall i :: |r| <= i < |s| - 1 ==> s[i] == s[..|s| - 1][i];
      r
    else s
  }

  /** `s.strip()`. The result is empty exactly when `s` is all whitespace. */
  function Strip(s: string): (r: string)
    ensures r == [] || (!IsSpace(r[0]) && !IsSpace(r[|r| - 1]))
  {
    var l := StripLeft(s);
    var r := StripRight(l);
    assert r != [] ==> r[0] == l[0];
    r
  }

  /** Stripping removes whitespace at the two ends and nothing else: the
      result is the slice of `s` from `i` on, with only whitespace before
      and after it. */
  lemma StripDropsOnlySpace(s: string) returns (i: nat)
    ensures i + |Strip(s)| <= |s| && Strip(s) == s[i..i + |Strip(s)|]
    ensures forall j :: 0 <= j < i ==> IsSpace(s[j])
    ensures forall j :: i + |Strip(s)| <= j < |s| ==> IsSpace(s[j])
  {
    var l := StripLeft(s);
    i := |s| - |l|;
    var r := StripRight(l);
    assert Strip(s) == r;
    assert l == s[i..];
    assert r == s[i..i + |r|] by {
      assert r == l[..|r|];
      assert l[..|r|] == s[i..i + |r|];
    }
    forall j | i + |r| <= j < |s|
      ensures IsSpace(s[j])
    {
      assert s[j] == l[j - i];
      assert |r| <= j - i < |l|;
    }
  }

  /** The stripped text is empty exactly when the text is all whitespace. */
  lemma StripEmptyIff(s: string)
    ensures Strip(s) == [] <==> forall i :: 0 <= i < |s| ==> IsSpace(s[i])
  {
    var l := StripLeft(s);
    assert StripRight(l) == [] ==> l == [];
  }

  /** Stripping ignores whitespace added in front. */
  lemma StripSpaceInFront(c: char, s: string)
    requires IsSpace(c)
    ensures Strip([c] + s) == Strip(s)
  {
    assert ([c] + s)[1..] == s;
  }

  /** A string without surrounding whitespace is its own strip. */
  lemma StripTrimmed(s: string)
    requires s == [] || (!IsSpace(s[0]) && !IsSpace(s[|s| - 1]))
    ensures Strip(s) == s
  {
  }

  /** Stripping twice strips no more than once. */
  lemma StripIdempotent(s: string)
    ensures Strip(Strip(s)) == Strip(s)
  {
    StripTrimmed(Strip(s));
  }

  /** Text made of ASCII letters only. */
  predicate IsLetters(s: string)
  {
    forall i :: 0 <= i < |s| ==> ('A' <= s[i] <= 'Z' || 'a' <= s[i] <= 'z')
  }

  /** Letters hold no comma, and a word of letters is its own strip. */
  lemma LettersArePlain(s: string)
    requires IsLetters(s)
    ensures ',' !in s && Strip(s) == s
  {
    if s != [] {
      assert !IsSpace(s[0]) && !IsSpace(s[|s| - 1]);
    }
    StripTrimmed(s);
  }

  /** `sep.join(ws)`. */
  function Join(ws: seq<string>, sep: string): string
  {
    if |ws| == 0 then ""
    else if |ws| == 1 then ws[0]
    else ws[0] + sep + Join(ws[1..], sep)
  }

  /** `s.split(",")`: at least one piece, and no piece holds a comma. */
  function Split(s: string): (r: seq<string>)
    ensures |r| >= 1
    ensures forall k :: 0 <= k < |r| ==> ',' !in r[k]
  {
    if s == [] then [[]]
    else
      var rest := Split(s[1..]);
      if s[0] == ',' then [[]] + rest else [[s[0]] + rest[0]] + rest[1..]
  }

  /** Joining the pieces of a split with "," gives back the string. */
  lemma {:induction false} JoinSplit(s: string)
    ensures Join(Split(s), ",") == s
  {
    if s != [] {
      var rest := Split(s[1..]);
      JoinSplit(s[1..]);
      if s[0] != ',' {
        var r := [[s[0]] + rest[0]] + rest[1..];
        assert r[1..] == rest[1..];
      }
      HeadTail(s);
    }
  }

  /** `[t.strip() for t in ps]`. */
  function StripAll(ps: seq<string>): (r: seq<string>)
    ensures |r| == |ps|
  {
    if ps == [] then [] else [Strip(ps[0])] + StripAll(ps[1..])
  }

  /** Each piece of `StripAll(ps)` is the stripped piece of `ps` at that position. */
  lemma {:induction false} StripAllAt(ps: seq<string>, k: nat)
    requires k < |ps|
    ensures StripAll(ps)[k] == Strip(ps[k])
  {
    assert StripAll(ps) == [Strip(ps[0])] + StripAll(ps[1..]);
    if k > 0 {
      StripAllAt(ps[1..], k - 1);
    }
  }

  /** A string without a comma splits into itself. */
  lemma {:induction false} SplitNoComma(s: string)
    requires ',' !in s
    ensures Split(s) == [s]
  {
    if s != [] {
      SplitNoComma(s[1..]);
      assert [s[0]] + s[1..] == s;
    }
  }

  /** Splitting at the first comma. */
  lemma {:induction false} SplitAtComma(w: string, t: string)
    requires ',' !in w
    ensures Split(w + "," + t) == [w] + Split(t)
  {
    if w == [] {
      assert (w + "," + t)[1..] == t;
    } else {
      assert (w + "," + t)[1..] == w[1..] + "," + t;
      SplitAtComma(w[1..], t);
      assert [w[0]] + w[1..] == w;
    }
  }

  /** Splitting after a leading non-comma character glues it to the first piece. */
  lemma SplitConsChar(c: char, s: string)
    requires c != ','
    ensures Split([c] + s) == [[c] + Split(s)[0]] + Split(s)[1..]
  {
    assert ([c] + s)[1..] == s;
  }

  lemma HeadTail<T>(s: seq<T>)
    requires |s| > 0
    ensures [s[0]] + s[1..] == s
  {
  }

  lemma JoinFront(ws: seq<string>, sep: string)
    requires |ws| >= 2
    ensures Join(ws, sep) == ws[0] + sep + Join(ws[1..], sep)
  {
  }

  lemma StripAllFront(p: string, ps: seq<string>)
    ensures StripAll([p] + ps) == [Strip(p)] + StripAll(ps)
  {
    assert ([p] + ps)[1..] == ps;
  }

  /** Whitespace in front of a split string only changes its first piece,
      and stripping the pieces removes it again. */
  lemma StripAllSplitSpace(j: string)
    ensures StripAll(Split(" " + j)) == StripAll(Split(j))
  {
    var p := Split(j);
    SplitConsChar(' ', j);
    StripSpaceInFront(' ', p[0]);
    assert StripAll([" " + p[0]] + p[1..])[1..] == StripAll(p[1..]);
    assert StripAll(p)[1..] == StripAll(p[1..]);
  }

  lemma CommaSpace(a: string, b: string)
    ensures a + ", " + b == a + "," + (" " + b)
  {
  }

  /** One word in front of a list whose round trip already holds. */
  lemma SplitStripJoinCons(w: string, rest: seq<string>)
    requires |rest| > 0 && ',' !in w && Strip(w) == w
    requires StripAll(Split(Join(rest, ", "))) == rest
    ensures StripAll(Split(Join([w] + rest, ", "))) == [w] + rest
  {
    var ws := [w] + rest;
    assert ws[0] == w && ws[1..] == rest;
    var j := Join(rest, ", ");
    var q := Split(" " + j);
    calc {
      StripAll(Split(Join(ws, ", ")));
      { JoinFront(ws, ", "); CommaSpace(w, j); }
      StripAll(Split(w + "," + (" " + j)));
      { SplitAtComma(w, " " + j); }
      StripAll([w] + q);
      { StripAllFront(w, q); }
      [Strip(w)] + StripAll(q);
      { StripAllSplitSpace(j); }
      [w] + rest;
    }
  }

  /**
   * Round trip of lines 125 and 169 of the reservation code: joining words that
   * hold no comma and no surrounding whitespace with ", ", then splitting at ","
   * and stripping every piece, gives back the words.
   */
  lemma {:induction false} SplitStripJoin(ws: seq<string>)
    requires |ws| > 0
    requires forall k :: 0 <= k < |ws| ==> ',' !in ws[k] && Strip(ws[k]) == ws[k]
    ensures StripAll(Split(Join(ws, ", "))) == ws
  {
    if |ws| == 1 {
      SplitNoComma(ws[0]);
      StripAllFront(ws[0], []);
      HeadTail(ws);
    } else {
      SplitStripJoin(ws[1..]);
      SplitStripJoinCons(ws[0], ws[1..]);
      HeadTail(ws);
    }
  }
}
