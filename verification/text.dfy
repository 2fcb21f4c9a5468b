/** Model of the toolkit's text cleanup: whitespace normalisation, hashtag
    extraction, and removal of hashtags and emoji. Strings are sequences
    of Unicode scalar values. Python's `\s` class is spelled out
    concretely; its `\w` class is too large to tabulate and is passed in
    as the predicate `word`. */
module Text {

  // ------------------------------------------------------------------
  // Whitespace
  // ------------------------------------------------------------------

  /** Python's whitespace: what `\s` matches in a str pattern and what
      `str.strip()` removes. Both use the same CPython test. */
  predicate IsSpace(c: char) {
    || ('\t' <= c <= '\r')
    || ('\U{1C}' <= c <= '\U{1F}')
    || c == ' '
    || c == '\U{85}' || c == '\U{A0}' || c == '\U{1680}'
    || ('\U{2000}' <= c <= '\U{200A}')
    || c == '\U{2028}' || c == '\U{2029}' || c == '\U{202F}'
    || c == '\U{205F}' || c == '\U{3000}'
  }

  /** The non-whitespace characters of `s`, in order. */
  function RemoveSpaces(s: string): string {
    if s == [] then []
    else (if IsSpace(s[0]) then [] else [s[0]]) + RemoveSpaces(s[1..])
  }

  lemma {:induction false} RemoveSpacesAppend(a: string, b: string)
    ensures RemoveSpaces(a + b) == RemoveSpaces(a) + RemoveSpaces(b)
    decreases |a|
  {
    if a != [] {
      assert (a + b)[1..] == a[1..] + b;
      RemoveSpacesAppend(a[1..], b);
    } else {
      assert a + b == b;
    }
  }

  /** `s.lstrip()`: `s` without its leading whitespace. */
  function TrimStart(s: string): (r: string)
    ensures |r| <= |s| && r == s[|s| - |r|..]
    ensures r == [] || !IsSpace(r[0])
    ensures |s| > 0 && IsSpace(s[0]) ==> |r| < |s|
    ensures RemoveSpaces(r) == RemoveSpaces(s)
    decreases |s|
  {
    if |s| > 0 && IsSpace(s[0]) then
      TrimStart(s[1..])
    else s
  }

  /** `s.rstrip()`: `s` without its trailing whitespace. */
  function TrimEnd(s: string): (r: string)
    ensures |r| <= |s| && r == s[..|r|]
    ensures r == [] || !IsSpace(r[|r| - 1])
    ensures RemoveSpaces(r) == RemoveSpaces(s)
    decreases |s|
  {
    if |s| > 0 && IsSpace(s[|s| - 1]) then
      RemoveSpacesAppend(s[..|s| - 1], [s[|s| - 1]]);
      assert s[..|s| - 1] + [s[|s| - 1]] == s;
      TrimEnd(s[..|s| - 1])
    else s
  }

  /** `r` occurs in `s` as the contiguous slice starting at `i`. */
  predicate SliceAt(s: string, i: int, r: string) {
    0 <= i <= |s| - |r| && r == s[i..i + |r|]
  }

  /** `s.strip()`: `s` without whitespace at either end. */
  function Strip(s: string): (r: string)
    ensures r == [] || (!IsSpace(r[0]) && !IsSpace(r[|r| - 1]))
    ensures RemoveSpaces(r) == RemoveSpaces(s)
    ensures s == [] || (!IsSpace(s[0]) && !IsSpace(s[|s| - 1])) ==> r == s
    ensures exists i :: SliceAt(s, i, r)
  {
    TrimsAreSlice(s);
    TrimEnd(TrimStart(s))
  }

  /** Trimming both ends leaves a slice of the original. */
  lemma TrimsAreSlice(s: string)
    ensures SliceAt(s, |s| - |TrimStart(s)|, TrimEnd(TrimStart(s)))
  {
    SliceOfSuffix(s, TrimStart(s), TrimEnd(TrimStart(s)));
  }

  /** A prefix of a suffix of `s` is a slice of `s`. */
  lemma SliceOfSuffix(s: string, t: string, r: string)
    requires |t| <= |s| && t == s[|s| - |t|..]
    requires |r| <= |t| && r == t[..|r|]
    ensures SliceAt(s, |s| - |t|, r)
  {
  }

  /** Whitespace in `t` is only ever a single `' '` between other
      characters. */
  predicate SingleSpaced(t: string) {
    && (forall k :: 0 <= k < |t| && IsSpace(t[k]) ==> t[k] == ' ')
    && (forall k :: 0 <= k < |t| - 1 ==> !(t[k] == ' ' && t[k + 1] == ' '))
  }

  lemma SingleSpacedSlice(t: string, i: int, j: int)
    requires 0 <= i <= j <= |t| && SingleSpaced(t)
    ensures SingleSpaced(t[i..j])
    ensures forall c :: c in t[i..j] ==> c in t
  {
    var u := t[i..j];
    forall k | 0 <= k < |u|
      ensures u[k] == t[i + k]
    {
    }
  }

  /** Putting a non-space, or a space before a non-space, in front of a
      single-spaced string keeps it single-spaced. */
  lemma SingleSpacedCons(c: char, t: string)
    requires SingleSpaced(t)
    requires !IsSpace(c) || (c == ' ' && (t == [] || t[0] != ' '))
    ensures SingleSpaced([c] + t)
  {
    var u := [c] + t;
    forall k | 1 <= k < |u|
      ensures u[k] == t[k - 1]
    {
    }
  }

  /** `re.sub(r'\s+', ' ', s)`: each maximal run of whitespace becomes a
      single space. */
  function Collapse(s: string): (r: string)
    ensures SingleSpaced(r)
    ensures |r| > 0 && r[0] == ' ' <==> |s| > 0 && IsSpace(s[0])
    ensures |r| == 0 <==> |s| == 0
    decreases |s|
  {
    if s == [] then []
    else if IsSpace(s[0]) then
      var rest := Collapse(TrimStart(s));
      SingleSpacedCons(' ', rest);
      [' '] + rest
    else
      var rest := Collapse(s[1..]);
      SingleSpacedCons(s[0], rest);
      [s[0]] + rest
  }

  /** Collapsing keeps the non-whitespace characters, in order. */
  lemma {:induction false} CollapseKeepsNonSpaces(s: string)
    ensures RemoveSpaces(Collapse(s)) == RemoveSpaces(s)
    decreases |s|
  {
    if s != [] {
      if IsSpace(s[0]) {
        var t := TrimStart(s);
        CollapseKeepsNonSpaces(t);
        var x := [' '] + Collapse(t);
        assert x[1..] == Collapse(t);
        assert RemoveSpaces(x) == RemoveSpaces(x[1..]);
      } else {
        CollapseKeepsNonSpaces(s[1..]);
        var x := [s[0]] + Collapse(s[1..]);
        assert x[1..] == Collapse(s[1..]);
        assert RemoveSpaces(x) == [s[0]] + RemoveSpaces(x[1..]);
        assert RemoveSpaces(s) == [s[0]] + RemoveSpaces(s[1..]);
      }
    }
  }

  /** Collapsing adds no character but `' '`. */
  lemma {:induction false} CollapseAddsOnlySpaces(s: string)
    ensures forall c :: c in Collapse(s) ==> c == ' ' || c in s
    decreases |s|
  {
    if s != [] {
      if IsSpace(s[0]) {
        var t := TrimStart(s);
        CollapseAddsOnlySpaces(t);
        assert forall c :: c in t ==> c in s;
        assert Collapse(s) == [' '] + Collapse(t);
      } else {
        CollapseAddsOnlySpaces(s[1..]);
        assert Collapse(s) == [s[0]] + Collapse(s[1..]);
      }
    }
  }

  /** A string in normal form: no whitespace at either end, `' '` is its
      only whitespace character, and no two spaces are adjacent. */
  predicate NormalForm(t: string) {
    && (t == [] || (!IsSpace(t[0]) && !IsSpace(t[|t| - 1])))
    && SingleSpaced(t)
  }

  /** `normalize_text`: collapse whitespace runs to one space, then trim. */
  function Normalize(s: string): (r: string)
    ensures NormalForm(r)
    ensures RemoveSpaces(r) == RemoveSpaces(s)
    ensures forall c :: c in r ==> c == ' ' || c in s
  {
    CollapseKeepsNonSpaces(s);
    CollapseAddsOnlySpaces(s);
    StripSingleSpaced(Collapse(s));
    Strip(Collapse(s))
  }

  /** Stripping a single-spaced string leaves it in normal form, and uses
      only its characters. */
  lemma StripSingleSpaced(c: string)
    requires SingleSpaced(c)
    ensures NormalForm(Strip(c))
    ensures forall x :: x in Strip(c) ==> x in c
  {
    var t := TrimStart(c);
    SingleSpacedSlice(c, |c| - |t|, |c|);
    var r := TrimEnd(t);
    SingleSpacedSlice(t, 0, |r|);
  }

  /** Collapsing leaves alone a string whose only whitespace is isolated
      single spaces. */
  lemma {:induction false} CollapseFixesSingleSpaces(t: string)
    requires SingleSpaced(t)
    ensures Collapse(t) == t
    decreases |t|
  {
    if t != [] {
      SingleSpacedSlice(t, 1, |t|);
      CollapseFixesSingleSpaces(t[1..]);
      if IsSpace(t[0]) {
        assert t[0] == ' ';
        if |t| > 1 {
          assert !IsSpace(t[1]);
        }
        assert TrimStart(t[1..]) == t[1..];
        assert TrimStart(t) == t[1..];
        assert t == [' '] + t[1..];
      } else {
        assert t == [t[0]] + t[1..];
      }
    }
  }

  /** `normalize_text` changes a string exactly when it is not already in
      normal form. */
  lemma NormalizeFixedPoint(t: string)
    ensures Normalize(t) == t <==> NormalForm(t)
  {
    if NormalForm(t) {
      CollapseFixesSingleSpaces(t);
    }
  }

  /** `normalize_text` is idempotent. */
  lemma NormalizeIdempotent(s: string)
    ensures Normalize(Normalize(s)) == Normalize(s)
  {
    NormalizeFixedPoint(Normalize(s));
  }

  // ------------------------------------------------------------------
  // Words
  // ------------------------------------------------------------------

  /** A word: a non-empty run of non-whitespace characters. */
  predicate IsWord(w: string) {
    w != [] && forall k :: 0 <= k < |w| ==> !IsSpace(w[k])
  }

  /** The length of the run of non-whitespace characters `s` starts with. */
  function WordEnd(s: string): (n: nat)
    ensures n <= |s|
    ensures forall k :: 0 <= k < n ==> !IsSpace(s[k])
    ensures n == |s| || IsSpace(s[n])
    decreases |s|
  {
    if s == [] || IsSpace(s[0]) then 0
    else
      var n := WordEnd(s[1..]);
      assert forall k :: 1 <= k < n + 1 ==> s[k] == s[1..][k - 1];
      1 + n
  }

  /** `s.split()`: the maximal runs of non-whitespace characters of `s`,
      in order. */
  function Words(s: string): (r: seq<string>)
    ensures forall k :: 0 <= k < |r| ==> IsWord(r[k])
    decreases |s|
  {
    if s == [] then []
    else if IsSpace(s[0]) then Words(s[1..])
    else
      var n := WordEnd(s);
      var rest := Words(s[n..]);
      assert forall k :: 1 <= k < 1 + |rest| ==> ([s[..n]] + rest)[k] == rest[k - 1];
      [s[..n]] + rest
  }

  /** `" ".join(ws)`. */
  function JoinWords(ws: seq<string>): string {
    if ws == [] then []
    else if |ws| == 1 then ws[0]
    else ws[0] + " " + JoinWords(ws[1..])
  }

  /** Joined words are empty exactly when there are none, and otherwise
      begin and end with a non-whitespace character. */
  lemma {:induction false} JoinedWordsEnds(ws: seq<string>)
    requires forall k :: 0 <= k < |ws| ==> IsWord(ws[k])
    ensures JoinWords(ws) == [] <==> ws == []
    ensures ws != [] ==> !IsSpace(JoinWords(ws)[0]) && !IsSpace(JoinWords(ws)[|JoinWords(ws)| - 1])
    decreases |ws|
  {
    if |ws| > 1 {
      assert IsWord(ws[0]);
      assert forall k :: 0 <= k < |ws| - 1 ==> ws[1..][k] == ws[k + 1];
      JoinedWordsEnds(ws[1..]);
      var j := JoinWords(ws[1..]);
      assert JoinWords(ws) == ws[0] + " " + j;
      assert JoinWords(ws)[0] == ws[0][0];
      assert JoinWords(ws)[|JoinWords(ws)| - 1] == j[|j| - 1];
    } else if |ws| == 1 {
      assert IsWord(ws[0]);
    }
  }

  /** Collapsing passes a run of non-whitespace characters through. */
  lemma {:induction false} CollapseWord(w: string, t: string)
    requires forall k :: 0 <= k < |w| ==> !IsSpace(w[k])
    ensures Collapse(w + t) == w + Collapse(t)
    decreases |w|
  {
    if w == [] {
      assert w + t == t;
    } else {
      var w' := w[1..];
      assert forall k :: 0 <= k < |w'| ==> w'[k] == w[k + 1];
      CollapseWord(w', t);
      CollapseWordStep(w, t);
      Regroup(Collapse(w + t), [w[0]], Collapse(w' + t), w', Collapse(t), w);
    }
  }

  /** One non-whitespace character is copied. */
  lemma CollapseWordStep(w: string, t: string)
    requires w != [] && !IsSpace(w[0])
    ensures Collapse(w + t) == [w[0]] + Collapse(w[1..] + t)
  {
    var x := w + t;
    assert x[0] == w[0];
    assert x[1..] == w[1..] + t;
  }

  lemma Regroup(c: string, a: string, c1: string, b: string, ct: string, w: string)
    requires c == a + c1 && c1 == b + ct && w == a + b
    ensures c == w + ct
  {
  }

  /** Leading whitespace does not change the words. */
  lemma {:induction false} WordsSkipSpaces(s: string)
    ensures Words(s) == Words(TrimStart(s))
    decreases |s|
  {
    if s != [] && IsSpace(s[0]) {
      WordsSkipSpaces(s[1..]);
    }
  }

  /** A string that starts with a non-whitespace character has a word. */
  lemma WordsOfNonSpaceStart(u: string)
    requires u != [] && !IsSpace(u[0])
    ensures Words(u) != []
  {
  }

  /** ' ' when `b`, otherwise nothing. */
  function SpaceIf(b: bool): string {
    if b then " " else []
  }

  /** A string that does not start with whitespace collapses to its words,
      each pair separated by one space, and one more space when it ends
      with whitespace. */
  lemma {:induction false} CollapseFromWord(u: string)
    requires u == [] || !IsSpace(u[0])
    ensures Collapse(u) == JoinWords(Words(u)) + SpaceIf(u != [] && IsSpace(u[|u| - 1]))
    decreases |u|
  {
    if u == [] {
      assert Collapse(u) == [] && Words(u) == [];
      assert SpaceIf(false) == [];
    } else {
      var n := WordEnd(u);
      var w := u[..n];
      var rest := u[n..];
      SplitFirstWord(u);
      if rest == [] || TrimStart(rest) == [] {
        OneWord(u, w, rest);
      } else {
        var v := TrimStart(rest);
        AfterSpaces(rest);
        SameLast(u, w, rest);
        JoinCons(w, Words(v));
        CollapseFromWord(v);
        Assemble(Collapse(u), w, Collapse(rest), JoinWords(Words(u)),
                 SpaceIf(u != [] && IsSpace(u[|u| - 1])), JoinWords(Words(v)));
      }
    }
  }

  /** A string that starts with a word `w` collapses to `w` and then the
      collapsed rest, and its words are `w` and then the rest's words. */
  lemma SplitFirstWord(u: string)
    requires u != [] && !IsSpace(u[0])
    ensures u == u[..WordEnd(u)] + u[WordEnd(u)..]
    ensures u[..WordEnd(u)] != []
    ensures forall k :: 0 <= k < WordEnd(u) ==> !IsSpace(u[..WordEnd(u)][k])
    ensures u[WordEnd(u)..] == [] || IsSpace(u[WordEnd(u)..][0])
    ensures Collapse(u) == u[..WordEnd(u)] + Collapse(u[WordEnd(u)..])
    ensures Words(u) == [u[..WordEnd(u)]] + Words(u[WordEnd(u)..])
  {
    var n := WordEnd(u);
    assert u == u[..n] + u[n..];
    CollapseWord(u[..n], u[n..]);
    WordsFirst(u);
  }

  /** A whitespace run followed by more text: the run collapses to one
      space and contributes no word. */
  lemma AfterSpaces(rest: string)
    requires rest != [] && IsSpace(rest[0]) && TrimStart(rest) != []
    ensures Collapse(rest) == [' '] + Collapse(TrimStart(rest))
    ensures Words(rest) == Words(TrimStart(rest))
    ensures !IsSpace(TrimStart(rest)[0])
    ensures Words(TrimStart(rest)) != []
  {
    CollapseSpaceRun(rest);
    WordsSkipSpaces(rest);
    WordsOfNonSpaceStart(TrimStart(rest));
  }

  /** `u` and the whitespace-trimmed end of it end alike. */
  lemma SameLast(u: string, w: string, rest: string)
    requires u == w + rest && TrimStart(rest) != []
    ensures var v := TrimStart(rest);
            SpaceIf(u != [] && IsSpace(u[|u| - 1])) == SpaceIf(v != [] && IsSpace(v[|v| - 1]))
  {
    var v := TrimStart(rest);
    assert v == rest[|rest| - |v|..];
    assert u[|u| - 1] == v[|v| - 1];
  }

  /** `u` is a single word `w`, possibly followed by whitespace. */
  lemma OneWord(u: string, w: string, rest: string)
    requires u == w + rest && w != []
    requires forall k :: 0 <= k < |w| ==> !IsSpace(w[k])
    requires rest == [] || (IsSpace(rest[0]) && TrimStart(rest) == [])
    requires Collapse(u) == w + Collapse(rest)
    requires Words(u) == [w] + Words(rest)
    ensures Collapse(u) == JoinWords(Words(u)) + SpaceIf(u != [] && IsSpace(u[|u| - 1]))
  {
    var t := SpaceIf(u != [] && IsSpace(u[|u| - 1]));
    JoinOne(w);
    if rest == [] {
      assert u[|u| - 1] == w[|w| - 1];
      assert Words(rest) == [] && Collapse(rest) == [];
      Assemble(Collapse(u), w, Collapse(rest), JoinWords(Words(u)), t, []);
    } else {
      CollapseSpaceRun(rest);
      WordsSkipSpaces(rest);
      SpaceRunEnd(rest);
      assert u[|u| - 1] == rest[|rest| - 1];
      assert Words(TrimStart(rest)) == [] && Collapse(TrimStart(rest)) == [];
      Assemble(Collapse(u), w, Collapse(rest), JoinWords(Words(u)), t, []);
    }
  }

  /** A string that is all whitespace ends with whitespace. */
  lemma {:induction false} SpaceRunEnd(s: string)
    requires s != [] && TrimStart(s) == []
    ensures IsSpace(s[|s| - 1])
    decreases |s|
  {
    if |s| > 1 {
      SpaceRunEnd(s[1..]);
    }
  }

  lemma WordsFirst(u: string)
    requires u != [] && !IsSpace(u[0])
    ensures Words(u) == [u[..WordEnd(u)]] + Words(u[WordEnd(u)..])
  {
  }

  /** A leading whitespace run collapses to one space. */
  lemma CollapseSpaceRun(s: string)
    requires s != [] && IsSpace(s[0])
    ensures Collapse(s) == [' '] + Collapse(TrimStart(s))
  {
  }

  lemma JoinOne(w: string)
    ensures JoinWords([w]) == w
  {
  }

  lemma JoinCons(w: string, ws: seq<string>)
    requires ws != []
    ensures JoinWords([w] + ws) == w + " " + JoinWords(ws)
  {
    assert ([w] + ws)[1..] == ws;
  }

  /** The three shapes of a collapsed string after its first word. */
  lemma Assemble(cu: string, w: string, cr: string, j: string, t: string, jr: string)
    requires cu == w + cr
    requires || (cr == [' '] + [] && j == w && t == " ")
             || (cr == [] && j == w && t == [])
             || (cr == [' '] + (jr + t) && j == w + " " + jr)
    ensures cu == j + t
  {
  }

  /** `re.sub(r'\s+', ' ', s)` is `s`'s words joined by single spaces,
      with one space in place of leading whitespace and one in place of
      trailing whitespace. */
  lemma CollapseIsWords(s: string)
    ensures Collapse(s) == SpaceIf(s != [] && IsSpace(s[0])) + JoinWords(Words(s))
                           + SpaceIf(Words(s) != [] && IsSpace(s[|s| - 1]))
  {
    var u := TrimStart(s);
    LeadingRun(s);
    TrailingRun(s);
    WordsSkipSpaces(s);
    CollapseFromWord(u);
    Concat3(Collapse(s), SpaceIf(s != [] && IsSpace(s[0])), Collapse(u), JoinWords(Words(s)),
            SpaceIf(u != [] && IsSpace(u[|u| - 1])), SpaceIf(Words(s) != [] && IsSpace(s[|s| - 1])));
  }

  /** Leading whitespace collapses to one space in front of the rest. */
  lemma LeadingRun(s: string)
    ensures Collapse(s) == SpaceIf(s != [] && IsSpace(s[0])) + Collapse(TrimStart(s))
  {
    if s != [] && IsSpace(s[0]) {
      CollapseSpaceRun(s);
    } else {
      assert TrimStart(s) == s;
      assert SpaceIf(false) == [];
    }
  }

  /** `s` and its whitespace-trimmed end end alike, and that end is
      empty exactly when `s` has no words. */
  lemma TrailingRun(s: string)
    ensures var u := TrimStart(s);
            SpaceIf(u != [] && IsSpace(u[|u| - 1])) == SpaceIf(Words(s) != [] && IsSpace(s[|s| - 1]))
  {
    var u := TrimStart(s);
    WordsSkipSpaces(s);
    if u != [] {
      WordsOfNonSpaceStart(u);
      assert u == s[|s| - |u|..];
      assert u[|u| - 1] == s[|s| - 1];
    } else {
      assert Words(u) == [];
    }
  }

  lemma Concat3(cs: string, l: string, cu: string, j: string, t': string, t: string)
    requires cs == l + cu && cu == j + t' && t' == t
    ensures cs == l + j + t
  {
  }

  /** Stripping removes a single space of padding on either side of a
      string without whitespace at its ends. */
  lemma StripPadded(lead: string, j: string, trail: string)
    requires lead == [] || lead == " "
    requires trail == [] || trail == " "
    requires j == [] ==> trail == []
    requires j != [] ==> !IsSpace(j[0]) && !IsSpace(j[|j| - 1])
    ensures Strip(lead + j + trail) == j
  {
    assert lead + j + trail == lead + (j + trail);
    TrimLead(lead, j + trail);
    TrimTrail(j, trail);
  }

  lemma TrimLead(lead: string, y: string)
    requires lead == [] || lead == " "
    requires y == [] || !IsSpace(y[0])
    ensures TrimStart(lead + y) == y
  {
    if lead == " " {
      assert (lead + y)[1..] == y;
    } else {
      assert lead + y == y;
    }
  }

  lemma TrimTrail(j: string, trail: string)
    requires trail == [] || trail == " "
    requires j == [] ==> trail == []
    requires j != [] ==> !IsSpace(j[|j| - 1])
    ensures TrimEnd(j + trail) == j
  {
    var y := j + trail;
    if trail == " " {
      assert y[..|y| - 1] == j;
    } else {
      assert y == j;
    }
  }

  /** `normalize_text(s)` is `" ".join(s.split())`: the words of `s`, in
      order, separated by exactly one space. */
  lemma NormalizeJoinsWords(s: string)
    ensures Normalize(s) == JoinWords(Words(s))
  {
    CollapseIsWords(s);
    JoinedWordsEnds(Words(s));
    StripPadded(SpaceIf(s != [] && IsSpace(s[0])), JoinWords(Words(s)),
                SpaceIf(Words(s) != [] && IsSpace(s[|s| - 1])));
  }

  // ------------------------------------------------------------------
  // Hashtags
  // ------------------------------------------------------------------

  /** The CJK Unified Ideographs block named in the pattern. */
  predicate IsCjk(c: char) {
    '\U{4E00}' <= c <= '\U{9FFF}'
  }

  predicate IsAsciiAlnum(c: char) {
    ('a' <= c <= 'z') || ('A' <= c <= 'Z') || ('0' <= c <= '9')
  }

  /** The first character of a tag: `[a-zA-Z一-鿿0-9]`. */
  predicate IsTagStart(c: char) {
    IsAsciiAlnum(c) || IsCjk(c)
  }

  /** A later character of a tag: `[\w一-鿿\+\-]`, where `word`
      stands for `\w`. */
  predicate IsTagChar(word: char -> bool, c: char) {
    word(c) || IsCjk(c) || c == '+' || c == '-'
  }

  /** A tag as the pattern's group captures it. */
  predicate IsTag(word: char -> bool, t: string) {
    && |t| >= 1
    && IsTagStart(t[0])
    && forall k :: 1 <= k < |t| ==> IsTagChar(word, t[k])
  }

  /** The pattern can begin matching at `j`: a `#` and then a start
      character. */
  predicate MatchesAt(s: string, j: int) {
    0 <= j < |s| - 1 && s[j] == '#' && IsTagStart(s[j + 1])
  }

  /** One match: the tag text is `s[start..end]` and its `#` sits at
      `start - 1`. */
  datatype Span = Span(start: nat, end: nat)

  /** `sp` is a complete, greedy match in `s`. */
  predicate TagAt(word: char -> bool, s: string, sp: Span) {
    && 1 <= sp.start < sp.end <= |s|
    && MatchesAt(s, sp.start - 1)
    && (forall k :: sp.start < k < sp.end ==> IsTagChar(word, s[k]))
    && (sp.end == |s| || !IsTagChar(word, s[sp.end]))
  }

  /** The end of the run of tag characters beginning at `j`. */
  function RunEnd(word: char -> bool, s: string, j: nat): (e: nat)
    requires j <= |s|
    ensures j <= e <= |s|
    ensures forall k :: j <= k < e ==> IsTagChar(word, s[k])
    ensures e == |s| || !IsTagChar(word, s[e])
    decreases |s| - j
  {
    if j < |s| && IsTagChar(word, s[j]) then RunEnd(word, s, j + 1) else j
  }

  /** The matches `re.findall` reports when scanning `s` from `i`:
      leftmost first, each as long as possible, none overlapping. */
  function SpansFrom(word: char -> bool, s: string, i: nat): seq<Span>
    requires i <= |s|
    decreases |s| - i
  {
    if i + 1 >= |s| then []
    else if MatchesAt(s, i) then
      var e := RunEnd(word, s, i + 2);
      [Span(i + 1, e)] + SpansFrom(word, s, e)
    else SpansFrom(word, s, i + 1)
  }

  /** Complete, greedy matches, all starting after `i`, each ending
      before the next begins. */
  predicate OrderedMatches(word: char -> bool, s: string, r: seq<Span>, i: int) {
    && (forall k :: 0 <= k < |r| ==> TagAt(word, s, r[k]) && i < r[k].start)
    && (forall k :: 0 <= k < |r| - 1 ==> r[k].end < r[k + 1].start)
  }

  /** Each reported match is complete and greedy, starts after `i`, and
      ends before the next one begins. */
  lemma {:induction false} SpansFromAreMatches(word: char -> bool, s: string, i: nat)
    requires i <= |s|
    ensures OrderedMatches(word, s, SpansFrom(word, s, i), i)
    decreases |s| - i
  {
    SpansStep(word, s, i);
    if i + 1 < |s| {
      if MatchesAt(s, i) {
        var e := RunEnd(word, s, i + 2);
        SpansFromAreMatches(word, s, e);
        MatchIsComplete(word, s, i);
        OrderedCons(word, s, i, Span(i + 1, e), SpansFrom(word, s, e));
      } else {
        SpansFromAreMatches(word, s, i + 1);
        OrderedFromLater(word, s, SpansFrom(word, s, i + 1), i);
      }
    }
  }

  /** Where the pattern can begin, the scan takes the longest run of tag
      characters. */
  lemma MatchIsComplete(word: char -> bool, s: string, i: nat)
    requires MatchesAt(s, i)
    ensures TagAt(word, s, Span(i + 1, RunEnd(word, s, i + 2)))
  {
  }

  lemma OrderedCons(word: char -> bool, s: string, i: int, sp: Span, rest: seq<Span>)
    requires TagAt(word, s, sp) && i < sp.start
    requires OrderedMatches(word, s, rest, sp.end)
    ensures OrderedMatches(word, s, [sp] + rest, i)
  {
    var r := [sp] + rest;
    forall k | 1 <= k < |r|
      ensures TagAt(word, s, r[k]) && i < r[k].start
    {
      assert r[k] == rest[k - 1];
    }
    forall k | 0 <= k < |r| - 1
      ensures r[k].end < r[k + 1].start
    {
      assert r[k + 1] == rest[k];
      if k > 0 {
        assert r[k] == rest[k - 1];
      }
    }
  }

  lemma OrderedFromLater(word: char -> bool, s: string, r: seq<Span>, i: int)
    requires OrderedMatches(word, s, r, i + 1)
    ensures OrderedMatches(word, s, r, i)
  {
  }

  /** Complete matches mark slices of `s`. */
  lemma SpansWithinText(word: char -> bool, s: string, i: nat)
    requires i <= |s|
    ensures WithinText(s, SpansFrom(word, s, i))
  {
    SpansFromAreMatches(word, s, i);
  }

  /** Every place the pattern could begin at or after `i` lies inside a
      reported match: the scan misses nothing. */
  lemma {:induction false} SpansCoverEveryMatch(word: char -> bool, s: string, i: nat, j: int)
    requires i <= j && MatchesAt(s, j)
    ensures exists k :: 0 <= k < |SpansFrom(word, s, i)| &&
                        SpansFrom(word, s, i)[k].start - 1 <= j < SpansFrom(word, s, i)[k].end
    decreases |s| - i
  {
    var r := SpansFrom(word, s, i);
    if MatchesAt(s, i) {
      var e := RunEnd(word, s, i + 2);
      assert r == [Span(i + 1, e)] + SpansFrom(word, s, e);
      if j >= e {
        SpansCoverEveryMatch(word, s, e, j);
        var k :| 0 <= k < |SpansFrom(word, s, e)| &&
                 SpansFrom(word, s, e)[k].start - 1 <= j < SpansFrom(word, s, e)[k].end;
        assert r[k + 1] == SpansFrom(word, s, e)[k];
      } else {
        assert r[0].start - 1 <= j < r[0].end;
      }
    } else {
      SpansCoverEveryMatch(word, s, i + 1, j);
    }
  }

  /** Every span marks a slice of `s`. */
  predicate WithinText(s: string, spans: seq<Span>) {
    forall k :: 0 <= k < |spans| ==> spans[k].start <= spans[k].end <= |s|
  }

  /** The texts of a list of spans. */
  function TextsOf(s: string, spans: seq<Span>): (r: seq<string>)
    requires WithinText(s, spans)
    ensures |r| == |spans|
  {
    if spans == [] then []
    else [s[spans[0].start..spans[0].end]] + TextsOf(s, spans[1..])
  }

  /** The `k`-th text is the slice the `k`-th span marks. */
  lemma {:induction false} TextsOfIndex(s: string, spans: seq<Span>, k: nat)
    requires WithinText(s, spans) && k < |spans|
    ensures TextsOf(s, spans)[k] == s[spans[k].start..spans[k].end]
    decreases k
  {
    if k > 0 {
      TextsOfIndex(s, spans[1..], k - 1);
    }
  }

  lemma TextsOfCons(s: string, sp: Span, rest: seq<Span>)
    requires sp.start <= sp.end <= |s|
    requires WithinText(s, rest)
    ensures TextsOf(s, [sp] + rest) == [s[sp.start..sp.end]] + TextsOf(s, rest)
  {
    assert ([sp] + rest)[1..] == rest;
  }

  /** `re.findall` of the hashtag pattern: the captured tag texts. */
  function Tags(word: char -> bool, s: string): seq<string> {
    TagsFrom(word, s, 0)
  }

  /** The tag texts `re.findall` reports when scanning `s` from `i`. */
  function TagsFrom(word: char -> bool, s: string, i: nat): seq<string>
    requires i <= |s|
    decreases |s| - i
  {
    if i + 1 >= |s| then []
    else if MatchesAt(s, i) then
      var e := RunEnd(word, s, i + 2);
      [s[i + 1..e]] + TagsFrom(word, s, e)
    else TagsFrom(word, s, i + 1)
  }

  /** The reported texts are exactly the texts of the matches the scan
      finds. */
  lemma {:induction false} TagsFromAreMatchTexts(word: char -> bool, s: string, i: nat)
    requires i <= |s|
    ensures WithinText(s, SpansFrom(word, s, i))
    ensures TagsFrom(word, s, i) == TextsOf(s, SpansFrom(word, s, i))
    decreases |s| - i
  {
    SpansStep(word, s, i);
    SpansWithinText(word, s, i);
    if i + 1 < |s| {
      if MatchesAt(s, i) {
        var e := RunEnd(word, s, i + 2);
        TagsFromAreMatchTexts(word, s, e);
        TextsOfCons(s, Span(i + 1, e), SpansFrom(word, s, e));
      } else {
        TagsFromAreMatchTexts(word, s, i + 1);
      }
    }
  }

  /** One step of the scan. */
  lemma SpansStep(word: char -> bool, s: string, i: nat)
    requires i <= |s|
    ensures i + 1 >= |s| ==> SpansFrom(word, s, i) == []
    ensures i + 1 < |s| && MatchesAt(s, i) ==>
              SpansFrom(word, s, i) == [Span(i + 1, RunEnd(word, s, i + 2))] + SpansFrom(word, s, RunEnd(word, s, i + 2))
    ensures i + 1 < |s| && !MatchesAt(s, i) ==> SpansFrom(word, s, i) == SpansFrom(word, s, i + 1)
  {
  }

  /** `t` stands in `s` right after the `#` at `j`, as a maximal run of
      tag characters. */
  predicate TagSitsAt(word: char -> bool, s: string, t: string, j: int) {
    && 0 <= j && j + 1 + |t| <= |s| && s[j] == '#' && s[j + 1..j + 1 + |t|] == t
    && (j + 1 + |t| == |s| || !IsTagChar(word, s[j + 1 + |t|]))
  }

  /** Every extracted tag has the pattern's shape and sits in `s` right
      after a `#`, as a maximal run of tag characters. */
  lemma TagsWellFormed(word: char -> bool, s: string, t: string)
    requires t in Tags(word, s)
    ensures IsTag(word, t)
    ensures exists j :: TagSitsAt(word, s, t, j)
  {
    TagsFromAreMatchTexts(word, s, 0);
    SpansFromAreMatches(word, s, 0);
    var sp := SpansFrom(word, s, 0);
    var texts := TextsOf(s, sp);
    var k :| 0 <= k < |texts| && texts[k] == t;
    TextsOfIndex(s, sp, k);
    TagOfSpan(word, s, sp[k]);
  }

  /** The text of one complete match is a tag, right after the match's `#`. */
  lemma TagOfSpan(word: char -> bool, s: string, sp: Span)
    requires TagAt(word, s, sp)
    ensures IsTag(word, s[sp.start..sp.end])
    ensures TagSitsAt(word, s, s[sp.start..sp.end], sp.start - 1)
  {
    var t := s[sp.start..sp.end];
    assert t[0] == s[sp.start];
    forall m | 1 <= m < |t|
      ensures IsTagChar(word, t[m])
    {
      assert t[m] == s[sp.start + m];
    }
    assert sp.start + |t| == sp.end;
  }

  /** `extract_hashtag`. With de-duplication the source returns
      `list(set(tags))`, whose order Python leaves unspecified; the model
      keeps first occurrences, and promises only what the source does. */
  function ExtractHashtag(word: char -> bool, s: string, removeDuplicates: bool): (r: seq<string>)
    ensures !removeDuplicates ==> r == Tags(word, s)
    ensures removeDuplicates ==> NoDuplicates(r) && (forall t :: t in r <==> t in Tags(word, s))
  {
    if removeDuplicates then Dedupe(Tags(word, s)) else Tags(word, s)
  }

  predicate NoDuplicates(xs: seq<string>) {
    forall a, b :: 0 <= a < b < |xs| ==> xs[a] != xs[b]
  }

  /** The first occurrence of each element of `xs`, in order. */
  function Dedupe(xs: seq<string>): (r: seq<string>)
    ensures NoDuplicates(r)
    ensures forall x :: x in r <==> x in xs
    decreases |xs|
  {
    if xs == [] then []
    else
      var rest := Dedupe(xs[1..]);
      if xs[0] in rest then
        assert forall x :: x in xs <==> x == xs[0] || x in xs[1..];
        rest
      else [xs[0]] + rest
  }

  /** The hashtag scanner the way `re.findall` runs it, as a loop. */
  method FindAllTags(word: char -> bool, s: string) returns (tags: seq<string>)
    ensures tags == Tags(word, s)
  {
    tags := [];
    var i: nat := 0;
    while i + 1 < |s|
      invariant i <= |s|
      invariant tags + TagsFrom(word, s, i) == Tags(word, s)
      decreases |s| - i
    {
      if s[i] == '#' && IsTagStart(s[i + 1]) {
        var e := ScanRun(word, s, i + 2);
        assert tags + TagsFrom(word, s, i) == (tags + [s[i + 1..e]]) + TagsFrom(word, s, e);
        tags := tags + [s[i + 1..e]];
        i := e;
      } else {
        i := i + 1;
      }
    }
    assert tags + [] == tags;
  }

  /** The loop that finds where a run of tag characters ends. */
  method ScanRun(word: char -> bool, s: string, j: nat) returns (e: nat)
    requires j <= |s|
    ensures e == RunEnd(word, s, j)
  {
    e := j;
    while e < |s| && IsTagChar(word, s[e])
      invariant j <= e <= |s|
      invariant RunEnd(word, s, e) == RunEnd(word, s, j)
      decreases |s| - e
    {
      e := e + 1;
    }
  }

  /** `re.sub` of the hashtag pattern by `''`, scanning from `i`: the
      text between the matches that `SpansFrom` reports. */
  function RemoveTagsFrom(word: char -> bool, s: string, i: nat): (r: string)
    requires i <= |s|
    ensures forall c :: c in r ==> c in s
    decreases |s| - i
  {
    if i >= |s| then []
    else if MatchesAt(s, i) then RemoveTagsFrom(word, s, RunEnd(word, s, i + 2))
    else [s[i]] + RemoveTagsFrom(word, s, i + 1)
  }

  function RemoveHashtags(word: char -> bool, s: string): string {
    RemoveTagsFrom(word, s, 0)
  }

  /** Characters consumed by a list of matches, each `#` included. */
  function MatchedLength(spans: seq<Span>): int {
    if spans == [] then 0
    else spans[0].end - spans[0].start + 1 + MatchedLength(spans[1..])
  }

  /** Removal deletes exactly the characters of the matches that
      extraction reports, and nothing else. */
  lemma {:induction false} RemoveTagsFromLength(word: char -> bool, s: string, i: nat)
    requires i <= |s|
    ensures |RemoveTagsFrom(word, s, i)| + MatchedLength(SpansFrom(word, s, i)) == |s| - i
    decreases |s| - i
  {
    if i < |s| {
      if MatchesAt(s, i) {
        var e := RunEnd(word, s, i + 2);
        RemoveTagsFromLength(word, s, e);
        var rest := SpansFrom(word, s, e);
        var sp := Span(i + 1, e);
        assert SpansFrom(word, s, i) == [sp] + rest;
        assert ([sp] + rest)[1..] == rest;
        assert MatchedLength([sp] + rest) == e - i + MatchedLength(rest);
        assert RemoveTagsFrom(word, s, i) == RemoveTagsFrom(word, s, e);
      } else {
        RemoveTagsFromLength(word, s, i + 1);
      }
    }
  }

  lemma RemoveHashtagsLength(word: char -> bool, s: string)
    ensures |RemoveHashtags(word, s)| + MatchedLength(SpansFrom(word, s, 0)) == |s|
  {
    RemoveTagsFromLength(word, s, 0);
  }

  /** Text without a `#` passes through hashtag removal unchanged. */
  lemma {:induction false} RemoveTagsFromNoHash(word: char -> bool, s: string, i: nat)
    requires i <= |s|
    requires forall k :: i <= k < |s| ==> s[k] != '#'
    ensures RemoveTagsFrom(word, s, i) == s[i..]
    decreases |s| - i
  {
    if i < |s| {
      RemoveTagsFromNoHash(word, s, i + 1);
      assert s[i..] == [s[i]] + s[i + 1..];
    }
  }

  /** The spans are ordered after `from`, each one's `#` at or after the
      previous span's end, and all lie in `s`. */
  predicate Gapped(s: string, from: nat, spans: seq<Span>)
    decreases |spans|
  {
    && from <= |s|
    && (spans != [] ==>
          && from < spans[0].start <= spans[0].end <= |s|
          && Gapped(s, spans[0].end, spans[1..]))
  }

  /** The text of `s` from `from` on that lies outside every span and
      its `#`: the gaps between matches, concatenated. */
  function Gaps(s: string, from: nat, spans: seq<Span>): string
    requires Gapped(s, from, spans)
    decreases |spans|
  {
    if spans == [] then s[from..]
    else s[from..spans[0].start - 1] + Gaps(s, spans[0].end, spans[1..])
  }

  /** Removal from `i` keeps exactly the gaps between the matches that
      the scan from `i` reports. */
  lemma {:induction false} RemoveTagsKeepsGaps(word: char -> bool, s: string, i: nat)
    requires i <= |s|
    ensures Gapped(s, i, SpansFrom(word, s, i))
    ensures RemoveTagsFrom(word, s, i) == Gaps(s, i, SpansFrom(word, s, i))
    decreases |s| - i
  {
    if i < |s| {
      if MatchesAt(s, i) {
        var e := RunEnd(word, s, i + 2);
        SpansStep(word, s, i);
        RemoveTagsKeepsGaps(word, s, e);
        var sp := [Span(i + 1, e)] + SpansFrom(word, s, e);
        assert sp[1..] == SpansFrom(word, s, e);
        assert s[i..i] == [];
        assert Gaps(s, i, sp) == [] + Gaps(s, e, SpansFrom(word, s, e));
      } else {
        SpansStep(word, s, i);
        assert SpansFrom(word, s, i) == SpansFrom(word, s, i + 1);
        RemoveTagsKeepsGaps(word, s, i + 1);
        GapsShift(s, i, SpansFrom(word, s, i + 1));
      }
    }
  }

  /** Starting one character earlier adds that character to the first gap. */
  lemma GapsShift(s: string, i: nat, spans: seq<Span>)
    requires i < |s| && Gapped(s, i + 1, spans)
    ensures Gapped(s, i, spans)
    ensures Gaps(s, i, spans) == [s[i]] + Gaps(s, i + 1, spans)
  {
    if spans == [] {
      assert s[i..] == [s[i]] + s[i + 1..];
    } else {
      var a := spans[0].start - 1;
      var g := Gaps(s, spans[0].end, spans[1..]);
      assert Gaps(s, i, spans) == s[i..a] + g;
      assert Gaps(s, i + 1, spans) == s[i + 1..a] + g;
      assert s[i..a] == [s[i]] + s[i + 1..a];
    }
  }

  /** `re.sub` of the hashtag pattern keeps what lies between the matches
      `re.findall` reports, in order, and nothing else. */
  lemma RemoveHashtagsKeepsGaps(word: char -> bool, s: string)
    ensures Gapped(s, 0, SpansFrom(word, s, 0))
    ensures RemoveHashtags(word, s) == Gaps(s, 0, SpansFrom(word, s, 0))
  {
    RemoveTagsKeepsGaps(word, s, 0);
  }

  // ------------------------------------------------------------------
  // Emoji
  // ------------------------------------------------------------------

  /** The emoji character class of `remove_emoji_and_hashtag`. */
  predicate IsEmoji(c: char) {
    || ('\U{1F600}' <= c <= '\U{1F64F}')
    || ('\U{1F300}' <= c <= '\U{1F5FF}')
    || ('\U{1F680}' <= c <= '\U{1F6FF}')
    || ('\U{1F700}' <= c <= '\U{1F77F}')
    || ('\U{1F780}' <= c <= '\U{1F7FF}')
    || ('\U{1F800}' <= c <= '\U{1F8FF}')
    || ('\U{1F900}' <= c <= '\U{1F9FF}')
    || ('\U{1FA00}' <= c <= '\U{1FAFF}')
    || ('\U{2600}' <= c <= '\U{26FF}')
    || ('\U{2700}' <= c <= '\U{27BF}')
  }

  /** Substituting `''` for every run of emoji: exactly the non-emoji
      characters stay, in order. */
  function DropEmoji(s: string): (r: string)
    ensures forall c :: c in r <==> c in s && !IsEmoji(c)
    ensures |r| <= |s|
  {
    if s == [] then []
    else
      assert forall c :: c in s <==> c == s[0] || c in s[1..];
      KeptChar(s[0]) + DropEmoji(s[1..])
  }

  /** One character as the emoji substitution leaves it. */
  function KeptChar(c: char): (r: string)
    ensures IsEmoji(c) ==> r == []
    ensures !IsEmoji(c) ==> r == [c]
  {
    if IsEmoji(c) then [] else [c]
  }

  /** Dropping emoji works character by character: it distributes over
      concatenation ... */
  lemma {:induction false} DropEmojiAppend(a: string, b: string)
    ensures DropEmoji(a + b) == DropEmoji(a) + DropEmoji(b)
    decreases |a|
  {
    if a == [] {
      assert a + b == b;
    } else {
      var c, a' := a[0], a[1..];
      assert a + b == [c] + (a' + b);
      assert a == [c] + a';
      DropEmojiAppend(a', b);
      DropEmojiCons(c, a' + b);
      DropEmojiCons(c, a');
      Regroup(DropEmoji([c] + (a' + b)), KeptChar(c), DropEmoji(a' + b), DropEmoji(a'),
              DropEmoji(b), DropEmoji([c] + a'));
    }
  }

  lemma DropEmojiCons(c: char, t: string)
    ensures DropEmoji([c] + t) == KeptChar(c) + DropEmoji(t)
  {
    assert ([c] + t)[1..] == t;
  }

  /** ... removes a single emoji and keeps any other single character. */
  lemma DropEmojiOne(c: char)
    ensures IsEmoji(c) ==> DropEmoji([c]) == []
    ensures !IsEmoji(c) ==> DropEmoji([c]) == [c]
  {
    DropEmojiCons(c, []);
  }

  /** `remove_emoji_and_hashtag`: drop hashtags with their `#`, drop
      emoji, then normalise whitespace. */
  function RemoveEmojiAndHashtag(word: char -> bool, s: string): (r: string)
    ensures forall c :: c in r ==> !IsEmoji(c)
    ensures NormalForm(r)
    ensures forall c :: c in r ==> c == ' ' || c in s
  {
    CleanedChars(word, s);
    Normalize(DropEmoji(RemoveHashtags(word, s)))
  }

  /** Where the characters of the cleaned text come from. */
  lemma CleanedChars(word: char -> bool, s: string)
    ensures var r := Normalize(DropEmoji(RemoveHashtags(word, s)));
            forall c :: c in r ==> !IsEmoji(c) && (c == ' ' || c in s)
  {
    var h := RemoveHashtags(word, s);
    var d := DropEmoji(h);
    CharsThrough(Normalize(d), d, h, s);
  }

  /** The character bookkeeping of the three cleaning stages. */
  lemma CharsThrough(r: string, d: string, h: string, s: string)
    requires forall c :: c in r ==> c == ' ' || c in d
    requires forall c :: c in d <==> c in h && !IsEmoji(c)
    requires forall c :: c in h ==> c in s
    ensures forall c :: c in r ==> !IsEmoji(c) && (c == ' ' || c in s)
  {
    forall c | c in r
      ensures !IsEmoji(c) && (c == ' ' || c in s)
    {
      if c != ' ' {
        assert c in d;
      }
    }
  }

  /** The cleaned text is the words of the text outside every hashtag
      match, emoji dropped, joined by single spaces. */
  lemma CleanedTextIsWordsOfGaps(word: char -> bool, s: string)
    ensures Gapped(s, 0, SpansFrom(word, s, 0))
    ensures RemoveEmojiAndHashtag(word, s) ==
              JoinWords(Words(DropEmoji(Gaps(s, 0, SpansFrom(word, s, 0)))))
  {
    RemoveHashtagsKeepsGaps(word, s);
    NormalizeJoinsWords(DropEmoji(RemoveHashtags(word, s)));
  }

  /** The cleaned text is a fixed point of `normalize_text`. */
  lemma CleanedTextIsNormalized(word: char -> bool, s: string)
    ensures Normalize(RemoveEmojiAndHashtag(word, s)) == RemoveEmojiAndHashtag(word, s)
  {
    NormalizeFixedPoint(RemoveEmojiAndHashtag(word, s));
  }

  /** Hashtags go before emoji, so an emoji between `#` and a tag hides
      the tag from removal and leaves it in the output. */
  lemma EmojiCanShieldHashtag(word: char -> bool)
    ensures RemoveEmojiAndHashtag(word, "#\U{1F600}a") == "#a"
    ensures Tags(word, "#a") == ["a"]
  {
    var s := "#\U{1F600}a";
    ShieldedTagSurvivesRemoval(word);
    EmojiDropped();
    HashAIsNormal();
    assert RemoveEmojiAndHashtag(word, s) == Normalize(DropEmoji(RemoveHashtags(word, s)));
    LoneTagIsExtracted(word);
  }

  lemma HashAIsNormal()
    ensures Normalize("#a") == "#a"
  {
    var t := "#a";
    assert !IsSpace(t[0]) && !IsSpace(t[1]);
    assert SingleSpaced(t);
    NormalizeFixedPoint(t);
  }

  lemma EmojiDropped()
    ensures DropEmoji("#\U{1F600}a") == "#a"
  {
    var s := "#\U{1F600}a";
    assert DropEmoji(s[2..]) == "a";
    assert DropEmoji(s[1..]) == "a";
  }

  lemma ShieldedTagSurvivesRemoval(word: char -> bool)
    ensures RemoveHashtags(word, "#\U{1F600}a") == "#\U{1F600}a"
  {
    var s := "#\U{1F600}a";
    assert RemoveTagsFrom(word, s, 2) == "a";
    assert RemoveTagsFrom(word, s, 1) == "\U{1F600}a";
    assert !MatchesAt(s, 0);
  }

  lemma LoneTagIsExtracted(word: char -> bool)
    ensures Tags(word, "#a") == ["a"]
  {
    var t := "#a";
    assert MatchesAt(t, 0);
    assert RunEnd(word, t, 2) == 2;
    assert TagsFrom(word, t, 2) == [];
    assert t[1..2] == "a";
  }
}
