/**
 * The string operations the fact and query parsers rely on: `str.strip()`,
 * `str.split(",")`, splitting on runs of whitespace (what the query patterns'
 * `\s+` / `\S+` do) and ASCII case-insensitive comparison of keywords.
 */
module Text {

  /**
   * The modelled whitespace: the six characters of Python's `string.whitespace`.
   * Python's `str.strip()` and `\s` also take the ASCII separators
   * U+001C to U+001F and further Unicode whitespace, which are left out.
   */
  predicate IsSpace(c: char) {
    c == ' ' || c == '\t' || c == '\n' || c == '\r' || c == '\U{000B}' || c == '\U{000C}'
  }

  predicate AllSpace(s: string) {
    forall i :: 0 <= i < |s| ==> IsSpace(s[i])
  }

  predicate HasNoSpace(s: string) {
    forall i :: 0 <= i < |s| ==> !IsSpace(s[i])
  }

  /** Neither end of `s` is whitespace. */
  predicate Trimmed(s: string) {
    s == [] || (!IsSpace(s[0]) && !IsSpace(s[|s| - 1]))
  }

  /** `s` without its leading whitespace. */
  function TrimStart(s: string): (r: string)
    ensures |r| <= |s| && r == s[|s| - |r|..]
    ensures AllSpace(s[..|s| - |r|])
    ensures r == [] || !IsSpace(r[0])
  {
    if s != [] && IsSpace(s[0]) then TrimStart(s[1..]) else s
  }

  /** `s` without its trailing whitespace. */
  function TrimEnd(s: string): (r: string)
    ensures |r| <= |s| && r == s[..|r|]
    ensures AllSpace(s[|r|..])
    ensures r == [] || !IsSpace(r[|r| - 1])
  {
    if s != [] && IsSpace(s[|s| - 1]) then TrimEnd(s[..|s| - 1]) else s
  }

  /** Python's `s.strip()`: `s` with whitespace removed from both ends. */
  function Strip(s: string): (r: string)
    ensures Trimmed(r)
    ensures |r| <= |s|
  {
    TrimEnd(TrimStart(s))
  }

  lemma {:induction false} TrimStartOfSpaces(w: string, x: string)
    requires AllSpace(w)
    requires x == [] || !IsSpace(x[0])
    ensures TrimStart(w + x) == x
    decreases |w|
  {
    if w != [] {
      assert (w + x)[1..] == w[1..] + x;
      TrimStartOfSpaces(w[1..], x);
    }
  }

  lemma {:induction false} TrimEndOfSpaces(x: string, w: string)
    requires AllSpace(w)
    requires x == [] || !IsSpace(x[|x| - 1])
    ensures TrimEnd(x + w) == x
    decreases |w|
  {
    if w != [] {
      assert (x + w)[..|x + w| - 1] == x + w[..|w| - 1];
      TrimEndOfSpaces(x, w[..|w| - 1]);
    }
  }

  /**
   * Stripping undoes padding: a trimmed string surrounded by whitespace
   * strips back to itself. Together with `Trimmed(Strip(s))` and
   * `SpacesAroundStrip`, this pins `Strip` down completely.
   */
  lemma StripOfPadded(w1: string, r: string, w2: string)
    requires AllSpace(w1) && AllSpace(w2) && Trimmed(r)
    ensures Strip(w1 + r + w2) == r
  {
    if r == [] {
      assert w1 + r + w2 == (w1 + w2) + [];
      assert AllSpace(w1 + w2);
      TrimStartOfSpaces(w1 + w2, []);
    } else {
      assert w1 + r + w2 == w1 + (r + w2);
      TrimStartOfSpaces(w1, r + w2);
      TrimEndOfSpaces(r, w2);
    }
  }

  /** `s` is `Strip(s)` with whitespace on either side. */
  lemma SpacesAroundStrip(s: string) returns (w1: string, w2: string)
    ensures AllSpace(w1) && AllSpace(w2) && s == w1 + Strip(s) + w2
  {
    w1 := SpacesBeforeTrimStart(s);
    w2 := SpacesAfterTrimEnd(TrimStart(s));
    RegroupPadding(s, w1, TrimStart(s), Strip(s), w2);
  }

  lemma SpacesBeforeTrimStart(s: string) returns (w: string)
    ensures AllSpace(w) && s == w + TrimStart(s)
  {
    var k := |s| - |TrimStart(s)|;
    w := s[..k];
    assert s == s[..k] + s[k..];
  }

  lemma SpacesAfterTrimEnd(t: string) returns (w: string)
    ensures AllSpace(w) && t == TrimEnd(t) + w
  {
    w := t[|TrimEnd(t)|..];
  }

  lemma RegroupPadding(s: string, w1: string, t: string, r: string, w2: string)
    requires s == w1 + t && t == r + w2
    ensures s == w1 + r + w2
  {
    assert w1 + (r + w2) == w1 + r + w2;
  }

  lemma StripIdempotent(s: string)
    ensures Strip(Strip(s)) == Strip(s)
  {
    StripOfPadded([], Strip(s), []);
    assert [] + Strip(s) + [] == Strip(s);
  }

  /** Every character of `Strip(s)` occurs in `s`. */
  lemma StripChars(s: string, c: char)
    requires c in Strip(s)
    ensures c in s
  {
    var t := TrimStart(s);
    var r := TrimEnd(t);
    var j :| 0 <= j < |r| && r[j] == c;
    assert t[j] == c;
    assert s[|s| - |t| + j] == c;
  }

  /** Python's `s.split(",")`: the pieces between commas, always at least one. */
  function Split(s: string): (r: seq<string>)
    ensures |r| >= 1
    ensures forall i :: 0 <= i < |r| ==> ',' !in r[i]
    decreases |s|
  {
    if s == [] then [""]
    else if s[0] == ',' then [""] + Split(s[1..])
    else
      var rest := Split(s[1..]);
      [[s[0]] + rest[0]] + rest[1..]
  }

  /** `",".join(parts)`. */
  function Join(parts: seq<string>): string
    requires |parts| >= 1
  {
    if |parts| == 1 then parts[0] else parts[0] + "," + Join(parts[1..])
  }

  lemma {:induction false} JoinSplit(s: string)
    ensures Join(Split(s)) == s
    decreases |s|
  {
    if s != [] {
      JoinSplit(s[1..]);
      var rest := Split(s[1..]);
      if s[0] != ',' {
        JoinExtendFirst(s[0], rest);
      } else {
        JoinEmptyFirst(rest);
      }
      assert s == [s[0]] + s[1..];
    }
  }

  /** Prepending a character to the first part prepends it to the join. */
  lemma JoinExtendFirst(c: char, parts: seq<string>)
    requires |parts| >= 1
    ensures Join([[c] + parts[0]] + parts[1..]) == [c] + Join(parts)
  {
    var r := [[c] + parts[0]] + parts[1..];
    if |parts| > 1 {
      var a, j := parts[0], Join(parts[1..]);
      assert r[0] == [c] + a && r[1..] == parts[1..];
      assert Join(r) == r[0] + "," + Join(r[1..]);
      assert Join(parts) == a + "," + j;
      PrependRegroup([c], a, j);
    }
  }

  lemma PrependRegroup(x: string, a: string, j: string)
    ensures (x + a) + "," + j == x + (a + "," + j)
  {
  }

  /** An empty first part adds a leading comma to the join. */
  lemma JoinEmptyFirst(parts: seq<string>)
    requires |parts| >= 1
    ensures Join([""] + parts) == "," + Join(parts)
  {
    assert ([""] + parts)[1..] == parts;
  }

  lemma {:induction false} SplitWithoutComma(a: string)
    requires ',' !in a
    ensures Split(a) == [a]
    decreases |a|
  {
    if a != [] {
      SplitWithoutComma(a[1..]);
      assert a == [a[0]] + a[1..];
    }
  }

  lemma {:induction false} SplitAfterPiece(a: string, b: string)
    requires ',' !in a
    ensures Split(a + "," + b) == [a] + Split(b)
    decreases |a|
  {
    if a == [] {
      assert a + "," + b == [','] + b;
      assert ([','] + b)[1..] == b;
    } else {
      assert (a + "," + b)[0] == a[0];
      assert (a + "," + b)[1..] == a[1..] + "," + b;
      SplitAfterPiece(a[1..], b);
      assert a == [a[0]] + a[1..];
    }
  }

  /** Splitting a join of comma-free pieces gives the pieces back. */
  lemma {:induction false} SplitJoin(parts: seq<string>)
    requires |parts| >= 1
    requires forall i :: 0 <= i < |parts| ==> ',' !in parts[i]
    ensures Split(Join(parts)) == parts
    decreases |parts|
  {
    if |parts| == 1 {
      SplitWithoutComma(parts[0]);
    } else {
      SplitJoin(parts[1..]);
      SplitAfterPiece(parts[0], Join(parts[1..]));
      assert parts == [parts[0]] + parts[1..];
    }
  }

  /** Every character of a piece of `Split(s)` occurs in `s`. */
  lemma {:induction false} SplitChars(s: string, i: nat, c: char)
    requires i < |Split(s)| && c in Split(s)[i]
    ensures c in s
    decreases |s|
  {
    if s != [] {
      var rest := Split(s[1..]);
      if s[0] == ',' {
        SplitChars(s[1..], i - 1, c);
      } else if i == 0 {
        if c != s[0] {
          assert c in rest[0];
          SplitChars(s[1..], 0, c);
        }
      } else {
        SplitChars(s[1..], i, c);
      }
    }
  }

  /** A character that is not a comma and occurs in no part does not occur in their join. */
  lemma {:induction false} JoinAvoids(parts: seq<string>, c: char)
    requires |parts| >= 1 && c != ','
    requires forall i :: 0 <= i < |parts| ==> c !in parts[i]
    ensures c !in Join(parts)
    decreases |parts|
  {
    if |parts| > 1 {
      JoinAvoids(parts[1..], c);
    }
  }

  /** `[p.strip() for p in parts]`. */
  function StripAll(parts: seq<string>): (r: seq<string>)
    ensures |r| == |parts|
    ensures forall i :: 0 <= i < |r| ==> r[i] == Strip(parts[i])
  {
    if parts == [] then [] else [Strip(parts[0])] + StripAll(parts[1..])
  }

  /** The length of the run of non-whitespace characters `s` starts with. */
  function WordLength(s: string): (n: nat)
    ensures n <= |s| && HasNoSpace(s[..n])
    ensures n == |s| || IsSpace(s[n])
  {
    if s == [] || IsSpace(s[0]) then 0 else 1 + WordLength(s[1..])
  }

  /** The maximal runs of non-whitespace characters of `s`, in order. */
  function Tokens(s: string): (r: seq<string>)
    ensures forall i :: 0 <= i < |r| ==> r[i] != [] && HasNoSpace(r[i])
    decreases |s|
  {
    if s == [] then []
    else if IsSpace(s[0]) then Tokens(s[1..])
    else
      var n := WordLength(s);
      [s[..n]] + Tokens(s[n..])
  }

  predicate IsWord(w: string) {
    w != [] && HasNoSpace(w)
  }

  /** Words joined by single spaces. */
  function Unwords(ws: seq<string>): string {
    if ws == [] then "" else if |ws| == 1 then ws[0] else ws[0] + " " + Unwords(ws[1..])
  }

  lemma {:induction false} WordLengthOfWord(w: string, x: string)
    requires HasNoSpace(w)
    requires x == [] || IsSpace(x[0])
    ensures WordLength(w + x) == |w|
    decreases |w|
  {
    if w != [] {
      assert (w + x)[1..] == w[1..] + x;
      WordLengthOfWord(w[1..], x);
    }
  }

  /** Leading whitespace contributes no token. */
  lemma {:induction false} TokensAfterSpace(w: string, q: string)
    requires AllSpace(w)
    ensures Tokens(w + q) == Tokens(q)
    decreases |w|
  {
    if w != [] {
      assert (w + q)[0] == w[0];
      assert (w + q)[1..] == w[1..] + q;
      TokensAfterSpace(w[1..], q);
    } else {
      assert w + q == q;
    }
  }

  lemma TokensOfWord(w: string)
    requires IsWord(w)
    ensures Tokens(w) == [w]
  {
    WordLengthOfWord(w, []);
    assert w + [] == w;
    assert w[|w|..] == [];
  }

  /** A word, a non-empty run of whitespace and more text: the word is the first token, and the text gives the rest. */
  lemma TokensOfWordThen(w: string, sep: string, rest: string)
    requires IsWord(w) && sep != [] && AllSpace(sep)
    ensures Tokens(w + sep + rest) == [w] + Tokens(rest)
  {
    var s := w + sep + rest;
    var t := sep + rest;
    assert s == w + t;
    assert t[0] == sep[0];
    WordLengthOfWord(w, t);
    assert s[..|w|] == w;
    assert s[|w|..] == t;
    TokensAfterSpace(sep, rest);
  }

  /** A word followed by nothing but whitespace is one token. */
  lemma TokensOfWordSpaces(w: string, sp: string)
    requires IsWord(w) && AllSpace(sp)
    ensures Tokens(w + sp) == [w]
  {
    if sp == [] {
      assert w + sp == w;
      TokensOfWord(w);
    } else {
      TokensOfWordThen(w, sp, []);
      assert w + sp + [] == w + sp;
    }
  }

  /**
   * The runs of whitespace that follow the words of a text: all of them
   * whitespace, and all but the last non-empty, so that they separate the
   * words (the last one is the trailing whitespace).
   */
  predicate Separators(gs: seq<string>) {
    forall i :: 0 <= i < |gs| ==> AllSpace(gs[i]) && (i < |gs| - 1 ==> gs[i] != [])
  }

  /** Each word followed by its run of whitespace: `ws[0] + gs[0] + ws[1] + gs[1] + ...`. */
  function Spread(ws: seq<string>, gs: seq<string>): string
    requires |gs| == |ws|
  {
    if ws == [] then "" else ws[0] + gs[0] + Spread(ws[1..], gs[1..])
  }

  lemma SeparatorsTail(gs: seq<string>)
    requires gs != [] && Separators(gs)
    ensures AllSpace(gs[0]) && Separators(gs[1..])
  {
    forall i | 0 <= i < |gs[1..]| ensures AllSpace(gs[1..][i]) && (i < |gs[1..]| - 1 ==> gs[1..][i] != []) {
      assert gs[1..][i] == gs[i + 1];
    }
  }

  lemma SeparatorsCons(g: string, gs: seq<string>)
    requires AllSpace(g) && Separators(gs) && (gs != [] ==> g != [])
    ensures Separators([g] + gs)
  {
    forall i | 0 <= i < |[g] + gs| ensures AllSpace(([g] + gs)[i]) && (i < |gs| ==> ([g] + gs)[i] != []) {
      if i > 0 {
        assert ([g] + gs)[i] == gs[i - 1];
      }
    }
  }

  /**
   * Words laid out with whitespace in front of them, after each of them,
   * and at least some whitespace between any two: tokenising gives the
   * words back.
   */
  lemma TokensOfLayout(lead: string, ws: seq<string>, gs: seq<string>)
    requires AllSpace(lead) && |gs| == |ws| && Separators(gs)
    requires forall i :: 0 <= i < |ws| ==> IsWord(ws[i])
    ensures Tokens(lead + Spread(ws, gs)) == ws
  {
    TokensAfterSpace(lead, Spread(ws, gs));
    TokensOfSpread(ws, gs);
  }

  lemma {:induction false} TokensOfSpread(ws: seq<string>, gs: seq<string>)
    requires |gs| == |ws| && Separators(gs)
    requires forall i :: 0 <= i < |ws| ==> IsWord(ws[i])
    ensures Tokens(Spread(ws, gs)) == ws
    decreases |ws|
  {
    if ws != [] {
      SeparatorsTail(gs);
      var rest := Spread(ws[1..], gs[1..]);
      assert Spread(ws, gs) == ws[0] + gs[0] + rest;
      if |ws| == 1 {
        assert rest == [];
        assert ws[0] + gs[0] + rest == ws[0] + gs[0];
        TokensOfWordSpaces(ws[0], gs[0]);
      } else {
        TokensOfSpread(ws[1..], gs[1..]);
        TokensOfWordThen(ws[0], gs[0], rest);
        assert ws == [ws[0]] + ws[1..];
      }
    }
  }

  /**
   * Every text is its tokens laid out with whitespace: the tokens are the
   * maximal runs of non-whitespace, and only whitespace lies around and
   * between them.
   */
  lemma {:induction false} LayoutOfTokens(s: string) returns (lead: string, gs: seq<string>)
    ensures AllSpace(lead) && |gs| == |Tokens(s)| && Separators(gs)
    ensures s == lead + Spread(Tokens(s), gs)
    decreases |s|
  {
    if s == [] {
      lead, gs := [], [];
    } else if IsSpace(s[0]) {
      var lead';
      lead', gs := LayoutOfTokens(s[1..]);
      lead := [s[0]] + lead';
      assert s == [s[0]] + s[1..];
      ConsRegroup([s[0]], lead', Spread(Tokens(s[1..]), gs));
    } else {
      var n := WordLength(s);
      var w := s[..n];
      var t := s[n..];
      var ts := Tokens(t);
      var lead', gs' := LayoutOfTokens(t);
      assert Tokens(s) == [w] + ts;
      assert s == w + t;
      if ts != [] {
        SpreadStartsWithWord(ts, gs');
        assert t != [] && IsSpace(t[0]);
        assert lead' != [];
      }
      SeparatorsCons(lead', gs');
      lead, gs := [], [lead'] + gs';
      assert ([w] + ts)[1..] == ts && gs[1..] == gs';
      assert Spread([w] + ts, gs) == w + lead' + Spread(ts, gs');
      ConsRegroup(w, lead', Spread(ts, gs'));
      assert s == [] + (w + lead' + Spread(ts, gs'));
    }
  }

  lemma ConsRegroup(a: string, b: string, c: string)
    ensures a + (b + c) == (a + b) + c
  {
  }

  /** A layout of at least one word starts with the first character of its first word. */
  lemma SpreadStartsWithWord(ws: seq<string>, gs: seq<string>)
    requires |gs| == |ws| && ws != [] && IsWord(ws[0])
    ensures Spread(ws, gs) != [] && Spread(ws, gs)[0] == ws[0][0]
  {
    assert Spread(ws, gs) == ws[0] + (gs[0] + Spread(ws[1..], gs[1..]));
  }

  /** Words joined by single spaces are a layout of those words. */
  lemma {:induction false} UnwordsLayout(ws: seq<string>) returns (gs: seq<string>)
    ensures |gs| == |ws| && Separators(gs) && Unwords(ws) == Spread(ws, gs)
    decreases |ws|
  {
    if ws == [] {
      gs := [];
    } else if |ws| == 1 {
      gs := [""];
      assert Spread(ws, gs) == ws[0] + "" + Spread([], []);
    } else {
      var gs' := UnwordsLayout(ws[1..]);
      gs := [" "] + gs';
      SeparatorsCons(" ", gs');
      assert gs[1..] == gs';
      assert Spread(ws, gs) == ws[0] + " " + Spread(ws[1..], gs');
    }
  }

  /** Tokenising words joined by single spaces gives the words back. */
  lemma TokensOfUnwords(ws: seq<string>)
    requires forall i :: 0 <= i < |ws| ==> IsWord(ws[i])
    ensures Tokens(Unwords(ws)) == ws
  {
    var gs := UnwordsLayout(ws);
    TokensOfLayout("", ws, gs);
    assert "" + Spread(ws, gs) == Spread(ws, gs);
  }

  /** ASCII lower case. */
  function Lower(c: char): (r: char)
    ensures !('A' <= r <= 'Z')
    ensures r == c || ('A' <= c <= 'Z' && r as int == c as int + 32)
  {
    if 'A' <= c <= 'Z' then (c as int + 32) as char else c
  }

  /** `t` equals `kw` when ASCII letter case is ignored. */
  predicate SameIgnoringCase(t: string, kw: string) {
    |t| == |kw| && forall i :: 0 <= i < |t| ==> Lower(t[i]) == Lower(kw[i])
  }

  /** Two characters agree ignoring case exactly when they are equal or one is the other's upper-case letter. */
  lemma LowerAgree(c: char, d: char)
    ensures Lower(c) == Lower(d) <==> c == d || ('A' <= c <= 'Z' && d as int == c as int + 32)
                                      || ('A' <= d <= 'Z' && c as int == d as int + 32)
  {
  }

  /** Equality ignoring letter case is an equivalence. */
  lemma SameIgnoringCaseIsEquivalence(a: string, b: string, c: string)
    ensures SameIgnoringCase(a, a)
    ensures SameIgnoringCase(a, b) ==> SameIgnoringCase(b, a)
    ensures SameIgnoringCase(a, b) && SameIgnoringCase(b, c) ==> SameIgnoringCase(a, c)
  {
  }
}
