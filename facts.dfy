/**
 * The fact file format: `parse_fact` on one line, and loading a whole file
 * as a fold of the three builders over its parsed lines. A fact line is
 * `es_un(<child>, <parent>)`, `instancia(<inst>, <class>)` or
 * `atributo(<entity>, <attr>, <value>)`; blank lines and lines starting
 * with `#` carry no fact; anything else stops the load with an error.
 */
module Facts {
  import opened Wrappers
  import opened Text
  import opened Network

  datatype Kind = IsAKind | InstanceKind | AttributeKind

  datatype Fact =
    | IsA(child: string, parent: string)
    | InstanceOf(inst: string, klass: string)
    | Attribute(entity: string, attr: string, value: string)

  /**
   * Why a line was refused. Both carry the stripped line, as the messages
   * of the program do; neither carries a line number.
   */
  datatype ParseError =
    | InvalidLine(line: string)
    | WrongArity(kind: Kind, line: string)

  function Keyword(k: Kind): string {
    match k
    case IsAKind => "es_un"
    case InstanceKind => "instancia"
    case AttributeKind => "atributo"
  }

  function Arity(k: Kind): nat {
    if k == AttributeKind then 3 else 2
  }

  function KindOf(f: Fact): Kind {
    match f
    case IsA(_, _) => IsAKind
    case InstanceOf(_, _) => InstanceKind
    case Attribute(_, _, _) => AttributeKind
  }

  function Args(f: Fact): (r: seq<string>)
    ensures |r| == Arity(KindOf(f))
  {
    match f
    case IsA(c, p) => [c, p]
    case InstanceOf(i, c) => [i, c]
    case Attribute(e, a, v) => [e, a, v]
  }

  /** The fact of kind `k` with arguments `parts`, in order. */
  function Build(k: Kind, parts: seq<string>): (f: Fact)
    requires |parts| == Arity(k)
    ensures KindOf(f) == k && Args(f) == parts
  {
    match k
    case IsAKind => IsA(parts[0], parts[1])
    case InstanceKind => InstanceOf(parts[0], parts[1])
    case AttributeKind => Attribute(parts[0], parts[1], parts[2])
  }

  // ---------- the fact pattern ----------

  /**
   * The part of the fact pattern after the keyword, on a stripped line:
   * optional whitespace, `(`, at least one character other than a newline,
   * and a final `)`. The greedy group runs to the last `)`.
   */
  function MatchArguments(rest: string): Option<string> {
    MatchParens(TrimStart(rest))
  }

  /** `(`, at least one character other than a newline, and a final `)`: what is between them. */
  function MatchParens(t: string): Option<string> {
    if |t| >= 3 && t[0] == '(' && t[|t| - 1] == ')' && '\n' !in t[1..|t| - 1]
    then Some(t[1..|t| - 1])
    else None
  }

  function MatchKeyword(s: string, k: Kind): Option<string> {
    var kw := Keyword(k);
    if kw <= s then MatchArguments(s[|kw|..]) else None
  }

  /** The fact pattern on a stripped line: the keyword and the text inside the parentheses. */
  function MatchFact(s: string): Option<(Kind, string)> {
    if MatchKeyword(s, IsAKind).Some? then Some((IsAKind, MatchKeyword(s, IsAKind).value))
    else if MatchKeyword(s, InstanceKind).Some? then Some((InstanceKind, MatchKeyword(s, InstanceKind).value))
    else if MatchKeyword(s, AttributeKind).Some? then Some((AttributeKind, MatchKeyword(s, AttributeKind).value))
    else None
  }

  /** `s` reads keyword, whitespace `w`, `(`, `inside`, `)`, where `inside` is non-empty and newline-free. */
  predicate Shaped(s: string, k: Kind, w: string, inside: string) {
    && AllSpace(w)
    && inside != []
    && '\n' !in inside
    && s == Keyword(k) + Parenthesized(w, inside)
  }

  /** Whitespace `w`, then `inside` in parentheses. */
  function Parenthesized(w: string, inside: string): string {
    w + "(" + inside + ")"
  }

  /** What the pattern accepts has the fact shape. */
  lemma MatchFactSound(s: string)
    requires MatchFact(s).Some?
    ensures exists w :: Shaped(s, MatchFact(s).value.0, w, MatchFact(s).value.1)
  {
    assert MatchKeyword(s, MatchFact(s).value.0) == Some(MatchFact(s).value.1);
    MatchKeywordSound(s, MatchFact(s).value.0, MatchFact(s).value.1);
  }

  lemma MatchKeywordSound(s: string, k: Kind, inside: string)
    requires MatchKeyword(s, k) == Some(inside)
    ensures exists w :: Shaped(s, k, w, inside)
  {
    var kw := Keyword(k);
    var rest := s[|kw|..];
    assert s == kw + rest;
    var w := ShapeOfArguments(rest);
    assert Shaped(s, k, w, inside);
  }

  /** What the argument part accepts is whitespace `w`, then `(`, the inside, `)`. */
  lemma ShapeOfArguments(rest: string) returns (w: string)
    requires MatchArguments(rest).Some?
    ensures var inside := MatchArguments(rest).value;
      AllSpace(w) && inside != [] && '\n' !in inside && rest == Parenthesized(w, inside)
  {
    var inside := ArgumentsInside(rest);
    w := SpacesBeforeTrimStart(rest);
    RegroupParenthesized(w, inside);
  }

  /** What the argument part accepts: the text after the leading whitespace is `inside` in parentheses. */
  lemma ArgumentsInside(rest: string) returns (inside: string)
    requires MatchArguments(rest).Some?
    ensures inside == MatchArguments(rest).value && inside != [] && '\n' !in inside
    ensures TrimStart(rest) == "(" + inside + ")"
  {
    inside := ParensInside(TrimStart(rest));
  }

  /** What `MatchParens` accepts is its result in parentheses. */
  lemma ParensInside(t: string) returns (inside: string)
    requires MatchParens(t).Some?
    ensures inside == MatchParens(t).value && inside != [] && '\n' !in inside
    ensures t == "(" + inside + ")"
  {
    inside := t[1..|t| - 1];
  }

  lemma RegroupParenthesized(w: string, inside: string)
    ensures w + ("(" + inside + ")") == Parenthesized(w, inside)
  {
  }

  /** Everything of the fact shape is accepted, with that keyword and that inside. */
  lemma MatchFactComplete(s: string, k: Kind, w: string, inside: string)
    requires Shaped(s, k, w, inside)
    ensures MatchFact(s) == Some((k, inside))
  {
    var rest := Parenthesized(w, inside);
    ArgumentsOfShape(w, inside);
    KeywordPrefix(k, rest);
  }

  lemma ArgumentsOfShape(w: string, inside: string)
    requires AllSpace(w) && inside != [] && '\n' !in inside
    ensures MatchArguments(Parenthesized(w, inside)) == Some(inside)
  {
    var t := "(" + inside + ")";
    assert Parenthesized(w, inside) == w + t;
    TrimStartOfSpaces(w, t);
    ParensOf(inside);
  }

  lemma ParensOf(inside: string)
    requires inside != [] && '\n' !in inside
    ensures MatchParens("(" + inside + ")") == Some(inside)
  {
    var t := "(" + inside + ")";
    assert t[1..|t| - 1] == inside;
  }

  /**
   * A line starting with the keyword of `k` matches only through `k`: the
   * three keywords start with different letters.
   */
  lemma KeywordPrefix(k: Kind, rest: string)
    ensures MatchArguments(rest).Some? ==> MatchFact(Keyword(k) + rest) == Some((k, MatchArguments(rest).value))
  {
    var s := Keyword(k) + rest;
    OwnKeyword(k, rest);
    forall k' | k' != k ensures MatchKeyword(s, k').None? {
      OtherKeyword(k, k', rest);
    }
    if MatchArguments(rest).Some? {
      MatchFactOnly(s, k);
    }
  }

  lemma OwnKeyword(k: Kind, rest: string)
    ensures MatchKeyword(Keyword(k) + rest, k) == MatchArguments(rest)
  {
    var s := Keyword(k) + rest;
    assert Keyword(k) <= s && s[|Keyword(k)|..] == rest;
  }

  /** When only `k`'s keyword matches, the pattern answers with `k`. */
  lemma MatchFactOnly(s: string, k: Kind)
    requires MatchKeyword(s, k).Some?
    requires forall k' :: k' != k ==> MatchKeyword(s, k').None?
    ensures MatchFact(s) == Some((k, MatchKeyword(s, k).value))
  {
  }

  lemma OtherKeyword(k: Kind, k': Kind, rest: string)
    requires k != k'
    ensures !(Keyword(k') <= Keyword(k) + rest)
  {
    assert (Keyword(k) + rest)[0] == Keyword(k)[0] != Keyword(k')[0];
  }

  // ---------- parse_fact ----------

  /**
   * `parse_fact(line)`: `Ok(None)` for a line that is blank or a comment
   * once stripped, the fact for a well-formed fact line, and otherwise the
   * error the program raises.
   */
  function ParseFact(line: string): (r: Result<Option<Fact>, ParseError>)
    ensures r == Ok(None) <==> Strip(line) == [] || Strip(line)[0] == '#'
    ensures r.Err? ==> r.error.line == Strip(line)
  {
    ParseStripped(Strip(line))
  }

  /** The body of `parse_fact` after its first statement, on the stripped line `s`. */
  function ParseStripped(s: string): (r: Result<Option<Fact>, ParseError>)
    ensures r == Ok(None) <==> s == [] || s[0] == '#'
    ensures r.Err? ==> r.error.line == s
  {
    if s == [] || s[0] == '#' then Ok(None)
    else
      match MatchFact(s)
      case None => Err(InvalidLine(s))
      case Some((k, inside)) =>
        var parts := StripAll(Split(inside));
        if |parts| != Arity(k) then Err(WrongArity(k, s))
        else Ok(Some(Build(k, parts)))
  }

  /** Stripping a line first does not change how it parses (`load_file` strips before `parse_fact` strips again). */
  lemma ParseFactOfStripped(line: string)
    ensures ParseFact(Strip(line)) == ParseFact(line)
  {
    StripIdempotent(line);
  }

  /** A line is refused as invalid exactly when it carries something but does not have the fact shape. */
  lemma InvalidLineExactly(line: string)
    ensures var s := Strip(line);
      ParseFact(line) == Err(InvalidLine(s))
      <==> s != [] && s[0] != '#' && forall k, w, inside :: !Shaped(s, k, w, inside)
  {
    var s := Strip(line);
    InvalidLineIffNoMatch(line);
    NoMatchIffNoShape(s);
  }

  /** `parse_fact` raises the invalid-line error exactly when the stripped line carries something and the pattern fails. */
  lemma InvalidLineIffNoMatch(line: string)
    ensures var s := Strip(line);
      ParseFact(line) == Err(InvalidLine(s)) <==> s != [] && s[0] != '#' && MatchFact(s).None?
  {
    var s := Strip(line);
    if s != [] && s[0] != '#' && MatchFact(s).Some? {
      var (k, inside) := MatchFact(s).value;
      var r := ParseFact(line);
      assert r.Err? ==> r == Err(WrongArity(k, s));
    }
  }

  /** The pattern fails exactly on what does not have the fact shape. */
  lemma NoMatchIffNoShape(s: string)
    ensures MatchFact(s).None? <==> forall k, w, inside :: !Shaped(s, k, w, inside)
  {
    if MatchFact(s).Some? {
      MatchFactSound(s);
    } else {
      forall k, w, inside | Shaped(s, k, w, inside) ensures false {
        MatchFactComplete(s, k, w, inside);
      }
    }
  }

  /** An argument as `parse_fact` can produce it: stripped, comma-free, newline-free. */
  predicate Clean(a: string) {
    Trimmed(a) && ',' !in a && '\n' !in a
  }

  /** The text of a fact line with keyword `k` and argument list `parts`. */
  function RenderParts(k: Kind, parts: seq<string>): string
    requires |parts| >= 1
  {
    Keyword(k) + Parenthesized("", Join(parts))
  }

  /** The canonical line for a fact. */
  function Render(f: Fact): string {
    RenderParts(KindOf(f), Args(f))
  }

  lemma KeywordStart(k: Kind)
    ensures |Keyword(k)| > 0 && !IsSpace(Keyword(k)[0]) && Keyword(k)[0] != '#'
  {
  }

  lemma StripClean(a: string)
    requires Trimmed(a)
    ensures Strip(a) == a
  {
    StripOfPadded([], a, []);
    assert [] + a + [] == a;
  }

  lemma StripAllClean(parts: seq<string>)
    requires forall i :: 0 <= i < |parts| ==> Clean(parts[i])
    ensures StripAll(parts) == parts
  {
    forall i | 0 <= i < |parts| ensures StripAll(parts)[i] == parts[i] {
      StripClean(parts[i]);
    }
  }

  /**
   * The arity check: a line made of a keyword and a parenthesised list of
   * clean arguments parses to the fact when the count is right, and is
   * refused with that keyword's arity error when it is not.
   */
  lemma ParseRendered(k: Kind, parts: seq<string>)
    requires |parts| >= 1 && Join(parts) != []
    requires forall i :: 0 <= i < |parts| ==> Clean(parts[i])
    ensures var line := RenderParts(k, parts);
      ParseFact(line) == if |parts| == Arity(k) then Ok(Some(Build(k, parts))) else Err(WrongArity(k, line))
  {
    var line := RenderParts(k, parts);
    var inside := Join(parts);
    RenderedIsStripped(k, parts);
    JoinAvoids(parts, '\n');
    MatchFactComplete(line, k, "", inside);
    SplitJoin(parts);
    StripAllClean(parts);
    ParseMatched(line, k, inside, parts);
  }

  /** `parse_fact` on a stripped line the pattern accepts, whose stripped pieces are `parts`. */
  lemma ParseMatched(s: string, k: Kind, inside: string, parts: seq<string>)
    requires Strip(s) == s && s != [] && s[0] != '#'
    requires MatchFact(s) == Some((k, inside)) && StripAll(Split(inside)) == parts
    ensures ParseFact(s) == if |parts| == Arity(k) then Ok(Some(Build(k, parts))) else Err(WrongArity(k, s))
  {
  }

  /** The canonical line has no surrounding whitespace and is not a comment. */
  lemma RenderedIsStripped(k: Kind, parts: seq<string>)
    requires |parts| >= 1
    ensures var line := RenderParts(k, parts);
      Strip(line) == line && line != [] && line[0] != '#'
  {
    var line := RenderParts(k, parts);
    KeywordStart(k);
    assert line[0] == Keyword(k)[0];
    assert line[|line| - 1] == ')';
    StripClean(line);
  }

  /** Rendering a fact with clean arguments and parsing it back gives the fact. */
  lemma ParseRender(f: Fact)
    requires forall i :: 0 <= i < |Args(f)| ==> Clean(Args(f)[i])
    ensures ParseFact(Render(f)) == Ok(Some(f))
  {
    var parts := Args(f);
    assert Join(parts) == parts[0] + "," + Join(parts[1..]);
    ParseRendered(KindOf(f), parts);
    assert Build(KindOf(f), parts) == f;
  }

  /** Every argument of a parsed fact is clean. */
  lemma ParsedIsClean(line: string)
    requires ParseFact(line).Ok? && ParseFact(line).value.Some?
    ensures var f := ParseFact(line).value.value;
      forall i :: 0 <= i < |Args(f)| ==> Clean(Args(f)[i])
  {
    var s := Strip(line);
    assert s != [] && s[0] != '#';
    assert MatchFact(s).Some?;
    var k := MatchFact(s).value.0;
    var inside := MatchFact(s).value.1;
    MatchFactSound(s);
    var parts := StripAll(Split(inside));
    assert ParseFact(line) == Ok(Some(Build(k, parts)));
    PiecesAreClean(inside);
  }

  /** The stripped comma-separated pieces of newline-free text are clean. */
  lemma PiecesAreClean(inside: string)
    requires '\n' !in inside
    ensures forall i :: 0 <= i < |StripAll(Split(inside))| ==> Clean(StripAll(Split(inside))[i])
  {
    var ps := Split(inside);
    forall i | 0 <= i < |ps| ensures Clean(Strip(ps[i])) {
      if ',' in Strip(ps[i]) {
        StripChars(ps[i], ',');
      }
      if '\n' in Strip(ps[i]) {
        StripChars(ps[i], '\n');
        SplitChars(inside, i, '\n');
      }
    }
  }

  /** Parsing normalises: the canonical line of a parsed fact parses to the same result. */
  lemma ParseNormalForm(line: string)
    requires ParseFact(line).Ok? && ParseFact(line).value.Some?
    ensures ParseFact(Render(ParseFact(line).value.value)) == ParseFact(line)
  {
    ParsedIsClean(line);
    ParseRender(ParseFact(line).value.value);
  }

  /** The error text the program raises for `e`; it ends with the offending line. */
  function ErrorMessage(e: ParseError): (r: string)
    ensures |e.line| <= |r| && r[|r| - |e.line|..] == e.line
  {
    match e
    case InvalidLine(s) => "Línea inválida: " + s
    case WrongArity(k, s) => Keyword(k) + " requiere " + (if Arity(k) == 2 then "2" else "3") + " argumentos: " + s
  }

  // ---------- load_file ----------

  /** The builder a fact line dispatches to. */
  function Apply(net: Net, f: Fact): (r: Net)
    ensures Valid(net) ==> Valid(r)
  {
    match f
    case IsA(c, p) => AddIsA(net, c, p)
    case InstanceOf(i, c) => AddInstance(net, i, c)
    case Attribute(e, a, v) => AddAttribute(net, e, a, v)
  }

  /** Loading the same fact twice in a row has the effect of loading it once. */
  lemma ApplyIdempotent(net: Net, f: Fact)
    ensures Apply(Apply(net, f), f) == Apply(net, f)
  {
    match f
    case IsA(c, p) => AddIsAIdempotent(net, c, p);
    case InstanceOf(i, c) => AddInstanceIdempotent(net, i, c);
    case Attribute(e, a, v) => AddAttributeIdempotent(net, e, a, v);
  }

  /**
   * The effect of one line of the file: its fact applied to `net`, nothing
   * for a blank or comment line, or the error that stops the load.
   */
  function LoadLine(net: Net, line: string): (r: Result<Net, ParseError>)
    ensures r.Err? <==> ParseFact(line).Err?
    ensures r.Err? ==> r.error == ParseFact(line).error
  {
    match ParseFact(line)
    case Err(e) => Err(e)
    case Ok(None) => Ok(net)
    case Ok(Some(f)) => Ok(Apply(net, f))
  }

  /** A line that loaded once loads again without further change. */
  lemma LoadLineTwice(net: Net, line: string)
    requires LoadLine(net, line).Ok?
    ensures LoadLine(LoadLine(net, line).value, line) == LoadLine(net, line)
  {
    if ParseFact(line).value.Some? {
      ApplyIdempotent(net, ParseFact(line).value.value);
    }
  }

  lemma LoadLineKeepsValid(net: Net, line: string)
    requires Valid(net) && LoadLine(net, line).Ok?
    ensures Valid(LoadLine(net, line).value)
  {
    var p := ParseFact(line);
    if p.value.Some? {
      assert LoadLine(net, line) == Ok(Apply(net, p.value.value));
    } else {
      assert LoadLine(net, line) == Ok(net);
    }
  }

  /**
   * `load_file` on the lines of a file, starting from `net`: every line is
   * parsed in order and its fact applied; the first refused line ends the
   * load with its error.
   */
  function LoadFrom(net: Net, lines: seq<string>): Result<Net, ParseError>
    decreases |lines|
  {
    if lines == [] then Ok(net)
    else
      match LoadLine(net, lines[0])
      case Err(e) => Err(e)
      case Ok(next) => LoadFrom(next, lines[1..])
  }

  /** Loading from line `i` on is loading line `i` and continuing after it. */
  lemma LoadFromLine(net: Net, lines: seq<string>, i: nat)
    requires i < |lines|
    ensures var p := ParseFact(lines[i]);
      && (p.Err? ==> LoadFrom(net, lines[i..]) == Err(p.error))
      && (p == Ok(None) ==> LoadFrom(net, lines[i..]) == LoadFrom(net, lines[i + 1..]))
      && (p.Ok? && p.value.Some? ==> LoadFrom(net, lines[i..]) == LoadFrom(Apply(net, p.value.value), lines[i + 1..]))
  {
    assert lines[i..][0] == lines[i];
    assert lines[i..][1..] == lines[i + 1..];
  }

  /** The facts of `fs` applied in order. */
  function ApplyAll(net: Net, fs: seq<Fact>): Net
    decreases |fs|
  {
    if fs == [] then net else ApplyAll(Apply(net, fs[0]), fs[1..])
  }

  /** The canonical lines of `fs`, one per fact. */
  function RenderAll(fs: seq<Fact>): (r: seq<string>)
    ensures |r| == |fs| && forall i :: 0 <= i < |fs| ==> r[i] == Render(fs[i])
  {
    if fs == [] then [] else [Render(fs[0])] + RenderAll(fs[1..])
  }

  /** Every argument of `f` is clean, so its canonical line reads back as `f`. */
  predicate CleanFact(f: Fact) {
    forall i :: 0 <= i < |Args(f)| ==> Clean(Args(f)[i])
  }

  /** A file of canonical lines for clean facts loads as those facts applied in order. */
  lemma {:induction false} LoadRenderAll(net: Net, fs: seq<Fact>)
    requires forall i :: 0 <= i < |fs| ==> CleanFact(fs[i])
    ensures LoadFrom(net, RenderAll(fs)) == Ok(ApplyAll(net, fs))
    decreases |fs|
  {
    if fs != [] {
      var lines := RenderAll(fs);
      assert CleanFact(fs[0]);
      ParseRender(fs[0]);
      LoadFromLine(net, lines, 0);
      assert lines[0..] == lines;
      assert lines[1..] == RenderAll(fs[1..]);
      LoadRenderAll(Apply(net, fs[0]), fs[1..]);
    }
  }

  /** `parse_fact` on every line, in order. */
  function Outcomes(lines: seq<string>): (r: seq<Result<Option<Fact>, ParseError>>)
    ensures |r| == |lines| && forall i :: 0 <= i < |lines| ==> r[i] == ParseFact(lines[i])
  {
    if lines == [] then [] else [ParseFact(lines[0])] + Outcomes(lines[1..])
  }

  /** Outcome `i` is the first error among `ps`, and it is `e`. */
  predicate FirstErr(ps: seq<Result<Option<Fact>, ParseError>>, i: nat, e: ParseError) {
    && i < |ps|
    && ps[i] == Err(e)
    && forall j :: 0 <= j < i ==> ps[j].Ok?
  }

  /** Line `i` is the first line of `lines` that `parse_fact` refuses, and `e` is its error. */
  predicate FirstFailure(lines: seq<string>, i: nat, e: ParseError) {
    FirstErr(Outcomes(lines), i, e)
  }

  /** The load fails, with `e`, exactly when some line is refused and the first refused line raises `e`. */
  lemma {:induction false} LoadFailsAtFirstBadLine(net: Net, lines: seq<string>, e: ParseError)
    ensures LoadFrom(net, lines) == Err(e) <==> exists i :: FirstFailure(lines, i, e)
    decreases |lines|
  {
    if lines != [] {
      var r := LoadLine(net, lines[0]);
      LoadFromStep(net, lines);
      if r.Err? {
        FailureAtBadHead(lines, e);
      } else {
        LoadFailsAtFirstBadLine(r.value, lines[1..], e);
        FirstFailureAfterGoodLine(lines, e);
      }
    }
  }

  /** Loading a non-empty file is loading its first line and, if that succeeds, the rest. */
  lemma LoadFromStep(net: Net, lines: seq<string>)
    requires lines != []
    ensures LoadLine(net, lines[0]).Err? ==> LoadFrom(net, lines) == Err(LoadLine(net, lines[0]).error)
    ensures LoadLine(net, lines[0]).Ok? ==> LoadFrom(net, lines) == LoadFrom(LoadLine(net, lines[0]).value, lines[1..])
  {
  }

  /** After a line that parses, the first refused line is the first refused line of the rest. */
  lemma FirstFailureAfterGoodLine(lines: seq<string>, e: ParseError)
    requires lines != [] && ParseFact(lines[0]).Ok?
    ensures (exists i :: FirstFailure(lines, i, e)) <==> exists i :: FirstFailure(lines[1..], i, e)
  {
    var ps := Outcomes(lines);
    assert ps[1..] == Outcomes(lines[1..]);
    if i: nat :| FirstFailure(lines, i, e) {
      assert i != 0;
      FirstErrInTail(ps, i - 1, e);
      assert FirstFailure(lines[1..], i - 1, e);
    }
    if i: nat :| FirstFailure(lines[1..], i, e) {
      FirstErrFromTail(ps, i, e);
      assert FirstFailure(lines, i + 1, e);
    }
  }

  /** When the first line is refused, it is the first refused line. */
  lemma FailureAtBadHead(lines: seq<string>, e: ParseError)
    requires lines != [] && ParseFact(lines[0]).Err?
    ensures (exists i :: FirstFailure(lines, i, e)) <==> ParseFact(lines[0]) == Err(e)
  {
    var ps := Outcomes(lines);
    assert ps[0] == ParseFact(lines[0]);
    FirstErrAtErrHead(ps, e);
    if ParseFact(lines[0]) == Err(e) {
      assert FirstFailure(lines, 0, e);
    }
  }

  /** When the first outcome is an error, it is the first error. */
  lemma FirstErrAtErrHead(ps: seq<Result<Option<Fact>, ParseError>>, e: ParseError)
    requires ps != [] && ps[0].Err?
    ensures (exists i :: FirstErr(ps, i, e)) <==> ps[0] == Err(e)
  {
    if ps[0] == Err(e) {
      assert FirstErr(ps, 0, e);
    }
  }

  lemma FirstErrInTail(ps: seq<Result<Option<Fact>, ParseError>>, i: nat, e: ParseError)
    requires FirstErr(ps, i + 1, e)
    ensures FirstErr(ps[1..], i, e)
  {
  }

  lemma FirstErrFromTail(ps: seq<Result<Option<Fact>, ParseError>>, i: nat, e: ParseError)
    requires ps != [] && ps[0].Ok?
    requires FirstErr(ps[1..], i, e)
    ensures FirstErr(ps, i + 1, e)
  {
    forall j | 0 <= j < i + 1 ensures ps[j].Ok? {
      if j > 0 {
        assert ps[j] == ps[1..][j - 1];
      }
    }
  }

  /** The load succeeds exactly when every line parses. */
  lemma LoadSucceedsIffAllParse(net: Net, lines: seq<string>)
    ensures LoadFrom(net, lines).Ok? <==> forall i :: 0 <= i < |lines| ==> ParseFact(lines[i]).Ok?
  {
    if LoadFrom(net, lines).Err? {
      LoadFailsAtFirstBadLine(net, lines, LoadFrom(net, lines).error);
    } else if i :| 0 <= i < |lines| && ParseFact(lines[i]).Err? {
      var j := FirstBad(lines, i);
      LoadFailsAtFirstBadLine(net, lines, ParseFact(lines[j]).error);
    }
  }

  /** The first refused line at or before line `i`. */
  lemma {:induction false} FirstBad(lines: seq<string>, i: nat) returns (j: nat)
    requires i < |lines| && ParseFact(lines[i]).Err?
    ensures j <= i && ParseFact(lines[j]).Err? && FirstFailure(lines, j, ParseFact(lines[j]).error)
    decreases i
  {
    if j' :| 0 <= j' < i && ParseFact(lines[j']).Err? {
      j := FirstBad(lines, j');
    } else {
      j := i;
    }
  }

  /** A successful load keeps the network's invariant. */
  lemma {:induction false} LoadKeepsValid(net: Net, lines: seq<string>)
    requires Valid(net) && LoadFrom(net, lines).Ok?
    ensures Valid(LoadFrom(net, lines).value)
    decreases |lines|
  {
    if lines != [] {
      LoadLineKeepsValid(net, lines[0]);
      LoadKeepsValid(LoadLine(net, lines[0]).value, lines[1..]);
    }
  }

  /** Loading `a` then `b` is loading `a` and continuing with `b` from the result. */
  lemma {:induction false} LoadConcat(net: Net, a: seq<string>, b: seq<string>)
    ensures LoadFrom(net, a + b) == match LoadFrom(net, a) case Err(e) => Err(e) case Ok(n) => LoadFrom(n, b)
    decreases |a|
  {
    if a == [] {
      assert a + b == b;
    } else {
      assert (a + b)[0] == a[0];
      assert (a + b)[1..] == a[1..] + b;
      if LoadLine(net, a[0]).Ok? {
        LoadConcat(LoadLine(net, a[0]).value, a[1..], b);
      }
    }
  }

  /** Blank and comment lines can be dropped from a file without changing what loads. */
  lemma LoadIgnoresBlank(net: Net, a: seq<string>, line: string, b: seq<string>)
    requires ParseFact(line) == Ok(None)
    ensures LoadFrom(net, a + [line] + b) == LoadFrom(net, a + b)
  {
    Regroup(a, [line], b);
    LoadConcat(net, a, [line] + b);
    LoadConcat(net, a, b);
    if LoadFrom(net, a).Ok? {
      LoadSkipsLine(LoadFrom(net, a).value, line, b);
    }
  }

  lemma Regroup(a: seq<string>, m: seq<string>, b: seq<string>)
    ensures a + m + b == a + (m + b)
  {
  }

  lemma LoadSkipsLine(net: Net, line: string, b: seq<string>)
    requires ParseFact(line) == Ok(None)
    ensures LoadFrom(net, [line] + b) == LoadFrom(net, b)
  {
    assert ([line] + b)[0] == line;
    assert ([line] + b)[1..] == b;
    assert LoadLine(net, line) == Ok(net);
  }

  /** A line repeated right after itself changes nothing. */
  lemma LoadRepeatedLine(net: Net, a: seq<string>, line: string, b: seq<string>)
    ensures LoadFrom(net, a + [line, line] + b) == LoadFrom(net, a + [line] + b)
  {
    Regroup(a, [line, line], b);
    Regroup(a, [line], b);
    LoadConcat(net, a, [line, line] + b);
    LoadConcat(net, a, [line] + b);
    if LoadFrom(net, a).Ok? {
      LoadRepeatedHead(LoadFrom(net, a).value, line, b);
    }
  }

  lemma LoadRepeatedHead(net: Net, line: string, b: seq<string>)
    ensures LoadFrom(net, [line, line] + b) == LoadFrom(net, [line] + b)
  {
    assert ([line, line] + b)[0] == line;
    assert ([line, line] + b)[1..] == [line] + b;
    assert ([line] + b)[0] == line;
    assert ([line] + b)[1..] == b;
    if LoadLine(net, line).Ok? {
      LoadLineTwice(net, line);
    }
  }
}
