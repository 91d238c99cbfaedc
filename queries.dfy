/**
 * The two questions the program answers: `atributo X de Y?` (the
 * effective value of one attribute of one entity) and
 * `clases o instancias con atributo X y valor Z?` (every entity whose
 * effective value of `X` is `Z`, in sorted order). Keywords are matched
 * without regard to letter case; `X`, `Y` and `Z` are runs of
 * non-whitespace; anything else gets the usage text.
 */
module Queries {
  import opened Wrappers
  import opened Ordering
  import opened Text
  import opened Network
  import opened Inheritance
  import opened SemanticNetwork

  datatype Query =
    | AttrOf(attr: string, entity: string)
    | WithValue(attr: string, value: string)
    | Unrecognized

  /** The last token of a question, `(\S+)\?`: a word followed by a question mark. */
  function Subject(t: string): (r: Option<string>)
    ensures r.Some? ==> t == r.value + "?" && r.value != []
    ensures r.Some? && HasNoSpace(t) ==> IsWord(r.value)
    ensures forall w :: IsWord(w) && t == w + "?" ==> r == Some(w)
  {
    if |t| >= 2 && t[|t| - 1] == '?' then Some(t[..|t| - 1]) else None
  }

  /**
   * Recognition of the two query patterns. Both patterns are anchored at
   * both ends and separate their parts by whitespace, so a query is
   * recognised by its whitespace-separated tokens: four for the first
   * pattern, nine for the second.
   */
  function ParseQuery(q: string): (r: Query)
    ensures r.AttrOf? ==> IsWord(r.attr) && IsWord(r.entity)
    ensures r.WithValue? ==> IsWord(r.attr) && IsWord(r.value)
  {
    var ts := Tokens(q);
    if && |ts| == 4
       && SameIgnoringCase(ts[0], "atributo") && SameIgnoringCase(ts[2], "de")
       && Subject(ts[3]).Some?
    then AttrOf(ts[1], Subject(ts[3]).value)
    else if && |ts| == 9
            && SameIgnoringCase(ts[0], "clases") && SameIgnoringCase(ts[1], "o")
            && SameIgnoringCase(ts[2], "instancias") && SameIgnoringCase(ts[3], "con")
            && SameIgnoringCase(ts[4], "atributo") && SameIgnoringCase(ts[6], "y")
            && SameIgnoringCase(ts[7], "valor") && Subject(ts[8]).Some?
    then WithValue(ts[5], Subject(ts[8]).value)
    else Unrecognized
  }

  /** A token equal to a lower-case keyword up to letter case is a word. */
  lemma KeywordTokenIsWord(t: string, kw: string)
    requires kw != [] && forall i :: 0 <= i < |kw| ==> 'a' <= kw[i] <= 'z'
    requires SameIgnoringCase(t, kw)
    ensures IsWord(t)
  {
    forall i | 0 <= i < |t| ensures !IsSpace(t[i]) {
      assert Lower(t[i]) == Lower(kw[i]);
    }
  }

  /**
   * The first pattern, completeness: `atributo X de Y?` with any letter
   * case in its two keywords, any whitespace in front, at least some
   * between the parts and any after, is recognised as asking for `X` of `Y`.
   */
  lemma AttrQueryComplete(lead: string, kw1: string, x: string, kw2: string, y: string, gs: seq<string>)
    requires SameIgnoringCase(kw1, "atributo") && SameIgnoringCase(kw2, "de")
    requires IsWord(x) && IsWord(y)
    requires AllSpace(lead) && |gs| == 4 && Separators(gs)
    ensures ParseQuery(lead + Spread([kw1, x, kw2, y + "?"], gs)) == AttrOf(x, y)
  {
    KeywordTokenIsWord(kw1, "atributo");
    KeywordTokenIsWord(kw2, "de");
    QuestionIsWord(y);
    TokensOfLayout(lead, [kw1, x, kw2, y + "?"], gs);
  }

  /**
   * The first pattern, soundness: a query recognised as asking for `X` of
   * `Y` is `atributo X de Y?` laid out with whitespace, its keywords in
   * some letter case.
   */
  lemma AttrQuerySound(q: string) returns (lead: string, kw1: string, kw2: string, gs: seq<string>)
    requires ParseQuery(q).AttrOf?
    ensures SameIgnoringCase(kw1, "atributo") && SameIgnoringCase(kw2, "de")
    ensures AllSpace(lead) && |gs| == 4 && Separators(gs)
    ensures q == lead + Spread([kw1, ParseQuery(q).attr, kw2, ParseQuery(q).entity + "?"], gs)
  {
    var ts := Tokens(q);
    lead, gs := LayoutOfTokens(q);
    kw1, kw2 := ts[0], ts[2];
    assert ts == [kw1, ParseQuery(q).attr, kw2, ParseQuery(q).entity + "?"];
  }

  /** The single-spaced form of the first pattern. */
  lemma AttrQueryRecognised(kw1: string, x: string, kw2: string, y: string)
    requires SameIgnoringCase(kw1, "atributo") && SameIgnoringCase(kw2, "de")
    requires IsWord(x) && IsWord(y)
    ensures ParseQuery(Unwords([kw1, x, kw2, y + "?"])) == AttrOf(x, y)
  {
    var gs := UnwordsLayout([kw1, x, kw2, y + "?"]);
    AttrQueryComplete("", kw1, x, kw2, y, gs);
    assert "" + Spread([kw1, x, kw2, y + "?"], gs) == Spread([kw1, x, kw2, y + "?"], gs);
  }

  lemma QuestionIsWord(y: string)
    requires IsWord(y)
    ensures IsWord(y + "?")
  {
    assert forall i :: 0 <= i < |y| ==> (y + "?")[i] == y[i];
  }

  /** The seven keywords of the second pattern, in order. */
  const ValueKeywords: seq<string> := ["clases", "o", "instancias", "con", "atributo", "y", "valor"]

  /** Seven words that equal the keywords of the second pattern up to letter case. */
  predicate ValueKeywordsIgnoringCase(kws: seq<string>) {
    |kws| == 7 && forall i :: 0 <= i < 7 ==> SameIgnoringCase(kws[i], ValueKeywords[i])
  }

  /** The parts of `clases o instancias con atributo X y valor Z?`, with keywords `kws`. */
  function ValueTokens(kws: seq<string>, x: string, z: string): seq<string>
    requires |kws| == 7
  {
    [kws[0], kws[1], kws[2], kws[3], kws[4], x, kws[5], kws[6], z + "?"]
  }

  lemma ValueKeywordsAreLower()
    ensures forall i :: 0 <= i < 7 ==>
              ValueKeywords[i] != [] && (forall j :: 0 <= j < |ValueKeywords[i]| ==> 'a' <= ValueKeywords[i][j] <= 'z')
  {
  }

  lemma ValueTokensAreWords(kws: seq<string>, x: string, z: string)
    requires ValueKeywordsIgnoringCase(kws) && IsWord(x) && IsWord(z)
    ensures var ts := ValueTokens(kws, x, z); forall i :: 0 <= i < |ts| ==> IsWord(ts[i])
  {
    ValueKeywordsAreLower();
    forall i | 0 <= i < 7 ensures IsWord(kws[i]) {
      KeywordTokenIsWord(kws[i], ValueKeywords[i]);
    }
    QuestionIsWord(z);
  }

  /**
   * The second pattern, completeness: `clases o instancias con atributo X
   * y valor Z?` with any letter case in its seven keywords, laid out with
   * whitespace as the first pattern is, is recognised as asking for the
   * entities whose `X` is `Z`.
   */
  lemma ValueQueryComplete(lead: string, kws: seq<string>, x: string, z: string, gs: seq<string>)
    requires ValueKeywordsIgnoringCase(kws) && IsWord(x) && IsWord(z)
    requires AllSpace(lead) && |gs| == 9 && Separators(gs)
    ensures ParseQuery(lead + Spread(ValueTokens(kws, x, z), gs)) == WithValue(x, z)
  {
    ValueTokensAreWords(kws, x, z);
    TokensOfLayout(lead, ValueTokens(kws, x, z), gs);
    ValueTokensRecognised(lead + Spread(ValueTokens(kws, x, z), gs), kws, x, z);
  }

  lemma ValueTokensRecognised(q: string, kws: seq<string>, x: string, z: string)
    requires ValueKeywordsIgnoringCase(kws) && IsWord(z) && Tokens(q) == ValueTokens(kws, x, z)
    ensures ParseQuery(q) == WithValue(x, z)
  {
    assert Subject(Tokens(q)[8]) == Some(z);
    assert SameIgnoringCase(kws[0], "clases") && SameIgnoringCase(kws[1], "o");
    assert SameIgnoringCase(kws[2], "instancias") && SameIgnoringCase(kws[3], "con");
    assert SameIgnoringCase(kws[4], "atributo") && SameIgnoringCase(kws[5], "y");
    assert SameIgnoringCase(kws[6], "valor");
  }

  /**
   * The second pattern, soundness: a query recognised as asking for the
   * entities whose `X` is `Z` is `clases o instancias con atributo X y
   * valor Z?` laid out with whitespace, its keywords in some letter case.
   */
  lemma ValueQuerySound(q: string) returns (lead: string, kws: seq<string>, gs: seq<string>)
    requires ParseQuery(q).WithValue?
    ensures ValueKeywordsIgnoringCase(kws)
    ensures AllSpace(lead) && |gs| == 9 && Separators(gs)
    ensures q == lead + Spread(ValueTokens(kws, ParseQuery(q).attr, ParseQuery(q).value), gs)
  {
    var ts := Tokens(q);
    lead, gs := LayoutOfTokens(q);
    kws := [ts[0], ts[1], ts[2], ts[3], ts[4], ts[6], ts[7]];
    assert ValueKeywordsIgnoringCase(kws);
    assert ts == ValueTokens(kws, ParseQuery(q).attr, ParseQuery(q).value);
  }

  /** The single-spaced form of the second pattern. */
  lemma ValueQueryRecognised(kws: seq<string>, x: string, z: string)
    requires ValueKeywordsIgnoringCase(kws) && IsWord(x) && IsWord(z)
    ensures ParseQuery(Unwords(ValueTokens(kws, x, z))) == WithValue(x, z)
  {
    var gs := UnwordsLayout(ValueTokens(kws, x, z));
    ValueQueryComplete("", kws, x, z, gs);
    assert "" + Spread(ValueTokens(kws, x, z), gs) == Spread(ValueTokens(kws, x, z), gs);
  }

  /** Whitespace in front of a query does not change how it is recognised. */
  lemma {:induction false} LeadingSpaceIgnored(w: string, q: string)
    requires AllSpace(w)
    ensures ParseQuery(w + q) == ParseQuery(q)
    decreases |w|
  {
    TokensAfterSpace(w, q);
  }

  // ---------- answers ----------

  datatype Answer =
    | Value(attr: string, entity: string, value: string)
    | NoValue(attr: string, entity: string)
    | Matches(entities: seq<string>)
    | NoMatches(attr: string, value: string)
    | Help

  predicate IsEntity(net: Net, e: string) {
    e in net.classes || e in net.instances || e in net.attrs
  }

  /** The elements `e` of `es` whose effective value of `attr` is `value`, in order. */
  function Filter(net: Net, es: seq<string>, attr: string, value: string): (r: seq<string>)
    ensures forall e :: e in r <==> e in es && EffectiveAttr(net, e, attr) == Some(value)
    ensures StrictlyIncreasing(es) ==> StrictlyIncreasing(r)
  {
    if es == [] then []
    else
      var init := Filter(net, es[..|es| - 1], attr, value);
      var last := es[|es| - 1];
      SplitLast(es);
      if EffectiveAttr(net, last, attr) == Some(value) then
        AppendLarger(init, last);
        init + [last]
      else init
  }

  /** `es` is its front followed by its last element; in an increasing `es` the front is increasing and below it. */
  lemma SplitLast(es: seq<string>)
    requires es != []
    ensures var front, last := es[..|es| - 1], es[|es| - 1];
      && (forall e :: e in es <==> e in front || e == last)
      && (StrictlyIncreasing(es) ==> StrictlyIncreasing(front) && forall e :: e in front ==> Less(e, last))
  {
    assert es == es[..|es| - 1] + [es[|es| - 1]];
  }

  /** Extending the scanned prefix by one entity keeps that entity when its value matches. */
  lemma FilterStep(net: Net, es: seq<string>, i: nat, attr: string, value: string)
    requires i < |es|
    ensures Filter(net, es[..i + 1], attr, value)
         == Filter(net, es[..i], attr, value) + (if EffectiveAttr(net, es[i], attr) == Some(value) then [es[i]] else [])
  {
    assert es[..i + 1][..i] == es[..i];
  }

  /** Appending an element above all others keeps a sequence increasing. */
  lemma AppendLarger(s: seq<string>, x: string)
    ensures StrictlyIncreasing(s) && (forall e :: e in s ==> Less(e, x)) ==> StrictlyIncreasing(s + [x])
  {
    if StrictlyIncreasing(s) && forall e :: e in s ==> Less(e, x) {
      forall i, j | 0 <= i < j < |s| + 1 ensures Less((s + [x])[i], (s + [x])[j]) {
        if j == |s| {
          assert s[i] in s;
        }
      }
    }
  }

  /**
   * The answer to the second question: the entities whose effective value
   * of `attr` is `value`, each once, in increasing order.
   */
  function MatchingEntities(net: Net, attr: string, value: string): (r: seq<string>)
    ensures StrictlyIncreasing(r)
    ensures forall e :: e in r <==> IsEntity(net, e) && EffectiveAttr(net, e, attr) == Some(value)
  {
    Filter(net, AllEntities(net), attr, value)
  }

  /** The matching entities are the only increasing listing of the entities with that value. */
  lemma MatchingEntitiesUnique(net: Net, attr: string, value: string, s: seq<string>)
    requires StrictlyIncreasing(s)
    requires forall e :: e in s <==> IsEntity(net, e) && EffectiveAttr(net, e, attr) == Some(value)
    ensures s == MatchingEntities(net, attr, value)
  {
    IncreasingUnique(s, MatchingEntities(net, attr, value));
  }

  /** `answer_query` as a value: which answer a query gets on network `net`. */
  function Respond(net: Net, q: string): (a: Answer)
    ensures a == Help <==> ParseQuery(q).Unrecognized?
    ensures ParseQuery(q).AttrOf? ==> a.Value? || a.NoValue?
    ensures a.Value? ==> ParseQuery(q) == AttrOf(a.attr, a.entity) && EffectiveAttr(net, a.entity, a.attr) == Some(a.value)
    ensures a.NoValue? ==> ParseQuery(q) == AttrOf(a.attr, a.entity) && EffectiveAttr(net, a.entity, a.attr).None?
    ensures ParseQuery(q).WithValue? ==> a.Matches? || a.NoMatches?
    ensures a.NoMatches? ==>
              && ParseQuery(q) == WithValue(a.attr, a.value)
              && forall e :: IsEntity(net, e) ==> EffectiveAttr(net, e, a.attr) != Some(a.value)
    ensures a.Matches? ==>
              && ParseQuery(q).WithValue?
              && a.entities != []
              && StrictlyIncreasing(a.entities)
              && forall e :: e in a.entities <==>
                   IsEntity(net, e) && EffectiveAttr(net, e, ParseQuery(q).attr) == Some(ParseQuery(q).value)
  {
    match ParseQuery(q)
    case AttrOf(x, y) =>
      (match EffectiveAttr(net, y, x) case Some(v) => Value(x, y, v) case None => NoValue(x, y))
    case WithValue(x, z) =>
      var ms := MatchingEntities(net, x, z);
      if ms == [] then NoMatches(x, z) else Matches(ms)
    case Unrecognized => Help
  }

  /** `", ".join(parts)`. */
  function JoinComma(parts: seq<string>): string {
    if parts == [] then "" else if |parts| == 1 then parts[0] else parts[0] + ", " + JoinComma(parts[1..])
  }

  /** Each part with a space in front. */
  function SpaceBefore(parts: seq<string>): (r: seq<string>)
    ensures |r| == |parts| && forall i :: 0 <= i < |parts| ==> r[i] == " " + parts[i]
  {
    seq(|parts|, i requires 0 <= i < |parts| => " " + parts[i])
  }

  /** `", ".join(parts)` is `",".join` of the parts, every part after the first with a space in front. */
  lemma {:induction false} JoinCommaAsJoin(parts: seq<string>)
    requires parts != []
    ensures JoinComma(parts) == Join([parts[0]] + SpaceBefore(parts[1..]))
    decreases |parts|
  {
    if |parts| > 1 {
      var p, rest := parts[0], parts[1..];
      var tail := [rest[0]] + SpaceBefore(rest[1..]);
      JoinCommaAsJoin(rest);
      assert SpaceBefore(rest) == [[' '] + rest[0]] + tail[1..];
      JoinExtendFirst(' ', tail);
      assert ([p] + SpaceBefore(rest))[1..] == SpaceBefore(rest);
      assert Join([p] + SpaceBefore(rest)) == p + "," + Join(SpaceBefore(rest));
      assert JoinComma(parts) == p + ", " + JoinComma(rest);
      CommaSpaceRegroup(p, JoinComma(rest));
    }
  }

  lemma CommaSpaceRegroup(p: string, j: string)
    ensures p + ", " + j == p + "," + (" " + j)
  {
  }

  /**
   * The listing of matches reads back: splitting it at the commas and
   * stripping the pieces gives the names, as long as they are trimmed and
   * free of commas, which every name a fact line can give is.
   */
  lemma JoinCommaReadBack(parts: seq<string>)
    requires parts != []
    requires forall i :: 0 <= i < |parts| ==> Trimmed(parts[i]) && ',' !in parts[i]
    ensures StripAll(Split(JoinComma(parts))) == parts
  {
    var pad := [parts[0]] + SpaceBefore(parts[1..]);
    JoinCommaAsJoin(parts);
    PaddedPieces(parts);
    SplitJoin(pad);
    StripAllPadded(parts);
  }

  lemma PaddedPieces(parts: seq<string>)
    requires parts != [] && forall i :: 0 <= i < |parts| ==> ',' !in parts[i]
    ensures var pad := [parts[0]] + SpaceBefore(parts[1..]);
      |pad| >= 1 && forall i :: 0 <= i < |pad| ==> ',' !in pad[i]
  {
    var pad := [parts[0]] + SpaceBefore(parts[1..]);
    forall i | 0 <= i < |pad| ensures ',' !in pad[i] {
      if i > 0 {
        assert pad[i] == " " + parts[i];
      }
    }
  }

  lemma StripAllPadded(parts: seq<string>)
    requires parts != [] && forall i :: 0 <= i < |parts| ==> Trimmed(parts[i])
    ensures StripAll([parts[0]] + SpaceBefore(parts[1..])) == parts
  {
    var pad := [parts[0]] + SpaceBefore(parts[1..]);
    forall i | 0 <= i < |pad| ensures StripAll(pad)[i] == parts[i] {
      if i == 0 {
        StripOfPadded([], parts[0], []);
        assert [] + parts[0] + [] == parts[0];
      } else {
        assert pad[i] == " " + parts[i] + [];
        StripOfPadded(" ", parts[i], []);
      }
    }
  }

  /** The reply text for each answer. */
  function Message(a: Answer): string {
    match a
    case Value(x, y, v) => "atributo " + x + " de " + y + " = " + v
    case NoValue(x, y) => y + " no tiene atributo " + x + " (ni por herencia)."
    case Matches(es) => "Coincidencias: " + JoinComma(es)
    case NoMatches(x, z) => "No hay clases o instancias con atributo " + x + " y valor " + z + "."
    case Help => "Consulta no reconocida. Usa:\n- atributo X de Y?\n- clases o instancias con atributo X y valor Z?"
  }

  /** The scan of the second question: every entity in sorted order, kept when its value matches. */
  method ScanMatches(net: SemanticNet, attr: string, value: string) returns (matches: seq<string>)
    ensures matches == MatchingEntities(net.Model(), attr, value)
  {
    var ents := AllEntities(net.Model());
    matches := [];
    for i := 0 to |ents|
      invariant matches == Filter(net.Model(), ents[..i], attr, value)
    {
      FilterStep(net.Model(), ents, i, attr, value);
      var v := net.GetEffectiveAttr(ents[i], attr);
      if v == Some(value) {
        matches := matches + [ents[i]];
      }
    }
    assert ents[..|ents|] == ents;
  }

  /** `answer_query(net, q)`. */
  method AnswerQuery(net: SemanticNet, q: string) returns (reply: string)
    ensures reply == Message(Respond(net.Model(), q))
  {
    var a: Answer;
    match ParseQuery(q) {
      case AttrOf(x, y) =>
        var v := net.GetEffectiveAttr(y, x);
        if v.None? {
          a := NoValue(x, y);
        } else {
          a := Value(x, y, v.value);
        }
      case WithValue(x, z) =>
        var ms := ScanMatches(net, x, z);
        if ms == [] {
          a := NoMatches(x, z);
        } else {
          a := Matches(ms);
        }
      case Unrecognized =>
        a := Help;
    }
    reply := Message(a);
  }
}
