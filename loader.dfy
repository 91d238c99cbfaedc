/**
 * `load_file` on the lines of an already opened file: a new network
 * receives, line by line, the fact each non-blank, non-comment line
 * states, and the first refused line ends the load with its error.
 */
module Loader {
  import opened Wrappers
  import opened Text
  import opened Network
  import opened Facts
  import opened SemanticNetwork

  method LoadLines(lines: seq<string>) returns (r: Result<SemanticNet, ParseError>)
    ensures r.Err? <==> LoadFrom(Empty, lines).Err?
    ensures r.Err? ==> r.error == LoadFrom(Empty, lines).error
    ensures r.Ok? ==> fresh(r.value) && r.value.Model() == LoadFrom(Empty, lines).value && r.value.Valid()
  {
    var net := new SemanticNet();
    for i := 0 to |lines|
      invariant net.Valid()
      invariant LoadFrom(Empty, lines) == LoadFrom(net.Model(), lines[i..])
    {
      LoadFromLine(net.Model(), lines, i);
      ParseFactOfStripped(lines[i]);
      var raw := Strip(lines[i]);
      if raw != [] && raw[0] != '#' {
        var fact := ParseFact(raw);
        match fact
        case Err(e) =>
          return Err(e);
        case Ok(None) =>
        case Ok(Some(f)) =>
          ApplyFact(net, f);
      }
    }
    assert lines[|lines|..] == [];
    return Ok(net);
  }

  /** The dispatch of a parsed fact to the builder of its kind. */
  method ApplyFact(net: SemanticNet, f: Fact)
    modifies net
    ensures net.Model() == Apply(old(net.Model()), f)
    ensures old(net.Valid()) ==> net.Valid()
  {
    match f
    case IsA(a, b) => net.AddIsA(a, b);
    case InstanceOf(i, c) => net.AddInstance(i, c);
    case Attribute(e, a, v) => net.AddAttribute(e, a, v);
  }
}
