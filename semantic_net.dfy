/**
 * The `SemanticNet` object: five fields updated in place by the three fact
 * builders, the breadth-first class-chain lookup as a loop over a queue and
 * a visited set, and the effective-attribute dispatch. Every method is
 * specified by the value-level functions of `Network` and `Inheritance`
 * applied to `Model()`, the snapshot of the fields.
 */
module SemanticNetwork {
  import opened Wrappers
  import opened Network
  import opened Inheritance

  class SemanticNet {
    var parents: map<string, seq<string>>
    var classOf: map<string, string>
    var attrs: map<string, map<string, string>>
    var classes: set<string>
    var instances: set<string>

    /** The current state as a value. */
    function Model(): Net
      reads this
    {
      Net(parents, classOf, attrs, classes, instances)
    }

    ghost predicate Valid()
      reads this
    {
      Network.Valid(Model())
    }

    constructor ()
      ensures Model() == Empty
      ensures Valid()
    {
      parents := map[];
      classOf := map[];
      attrs := map[];
      classes := {};
      instances := {};
    }

    /** `add_es_un`: adds `parent` to the parents of `child`; both become classes. */
    method AddIsA(child: string, parent: string)
      modifies this
      ensures Model() == Network.AddIsA(old(Model()), child, parent)
      ensures old(Valid()) ==> Valid()
    {
      var ps := if child in parents then parents[child] else [];
      if parent !in ps {
        ps := ps + [parent];
      }
      parents := parents[child := ps];
      classes := classes + {child};
      classes := classes + {parent};
    }

    /** `add_instancia`: records the class of `inst`. */
    method AddInstance(inst: string, klass: string)
      modifies this
      ensures Model() == Network.AddInstance(old(Model()), inst, klass)
      ensures old(Valid()) ==> Valid()
    {
      classOf := classOf[inst := klass];
      instances := instances + {inst};
      classes := classes + {klass};
    }

    /** `add_atributo`: sets the direct value of `attr` on `entity`. */
    method AddAttribute(entity: string, attr: string, value: string)
      modifies this
      ensures Model() == Network.AddAttribute(old(Model()), entity, attr, value)
      ensures old(Valid()) ==> Valid()
    {
      var own := if entity in attrs then attrs[entity] else map[];
      attrs := attrs[entity := own[attr := value]];
    }

    /**
     * `_get_attr_from_class_chain`: the queue loop. The answer is the one
     * `ChainLookup` specifies (a nearest holder's value, or nothing), and the
     * ghost trace `checked` lists the nodes whose attributes were examined:
     * each at most once, all of them the start or nodes of the is-a graph.
     */
    method GetAttrFromClassChain(klass: Option<string>, attr: string) returns (r: Option<string>, ghost checked: seq<string>)
      ensures r == ChainLookup(Model(), klass, attr)
      ensures Resolves(Model(), klass, attr, r)
      ensures NoDuplicates(checked)
      ensures forall n :: n in checked ==> n in Nodes(Model()) || klass == Some(n)
    {
      checked := [];
      if klass.None? || klass.value == "" {
        return None, checked;
      }
      ghost var net := Model();
      ghost var U := Nodes(net) + {klass.value};
      var visited: set<string> := {};
      var q := [klass.value];
      while q != []
        invariant forall i :: 0 <= i < |q| ==> q[i] in U
        invariant Nodes(net) <= U
        invariant Search(net, attr, q, visited, U) == ChainLookup(net, klass, attr)
        invariant Trace(checked, visited)
        invariant visited <= U
        decreases |U - visited|, |q|
      {
        var c := q[0];
        if c in visited {
          SearchSkips(net, attr, q, visited, U);
          q := q[1..];
          continue;
        }
        SearchExpandsOrAnswers(net, attr, q, visited, U);
        MarkingShrinks(U, visited, c);
        TraceGrows(checked, visited, c);
        visited := visited + {c};
        checked := checked + [c];
        if c in attrs && attr in attrs[c] {
          TraceInside(checked, visited, U);
          return Some(attrs[c][attr]), checked;
        }
        var ps := if c in parents then parents[c] else [];
        q := AppendUnvisited(q[1..], ps, visited);
      }
      TraceInside(checked, visited, U);
      return None, checked;
    }

    /** `get_effective_attr`: the instance, class and unknown-entity cases. */
    method GetEffectiveAttr(entity: string, attr: string) returns (r: Option<string>)
      ensures r == EffectiveAttr(Model(), entity, attr)
    {
      if entity in instances {
        if entity in attrs && attr in attrs[entity] {
          return Some(attrs[entity][attr]);
        }
        var klass := Get(classOf, entity);
        ghost var checked;
        r, checked := GetAttrFromClassChain(klass, attr);
        return;
      }
      if entity in classes || entity in attrs {
        if entity in attrs && attr in attrs[entity] {
          return Some(attrs[entity][attr]);
        }
        ghost var checked;
        r, checked := GetAttrFromClassChain(Some(entity), attr);
        return;
      }
      return None;
    }
  }

  /** `checked` lists the elements of `visited`, each once. */
  ghost predicate Trace(checked: seq<string>, visited: set<string>) {
    NoDuplicates(checked) && forall n :: n in checked <==> n in visited
  }

  lemma TraceGrows(checked: seq<string>, visited: set<string>, c: string)
    requires Trace(checked, visited) && c !in visited
    ensures Trace(checked + [c], visited + {c})
  {
  }

  lemma TraceInside(checked: seq<string>, visited: set<string>, S: set<string>)
    requires Trace(checked, visited) && visited <= S
    ensures forall n :: n in checked ==> n in S
  {
  }

  /** The `for p in parents: if p not in visited: q.append(p)` loop. */
  method AppendUnvisited(q: seq<string>, ps: seq<string>, visited: set<string>) returns (r: seq<string>)
    ensures r == q + Unvisited(ps, visited)
  {
    r := q;
    for i := 0 to |ps|
      invariant r == q + Unvisited(ps[..i], visited)
    {
      assert ps[..i + 1][..i] == ps[..i];
      if ps[i] !in visited {
        r := r + [ps[i]];
      }
    }
    assert ps[..|ps|] == ps;
  }

  /** One step of the search from a head that was already visited: it is dropped. */
  lemma SearchSkips(net: Net, attr: string, q: seq<string>, visited: set<string>, U: set<string>)
    requires forall i :: 0 <= i < |q| ==> q[i] in U
    requires Nodes(net) <= U
    requires q != [] && q[0] in visited
    ensures forall i :: 0 <= i < |q| - 1 ==> q[1..][i] in U
    ensures Search(net, attr, q, visited, U) == Search(net, attr, q[1..], visited, U)
  {
  }

  /** One step of the search from a head that is not yet visited. */
  lemma SearchExpandsOrAnswers(net: Net, attr: string, q: seq<string>, visited: set<string>, U: set<string>)
    requires forall i :: 0 <= i < |q| ==> q[i] in U
    requires Nodes(net) <= U
    requires q != [] && q[0] !in visited
    ensures Holds(net, q[0], attr) ==> Search(net, attr, q, visited, U) == Some(net.attrs[q[0]][attr])
    ensures var q' := q[1..] + Unvisited(ParentsOf(net, q[0]), visited + {q[0]});
      !Holds(net, q[0], attr) ==>
        && (forall i :: 0 <= i < |q'| ==> q'[i] in U)
        && Search(net, attr, q, visited, U) == Search(net, attr, q', visited + {q[0]}, U)
  {
    if !Holds(net, q[0], attr) {
      SearchExpands(net, attr, q, visited, U);
    }
  }
}
