/**
 * Consequences of the resolution contract: a value shared by every nearest
 * holder wins, a parent's value is inherited, a diamond yields one of its
 * two values, a cycle without a holder yields nothing, and the
 * dog-and-animal example network answers with Rex's own sound, Dog's
 * inherited one, and the two entities that sound generic.
 */
module Scenarios {
  import opened Wrappers
  import opened Ordering
  import opened Text
  import opened Network
  import opened Inheritance
  import opened Facts
  import opened Queries

  /** A region that contains the start and is closed under parent edges contains every reachable node. */
  lemma {:induction false} ClosedRegionContainsReach(net: Net, start: string, region: set<string>, k: nat)
    requires start in region
    requires forall m, p :: m in region && p in ParentsOf(net, m) ==> p in region
    ensures Reach(net, start, k) <= region
    decreases k
  {
    if k > 0 {
      ClosedRegionContainsReach(net, start, region, k - 1);
    }
  }

  /**
   * Cycle tolerance: when the start lies in a region closed under parent
   * edges (a cycle, say) and no node of the region holds `attr`, the
   * search ends with nothing.
   */
  lemma ClosedRegionNotFound(net: Net, start: string, attr: string, region: set<string>)
    requires start in region
    requires forall m, p :: m in region && p in ParentsOf(net, m) ==> p in region
    requires forall n :: n in region ==> !Holds(net, n, attr)
    ensures ChainLookup(net, Some(start), attr).None?
  {
    forall k: nat, n | n in Reach(net, start, k) ensures !Holds(net, n, attr) {
      ClosedRegionContainsReach(net, start, region, k);
    }
  }

  /** Two classes that are each other's only parent and hold nothing resolve to nothing. */
  lemma MutualCycleNotFound(net: Net, x: string, y: string, attr: string)
    requires forall p :: p in ParentsOf(net, x) ==> p == y
    requires forall p :: p in ParentsOf(net, y) ==> p == x
    requires !Holds(net, x, attr) && !Holds(net, y, attr)
    ensures x !in net.instances ==> EffectiveAttr(net, x, attr).None?
  {
    ClosedRegionNotFound(net, x, attr, {x, y});
  }

  /**
   * A holder at distance `k` with no holder closer, and every holder at
   * distance `k` agreeing on `v`: the search answers `v`.
   */
  lemma NearestValueWins(net: Net, start: string, attr: string, n: string, k: nat, v: string)
    requires start != ""
    requires NearestHolder(net, start, attr, n, k)
    requires forall m :: m in Reach(net, start, k) && Holds(net, m, attr) ==> net.attrs[m][attr] == v
    ensures ChainLookup(net, Some(start), attr) == Some(v)
  {
    var r := ChainLookup(net, Some(start), attr);
    assert !NoReachableHolder(net, start, attr) by {
      assert n in Reach(net, start, k) && Holds(net, n, attr);
    }
    assert r.Some?;
    var n', k': nat :| NearestHolder(net, start, attr, n', k') && net.attrs[n'][attr] == r.value;
    SameDistance(net, start, attr, n, k, n', k');
    assert n' in Reach(net, start, k) && Holds(net, n', attr);
  }

  /** Two nearest holders lie at the same distance. */
  lemma SameDistance(net: Net, start: string, attr: string, n: string, k: nat, n': string, k': nat)
    requires NearestHolder(net, start, attr, n, k) && NearestHolder(net, start, attr, n', k')
    ensures k == k'
  {
    if k' < k {
      ReachGrows(net, start, k', k - 1);
      assert false;
    } else if k' > k {
      ReachGrows(net, start, k, k' - 1);
      assert false;
    }
  }

  /** A node one edge from `c` that is not `c` is a parent of `c`. */
  lemma OneStep(net: Net, c: string, n: string)
    requires n in Reach(net, c, 1) && n != c
    ensures n in ParentsOf(net, c)
  {
    assert Reach(net, c, 0) == {c};
  }

  /**
   * A class without its own value and with a parent that holds one
   * inherits the value of some parent: a nearer ancestor is never skipped.
   */
  lemma InheritsFromParent(net: Net, c: string, attr: string, p: string)
    requires c != "" && !Holds(net, c, attr)
    requires p in ParentsOf(net, c) && Holds(net, p, attr)
    ensures var r := ChainLookup(net, Some(c), attr);
      r.Some? && exists q :: q in ParentsOf(net, c) && Holds(net, q, attr) && net.attrs[q][attr] == r.value
  {
    var r := ChainLookup(net, Some(c), attr);
    assert p in Step(net, Reach(net, c, 0));
    assert p in Reach(net, c, 1);
    assert !NoReachableHolder(net, c, attr);
    var n, k: nat :| NearestHolder(net, c, attr, n, k) && net.attrs[n][attr] == r.value;
    if k == 0 {
      assert false;
    } else if k > 1 {
      ReachGrows(net, c, 1, k - 1);
      assert false;
    } else {
      OneStep(net, c, n);
    }
  }

  /**
   * The diamond: `d` has parents `b` and `c` and no others, `b` holds
   * `v1`, `c` holds `v2`, `d` holds nothing; `d` resolves to `v1` or `v2`.
   */
  lemma DiamondPicksAParent(net: Net, d: string, b: string, c: string, attr: string, v1: string, v2: string)
    requires d != "" && d !in net.instances && d in net.classes && !Holds(net, d, attr)
    requires b in ParentsOf(net, d) && forall p :: p in ParentsOf(net, d) ==> p == b || p == c
    requires Holds(net, b, attr) && net.attrs[b][attr] == v1
    requires Holds(net, c, attr) && net.attrs[c][attr] == v2
    ensures EffectiveAttr(net, d, attr) == Some(v1) || EffectiveAttr(net, d, attr) == Some(v2)
  {
    InheritsFromParent(net, d, attr, b);
  }

  /** The example facts: dogs are animals, animals sound generic, Rex is a dog that sounds woof. */
  const DogFacts: seq<Fact> := [
    IsA("Dog", "Animal"),
    Attribute("Animal", "sound", "generic"),
    InstanceOf("Rex", "Dog"),
    Attribute("Rex", "sound", "woof")
  ]

  function DogNet(): Net {
    AddAttribute(AddInstance(AddAttribute(AddIsA(Empty, "Dog", "Animal"), "Animal", "sound", "generic"), "Rex", "Dog"), "Rex", "sound", "woof")
  }

  lemma DogWordsAreClean()
    ensures Clean("Dog") && Clean("Animal") && Clean("Rex")
    ensures Clean("sound") && Clean("generic") && Clean("woof")
  {
  }

  lemma DogFactsAreClean()
    ensures forall i :: 0 <= i < |DogFacts| ==> CleanFact(DogFacts[i])
  {
    DogWordsAreClean();
    assert CleanFact(DogFacts[0]) && CleanFact(DogFacts[1]);
    assert CleanFact(DogFacts[2]) && CleanFact(DogFacts[3]);
  }

  /** Loading the canonical lines of the example facts builds the example network. */
  lemma DogFactsLoad()
    ensures LoadFrom(Empty, RenderAll(DogFacts)) == Ok(DogNet())
  {
    DogFactsAreClean();
    LoadRenderAll(Empty, DogFacts);
    DogFactsApplied();
  }

  lemma DogFactsApplied()
    ensures ApplyAll(Empty, DogFacts) == DogNet()
  {
    ApplyFour(Empty, DogFacts);
  }

  lemma ApplyFour(net: Net, fs: seq<Fact>)
    requires |fs| == 4
    ensures ApplyAll(net, fs) == Apply(Apply(Apply(Apply(net, fs[0]), fs[1]), fs[2]), fs[3])
  {
    var n1 := Apply(net, fs[0]);
    var n2 := Apply(n1, fs[1]);
    var n3 := Apply(n2, fs[2]);
    assert fs[1..][0] == fs[1] && fs[1..][1..] == fs[2..];
    assert fs[2..][0] == fs[2] && fs[2..][1..] == fs[3..];
    assert fs[3..][0] == fs[3] && fs[3..][1..] == [];
    assert ApplyAll(n3, fs[3..]) == Apply(n3, fs[3]);
    assert ApplyAll(n1, fs[1..]) == ApplyAll(n2, fs[2..]);
  }

  /** Rex answers with its own sound, shadowing the one Dog inherits from Animal. */
  lemma DogSounds()
    ensures EffectiveAttr(DogNet(), "Rex", "sound") == Some("woof")
    ensures EffectiveAttr(DogNet(), "Dog", "sound") == Some("generic")
    ensures EffectiveAttr(DogNet(), "Animal", "sound") == Some("generic")
  {
    var net := DogNet();
    assert forall p :: p in ParentsOf(net, "Dog") ==> p == "Animal";
    InheritsFromParent(net, "Dog", "sound", "Animal");
  }

  /** The example network knows exactly Animal, Dog and Rex. */
  lemma DogEntities()
    ensures forall e :: IsEntity(DogNet(), e) <==> e == "Animal" || e == "Dog" || e == "Rex"
  {
    DogCatalogs();
    EntitiesOfCatalogs(DogNet());
  }

  /** The class and instance catalogs and the attribute holders of the example network. */
  lemma DogCatalogs()
    ensures DogNet().classes == {"Dog", "Animal"} && DogNet().instances == {"Rex"}
    ensures DogNet().attrs.Keys == {"Animal", "Rex"}
  {
    DogClasses();
    DogInstances();
    DogHolders();
  }

  lemma DogClasses()
    ensures DogNet().classes == {"Dog", "Animal"}
  {
    assert AddIsA(Empty, "Dog", "Animal").classes == {"Dog", "Animal"};
  }

  lemma DogInstances()
    ensures DogNet().instances == {"Rex"}
  {
    assert AddIsA(Empty, "Dog", "Animal").instances == {};
  }

  lemma DogHolders()
    ensures DogNet().attrs.Keys == {"Animal", "Rex"}
  {
    assert AddIsA(Empty, "Dog", "Animal").attrs.Keys == {};
  }

  lemma EntitiesOfCatalogs(net: Net)
    requires net.classes == {"Dog", "Animal"} && net.instances == {"Rex"} && net.attrs.Keys == {"Animal", "Rex"}
    ensures forall e :: IsEntity(net, e) <==> e == "Animal" || e == "Dog" || e == "Rex"
  {
    forall e ensures IsEntity(net, e) <==> e == "Animal" || e == "Dog" || e == "Rex" {
      assert e in net.attrs <==> e in net.attrs.Keys;
    }
  }

  /** The entities whose sound is generic are exactly Animal and Dog, in that order. */
  lemma DogGenericMatches()
    ensures MatchingEntities(DogNet(), "sound", "generic") == ["Animal", "Dog"]
  {
    GenericHolders();
    AnimalBeforeDog();
    MatchingEntitiesUnique(DogNet(), "sound", "generic", ["Animal", "Dog"]);
  }

  /** Animal and Dog are the entities whose sound is generic. */
  lemma GenericHolders()
    ensures forall e :: e in ["Animal", "Dog"] <==> IsEntity(DogNet(), e) && EffectiveAttr(DogNet(), e, "sound") == Some("generic")
  {
    DogSounds();
    DogEntities();
    forall e ensures e in ["Animal", "Dog"] <==> IsEntity(DogNet(), e) && EffectiveAttr(DogNet(), e, "sound") == Some("generic") {
      if e == "Rex" {
        assert e !in ["Animal", "Dog"];
      }
    }
  }

  lemma AnimalBeforeDog()
    ensures StrictlyIncreasing(["Animal", "Dog"])
  {
    assert Less("Animal", "Dog");
  }

  /** A recognised question for the sound of Rex or Dog is answered with its effective value. */
  lemma SoundAnswer(q: string, y: string, v: string)
    requires ParseQuery(q) == AttrOf("sound", y)
    requires (y == "Rex" && v == "woof") || (y == "Dog" && v == "generic")
    ensures Respond(DogNet(), q) == Value("sound", y, v)
  {
    DogSounds();
  }

  /** A recognised question for the entities with a generic sound lists them. */
  lemma GenericAnswer(q: string)
    requires ParseQuery(q) == WithValue("sound", "generic")
    ensures Respond(DogNet(), q) == Matches(["Animal", "Dog"])
  {
    DogGenericMatches();
  }

  lemma AttrQueryOf(q: string, y: string)
    requires IsWord(y) && q == Unwords(["atributo", "sound", "de", y + "?"])
    ensures ParseQuery(q) == AttrOf("sound", y)
  {
    assert IsWord("sound");
    AttrQueryRecognised("atributo", "sound", "de", y);
  }

  /** Asking for the sound of Rex or Dog gets its effective value. */
  lemma SoundReply(y: string, v: string)
    requires IsWord(y)
    requires (y == "Rex" && v == "woof") || (y == "Dog" && v == "generic")
    ensures Respond(DogNet(), Unwords(["atributo", "sound", "de", y + "?"])) == Value("sound", y, v)
  {
    var q := Unwords(["atributo", "sound", "de", y + "?"]);
    AttrQueryOf(q, y);
    SoundAnswer(q, y, v);
  }

  /** Asking for Rex's sound gets Rex's own value. */
  lemma RexSoundReply()
    ensures Respond(DogNet(), Unwords(["atributo", "sound", "de", "Rex" + "?"])) == Value("sound", "Rex", "woof")
  {
    assert IsWord("Rex");
    SoundReply("Rex", "woof");
  }

  /** Asking for Dog's sound gets the value inherited from Animal. */
  lemma DogSoundReply()
    ensures Respond(DogNet(), Unwords(["atributo", "sound", "de", "Dog" + "?"])) == Value("sound", "Dog", "generic")
  {
    assert IsWord("Dog");
    SoundReply("Dog", "generic");
  }

  lemma GenericQuery(q: string)
    requires q == Unwords(["clases", "o", "instancias", "con", "atributo", "sound", "y", "valor", "generic" + "?"])
    ensures ParseQuery(q) == WithValue("sound", "generic")
  {
    assert IsWord("sound") && IsWord("generic");
    forall i | 0 <= i < 7 ensures SameIgnoringCase(ValueKeywords[i], ValueKeywords[i]) {
      SameIgnoringCaseIsEquivalence(ValueKeywords[i], ValueKeywords[i], ValueKeywords[i]);
    }
    assert ValueTokens(ValueKeywords, "sound", "generic")
        == ["clases", "o", "instancias", "con", "atributo", "sound", "y", "valor", "generic" + "?"];
    ValueQueryRecognised(ValueKeywords, "sound", "generic");
  }

  /** Asking which entities sound generic lists Animal and Dog. */
  lemma GenericSoundReply()
    ensures Respond(DogNet(), Unwords(["clases", "o", "instancias", "con", "atributo", "sound", "y", "valor", "generic" + "?"]))
         == Matches(["Animal", "Dog"])
  {
    var q := Unwords(["clases", "o", "instancias", "con", "atributo", "sound", "y", "valor", "generic" + "?"]);
    GenericQuery(q);
    GenericAnswer(q);
  }
}
