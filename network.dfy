/**
 * The semantic network as a value: is-a edges, the instance-to-class map,
 * the direct attributes and the two catalogs, together with the three fact
 * builders as functions from one network to the next and the sorted entity
 * listing. The mutable object of the program, whose methods are specified
 * by these functions, is `SemanticNetwork.SemanticNet`.
 */
module Network {
  import opened Wrappers
  import opened Ordering

  /**
   * One snapshot of the network. Each entity's parents are kept as a
   * duplicate-free sequence in the order they were first declared, which
   * fixes one iteration order for the set the program stores.
   */
  datatype Net = Net(
    parents: map<string, seq<string>>,
    classOf: map<string, string>,
    attrs: map<string, map<string, string>>,
    classes: set<string>,
    instances: set<string>)

  /** The network before any fact has been loaded. */
  const Empty: Net := Net(map[], map[], map[], {}, {})

  predicate NoDuplicates(s: seq<string>) {
    forall i, j :: 0 <= i < j < |s| ==> s[i] != s[j]
  }

  /** The parents declared for `c` (`parents.get(c, ())`). */
  function ParentsOf(net: Net, c: string): seq<string> {
    if c in net.parents then net.parents[c] else []
  }

  /** `attr in self.attrs.get(n, {})`: `n` holds a value for `attr` in its own table. */
  predicate Holds(net: Net, n: string, attr: string) {
    n in net.attrs && attr in net.attrs[n]
  }

  /** The value `e` holds directly for `attr`, if any. */
  function DirectAttr(net: Net, e: string, attr: string): Option<string> {
    if Holds(net, e, attr) then Some(net.attrs[e][attr]) else None
  }

  /**
   * What the builders keep true: parent lists stay duplicate-free (they
   * stand for sets), the instances are exactly the entities with a class,
   * and every entity on either side of an is-a edge or named as a class
   * is in the class catalog.
   */
  ghost predicate Valid(net: Net) {
    && (forall c :: c in net.parents ==> NoDuplicates(net.parents[c]))
    && net.instances == net.classOf.Keys
    && net.parents.Keys <= net.classes
    && (forall c, p :: c in net.parents && p in net.parents[c] ==> p in net.classes)
    && (forall i :: i in net.classOf ==> net.classOf[i] in net.classes)
  }

  lemma EmptyIsValid()
    ensures Valid(Empty)
  {
  }

  /** In a valid network the parents of any entity form a set of classes (`parents.get(c, ())`). */
  lemma ValidParents(net: Net, c: string)
    requires Valid(net)
    ensures NoDuplicates(ParentsOf(net, c))
    ensures forall p :: p in ParentsOf(net, c) ==> p in net.classes
  {
  }

  /** In a valid network every instance has a class, and it is in the class catalog. */
  lemma ValidInstanceHasClass(net: Net, e: string)
    requires Valid(net) && e in net.instances
    ensures Get(net.classOf, e).Some? && Get(net.classOf, e).value in net.classes
  {
  }

  /** `add_es_un(child, parent)`: one more is-a edge; both ends become classes. */
  function AddIsA(net: Net, child: string, parent: string): (r: Net)
    ensures forall p :: p in ParentsOf(r, child) <==> p in ParentsOf(net, child) || p == parent
    ensures forall c :: c != child ==> ParentsOf(r, c) == ParentsOf(net, c)
    ensures r.parents.Keys == net.parents.Keys + {child}
    ensures r.classes == net.classes + {child, parent}
    ensures r.classOf == net.classOf && r.attrs == net.attrs && r.instances == net.instances
    ensures Valid(net) ==> Valid(r)
  {
    var ps := ParentsOf(net, child);
    net.(parents := net.parents[child := if parent in ps then ps else ps + [parent]],
         classes := net.classes + {child, parent})
  }

  /** `add_instancia(inst, klass)`: `inst` becomes an instance of `klass`, replacing any earlier class. */
  function AddInstance(net: Net, inst: string, klass: string): (r: Net)
    ensures inst in r.classOf && r.classOf[inst] == klass
    ensures forall i :: i != inst ==> Get(r.classOf, i) == Get(net.classOf, i)
    ensures r.instances == net.instances + {inst}
    ensures r.classes == net.classes + {klass}
    ensures r.parents == net.parents && r.attrs == net.attrs
    ensures Valid(net) ==> Valid(r)
  {
    net.(classOf := net.classOf[inst := klass],
         instances := net.instances + {inst},
         classes := net.classes + {klass})
  }

  /** `add_atributo(entity, attr, value)`: sets one direct attribute, replacing any earlier value. */
  function AddAttribute(net: Net, entity: string, attr: string, value: string): (r: Net)
    ensures DirectAttr(r, entity, attr) == Some(value)
    ensures forall e, a :: (e != entity || a != attr) ==> DirectAttr(r, e, a) == DirectAttr(net, e, a)
    ensures r.attrs.Keys == net.attrs.Keys + {entity}
    ensures r.parents == net.parents && r.classOf == net.classOf
    ensures r.classes == net.classes && r.instances == net.instances
    ensures Valid(net) ==> Valid(r)
  {
    var own := if entity in net.attrs then net.attrs[entity] else map[];
    net.(attrs := net.attrs[entity := own[attr := value]])
  }

  lemma AddIsAIdempotent(net: Net, child: string, parent: string)
    ensures AddIsA(AddIsA(net, child, parent), child, parent) == AddIsA(net, child, parent)
  {
    var once := AddIsA(net, child, parent);
    assert parent in ParentsOf(once, child);
    assert once.parents[child := ParentsOf(once, child)] == once.parents;
  }

  lemma AddInstanceIdempotent(net: Net, inst: string, klass: string)
    ensures AddInstance(AddInstance(net, inst, klass), inst, klass) == AddInstance(net, inst, klass)
  {
  }

  lemma AddAttributeIdempotent(net: Net, entity: string, attr: string, value: string)
    ensures AddAttribute(AddAttribute(net, entity, attr, value), entity, attr, value)
         == AddAttribute(net, entity, attr, value)
  {
    var once := AddAttribute(net, entity, attr, value);
    assert once.attrs[entity][attr := value] == once.attrs[entity];
    assert once.attrs[entity := once.attrs[entity]] == once.attrs;
  }

  /** A later value for the same entity and attribute replaces the earlier one. */
  lemma AddAttributeLastWins(net: Net, entity: string, attr: string, v1: string, v2: string)
    ensures AddAttribute(AddAttribute(net, entity, attr, v1), entity, attr, v2)
         == AddAttribute(net, entity, attr, v2)
  {
    var own := if entity in net.attrs then net.attrs[entity] else map[];
    assert own[attr := v1][attr := v2] == own[attr := v2];
  }

  /**
   * `all_entities()`: every class, instance and entity with a direct
   * attribute, once each, in increasing order.
   */
  function AllEntities(net: Net): (r: seq<string>)
    ensures StrictlyIncreasing(r)
    ensures forall e :: e in r <==> e in net.classes || e in net.instances || e in net.attrs
  {
    Sorted(net.classes + net.instances + net.attrs.Keys)
  }

  /** No other increasing listing of the entities exists: the order is the sorted one. */
  lemma AllEntitiesIsTheSortedListing(net: Net, s: seq<string>)
    requires StrictlyIncreasing(s)
    requires forall e :: e in s <==> e in net.classes || e in net.instances || e in net.attrs
    ensures s == AllEntities(net)
  {
    SortedUnique(s, net.classes + net.instances + net.attrs.Keys);
  }
}
