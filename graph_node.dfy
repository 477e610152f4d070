// Node of the GEF4 graph model: a node is a map of named attributes, built
// with a Builder, plus an optional nested graph. The attribute map is a
// mutable HashMap that the builder hands to the node it builds without
// copying, so it is an object of its own here, shared by both.

module GraphNodes {
  import opened Wrappers

  /** An attribute value (any Java object, compared with equals). */
  type Value(==, !new)

  /** A Graph.Attr.Key constant. */
  type AttrKey(==, !new)

  /** A nested Graph, compared by identity. */
  type Graph(==, !new)

  /** The HashMap<String, Object> of a node's attributes. */
  class AttributeMap {
    var entries: map<string, Value>

    constructor Empty()
      ensures entries == map[]
    {
      entries := map[];
    }

    /** HashMap.put. */
    method Put(key: string, value: Value)
      modifies this
      ensures entries == old(entries)[key := value]
    {
      entries := entries[key := value];
    }
  }

  class Builder {
    const attrs: AttributeMap

    constructor()
      ensures attrs.entries == map[] && fresh(attrs)
    {
      attrs := new AttributeMap.Empty();
    }

    /** attr(String, Object): puts the value, overwriting an earlier one, and returns this builder. */
    method Attr(key: string, value: Value) returns (self: Builder)
      modifies attrs
      ensures self == this
      ensures attrs.entries == old(attrs.entries)[key := value]
    {
      attrs.Put(key, value);
      self := this;
    }

    /** attr(Attr.Key, Object): the same with the key's toString(). */
    method AttrByKey(key: AttrKey, value: Value, keyString: AttrKey -> string) returns (self: Builder)
      modifies attrs
      ensures self == this
      ensures attrs.entries == old(attrs.entries)[keyString(key) := value]
    {
      self := Attr(keyString(key), value);
    }

    /** build: a new node over this builder's own map, not a copy. */
    method Build() returns (node: Node)
      ensures fresh(node)
      ensures node.attrs == attrs && node.nestedGraph == None
    {
      node := new Node(attrs);
    }
  }

  class Node {
    const attrs: AttributeMap
    var nestedGraph: Option<Graph>

    constructor(attrs: AttributeMap)
      ensures this.attrs == attrs && nestedGraph == None
    {
      this.attrs := attrs;
      nestedGraph := None;
    }

    /** Node(): a node over a new empty map. */
    constructor Empty()
      ensures attrs.entries == map[] && fresh(attrs) && nestedGraph == None
    {
      attrs := new AttributeMap.Empty();
      nestedGraph := None;
    }

    /** equals: the same node, or another node whose attribute maps are equal. */
    predicate Equals(that: object?)
      reads this, attrs, if that is Node then {that, (that as Node).attrs} else {}
    {
      this == that || (that is Node && attrs.entries == (that as Node).attrs.entries)
    }

    /** hashCode: the hash of the attribute map (HashMap.hashCode is given as mapHash). */
    function HashCode(mapHash: map<string, Value> -> int): int
      reads this, attrs
    {
      mapHash(attrs.entries)
    }

    method SetNestedGraph(graph: Option<Graph>)
      modifies this
      ensures nestedGraph == graph
    {
      nestedGraph := graph;
    }

    method GetNestedGraph() returns (graph: Option<Graph>)
      ensures graph == nestedGraph
    {
      graph := nestedGraph;
    }
  }

  /** equals is reflexive and symmetric; a non-node and null are never equal to a node. */
  lemma EqualsIsEquivalence(a: Node, b: Node, c: Node, other: object?)
    requires !(other is Node)
    ensures a.Equals(a)
    ensures a.Equals(b) <==> b.Equals(a)
    ensures a.Equals(b) && b.Equals(c) ==> a.Equals(c)
    ensures !a.Equals(other)
  {
  }

  /** Equal nodes have equal hash codes, whatever the map hash. */
  lemma EqualNodesHashEqually(a: Node, b: Node, mapHash: map<string, Value> -> int)
    requires a.Equals(b)
    ensures a.HashCode(mapHash) == b.HashCode(mapHash)
  {
  }

  /**
   * A builder scenario: two attributes put, the node built, then a third
   * attribute put through the same builder. The node sees all three, because
   * it holds the builder's map; a later put under the same key overwrites.
   */
  method BuildThenPut(k1: string, v1: Value, k2: string, v2: Value, k3: string, v3: Value)
    returns (node: Node, builder: Builder)
    ensures node.attrs == builder.attrs
    ensures node.attrs.entries == map[k1 := v1][k2 := v2][k3 := v3]
    ensures k1 == k3 ==> node.attrs.entries[k1] == v3
    ensures node.nestedGraph == None
  {
    builder := new Builder();
    var b := builder.Attr(k1, v1);
    b := b.Attr(k2, v2);
    node := b.Build();
    b := b.Attr(k3, v3);
  }

  /** A nested graph reads back the last value set, and a new node has none. */
  method NestedGraphReadsBack(g1: Graph, g2: Graph) returns (first: Option<Graph>, last: Option<Graph>)
    ensures first == None && last == Some(g2)
  {
    var node := new Node.Empty();
    first := node.GetNestedGraph();
    node.SetNestedGraph(Some(g1));
    node.SetNestedGraph(Some(g2));
    last := node.GetNestedGraph();
  }
}
