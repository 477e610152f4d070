// FXStaticAnchor: an anchor that stores one fixed position per attached
// key and never computes one. The anchor base class (AbstractFXAnchor) is
// not part of this model; what the static anchor uses of it is the set of
// attached keys and the key-to-position map, kept here as fields.

module Anchors {
  import opened Wrappers
  import opened Parts

  /** An AnchorKey: an anchored node together with a role name. */
  type AnchorKey(==, !new)

  /** A geometry Point. */
  type Point(==, !new)

  class StaticAnchor {
    /** The anchorage node; None for the null anchorage. */
    const anchorage: Option<Visual>
    var attached: set<AnchorKey>
    /** positionProperty() */
    var positions: map<AnchorKey, Point>

    /** The empty static anchor: no anchorage, no key, no position. */
    constructor Empty()
      ensures anchorage == None && attached == {} && positions == map[]
    {
      anchorage := None;
      attached := {};
      positions := map[];
    }

    /** A static anchor for one key: the key is attached and has the given position. */
    constructor(anchorage: Option<Visual>, key: AnchorKey, position: Point)
      ensures this.anchorage == anchorage && attached == {key} && positions == map[key := position]
    {
      this.anchorage := anchorage;
      attached := {};
      positions := map[];
      new;
      Attach(key);
      SetPosition(key, position);
    }

    /** attach(key) of the base class. */
    method Attach(key: AnchorKey)
      modifies this`attached
      ensures attached == old(attached) + {key}
    {
      attached := attached + {key};
    }

    /** setPosition: the key's position becomes the given one; every other entry stays. */
    method SetPosition(key: AnchorKey, position: Point)
      modifies this`positions
      ensures key in positions && positions[key] == position
      ensures forall k :: k != key ==> (k in positions <==> k in old(positions)) &&
                                       (k in old(positions) ==> positions[k] == old(positions)[k])
    {
      positions := positions[key := position];
    }

    /** recomputePositions: a static anchor has nothing to compute. */
    method RecomputePositions(anchored: Visual)
      ensures positions == old(positions) && attached == old(attached)
    {
    }
  }
}
