/**
 * The OSM primitives the interpreter reads: nodes with a position, ways as
 * ordered node-id lists, relations as ordered role-carrying member lists, all
 * carrying a tag collection.
 */
module Osm {
  import OsmGeoKeys

  /** One key/value tag. */
  datatype Tag = Tag(key: string, value: string)

  /** A tag collection is a list of tags; `Add` appends. */
  type Tags = seq<Tag>

  /** The collection holds the exact pair key=value (`ContainsKeyValue`). */
  predicate HasTag(tags: Tags, key: string, value: string)
  {
    Tag(key, value) in tags
  }

  /** The collection holds some tag with this key, whatever its value. */
  predicate HasKey(tags: Tags, key: string)
  {
    exists i :: 0 <= i < |tags| && tags[i].key == key
  }

  type NodeId = int

  /** Coordinates are exact reals here; the source stores single/double floats. */
  datatype Node = Node(id: NodeId, latitude: real, longitude: real, tags: Tags)

  datatype Way = Way(id: int, nodes: seq<NodeId>, tags: Tags)

  datatype RelationMember = RelationMember(memberType: OsmGeoKeys.OsmGeoType, memberId: int, role: string)

  datatype Relation = Relation(id: int, tags: Tags, members: seq<RelationMember>)

  /** Any of the three primitives. */
  datatype OsmGeo = NodeGeo(node: Node) | WayGeo(way: Way) | RelationGeo(relation: Relation)

  /** The key a primitive is stored under. */
  function KeyOf(g: OsmGeo): OsmGeoKeys.OsmGeoKey
  {
    match g
    case NodeGeo(n) => OsmGeoKeys.OsmGeoKey(OsmGeoKeys.Node, n.id)
    case WayGeo(w) => OsmGeoKeys.OsmGeoKey(OsmGeoKeys.Way, w.id)
    case RelationGeo(r) => OsmGeoKeys.OsmGeoKey(OsmGeoKeys.Relation, r.id)
  }

  /** The primitive's own tags. */
  function TagsOf(g: OsmGeo): Tags
  {
    match g
    case NodeGeo(n) => n.tags
    case WayGeo(w) => w.tags
    case RelationGeo(r) => r.tags
  }

  /** A way is closed when its first and last node ids are the same. */
  predicate IsClosed(nodes: seq<NodeId>)
  {
    |nodes| >= 2 && nodes[0] == nodes[|nodes| - 1]
  }

  /** A closed node list long enough to be a ring: a triangle with its closing node repeated. */
  predicate IsRing(nodes: seq<NodeId>)
  {
    |nodes| >= 4 && nodes[0] == nodes[|nodes| - 1]
  }
}
