/** What a B-tree page holds. */
module Nodes {
  import opened Pages

  const ORDER := 4 // max keys per node

  datatype Entry = Entry(key: string, value: string)

  /** A node as loadNode returns it: the first keyCount places of its arrays. */
  datatype Node =
    | LeafNode(entries: seq<Entry>, next: PageId)
    | InnerNode(keys: seq<string>, children: seq<PageId>)

  function Count(n: Node): nat {
    match n
    case LeafNode(es, _) => |es|
    case InnerNode(keys, _) => |keys|
  }

  /** The two nodes that splitNode makes of a full one, and the key it pushes up. */
  ghost function Halves(n: Node, rightId: PageId): (Node, string, Node)
    requires Count(n) > 0 && (n.InnerNode? ==> |n.children| == |n.keys| + 1)
  {
    var mid := Count(n) / 2;
    match n
    case LeafNode(es, next) => (LeafNode(es[..mid], rightId), es[mid].key, LeafNode(es[mid..], next))
    case InnerNode(keys, children) =>
      (InnerNode(keys[..mid], children[..mid + 1]), keys[mid], InnerNode(keys[mid + 1..], children[mid + 1..]))
  }
}
