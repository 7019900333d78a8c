/** The path a descent loop has taken from the root. Each frame is one node left
    behind, with the direction taken from it and the child not taken; the last
    frame is the current node's parent and its direction (the `parent` and
    `direction` variables of `remove`), and the empty path stands for the
    pre-root sentinel whose left link is the root. Writing a new subtree into the
    link the path ends in is `Plug`. */
module Zipper {
  import opened Trees

  datatype Frame = WentLeft(data: int, right: Tree) | WentRight(left: Tree, data: int)

  /** The node of `f` with `child` in the link that was followed. */
  function Attach(f: Frame, child: Tree): Tree {
    match f
    case WentLeft(d, r) => Node(child, d, r)
    case WentRight(l, d) => Node(l, d, child)
  }

  /** The whole tree after `sub` is linked in at the end of `path`. */
  function Plug(path: seq<Frame>, sub: Tree): Tree
    decreases |path|
  {
    if path == [] then sub else Plug(path[..|path| - 1], Attach(path[|path| - 1], sub))
  }

  /** Descending one more step extends the path by the frame just left behind. */
  lemma PlugStep(path: seq<Frame>, f: Frame, sub: Tree)
    ensures Plug(path + [f], sub) == Plug(path, Attach(f, sub))
  {
    assert (path + [f])[..|path|] == path;
  }
}
