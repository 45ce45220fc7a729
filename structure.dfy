/** The chapter-structure tree of src/app/panel/outline.rs: nodes addressed
    by paths of child indices, the two tree mutations `remove_node_at` and
    `move_node_up`, the deferred add/remove/move actions with the selected
    path they leave, and linking a world object to the selected node.

    `StructNode` and `node_at_mut` are not part of this model's sources. A
    node is assumed to hold a title, its children and the names of the
    objects linked to it; `node_at_mut` is assumed to follow the path one
    child index at a time and to give nothing for an empty path or an index
    out of range. */
module Structure {
  import opened TextUtil
  import opened SeqUtil

  datatype StructNode = StructNode(title: string, children: seq<StructNode>, linkedObjects: seq<string>)

  /** `StructNode::new` as far as this model sees it. */
  function NewNode(title: string): StructNode {
    StructNode(title, [], [])
  }

  // ── Paths ───────────────────────────────────────────────────────────────────

  /** `node_at_mut`: the node a path of child indices leads to. */
  function NodeAt(roots: seq<StructNode>, path: seq<nat>): Option<StructNode>
    decreases |path|
  {
    if path == [] || path[0] >= |roots| then None
    else if |path| == 1 then Some(roots[path[0]])
    else NodeAt(roots[path[0]].children, path[1..])
  }

  /** The tree with the node at `path` replaced by `node`: what writing
      through the reference `node_at_mut` returns does. */
  function ReplaceAt(roots: seq<StructNode>, path: seq<nat>, node: StructNode): (r: seq<StructNode>)
    requires NodeAt(roots, path).Some?
    ensures |r| == |roots|
    decreases |path|
  {
    if |path| == 1 then roots[path[0] := node]
    else
      var top := roots[path[0]];
      roots[path[0] := top.(children := ReplaceAt(top.children, path[1..], node))]
  }

  /** Neither path leads into the subtree of the other. */
  predicate Apart(p: seq<nat>, q: seq<nat>) {
    !(p <= q) && !(q <= p)
  }

  /** After a replacement the path leads to the new node. */
  lemma {:induction false} ReplaceAtHits(roots: seq<StructNode>, path: seq<nat>, node: StructNode)
    requires NodeAt(roots, path).Some?
    ensures NodeAt(ReplaceAt(roots, path, node), path) == Some(node)
    decreases |path|
  {
    if |path| > 1 {
      ReplaceAtHits(roots[path[0]].children, path[1..], node);
    }
  }

  /** A replacement leaves every node off its path, and outside its subtree,
      as it was. */
  lemma {:induction false} ReplaceAtMisses(roots: seq<StructNode>, path: seq<nat>, node: StructNode, q: seq<nat>)
    requires NodeAt(roots, path).Some? && Apart(path, q)
    ensures NodeAt(ReplaceAt(roots, path, node), q) == NodeAt(roots, q)
    decreases |path|
  {
    var r := ReplaceAt(roots, path, node);
    if q != [] && q[0] < |roots| && q[0] == path[0] && |q| > 1 && |path| > 1 {
      assert Apart(path[1..], q[1..]) by {
        assert path == [path[0]] + path[1..] && q == [q[0]] + q[1..];
      }
      ReplaceAtMisses(roots[path[0]].children, path[1..], node, q[1..]);
    }
  }

  // ── remove_node_at ──────────────────────────────────────────────────────────

  /** The tree without the node at `path`, followed from the root: an empty
      path or an index out of range at any level removes nothing. */
  function Removed(roots: seq<StructNode>, path: seq<nat>): seq<StructNode>
    decreases |path|
  {
    if path == [] || path[0] >= |roots| then roots
    else if |path| == 1 then RemoveAt(roots, path[0])
    else
      var top := roots[path[0]];
      roots[path[0] := top.(children := Removed(top.children, path[1..]))]
  }

  /** Removing through the parent (look the parent up, then remove its
      child) is the same as `Removed`. */
  lemma {:induction false} RemovedViaParent(roots: seq<StructNode>, path: seq<nat>)
    requires |path| >= 2
    ensures var parentPath, last := path[..|path| - 1], path[|path| - 1];
      Removed(roots, path) ==
        match NodeAt(roots, parentPath)
        case None => roots
        case Some(parent) =>
          if last < |parent.children|
          then ReplaceAt(roots, parentPath, parent.(children := RemoveAt(parent.children, last)))
          else roots
    decreases |path|
  {
    var parentPath, last := path[..|path| - 1], path[|path| - 1];
    if path[0] < |roots| {
      var top := roots[path[0]];
      if |path| == 2 {
        assert parentPath == [path[0]];
        if last >= |top.children| {
          assert top.(children := top.children) == top;
        }
      } else {
        assert path[1..][..|path| - 2] == parentPath[1..];
        RemovedViaParent(top.children, path[1..]);
        match NodeAt(roots, parentPath)
        case None =>
          assert top.(children := top.children) == top;
        case Some(parent) =>
          if last >= |parent.children| {
            assert top.(children := top.children) == top;
          }
      }
    }
  }

  /** A removal through a parent changes that parent's children only: the
      parent now has the child list without child `last`, and every node
      apart from the parent's path is as it was. */
  lemma RemovedSpec(roots: seq<StructNode>, path: seq<nat>, q: seq<nat>)
    requires |path| >= 2 && NodeAt(roots, path).Some?
    ensures var parentPath, last := path[..|path| - 1], path[|path| - 1];
      && NodeAt(roots, parentPath).Some?
      && var parent := NodeAt(roots, parentPath).value;
      && last < |parent.children|
      && NodeAt(Removed(roots, path), parentPath) == Some(parent.(children := RemoveAt(parent.children, last)))
      && (Apart(parentPath, q) ==> NodeAt(Removed(roots, path), q) == NodeAt(roots, q))
  {
    var parentPath, last := path[..|path| - 1], path[|path| - 1];
    ChildOfParent(roots, path);
    var parent := NodeAt(roots, parentPath).value;
    RemovedViaParent(roots, path);
    var node := parent.(children := RemoveAt(parent.children, last));
    ReplaceAtHits(roots, parentPath, node);
    if Apart(parentPath, q) {
      ReplaceAtMisses(roots, parentPath, node, q);
    }
  }

  /** A node at a path of two or more indices is child `last` of the node at
      the path without its last index. */
  lemma {:induction false} ChildOfParent(roots: seq<StructNode>, path: seq<nat>)
    requires |path| >= 2 && NodeAt(roots, path).Some?
    ensures var parentPath, last := path[..|path| - 1], path[|path| - 1];
      && NodeAt(roots, parentPath).Some?
      && last < |NodeAt(roots, parentPath).value.children|
      && NodeAt(roots, parentPath).value.children[last] == NodeAt(roots, path).value
    decreases |path|
  {
    if |path| > 2 {
      assert path[1..][..|path| - 2] == path[..|path| - 1][1..];
      ChildOfParent(roots[path[0]].children, path[1..]);
    }
  }

  // ── move_node_up ────────────────────────────────────────────────────────────

  /** Sibling `idx` trades places with sibling `idx - 1` when both exist. */
  function SwapUp(nodes: seq<StructNode>, idx: nat): seq<StructNode> {
    if 0 < idx < |nodes| then Swap(nodes, idx - 1, idx) else nodes
  }

  /** The tree with the node at `path` moved up one place among its
      siblings, followed from the root. */
  function MovedUp(roots: seq<StructNode>, path: seq<nat>): seq<StructNode>
    decreases |path|
  {
    if path == [] then roots
    else if |path| == 1 then SwapUp(roots, path[0])
    else if path[0] >= |roots| then roots
    else
      var top := roots[path[0]];
      roots[path[0] := top.(children := MovedUp(top.children, path[1..]))]
  }

  /** Moving through the parent is the same as `MovedUp`. */
  lemma {:induction false} MovedUpViaParent(roots: seq<StructNode>, path: seq<nat>)
    requires |path| >= 2
    ensures var parentPath, last := path[..|path| - 1], path[|path| - 1];
      MovedUp(roots, path) ==
        match NodeAt(roots, parentPath)
        case None => roots
        case Some(parent) => ReplaceAt(roots, parentPath, parent.(children := SwapUp(parent.children, last)))
    decreases |path|
  {
    var parentPath, last := path[..|path| - 1], path[|path| - 1];
    if path[0] < |roots| {
      var top := roots[path[0]];
      if |path| == 2 {
        assert parentPath == [path[0]];
      } else {
        assert path[1..][..|path| - 2] == parentPath[1..];
        MovedUpViaParent(top.children, path[1..]);
        if NodeAt(roots, parentPath).None? {
          assert top.(children := top.children) == top;
        }
      }
    }
  }

  /** Moving up keeps the same siblings under the parent, and every node
      apart from the parent's path is as it was. */
  lemma MovedUpSpec(roots: seq<StructNode>, path: seq<nat>, q: seq<nat>)
    requires |path| >= 2 && NodeAt(roots, path[..|path| - 1]).Some?
    ensures var parentPath, last := path[..|path| - 1], path[|path| - 1];
      var parent := NodeAt(roots, parentPath).value;
      && NodeAt(MovedUp(roots, path), parentPath) == Some(parent.(children := SwapUp(parent.children, last)))
      && multiset(SwapUp(parent.children, last)) == multiset(parent.children)
      && (Apart(parentPath, q) ==> NodeAt(MovedUp(roots, path), q) == NodeAt(roots, q))
  {
    var parentPath, last := path[..|path| - 1], path[|path| - 1];
    var parent := NodeAt(roots, parentPath).value;
    MovedUpViaParent(roots, path);
    var node := parent.(children := SwapUp(parent.children, last));
    ReplaceAtHits(roots, parentPath, node);
    if 0 < last < |parent.children| {
      SwapSpec(parent.children, last - 1, last);
    }
    if Apart(parentPath, q) {
      ReplaceAtMisses(roots, parentPath, node, q);
    }
  }

  // ── Linking an object ───────────────────────────────────────────────────────

  /** The linked-object list after linking `name`: appended unless present. */
  function LinkObject(links: seq<string>, name: string): seq<string> {
    if name in links then links else links + [name]
  }

  /** Linking makes the name present, keeps what was there, adds no
      duplicate to a list that had none, and a second link of the same name
      changes nothing. */
  lemma LinkObjectSpec(links: seq<string>, name: string)
    ensures var r := LinkObject(links, name);
      && name in r && links <= r && |r| <= |links| + 1
      && (NoDuplicates(links) ==> NoDuplicates(r))
      && LinkObject(r, name) == r
  {
  }

  predicate NoDuplicates(s: seq<string>) {
    forall i, j :: 0 <= i < j < |s| ==> s[i] != s[j]
  }

  // ── The structure panel ─────────────────────────────────────────────────────

  /** The fields of the application that the structure panel reads and
      writes. */
  class StructurePanel {
    var roots: seq<StructNode>
    var selectedPath: seq<nat>
    var newNodeTitle: string
    var newNodeObjLink: string

    constructor ()
      ensures roots == [] && selectedPath == [] && newNodeTitle == [] && newNodeObjLink == []
    {
      roots, selectedPath, newNodeTitle, newNodeObjLink := [], [], [], [];
    }

    /** `remove_node_at`, in the source's steps: a one-index path removes
        that root if it exists; a longer one looks up the parent and removes
        its child `last` if both exist. */
    method RemoveNodeAt(path: seq<nat>)
      modifies this`roots
      ensures roots == Removed(old(roots), path)
    {
      if path == [] {
        return;
      }
      if |path| == 1 {
        if path[0] < |roots| {
          roots := RemoveAt(roots, path[0]);
        }
        return;
      }
      RemovedViaParent(roots, path);
      var parentPath := path[..|path| - 1];
      match NodeAt(roots, parentPath)
      case Some(parent) =>
        var idx := path[|path| - 1];
        if idx < |parent.children| {
          roots := ReplaceAt(roots, parentPath, parent.(children := RemoveAt(parent.children, idx)));
        }
      case None =>
    }

    /** `move_node_up`, in the source's steps. At the root level the index
        is not checked against the number of roots, so it must be in range. */
    method MoveNodeUp(path: seq<nat>)
      requires |path| == 1 && path[0] > 0 ==> path[0] < |roots|
      modifies this`roots
      ensures roots == MovedUp(old(roots), path)
    {
      if path == [] {
        return;
      }
      var idx := path[|path| - 1];
      if idx == 0 {
        MovedUpFirst(roots, path);
        return;
      }
      if |path| == 1 {
        roots := Swap(roots, idx - 1, idx);
        return;
      }
      MovedUpViaParent(roots, path);
      var parentPath := path[..|path| - 1];
      match NodeAt(roots, parentPath)
      case Some(parent) =>
        if idx < |parent.children| {
          roots := ReplaceAt(roots, parentPath, parent.(children := Swap(parent.children, idx - 1, idx)));
        } else {
          assert parent.(children := SwapUp(parent.children, idx)) == parent;
          ReplaceAtSame(roots, parentPath);
        }
      case None =>
    }

    /** The deferred add-root: a non-blank trimmed title becomes a new last
        root, which is selected; the title field is cleared. */
    method AddRoot()
      modifies this`roots, this`selectedPath, this`newNodeTitle
      ensures var title := Trim(old(newNodeTitle));
        if title == [] then
          roots == old(roots) && selectedPath == old(selectedPath) && newNodeTitle == old(newNodeTitle)
        else
          && roots == old(roots) + [NewNode(title)]
          && selectedPath == [|old(roots)|]
          && NodeAt(roots, selectedPath) == Some(NewNode(title))
          && newNodeTitle == []
    {
      var title := Trim(newNodeTitle);
      if title != [] {
        newNodeTitle := [];
        var idx := |roots|;
        roots := roots + [NewNode(title)];
        selectedPath := [idx];
      }
    }

    /** The deferred add-child: if the parent exists, a node titled `title`
        becomes its last child and is selected; otherwise nothing changes. */
    method AddChild(parentPath: seq<nat>, title: string)
      modifies this`roots, this`selectedPath
      ensures old(NodeAt(roots, parentPath)).None? ==> roots == old(roots) && selectedPath == old(selectedPath)
      ensures old(NodeAt(roots, parentPath)).Some? ==>
        var parent := old(NodeAt(roots, parentPath)).value;
        && roots == ReplaceAt(old(roots), parentPath, parent.(children := parent.children + [NewNode(title)]))
        && selectedPath == parentPath + [|parent.children|]
        && NodeAt(roots, selectedPath) == Some(NewNode(title))
    {
      match NodeAt(roots, parentPath)
      case Some(parent) =>
        var childIdx := |parent.children|;
        var updated := parent.(children := parent.children + [NewNode(title)]);
        ReplaceAtHits(roots, parentPath, updated);
        roots := ReplaceAt(roots, parentPath, updated);
        selectedPath := parentPath + [childIdx];
        ChildPath(roots, parentPath, childIdx);
      case None =>
    }

    /** The deferred remove: the node goes, and the selection is cleared
        exactly when it was the removed node or inside its subtree; any other
        selection is kept as it was, without renumbering. */
    method RemoveNode(path: seq<nat>)
      modifies this`roots, this`selectedPath
      ensures roots == Removed(old(roots), path)
      ensures selectedPath == if path <= old(selectedPath) then [] else old(selectedPath)
    {
      RemoveNodeAt(path);
      if path <= selectedPath {
        selectedPath := [];
      }
    }

    /** The deferred move-up: the node moves, and if it was the selected
        one the selection follows it to its new index. */
    method MoveUp(path: seq<nat>)
      requires |path| == 1 && path[0] > 0 ==> path[0] < |roots|
      modifies this`roots, this`selectedPath
      ensures roots == MovedUp(old(roots), path)
      ensures selectedPath ==
        if path != [] && path[|path| - 1] > 0 && old(selectedPath) == path
        then path[|path| - 1 := path[|path| - 1] - 1]
        else old(selectedPath)
    {
      MoveNodeUp(path);
      if path != [] {
        var last := path[|path| - 1];
        if last > 0 {
          var newPath := path[|path| - 1 := last - 1];
          if selectedPath == path {
            selectedPath := newPath;
          }
        }
      }
    }

    /** "➕ 关联对象": the trimmed input is linked to the selected node unless
        already linked (a blank input is linked too: nothing checks it); the
        input is cleared in every case. */
    method LinkSelectedObject()
      modifies this`roots, this`newNodeObjLink
      ensures newNodeObjLink == []
      ensures var name := Trim(old(newNodeObjLink));
        match old(NodeAt(roots, selectedPath))
        case None => roots == old(roots)
        case Some(node) =>
          roots == ReplaceAt(old(roots), selectedPath, node.(linkedObjects := LinkObject(node.linkedObjects, name)))
    {
      var name := Trim(newNodeObjLink);
      match NodeAt(roots, selectedPath) {
      case Some(node) =>
        if name !in node.linkedObjects {
          roots := ReplaceAt(roots, selectedPath, node.(linkedObjects := node.linkedObjects + [name]));
        } else {
          assert node.(linkedObjects := LinkObject(node.linkedObjects, name)) == node;
          ReplaceAtSame(roots, selectedPath);
        }
      case None =>
      }
      newNodeObjLink := [];
    }
  }

  /** Moving up the first of its siblings changes nothing. */
  lemma {:induction false} MovedUpFirst(roots: seq<StructNode>, path: seq<nat>)
    requires path != [] && path[|path| - 1] == 0
    ensures MovedUp(roots, path) == roots
    decreases |path|
  {
    if |path| > 1 && path[0] < |roots| {
      MovedUpFirst(roots[path[0]].children, path[1..]);
      assert roots[path[0]].(children := roots[path[0]].children) == roots[path[0]];
    }
  }

  /** Writing back the node that is already there changes nothing. */
  lemma {:induction false} ReplaceAtSame(roots: seq<StructNode>, path: seq<nat>)
    requires NodeAt(roots, path).Some?
    ensures ReplaceAt(roots, path, NodeAt(roots, path).value) == roots
    decreases |path|
  {
    if |path| > 1 {
      ReplaceAtSame(roots[path[0]].children, path[1..]);
    }
  }

  /** The path of the last child appended under a parent leads to it. */
  lemma {:induction false} ChildPath(roots: seq<StructNode>, parentPath: seq<nat>, idx: nat)
    requires NodeAt(roots, parentPath).Some? && idx < |NodeAt(roots, parentPath).value.children|
    ensures NodeAt(roots, parentPath + [idx]) == Some(NodeAt(roots, parentPath).value.children[idx])
    decreases |parentPath|
  {
    if |parentPath| > 1 {
      assert (parentPath + [idx])[1..] == parentPath[1..] + [idx];
      ChildPath(roots[parentPath[0]].children, parentPath[1..], idx);
    }
  }
}
