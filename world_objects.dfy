/** The world-objects panel of src/app/panel/characters.rs: the object list
    with its kind filter, adding and removing objects with the selected
    index kept on the same object, adding a link from the selected object,
    and the reverse lookup of the structure nodes that link an object.

    `WorldObject`, `ObjectKind`, `ObjectLink` and `LinkTarget` are not part
    of this model's sources. An object is assumed to hold a name, a kind, a
    description, a background and its links; `WorldObject::new` is assumed
    to leave the last three empty. The variants of `ObjectKind` are not
    known here, so a kind is its position in `ObjectKind::all()`. */
module WorldObjects {
  import opened TextUtil
  import opened SeqUtil
  import opened Structure
  import App

  datatype ObjectKind = ObjectKind(index: nat)
  datatype LinkTarget = Node(title: string) | Object(name: string)
  datatype ObjectLink = ObjectLink(target: LinkTarget, kind: App.RelationKind, note: string)
  datatype WorldObject = WorldObject(name: string, kind: ObjectKind, description: string,
                                     background: string, links: seq<ObjectLink>)

  function NewObject(name: string, kind: ObjectKind): WorldObject {
    WorldObject(name, kind, [], [], [])
  }

  // ── Reverse lookup ──────────────────────────────────────────────────────────

  /** Every node of the forest, each before its descendants, siblings in
      order. */
  function PreOrder(nodes: seq<StructNode>): seq<StructNode>
    decreases nodes
  {
    if nodes == [] then []
    else
      assert nodes[0] in nodes;
      [nodes[0]] + PreOrder(nodes[0].children) + PreOrder(nodes[1..])
  }

  /** The titles, in order, of those nodes of a list that link `name`. */
  function LinkingTitles(list: seq<StructNode>, name: string): seq<string> {
    if list == [] then []
    else (if name in list[0].linkedObjects then [list[0].title] else []) + LinkingTitles(list[1..], name)
  }

  lemma {:induction false} PreOrderAppend(a: seq<StructNode>, b: seq<StructNode>)
    ensures PreOrder(a + b) == PreOrder(a) + PreOrder(b)
    decreases |a|
  {
    if a == [] {
      assert a + b == b;
    } else {
      assert (a + b)[0] == a[0] && (a + b)[1..] == a[1..] + b;
      assert PreOrder(a + b) == [a[0]] + PreOrder(a[0].children) + PreOrder(a[1..] + b);
      PreOrderAppend(a[1..], b);
      AppendAssoc([a[0]] + PreOrder(a[0].children), PreOrder(a[1..]), PreOrder(b));
    }
  }

  lemma {:induction false} LinkingTitlesAppend(a: seq<StructNode>, b: seq<StructNode>, name: string)
    ensures LinkingTitles(a + b, name) == LinkingTitles(a, name) + LinkingTitles(b, name)
    decreases |a|
  {
    if a == [] {
      assert a + b == b;
    } else {
      assert (a + b)[0] == a[0] && (a + b)[1..] == a[1..] + b;
      LinkingTitlesAppend(a[1..], b, name);
    }
  }

  /** The pre-order of one node is the node, then its subtree: a node comes
      before its descendants. */
  lemma PreOrderOne(n: StructNode)
    ensures PreOrder([n]) == [n] + PreOrder(n.children)
  {
    assert [n][1..] == [];
  }

  /** Each node gives at most one title, whatever the number of times it
      links the name, and the titles are those of linking nodes. */
  lemma {:induction false} LinkingTitlesBounded(list: seq<StructNode>, name: string)
    ensures |LinkingTitles(list, name)| <= |list|
    ensures forall t :: t in LinkingTitles(list, name) <==>
      exists n :: n in list && name in n.linkedObjects && n.title == t
  {
    if list != [] {
      LinkingTitlesBounded(list[1..], name);
      forall t | t in LinkingTitles(list, name)
        ensures exists n :: n in list && name in n.linkedObjects && n.title == t
      {
        if t !in LinkingTitles(list[1..], name) {
          assert list[0] in list;
        } else {
          var n :| n in list[1..] && name in n.linkedObjects && n.title == t;
          assert n in list;
        }
      }
      forall t | exists n :: n in list && name in n.linkedObjects && n.title == t
        ensures t in LinkingTitles(list, name)
      {
        var n :| n in list && name in n.linkedObjects && n.title == t;
        if n != list[0] {
          assert n in list[1..];
        }
      }
    }
  }

  lemma NodeAtFirst(nodes: seq<StructNode>, p: seq<nat>)
    requires nodes != [] && p != []
    ensures NodeAt(nodes, [0] + p) == NodeAt(nodes[0].children, p)
  {
    assert ([0] + p)[1..] == p;
  }

  lemma NodeAtRest(nodes: seq<StructNode>, p: seq<nat>)
    requires nodes != [] && p != []
    ensures NodeAt(nodes, [p[0] + 1] + p[1..]) == NodeAt(nodes[1..], p)
  {
    assert ([p[0] + 1] + p[1..])[1..] == p[1..];
  }

  /** A node is in the pre-order exactly when some path leads to it. */
  lemma {:induction false} PreOrderHasPath(nodes: seq<StructNode>, n: StructNode)
    requires n in PreOrder(nodes)
    ensures exists p :: NodeAt(nodes, p) == Some(n)
    decreases nodes
  {
    assert nodes[0] in nodes;
    if n == nodes[0] {
      assert NodeAt(nodes, [0]) == Some(n);
    } else if n in PreOrder(nodes[0].children) {
      PreOrderHasPath(nodes[0].children, n);
      var p :| NodeAt(nodes[0].children, p) == Some(n);
      NodeAtFirst(nodes, p);
    } else {
      PreOrderHasPath(nodes[1..], n);
      var p :| NodeAt(nodes[1..], p) == Some(n);
      NodeAtRest(nodes, p);
    }
  }

  lemma {:induction false} PathInPreOrder(nodes: seq<StructNode>, p: seq<nat>)
    requires NodeAt(nodes, p).Some?
    ensures NodeAt(nodes, p).value in PreOrder(nodes)
    decreases |p|
  {
    var i := p[0];
    assert nodes == nodes[..i] + [nodes[i]] + nodes[i + 1..];
    PreOrderAppend(nodes[..i] + [nodes[i]], nodes[i + 1..]);
    PreOrderAppend(nodes[..i], [nodes[i]]);
    PreOrderOne(nodes[i]);
    if |p| > 1 {
      PathInPreOrder(nodes[i].children, p[1..]);
    }
  }

  /** The titles reported for `name`: the linking nodes at any depth, in
      pre-order. */
  function ReverseLinks(roots: seq<StructNode>, name: string): seq<string> {
    LinkingTitles(PreOrder(roots), name)
  }

  /** The node at path `p` links `name` and has title `t`. */
  predicate LinkedAt(roots: seq<StructNode>, p: seq<nat>, name: string, t: string) {
    NodeAt(roots, p).Some? && name in NodeAt(roots, p).value.linkedObjects && NodeAt(roots, p).value.title == t
  }

  /** A title is reported exactly when some node at some path links the
      name and carries that title; there are never more titles than nodes;
      no roots, no titles. */
  lemma ReverseLinksSpec(roots: seq<StructNode>, name: string)
    ensures forall t :: t in ReverseLinks(roots, name) <==>
      exists p :: LinkedAt(roots, p, name, t)
    ensures |ReverseLinks(roots, name)| <= |PreOrder(roots)|
    ensures roots == [] ==> ReverseLinks(roots, name) == []
  {
    LinkingTitlesBounded(PreOrder(roots), name);
    forall t | t in ReverseLinks(roots, name)
      ensures exists p :: LinkedAt(roots, p, name, t)
    {
      var n :| n in PreOrder(roots) && name in n.linkedObjects && n.title == t;
      PreOrderHasPath(roots, n);
      var p :| NodeAt(roots, p) == Some(n);
      assert LinkedAt(roots, p, name, t);
    }
    forall t | exists p :: LinkedAt(roots, p, name, t)
      ensures t in ReverseLinks(roots, name)
    {
      var p :| LinkedAt(roots, p, name, t);
      PathInPreOrder(roots, p);
      var n := NodeAt(roots, p).value;
      assert n in PreOrder(roots) && name in n.linkedObjects && n.title == t;
    }
  }

  /** One more sibling adds its own title, if it links the name, and then
      those of its subtree. */
  lemma WalkStep(nodes: seq<StructNode>, i: nat, name: string)
    requires i < |nodes|
    ensures ReverseLinks(nodes[..i + 1], name) ==
      ReverseLinks(nodes[..i], name)
      + (if name in nodes[i].linkedObjects then [nodes[i].title] else [])
      + ReverseLinks(nodes[i].children, name)
  {
    var n := nodes[i];
    assert nodes[..i + 1] == nodes[..i] + [n];
    PreOrderAppend(nodes[..i], [n]);
    PreOrderOne(n);
    LinkingTitlesAppend(PreOrder(nodes[..i]), [n] + PreOrder(n.children), name);
    LinkingTitlesAppend([n], PreOrder(n.children), name);
    assert [n][1..] == [];
  }

  /** The recursive `walk`: every node in turn pushes its title if it links
      the name, then its children are walked. */
  method Walk(nodes: seq<StructNode>, name: string, out: seq<string>) returns (res: seq<string>)
    ensures res == out + ReverseLinks(nodes, name)
    decreases nodes
  {
    res := out;
    var i := 0;
    while i < |nodes|
      invariant 0 <= i <= |nodes|
      invariant res == out + ReverseLinks(nodes[..i], name)
    {
      var n := nodes[i];
      assert n in nodes;
      if name in n.linkedObjects {
        res := res + [n.title];
      }
      res := Walk(n.children, name, res);
      WalkStep(nodes, i, name);
      i := i + 1;
    }
    assert nodes[..i] == nodes;
  }

  /** `collect_nodes_linking_object`. */
  method CollectNodesLinkingObject(roots: seq<StructNode>, name: string) returns (out: seq<string>)
    ensures out == ReverseLinks(roots, name)
  {
    out := Walk(roots, name, []);
  }

  // ── The object list ─────────────────────────────────────────────────────────

  /** Whether the list shows an object of kind `kind` under `filter`. */
  predicate Shows(filter: Option<ObjectKind>, kind: ObjectKind) {
    filter.None? || filter.value == kind
  }

  /** The fields of the application that the objects panel reads and
      writes. */
  class ObjectsPanel {
    var worldObjects: seq<WorldObject>
    var selectedObj: Option<nat>
    var objKindFilter: Option<ObjectKind>
    var newObjName: string
    var newObjKind: ObjectKind
    var newLinkIsNode: bool
    var newLinkName: string
    var newLinkNote: string
    var newLinkRelKind: App.RelationKind

    constructor ()
      ensures worldObjects == [] && selectedObj.None? && objKindFilter.None?
      ensures newObjName == [] && newLinkName == [] && newLinkNote == [] && !newLinkIsNode
    {
      worldObjects, selectedObj, objKindFilter := [], None, None;
      newObjName, newObjKind := [], ObjectKind(0);
      newLinkIsNode, newLinkName, newLinkNote, newLinkRelKind := false, [], [], App.Friend;
    }

    /** The "全部" chip: every kind is listed again. */
    method ClickAllChip()
      modifies this`objKindFilter
      ensures objKindFilter.None?
    {
      objKindFilter := None;
    }

    /** A kind chip: selecting the chip of the current filter clears it,
        any other chip makes its kind the filter. */
    method ClickKindChip(k: ObjectKind)
      modifies this`objKindFilter
      ensures objKindFilter == Some(k) <==> old(objKindFilter) != Some(k)
      ensures objKindFilter.None? <==> old(objKindFilter) == Some(k)
    {
      if objKindFilter == Some(k) {
        objKindFilter := None;
      } else {
        objKindFilter := Some(k);
      }
    }

    /** The indices the list draws: in increasing order, exactly the objects
        whose kind is the filter, or every object when there is none. */
    method VisibleObjects() returns (shown: seq<nat>)
      ensures forall i: nat :: i in shown <==> i < |worldObjects| && Shows(objKindFilter, worldObjects[i].kind)
      ensures forall a, b :: 0 <= a < b < |shown| ==> shown[a] < shown[b]
    {
      shown := [];
      var i := 0;
      while i < |worldObjects|
        invariant 0 <= i <= |worldObjects|
        invariant forall j: nat :: j in shown <==> j < i && Shows(objKindFilter, worldObjects[j].kind)
        invariant forall a, b :: 0 <= a < b < |shown| ==> shown[a] < shown[b]
        invariant forall a :: 0 <= a < |shown| ==> shown[a] < i
      {
        if objKindFilter.Some? && worldObjects[i].kind != objKindFilter.value {
          i := i + 1;
          continue;
        }
        shown := shown + [i];
        i := i + 1;
      }
    }

    /** "➕ 添加对象": a non-blank trimmed name becomes a new last object of the
        chosen kind, which is selected, and the name field is cleared; a
        blank name changes nothing. */
    method AddObject()
      modifies this`worldObjects, this`selectedObj, this`newObjName
      ensures var name := Trim(old(newObjName));
        if name == [] then
          worldObjects == old(worldObjects) && selectedObj == old(selectedObj) && newObjName == old(newObjName)
        else
          && worldObjects == old(worldObjects) + [NewObject(name, newObjKind)]
          && selectedObj == Some(|old(worldObjects)|)
          && worldObjects[selectedObj.value].name == name
          && newObjName == []
    {
      var name := Trim(newObjName);
      if name != [] {
        var idx := |worldObjects|;
        worldObjects := worldObjects + [NewObject(name, newObjKind)];
        selectedObj := Some(idx);
        newObjName := [];
      }
    }

    /** The context-menu delete of object `i`, with the selection kept on
        the same object: cleared if it was `i`, one less if it was after. */
    method RemoveObject(i: nat)
      requires i < |worldObjects|
      modifies this`worldObjects, this`selectedObj
      ensures worldObjects == RemoveAt(old(worldObjects), i)
      ensures selectedObj == App.RepairSelection(old(selectedObj), i)
      ensures old(selectedObj).Some? && old(selectedObj).value < |old(worldObjects)| && old(selectedObj).value != i ==>
        selectedObj.Some? && selectedObj.value < |worldObjects| &&
        worldObjects[selectedObj.value] == old(worldObjects)[old(selectedObj).value]
    {
      App.RepairKeepsItem(worldObjects, selectedObj, i);
      worldObjects := RemoveAt(worldObjects, i);
      match selectedObj
      case Some(s) =>
        if s == i {
          selectedObj := None;
        } else if s > i {
          selectedObj := Some(s - 1);
        }
      case None =>
    }

    /** The link "➕": with a selected object that exists and a non-blank
        trimmed target name, a link to the node or object of that name, of
        the chosen relation and with the trimmed note, is appended to the
        object's links and both text fields are cleared; otherwise nothing
        changes. */
    method AddLink()
      modifies this`worldObjects, this`newLinkName, this`newLinkNote
      ensures var name := Trim(old(newLinkName));
        if old(selectedObj).Some? && old(selectedObj).value < |old(worldObjects)| && name != [] then
          var idx := old(selectedObj).value;
          var obj := old(worldObjects)[idx];
          var target := if newLinkIsNode then Node(name) else Object(name);
          && worldObjects == old(worldObjects)[idx := obj.(links := obj.links + [ObjectLink(target, newLinkRelKind, Trim(old(newLinkNote)))])]
          && newLinkName == [] && newLinkNote == []
        else
          worldObjects == old(worldObjects) && newLinkName == old(newLinkName) && newLinkNote == old(newLinkNote)
    {
      if selectedObj.None? {
        return;
      }
      var idx := selectedObj.value;
      if idx >= |worldObjects| {
        return;
      }
      var doAddLink := Trim(newLinkName) != [];
      if doAddLink {
        var name := Trim(newLinkName);
        var target := if newLinkIsNode then Node(name) else Object(name);
        var obj := worldObjects[idx];
        worldObjects := worldObjects[idx := obj.(links := obj.links + [ObjectLink(target, newLinkRelKind, Trim(newLinkNote))])];
        newLinkName := [];
        newLinkNote := [];
      }
    }
  }
}
