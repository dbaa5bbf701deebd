/**
 * The root entity's child list as a value, and what each anchor event does
 * to it. These functions are the specification the methods of
 * `WorldSceningTrackingModel` are proved against; the lemmas say what the
 * bookkeeping does and does not guarantee.
 *
 * Each child of the root is an `AnchorEntity` placed at the anchor's world
 * transform, named after the anchor, whose children are model entities.
 * `findEntity(named:)` is taken to return the first child of the root, in
 * child order, that carries the name: the model entities below the anchor
 * entities are never named, so no other entity can match.
 */
module SceneGraph {
  import opened Wrappers
  import opened Uuid
  import opened Geometry
  import opened Anchors

  datatype AnchorEntity = AnchorEntity(name: string, transform: Transform, children: seq<ModelEntity>)

  /** `rootEntity.findEntity(named:)`: the position of the first child with that name. */
  function FindEntity(root: seq<AnchorEntity>, name: string): (r: Option<nat>)
    ensures r.Some? ==> r.value < |root| && root[r.value].name == name
    ensures r.Some? ==> forall j :: 0 <= j < r.value ==> root[j].name != name
    ensures r.None? ==> forall j :: 0 <= j < |root| ==> root[j].name != name
  {
    if root == [] then None
    else if root[0].name == name then Some(0)
    else match FindEntity(root[1..], name)
      case Some(i) => Some(i + 1)
      case None => None
  }

  /** How many children of the root carry the name. */
  function CountNamed(root: seq<AnchorEntity>, name: string): (n: nat)
    ensures n == 0 <==> forall j :: 0 <= j < |root| ==> root[j].name != name
  {
    if root == [] then 0
    else (if root[0].name == name then 1 else 0) + CountNamed(root[1..], name)
  }

  /** At most one node per name. */
  predicate UniqueNames(root: seq<AnchorEntity>)
  {
    forall i, j :: 0 <= i < j < |root| ==> root[i].name != root[j].name
  }

  /** The node `createMeshEntity` builds for an anchor around a model entity. */
  function NewAnchorEntity(anchor: MeshAnchor, e: ModelEntity): (n: AnchorEntity)
    ensures n.name == AnchorName(anchor.id) && n.transform == anchor.originFromAnchorTransform
    ensures n.children == [e]
  {
    AnchorEntity(AnchorName(anchor.id), anchor.originFromAnchorTransform, [e])
  }

  /** `rootEntity.addChild(anchorEntity)`, with no check for an existing node. */
  function AfterCreate(root: seq<AnchorEntity>, anchor: MeshAnchor, e: ModelEntity): (r: seq<AnchorEntity>)
    ensures |r| == |root| + 1 && r[..|root|] == root && r[|root|] == NewAnchorEntity(anchor, e)
  {
    root + [NewAnchorEntity(anchor, e)]
  }

  /** `children.removeAll()` then `addChild(modelEntity)` on the found node, if any. */
  function AfterUpdate(root: seq<AnchorEntity>, id: UUID, e: ModelEntity): (r: seq<AnchorEntity>)
    ensures |r| == |root|
    ensures forall j :: 0 <= j < |r| ==> r[j].name == root[j].name && r[j].transform == root[j].transform
  {
    match FindEntity(root, AnchorName(id))
    case None => root
    case Some(i) => root[i := root[i].(children := [e])]
  }

  /** `anchorEntity.removeFromParent()` on the found node, if any. */
  function AfterRemove(root: seq<AnchorEntity>, id: UUID): (r: seq<AnchorEntity>)
    ensures |r| == if FindEntity(root, AnchorName(id)).Some? then |root| - 1 else |root|
  {
    match FindEntity(root, AnchorName(id))
    case None => root
    case Some(i) => root[..i] + root[i + 1..]
  }

  /** The effect of one event whose mesh generation, if any, succeeded. */
  function ApplyUpdate(root: seq<AnchorEntity>, u: AnchorUpdate): (r: seq<AnchorEntity>)
    requires Decodable(u)
    ensures u.event.Added? ==> |r| == |root| + 1 && r[..|root|] == root
    ensures u.event.Updated? ==> |r| == |root|
    ensures u.event.Removed? ==> |r| <= |root|
  {
    match u.event
    case Added => AfterCreate(root, u.anchor, ModelEntityFor(u.anchor.id, u.anchor.geometry))
    case Updated => AfterUpdate(root, u.anchor.id, ModelEntityFor(u.anchor.id, u.anchor.geometry))
    case Removed => AfterRemove(root, u.anchor.id)
  }

  predicate AllDecodable(us: seq<AnchorUpdate>)
  {
    forall k :: 0 <= k < |us| ==> Decodable(us[k])
  }

  /** The events applied one after another, in stream order. */
  function ApplyAll(root: seq<AnchorEntity>, us: seq<AnchorUpdate>): (r: seq<AnchorEntity>)
    requires AllDecodable(us)
    ensures |r| <= |root| + |us|
  {
    if us == [] then root
    else ApplyUpdate(ApplyAll(root, us[..|us| - 1]), us[|us| - 1])
  }

  // ---------------------------------------------------------------- counting

  lemma {:induction false} CountNamedAppend(a: seq<AnchorEntity>, b: seq<AnchorEntity>, name: string)
    ensures CountNamed(a + b, name) == CountNamed(a, name) + CountNamed(b, name)
  {
    if a != [] {
      assert (a + b)[0] == a[0] && (a + b)[1..] == a[1..] + b;
      CountNamedAppend(a[1..], b, name);
    } else {
      assert a + b == b;
    }
  }

  lemma {:induction false} CountNamedZeroIffNotFound(root: seq<AnchorEntity>, name: string)
    ensures CountNamed(root, name) == 0 <==> FindEntity(root, name).None?
  {
    if root != [] {
      CountNamedZeroIffNotFound(root[1..], name);
      if root[0].name != name {
        assert CountNamed(root, name) == CountNamed(root[1..], name);
        assert FindEntity(root, name).None? == FindEntity(root[1..], name).None?;
      }
    }
  }

  /** The lookup's answer is determined: the first position holding the name, or none. */
  lemma FindEntityFirst(root: seq<AnchorEntity>, name: string, k: nat)
    requires k < |root| && root[k].name == name
    requires forall j :: 0 <= j < k ==> root[j].name != name
    ensures FindEntity(root, name) == Some(k)
  {
  }

  /** Two child lists with the same names in the same order answer every lookup alike. */
  lemma {:induction false} SameNamesSameLookups(a: seq<AnchorEntity>, b: seq<AnchorEntity>, name: string)
    requires |a| == |b| && forall k :: 0 <= k < |a| ==> a[k].name == b[k].name
    ensures FindEntity(a, name) == FindEntity(b, name)
    ensures CountNamed(a, name) == CountNamed(b, name)
  {
    if a != [] {
      SameNamesSameLookups(a[1..], b[1..], name);
    }
  }

  // ---------------------------------------------------------------- added

  /**
   * An `added` event appends exactly one node, named after the anchor, at
   * the anchor's transform, holding only the new model entity; the earlier
   * children are untouched. The count of nodes with that name goes up by one
   * even when one already exists, and lookups keep finding the older node.
   */
  lemma CreateAppendsOneNode(root: seq<AnchorEntity>, anchor: MeshAnchor, e: ModelEntity)
    ensures var r := AfterCreate(root, anchor, e);
      && |r| == |root| + 1
      && r[..|root|] == root
      && r[|root|].name == AnchorName(anchor.id)
      && r[|root|].transform == anchor.originFromAnchorTransform
      && r[|root|].children == [e]
      && CountNamed(r, AnchorName(anchor.id)) == CountNamed(root, AnchorName(anchor.id)) + 1
      && FindEntity(r, AnchorName(anchor.id)) ==
           (if FindEntity(root, AnchorName(anchor.id)).Some? then FindEntity(root, AnchorName(anchor.id))
            else Some(|root|))
  {
    var r, name := AfterCreate(root, anchor, e), AnchorName(anchor.id);
    CountNamedAppend(root, [NewAnchorEntity(anchor, e)], name);
    assert r[..|root|] == root;
    assert forall j :: 0 <= j < |root| ==> r[j] == root[j];
    match FindEntity(root, name)
    case Some(k) => FindEntityFirst(r, name, k);
    case None => FindEntityFirst(r, name, |root|);
  }

  /**
   * A duplicate `added` breaks the one-node-per-anchor invariant: from a
   * registry that keeps it, the new list keeps it exactly when no node for
   * the anchor existed.
   */
  lemma CreateKeepsUniqueIffAbsent(root: seq<AnchorEntity>, anchor: MeshAnchor, e: ModelEntity)
    requires UniqueNames(root)
    ensures UniqueNames(AfterCreate(root, anchor, e)) <==> FindEntity(root, AnchorName(anchor.id)).None?
  {
    var r := AfterCreate(root, anchor, e);
    if FindEntity(root, AnchorName(anchor.id)).Some? {
      var i := FindEntity(root, AnchorName(anchor.id)).value;
      assert r[i].name == r[|root|].name;
    }
  }

  // ---------------------------------------------------------------- updated

  /**
   * An `updated` event for a known anchor makes the found node's children
   * exactly the new model entity and changes no other node and no position;
   * for an unknown anchor it changes nothing.
   */
  lemma UpdateReplacesChildren(root: seq<AnchorEntity>, id: UUID, e: ModelEntity)
    ensures var r := AfterUpdate(root, id, e);
      match FindEntity(root, AnchorName(id))
      case None => r == root
      case Some(i) =>
        && |r| == |root|
        && r[i] == AnchorEntity(root[i].name, root[i].transform, [e])
        && forall j :: 0 <= j < |root| && j != i ==> r[j] == root[j]
  {
  }

  /**
   * Updates never change which name sits where, so every lookup and every
   * count is the same afterwards, and the invariant is kept.
   */
  lemma UpdateKeepsStructure(root: seq<AnchorEntity>, id: UUID, e: ModelEntity, name: string)
    ensures FindEntity(AfterUpdate(root, id, e), name) == FindEntity(root, name)
    ensures CountNamed(AfterUpdate(root, id, e), name) == CountNamed(root, name)
    ensures UniqueNames(AfterUpdate(root, id, e)) == UniqueNames(root)
  {
    SameNamesSameLookups(AfterUpdate(root, id, e), root, name);
  }

  /** A second update of the same anchor overrides the first entirely. */
  lemma UpdateOverridesUpdate(root: seq<AnchorEntity>, id: UUID, e1: ModelEntity, e2: ModelEntity)
    ensures AfterUpdate(AfterUpdate(root, id, e1), id, e2) == AfterUpdate(root, id, e2)
  {
    UpdateKeepsStructure(root, id, e1, AnchorName(id));
  }

  // ---------------------------------------------------------------- removed

  /**
   * A `removed` event deletes the first node with the anchor's name and keeps
   * the others in their order; when there is none it changes nothing.
   */
  lemma RemoveDeletesFoundNode(root: seq<AnchorEntity>, id: UUID)
    ensures var r := AfterRemove(root, id);
      match FindEntity(root, AnchorName(id))
      case None => r == root
      case Some(i) =>
        && |r| == |root| - 1
        && r == root[..i] + root[i + 1..]
        && CountNamed(r, AnchorName(id)) == CountNamed(root, AnchorName(id)) - 1
  {
    var name := AnchorName(id);
    match FindEntity(root, name)
    case None =>
    case Some(i) =>
      assert root == root[..i] + ([root[i]] + root[i + 1..]);
      CountNamedAppend(root[..i], [root[i]] + root[i + 1..], name);
      CountNamedAppend([root[i]], root[i + 1..], name);
      CountNamedAppend(root[..i], root[i + 1..], name);
  }

  /**
   * In a registry with one node per anchor, a removal leaves no node for the
   * anchor, keeps the invariant, and a second removal changes nothing.
   */
  lemma RemoveClearsUniqueEntry(root: seq<AnchorEntity>, id: UUID)
    requires UniqueNames(root)
    ensures UniqueNames(AfterRemove(root, id))
    ensures FindEntity(AfterRemove(root, id), AnchorName(id)).None?
    ensures AfterRemove(AfterRemove(root, id), id) == AfterRemove(root, id)
  {
  }

  /** Removing one anchor leaves the node of every other anchor as it was. */
  lemma RemoveLeavesOtherAnchors(root: seq<AnchorEntity>, x: UUID, y: UUID)
    requires x != y
    ensures var r := AfterRemove(root, x);
      && FindEntity(r, AnchorName(y)).Some? == FindEntity(root, AnchorName(y)).Some?
      && (FindEntity(root, AnchorName(y)).Some? ==>
            r[FindEntity(r, AnchorName(y)).value] == root[FindEntity(root, AnchorName(y)).value])
  {
    AnchorNameInjective(x, y);
    var r := AfterRemove(root, x);
    match FindEntity(root, AnchorName(x))
    case None =>
    case Some(i) =>
      assert forall j :: 0 <= j < |r| ==> r[j] == (if j < i then root[j] else root[j + 1]);
      match FindEntity(root, AnchorName(y))
      case None =>
        assert forall j :: 0 <= j < |r| ==> r[j].name != AnchorName(y);
      case Some(k) =>
        var k' := if k < i then k else k - 1;
        assert r[k'] == root[k];
        FindEntityFirst(r, AnchorName(y), k');
  }

  // ---------------------------------------------------------------- streams

  lemma {:induction false} ApplyAllConcat(root: seq<AnchorEntity>, a: seq<AnchorUpdate>, b: seq<AnchorUpdate>)
    requires AllDecodable(a) && AllDecodable(b)
    ensures AllDecodable(a + b)
    ensures ApplyAll(root, a + b) == ApplyAll(ApplyAll(root, a), b)
    decreases |b|
  {
    assert forall k :: 0 <= k < |a + b| ==> (a + b)[k] == if k < |a| then a[k] else b[k - |a|];
    if b != [] {
      var b' := b[..|b| - 1];
      assert (a + b)[..|a + b| - 1] == a + b';
      assert AllDecodable(b');
      ApplyAllConcat(root, a, b');
    } else {
      assert a + b == a;
    }
  }

  /** Every event of the stream is an `updated` for the anchor `id`. */
  predicate UpdatesOf(us: seq<AnchorUpdate>, id: UUID)
  {
    forall k :: 0 <= k < |us| ==> us[k].event.Updated? && us[k].anchor.id == id
  }

  /**
   * Updates for an anchor whose node is the last child, and the only one with
   * its name, keep it the last child with the same name over the same prefix.
   */
  lemma {:induction false} UpdatesKeepLastNode(root: seq<AnchorEntity>, n: AnchorEntity, us: seq<AnchorUpdate>, id: UUID)
    requires FindEntity(root, AnchorName(id)).None? && n.name == AnchorName(id)
    requires AllDecodable(us) && UpdatesOf(us, id)
    ensures var r := ApplyAll(root + [n], us);
      |r| == |root| + 1 && r[..|root|] == root && r[|root|].name == n.name
    decreases |us|
  {
    if us == [] {
      assert (root + [n])[..|root|] == root;
    } else {
      var us' := us[..|us| - 1];
      assert AllDecodable(us') && UpdatesOf(us', id);
      UpdatesKeepLastNode(root, n, us', id);
      var mid := ApplyAll(root + [n], us');
      assert forall j :: 0 <= j < |root| ==> mid[j] == mid[..|root|][j] == root[j];
      FindEntityFirst(mid, AnchorName(id), |root|);
      var u := us[|us| - 1];
      var r := AfterUpdate(mid, id, ModelEntityFor(u.anchor.id, u.anchor.geometry));
      assert ApplyAll(root + [n], us) == r;
      assert r[..|root|] == root;
    }
  }

  /** After an `added` and any number of `updated`, the anchor's node is the one new last child. */
  lemma CreateThenUpdates(root: seq<AnchorEntity>, anchor: MeshAnchor, us: seq<AnchorUpdate>)
    requires FindEntity(root, AnchorName(anchor.id)).None?
    requires CoversIndexReads(anchor.geometry.faces)
    requires AllDecodable(us) && UpdatesOf(us, anchor.id)
    ensures AllDecodable([AnchorUpdate(Added, anchor)] + us)
    ensures var r := ApplyAll(root, [AnchorUpdate(Added, anchor)] + us);
      |r| == |root| + 1 && r[..|root|] == root && r[|root|].name == AnchorName(anchor.id)
  {
    var add := [AnchorUpdate(Added, anchor)];
    var e := ModelEntityFor(anchor.id, anchor.geometry);
    assert ApplyAll(root, add) == root + [NewAnchorEntity(anchor, e)] by {
      assert add[..0] == [];
    }
    ApplyAllConcat(root, add, us);
    UpdatesKeepLastNode(root, NewAnchorEntity(anchor, e), us, anchor.id);
  }

  /** A list one longer than `prefix` and starting with it is `prefix` plus its last element. */
  lemma PrefixPlusLast(s: seq<AnchorEntity>, prefix: seq<AnchorEntity>)
    requires |s| == |prefix| + 1 && s[..|prefix|] == prefix
    ensures s == prefix + [s[|prefix|]]
  {
    assert s == s[..|prefix|] + [s[|prefix|]];
  }

  /** Removing an anchor whose only node is the last child gives back the children before it. */
  lemma RemoveLastNode(root: seq<AnchorEntity>, n: AnchorEntity, id: UUID)
    requires FindEntity(root, AnchorName(id)).None? && n.name == AnchorName(id)
    ensures AfterRemove(root + [n], id) == root
  {
    var r := root + [n];
    assert forall j :: 0 <= j < |root| ==> r[j] == root[j];
    FindEntityFirst(r, AnchorName(id), |root|);
    assert r[..|root|] == root;
  }

  /**
   * Round trip to empty: for an anchor with no node yet, an `added`, any
   * number of `updated` and a `removed` for it leave the root's children as
   * they were.
   */
  lemma AnchorLifecycleRestoresRoot(root: seq<AnchorEntity>, anchor: MeshAnchor, us: seq<AnchorUpdate>, last: MeshAnchor)
    requires FindEntity(root, AnchorName(anchor.id)).None?
    requires CoversIndexReads(anchor.geometry.faces)
    requires AllDecodable(us) && UpdatesOf(us, anchor.id)
    requires last.id == anchor.id
    ensures AllDecodable([AnchorUpdate(Added, anchor)] + us + [AnchorUpdate(Removed, last)])
    ensures ApplyAll(root, [AnchorUpdate(Added, anchor)] + us + [AnchorUpdate(Removed, last)]) == root
  {
    var prefix, rem := [AnchorUpdate(Added, anchor)] + us, [AnchorUpdate(Removed, last)];
    CreateThenUpdates(root, anchor, us);
    ApplyAllConcat(root, prefix, rem);
    var mid := ApplyAll(root, prefix);
    PrefixPlusLast(mid, root);
    assert ApplyAll(mid, rem) == AfterRemove(mid, anchor.id) by {
      assert rem[..0] == [];
    }
    RemoveLastNode(root, mid[|root|], anchor.id);
  }
}
