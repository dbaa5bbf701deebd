/**
 * `WorldSceningTrackingModel`: the loop that drains the scene-reconstruction
 * provider's anchor updates and edits the root entity's children, one event
 * at a time, in stream order.
 *
 * Starting the ARKit session, the support check, async suspension and
 * logging are not modelled; the update stream is a finite sequence.
 */
module WorldScening {
  import opened Wrappers
  import opened Uuid
  import opened Color
  import opened Geometry
  import opened Anchors
  import opened SceneGraph

  /**
   * `MeshResource.generate(from:)`. RealityKit may throw here for reasons the
   * model cannot see, so whether it throws is chosen arbitrarily; when it does
   * not, the resource is the one built from the given descriptors.
   */
  method GenerateMeshResource(descriptors: seq<MeshDescriptor>) returns (r: Result<MeshResource, MeshError>)
    ensures r.Success? ==> r.value == MeshResource(descriptors)
  {
    var fails: bool :| true;
    if fails {
      r := Failure(MeshGenerationFailed);
    } else {
      r := Success(MeshResource(descriptors));
    }
  }

  class WorldSceningTrackingModel {
    /** `rootEntity.children`, in order. */
    var rootChildren: seq<AnchorEntity>

    constructor ()
      ensures rootChildren == []
    {
      rootChildren := [];
    }

    /**
     * `generateModelEntity`: the descriptor from the anchor's geometry, a mesh
     * generated from it, and a material coloured from the anchor id. The only
     * failure is the one mesh generation throws.
     */
    method GenerateModelEntity(anchorId: UUID, geometry: MeshGeometry) returns (r: Result<ModelEntity, MeshError>)
      requires CoversIndexReads(geometry.faces)
      ensures r.Success? ==> r.value == ModelEntityFor(anchorId, geometry)
    {
      var desc := MeshDescriptorOf(geometry);
      var meshResource := GenerateMeshResource([desc]);
      if meshResource.Failure? {
        return Failure(meshResource.error);
      }
      var material := SimpleMaterial(ColorFromUuid(anchorId), false);
      r := Success(ModelEntity(meshResource.value, [material]));
    }

    /**
     * `createMeshEntity`: on success one node for the anchor is appended,
     * whether or not the root already has one with that name; on failure the
     * root is untouched.
     */
    method CreateMeshEntity(anchor: MeshAnchor) returns (error: Option<MeshError>)
      requires CoversIndexReads(anchor.geometry.faces)
      modifies this
      ensures error.None? ==>
        rootChildren == AfterCreate(old(rootChildren), anchor, ModelEntityFor(anchor.id, anchor.geometry))
      ensures error.Some? ==> rootChildren == old(rootChildren)
    {
      var generated := GenerateModelEntity(anchor.id, anchor.geometry);
      if generated.Failure? {
        return Some(generated.error);
      }
      var anchorEntity := AnchorEntity("", anchor.originFromAnchorTransform, []);
      anchorEntity := anchorEntity.(children := anchorEntity.children + [generated.value]);
      anchorEntity := anchorEntity.(name := AnchorName(anchor.id));
      assert anchorEntity == NewAnchorEntity(anchor, generated.value);
      rootChildren := rootChildren + [anchorEntity];
      error := None;
    }

    /**
     * `updateMeshEntity`: on success the first node named after the anchor,
     * if there is one, has exactly the new model entity as its child and keeps
     * its place; with no such node, or on failure, nothing changes.
     */
    method UpdateMeshEntity(anchor: MeshAnchor) returns (error: Option<MeshError>)
      requires CoversIndexReads(anchor.geometry.faces)
      modifies this
      ensures error.None? ==>
        rootChildren == AfterUpdate(old(rootChildren), anchor.id, ModelEntityFor(anchor.id, anchor.geometry))
      ensures error.None? && FindEntity(old(rootChildren), AnchorName(anchor.id)).Some? ==>
        var i := FindEntity(old(rootChildren), AnchorName(anchor.id)).value;
        && |rootChildren| == |old(rootChildren)|
        && rootChildren[i] == old(rootChildren)[i].(children := [ModelEntityFor(anchor.id, anchor.geometry)])
        && forall j :: 0 <= j < |rootChildren| && j != i ==> rootChildren[j] == old(rootChildren)[j]
      ensures error.Some? || FindEntity(old(rootChildren), AnchorName(anchor.id)).None? ==>
        rootChildren == old(rootChildren)
    {
      var generated := GenerateModelEntity(anchor.id, anchor.geometry);
      if generated.Failure? {
        return Some(generated.error);
      }
      var found := FindEntity(rootChildren, AnchorName(anchor.id));
      if found.Some? {
        var i := found.value;
        var anchorEntity := rootChildren[i];
        anchorEntity := anchorEntity.(children := []);
        anchorEntity := anchorEntity.(children := anchorEntity.children + [generated.value]);
        assert anchorEntity == rootChildren[i].(children := [generated.value]);
        rootChildren := rootChildren[i := anchorEntity];
      }
      error := None;
    }

    /**
     * `removeMeshEntity`: the first node named after the anchor, if there is
     * one, leaves the root and the others keep their order; otherwise nothing
     * changes. It never fails.
     */
    method RemoveMeshEntity(anchor: MeshAnchor)
      modifies this
      ensures rootChildren == AfterRemove(old(rootChildren), anchor.id)
      ensures FindEntity(old(rootChildren), AnchorName(anchor.id)).Some? ==>
        var i := FindEntity(old(rootChildren), AnchorName(anchor.id)).value;
        rootChildren == old(rootChildren)[..i] + old(rootChildren)[i + 1..]
      ensures FindEntity(old(rootChildren), AnchorName(anchor.id)).None? ==> rootChildren == old(rootChildren)
    {
      var found := FindEntity(rootChildren, AnchorName(anchor.id));
      if found.Some? {
        var i := found.value;
        rootChildren := rootChildren[..i] + rootChildren[i + 1..];
      }
    }

    /**
     * `run`: the events are applied one at a time in stream order. The
     * `do`/`catch` encloses the whole loop, so the first mesh generation that
     * throws, for an `added` or an `updated`, ends it: `consumed` events were
     * applied, the one at `consumed` failed before changing anything, and none
     * after it was looked at.
     */
    method Run(updates: seq<AnchorUpdate>) returns (consumed: nat, error: Option<MeshError>)
      requires AllDecodable(updates)
      modifies this
      ensures consumed <= |updates|
      ensures rootChildren == ApplyAll(old(rootChildren), updates[..consumed])
      ensures error.None? <==> consumed == |updates|
      ensures error.Some? ==> !updates[consumed].event.Removed?
    {
      consumed, error := 0, None;
      while consumed < |updates|
        invariant consumed <= |updates|
        invariant error.None?
        invariant AllDecodable(updates[..consumed])
        invariant rootChildren == ApplyAll(old(rootChildren), updates[..consumed])
      {
        var update := updates[consumed];
        ghost var before := rootChildren;
        assert updates[..consumed + 1][..consumed] == updates[..consumed];
        ghost var next := ApplyAll(old(rootChildren), updates[..consumed + 1]);
        assert next == ApplyUpdate(before, update);
        match update.event {
        case Added =>
          error := CreateMeshEntity(update.anchor);
          if error.Some? {
            return;
          }
          assert |rootChildren| == |before| + 1 && rootChildren[..|before|] == before;
        case Updated =>
          error := UpdateMeshEntity(update.anchor);
          if error.Some? {
            return;
          }
        case Removed =>
          RemoveMeshEntity(update.anchor);
        }
        assert rootChildren == next;
        consumed := consumed + 1;
      }
    }
  }
}
