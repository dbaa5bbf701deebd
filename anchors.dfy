/**
 * The values that flow through `WorldSceningTrackingModel`: mesh anchors and
 * their update events as the scene-reconstruction provider delivers them,
 * and the RealityKit objects built from them. RealityKit's own objects are
 * opaque here; each is the record of what it was built from.
 */
module Anchors {
  import opened Uuid
  import opened Color
  import opened Geometry

  /** `originFromAnchorTransform`, a 4x4 matrix that is only passed along. */
  datatype Transform = Transform(columns: seq<real>)

  datatype MeshAnchor = MeshAnchor(id: UUID, originFromAnchorTransform: Transform, geometry: MeshGeometry)

  datatype AnchorEvent = Added | Updated | Removed

  /** One element of `sceneDataProvider.anchorUpdates`. */
  datatype AnchorUpdate = AnchorUpdate(event: AnchorEvent, anchor: MeshAnchor)

  /** A `MeshResource` generated from a list of descriptors. */
  datatype MeshResource = MeshResource(descriptors: seq<MeshDescriptor>)

  datatype SimpleMaterial = SimpleMaterial(color: ColorBytes, isMetallic: bool)

  /** A `ModelEntity(mesh:materials:)`. */
  datatype ModelEntity = ModelEntity(mesh: MeshResource, materials: seq<SimpleMaterial>)

  /** The error `MeshResource.generate` throws. */
  datatype MeshError = MeshGenerationFailed

  /**
   * The entity `generateModelEntity` returns when mesh generation succeeds:
   * one mesh built from the anchor's descriptor, one non-metallic material
   * coloured from the anchor id.
   */
  function ModelEntityFor(anchorId: UUID, g: MeshGeometry): (e: ModelEntity)
    requires CoversIndexReads(g.faces)
    ensures |e.mesh.descriptors| == 1 && e.mesh.descriptors[0] == MeshDescriptorOf(g)
    ensures |e.materials| == 1 && e.materials[0].color == ColorFromUuid(anchorId) && !e.materials[0].isMetallic
  {
    ModelEntity(MeshResource([MeshDescriptorOf(g)]), [SimpleMaterial(ColorFromUuid(anchorId), false)])
  }

  /**
   * The index buffer of an add or update event is long enough for every read
   * the face decoding makes; a removal never reads its geometry.
   */
  predicate Decodable(u: AnchorUpdate)
  {
    u.event.Removed? || CoversIndexReads(u.anchor.geometry.faces)
  }
}
