# WorldScening mesh-anchor bookkeeping, modelled in Dafny

This project models the engine inside `WorldSceningTrackingModel` of the
visionOS showcase app. It turns the scene-reconstruction provider's stream of
mesh-anchor updates into edits of the root entity's child list:

- an `added` event builds a model entity from the anchor's geometry and
  appends a new anchor entity named `MeshAnchor-<id>` that holds it;
- an `updated` event builds a new model entity and makes it the only child of
  the node with that name, if there is one;
- a `removed` event detaches that node, if there is one.

The model also covers the two pure helpers under it. One decodes the
face-index buffer into the mesh descriptor's triangle list. The other picks
the material colour's bytes out of the anchor's UUID.

Modules, leaf first:

- `Wrappers` (`wrappers.dfy`): `Option` and `Result`.
- `Bytes` (`bytes.dfy`): the `byte` type, an integer from 0 to 255.
- `Uuid` (`uuid.dfy`): the anchor id as 16 bytes and the node name built from
  it, with a parser for the printed form that proves the name injective.
- `Color` (`color.dfy`): `colorFromUUID` at the byte level.
- `Geometry` (`geometry.dfy`): the mesh descriptor filled in by
  `generateModelEntity`, including the face-index decoding.
- `Anchors` (`anchors.dfy`): anchors, update events and the RealityKit
  objects built from them, kept as plain values.
- `SceneGraph` (`scene_graph.dfy`): the root's children as a sequence, the
  effect of each event as a function, and the lemmas about them.
- `WorldScening` (`tracking_model.dfy`): the class `WorldSceningTrackingModel`
  with a `rootChildren` field. Its methods `CreateMeshEntity`,
  `UpdateMeshEntity`, `RemoveMeshEntity` and `Run` edit that field in place,
  and each is proved against the matching `SceneGraph` function.

Assumptions the model makes about code it cannot see:

- `findEntity(named:)` returns the first child of the root, in child order,
  that has the name. Only anchor entities are ever named here, so nothing
  deeper in the tree can match.
- `MeshResource.generate(from:)` may throw at any call. The model chooses that
  arbitrarily. When it does not throw, the resource is the one built from the
  descriptor.
- The name interpolates the UUID's description. That is taken to be the
  upper-case 8-4-4-4-12 hexadecimal form. The scene-graph lemmas rely only on
  the name being injective. `Color.ChannelsArePrintedBytes` also relies on
  the assumed layout itself.
- Memory is little-endian, and `geometry.faces.buffer` is long enough for
  every read the decoding makes (`Geometry.CoversIndexReads`). The source
  never checks this; reading past the end is undefined, so the model makes it
  a precondition.

What the code does, where a reader might expect otherwise:

- `createMeshEntity` does not look for an existing node, so a second `added`
  for an anchor appends a second node with the same name. Lookups keep
  finding the older node (`SceneGraph.CreateAppendsOneNode`,
  `SceneGraph.CreateKeepsUniqueIffAbsent`).
- `updateMeshEntity` builds the new model entity before it looks for the
  node. That build may throw, and the throw ends the loop, even for an anchor
  with no node. Otherwise an update for an anchor with no node leaves the root
  unchanged (`WorldScening.WorldSceningTrackingModel.UpdateMeshEntity`,
  `SceneGraph.UpdateReplacesChildren`).
- The `do`/`catch` encloses the whole `for await`, so the first throw from
  mesh generation ends the loop and no later event is processed
  (`WorldScening.WorldSceningTrackingModel.Run`).
- Every index is a `UInt32` read at byte offset `i * bytesPerIndex`,
  whatever the index width, and no index is compared with the vertex count:
  - with 4-byte indices this decodes exactly (`Geometry.FaceIndicesRoundTrip`);
  - with 2-byte indices each entry merges two neighbouring indices
    (`Geometry.SixteenBitIndicesMerge`);
  - with 2-byte indices the last read runs past a tightly packed buffer
    (`Geometry.PackedSixteenBitBufferOverread`);
  - the triangles do not depend on the vertices at all, so out-of-range
    indices pass through unchanged (`Geometry.PrimitivesIndependentOfVertices`,
    illustrated by `Geometry.OutOfRangeIndicesAccepted`).

## Model

| member | source | states |
|---|---|---|
| `Uuid.AnchorName` | WhatVisionOSCanDo/ShowCase/WorldScening/WorldSceningTrackingModel.swift:52 | The node name is `MeshAnchor-` followed by the 36-character printed id. |
| `Uuid.UuidStringRoundTrip` | WhatVisionOSCanDo/ShowCase/WorldScening/WorldSceningTrackingModel.swift:52 | Parsing the printed form of an anchor id gives back the same 16 bytes. |
| `Uuid.AnchorNameInjective` | WhatVisionOSCanDo/ShowCase/WorldScening/WorldSceningTrackingModel.swift:52 | Two anchors get the same node name exactly when they are the same anchor. |
| `Color.ColorFromUuid` | WhatVisionOSCanDo/ShowCase/WorldScening/WorldSceningTrackingModel.swift:72-93 | Red, green and blue are bytes 0, 1 and 2 of the id, in that order, and alpha is 1. |
| `Color.ColorDeterminedByFirstThreeBytes` | WhatVisionOSCanDo/ShowCase/WorldScening/WorldSceningTrackingModel.swift:78-85 | Two ids give the same colour exactly when they agree on bytes 0, 1 and 2. The colour depends on nothing else, so one id always gives one colour. |
| `Color.ChannelsArePrintedBytes` | WhatVisionOSCanDo/ShowCase/WorldScening/WorldSceningTrackingModel.swift:83-85 | Red, green and blue are the bytes printed as the first, second and third pairs of hex digits after `MeshAnchor-` in the node's name. |
| `Geometry.ReadUInt32` | WhatVisionOSCanDo/ShowCase/WorldScening/WorldSceningTrackingModel.swift:109 | The 32-bit read at an offset is the little-endian 16-bit value there plus 65536 times the one two bytes later. |
| `Geometry.FaceVertexCounts` | WhatVisionOSCanDo/ShowCase/WorldScening/WorldSceningTrackingModel.swift:105 | There is one polygon vertex count per face, and each is 3. |
| `Geometry.FaceIndices` | WhatVisionOSCanDo/ShowCase/WorldScening/WorldSceningTrackingModel.swift:106-110 | There are exactly `3 * count` indices. |
| `Geometry.MeshDescriptorOf` | WhatVisionOSCanDo/ShowCase/WorldScening/WorldSceningTrackingModel.swift:97-111 | The descriptor's positions and normals are the geometry's vectors, with one count per face and `3 * count` indices. |
| `Geometry.IndexReadInBounds` | WhatVisionOSCanDo/ShowCase/WorldScening/WorldSceningTrackingModel.swift:106-109 | When the buffer covers the last read, every read at `i * bytesPerIndex` with `i < 3 * count` lies inside it. |
| `Geometry.MeshDescriptorContents` | WhatVisionOSCanDo/ShowCase/WorldScening/WorldSceningTrackingModel.swift:97-111 | Every polygon count is 3, and index `i` is the little-endian word at byte `i * bytesPerIndex`. Nothing bounds the indices by the vertex count. |
| `Geometry.NoFacesNoPrimitives` | WhatVisionOSCanDo/ShowCase/WorldScening/WorldSceningTrackingModel.swift:105-106 | With zero faces, any buffer will do and both primitive lists are empty. |
| `Geometry.ReadEncodedIndex` | WhatVisionOSCanDo/ShowCase/WorldScening/WorldSceningTrackingModel.swift:107-109 | In a packed buffer of 32-bit words, the word at byte `4 * i` is element `i`. |
| `Geometry.FaceIndicesRoundTrip` | WhatVisionOSCanDo/ShowCase/WorldScening/WorldSceningTrackingModel.swift:106-110 | With 4-byte indices, decoding a packed index buffer gives back exactly the indices it holds. |
| `Geometry.SixteenBitIndicesMerge` | WhatVisionOSCanDo/ShowCase/WorldScening/WorldSceningTrackingModel.swift:108-109 | With 2-byte indices, entry `i` is 16-bit index `i` plus 65536 times index `i + 1`. |
| `Geometry.PackedSixteenBitBufferOverread` | WhatVisionOSCanDo/ShowCase/WorldScening/WorldSceningTrackingModel.swift:106-109 | With 2-byte indices, a packed buffer of `6 * count` bytes is too short for the last 32-bit read. |
| `Geometry.PrimitivesIndependentOfVertices` | WhatVisionOSCanDo/ShowCase/WorldScening/WorldSceningTrackingModel.swift:103-111 | For any face element, replacing the vertex and normal lists with any others leaves the triangles unchanged. |
| `Geometry.OutOfRangeIndicesAccepted` | WhatVisionOSCanDo/ShowCase/WorldScening/WorldSceningTrackingModel.swift:103-111 | As an illustration, a geometry with no vertices and the face (5, 6, 7) still yields those indices, all out of range. |
| `Anchors.ModelEntityFor` | WhatVisionOSCanDo/ShowCase/WorldScening/WorldSceningTrackingModel.swift:113-116 | The model entity has one mesh resource, built from the descriptor decoded from this anchor's geometry, and one non-metallic material whose colour is the one chosen from this anchor's id. |
| `SceneGraph.FindEntity` | WhatVisionOSCanDo/ShowCase/WorldScening/WorldSceningTrackingModel.swift:58 | The lookup returns the first child with the name. If it returns nothing, no child has the name. |
| `SceneGraph.CountNamed` | WhatVisionOSCanDo/ShowCase/WorldScening/WorldSceningTrackingModel.swift:58 | The count for a name is zero exactly when no child carries that name. |
| `SceneGraph.NewAnchorEntity` | WhatVisionOSCanDo/ShowCase/WorldScening/WorldSceningTrackingModel.swift:50-52 | The new node has the anchor's name and transform, and exactly the new model entity as its child. |
| `SceneGraph.AfterCreate` | WhatVisionOSCanDo/ShowCase/WorldScening/WorldSceningTrackingModel.swift:53 | An add leaves the old children in front and the new node last. |
| `SceneGraph.AfterUpdate` | WhatVisionOSCanDo/ShowCase/WorldScening/WorldSceningTrackingModel.swift:58-61 | An update keeps the number of children, and every child's name and transform. |
| `SceneGraph.AfterRemove` | WhatVisionOSCanDo/ShowCase/WorldScening/WorldSceningTrackingModel.swift:65-67 | A remove shortens the list by one when a node has the name, and otherwise keeps its length. |
| `SceneGraph.ApplyUpdate` | WhatVisionOSCanDo/ShowCase/WorldScening/WorldSceningTrackingModel.swift:27-39 | An add keeps the old children and appends one, an update keeps the length, and a remove never lengthens the list. |
| `SceneGraph.ApplyAll` | WhatVisionOSCanDo/ShowCase/WorldScening/WorldSceningTrackingModel.swift:24-40 | Applying a stream of events in order adds at most one child per event. |
| `SceneGraph.CountNamedZeroIffNotFound` | WhatVisionOSCanDo/ShowCase/WorldScening/WorldSceningTrackingModel.swift:58 | No child carries the name exactly when the lookup finds nothing. |
| `SceneGraph.CreateAppendsOneNode` | WhatVisionOSCanDo/ShowCase/WorldScening/WorldSceningTrackingModel.swift:48-54 | An add appends one node, at the end. It has the anchor's name and transform, and exactly the new model entity as its child. Earlier children are unchanged. The count of nodes with that name rises by one even when one exists, and a lookup still finds the older node. |
| `SceneGraph.CreateKeepsUniqueIffAbsent` | WhatVisionOSCanDo/ShowCase/WorldScening/WorldSceningTrackingModel.swift:53 | Start from one node per name. After an add the root still has one node per name exactly when the anchor had no node before. |
| `SceneGraph.UpdateReplacesChildren` | WhatVisionOSCanDo/ShowCase/WorldScening/WorldSceningTrackingModel.swift:56-61 | For a known anchor, the found node keeps its name, transform and place, and its children become exactly the new entity. Every other node is unchanged. For an unknown anchor the root is unchanged. |
| `SceneGraph.UpdateKeepsStructure` | WhatVisionOSCanDo/ShowCase/WorldScening/WorldSceningTrackingModel.swift:58-61 | After an update, every name lookup, every count and the one-node-per-name property come out as before. |
| `SceneGraph.UpdateOverridesUpdate` | WhatVisionOSCanDo/ShowCase/WorldScening/WorldSceningTrackingModel.swift:56-61 | Two updates of one anchor leave the same root as the second one alone. |
| `SceneGraph.RemoveDeletesFoundNode` | WhatVisionOSCanDo/ShowCase/WorldScening/WorldSceningTrackingModel.swift:64-68 | A remove deletes the first node with the anchor's name, and the rest keep their order. The root shrinks by one, and the count for that name drops by one. Without such a node the root is unchanged. |
| `SceneGraph.RemoveClearsUniqueEntry` | WhatVisionOSCanDo/ShowCase/WorldScening/WorldSceningTrackingModel.swift:64-68 | With one node per name, a remove leaves no node for the anchor and keeps that property. A second remove changes nothing. |
| `SceneGraph.RemoveLeavesOtherAnchors` | WhatVisionOSCanDo/ShowCase/WorldScening/WorldSceningTrackingModel.swift:64-68 | Removing anchor x leaves the node of any other anchor y present, or absent, exactly as it was. |
| `SceneGraph.ApplyAllConcat` | WhatVisionOSCanDo/ShowCase/WorldScening/WorldSceningTrackingModel.swift:24-40 | Applying two streams one after the other is the same as applying their concatenation. |
| `SceneGraph.UpdatesKeepLastNode` | WhatVisionOSCanDo/ShowCase/WorldScening/WorldSceningTrackingModel.swift:34-35 | Updates for an anchor whose node is the last child, and the only child with its name, keep that node last, with the same name and the same children before it. |
| `SceneGraph.CreateThenUpdates` | WhatVisionOSCanDo/ShowCase/WorldScening/WorldSceningTrackingModel.swift:28-35 | For a new anchor, an add and then any number of updates leave the earlier children as they were, plus one last node with the anchor's name. |
| `SceneGraph.RemoveLastNode` | WhatVisionOSCanDo/ShowCase/WorldScening/WorldSceningTrackingModel.swift:64-68 | Removing an anchor whose only node is the last child gives back exactly the children before it. |
| `SceneGraph.AnchorLifecycleRestoresRoot` | WhatVisionOSCanDo/ShowCase/WorldScening/WorldSceningTrackingModel.swift:24-39 | For a new anchor, an add, any number of updates and a remove restore the root's children exactly. |
| `WorldScening.GenerateMeshResource` | WhatVisionOSCanDo/ShowCase/WorldScening/WorldSceningTrackingModel.swift:113 | Mesh generation may fail. When it succeeds, the resource is built from exactly the given descriptors. |
| `WorldScening.WorldSceningTrackingModel.GenerateModelEntity` | WhatVisionOSCanDo/ShowCase/WorldScening/WorldSceningTrackingModel.swift:95-117 | On success the result is the model entity for the anchor's descriptor and colour. Failure comes only from mesh generation. |
| `WorldScening.WorldSceningTrackingModel.CreateMeshEntity` | WhatVisionOSCanDo/ShowCase/WorldScening/WorldSceningTrackingModel.swift:48-54 | On success the new child list is the old one plus one node for the anchor, with or without an existing node of that name. On failure the root is unchanged. |
| `WorldScening.WorldSceningTrackingModel.UpdateMeshEntity` | WhatVisionOSCanDo/ShowCase/WorldScening/WorldSceningTrackingModel.swift:56-62 | On success the found node's children become exactly the new entity. No other node and no position changes. With no such node, or on failure, nothing changes. |
| `WorldScening.WorldSceningTrackingModel.RemoveMeshEntity` | WhatVisionOSCanDo/ShowCase/WorldScening/WorldSceningTrackingModel.swift:64-68 | The found node is cut out and the rest keep their order. With no such node nothing changes, and nothing fails. |
| `WorldScening.WorldSceningTrackingModel.Run` | WhatVisionOSCanDo/ShowCase/WorldScening/WorldSceningTrackingModel.swift:22-43 | The root is the result of applying the first `consumed` events in stream order. The loop stops early only on an error. The failing event is an add or an update, it changed nothing, and no later event was applied. |

## Left out

- Starting the session (`session.run`) and the `SceneReconstructionProvider.isSupported` check are ARKit session I/O, so a session failure is not modelled.
- `async`/`await`, `@MainActor` and the asynchronous `anchorUpdates` stream are left out. The stream is a finite sequence consumed by a loop, and cancellation is not modelled.
- `print` logging of classifications and of the mesh count is left out, because it is output only.
- The `CGFloat` division by 255 in `colorFromUUID` is floating point, so the channels stay as the selected bytes.
- `geometry.vertices.asSIMD3` and `geometry.normals.asSIMD3` are not part of this model. The vertex and normal sources are taken as already-read vector sequences, and their components are only copied.
- RealityKit's `MeshResource`, `ModelEntity`, `SimpleMaterial` and `AnchorEntity(world:)` are kept as plain values. Entity identity, parent back-references and aliasing between entities are not modelled. A node keeps its identity here by keeping its position, name and transform.
- `withUnsafePointer`, `assumingMemoryBound` and pointer arithmetic become reads from a byte sequence.
- Uuid.AnchorName: the description of a UUID is taken to be its canonical upper-case form, because Foundation's formatting is not part of this model. The scene-graph lemmas rely only on injectivity; `Color.ChannelsArePrintedBytes` also rests on the assumed layout.
