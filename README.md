# ccHObject: scene-graph bookkeeping and its file format

This project models the core of `ccHObject` in Dafny. `ccHObject` is the node of
CloudCompare's scene graph. The model covers four parts, and proves what each one
promises:

- **The dependency table** (`m_dependencies`). Every object keeps a map from the
  objects it depends on to a word of `DP_*` flags. `addDependency` always registers
  the reverse `DP_NOTIFY_OTHER_ON_DELETE` link through its recursive call.
- **The child list** (`m_children`) and the parent link (`m_parent`): insertion,
  detachment, removal, transfer to another parent and swapping.
- **The read-only queries** over the child and parent links: `find`,
  `filterChildren`, `getChildIndex`, `getIndex`, `isAncestorOf` and
  `isBranchEnabled`.
- **The serialisers**: `toFile_MeOnly`/`fromFile_MeOnly` for the display properties,
  and `toFile`/`fromFile` with their child-count framing, the serializable
  children and the version-gated selection behaviour.

How the files are laid out:

| file | module | contents |
|---|---|---|
| `wrappers.dfy` | `Wrappers` | `Option` with the `:-` failure propagation |
| `flags.dfy` | `DependencyFlags` | the four `DP_*` flags as distinct single bits of a `bv32` word |
| `dependencies.dfy` | `Dependencies` | the dependency tables of all objects; `addDependency` with its recursion, its depth bound and its closed form |
| `child_lists.dfy` | `ChildLists` | the sequence operations of `std::vector` that the child list uses |
| `hierarchy.dfy` | `Hierarchy` | the whole scene graph as a value (`Graph`), one function per operation, and the lemmas about them |
| `traversal.dfy` | `Traversal` | `find`, `isAncestorOf` and `isBranchEnabled` |
| `scene.dfy` | `Scenes` | `class Scene`: the same fields updated in place, one method per operation, each proved to end in the state the `Hierarchy` function gives; `getChildIndex` and `filterChildren` as loops |
| `streams.dfy` | `Streams` | the byte devices (`write` appends; `read` delivers what is left) |
| `own_data.dfy` | `OwnData` | the display record of toFile_MeOnly/fromFile_MeOnly, the encoder, the decoder and the class `DrawableState` whose fields fromFile_MeOnly overwrites |
| `tree_files.dfy` | `TreeFiles` | toFile/fromFile on a `Node` value with its children, and the round trip |

An object is identified by an `Id`, which stands for its pointer. A null pointer
is `None` wherever the source tests for one. The `Scene` class holds the fields of
every object at once, so a statement such as `child->setParent(0)` or
`otherObject->addDependency(this, …)` is an update of the same state, and the
aliasing between objects is explicit.

Where the code and the property one would expect from its design differ, the
model follows the code:

- **The recursion of `addDependency` goes three calls deep, not one.** A first
  link with flag F runs three calls:
  1. `a` stores F.
  2. `b` stores NOTIFY for `a`.
  3. `a` merges NOTIFY into its entry. Only the call after that returns early.

  `Dependencies.DepthBound` proves the bound of three calls, and
  `Dependencies.FirstLinkTakesThreeCalls` shows that it is reached.
- **Non-additive `addDependency` does not always leave exactly `flags` stored.**
  When `other` did not yet hold `DP_NOTIFY_OTHER_ON_DELETE` for this object, the
  call back merges that bit into this object's entry. `Dependencies.LinkedStores`
  states both cases.
- **In additive mode, adding flags that are already present returns before the
  reverse link is registered.** So a reverse link that was removed separately
  stays missing (`Dependencies.EarlyReturnKeepsMissingReverseLink`).

## Model

| member | source | states |
|---|---|---|
| Dependencies.FlagsWith | libs/qCC_db/ccHObject.cpp:261-266 | the stored word for an object with an entry, 0 for one without |
| Dependencies.RemoveWith | libs/qCC_db/ccHObject.cpp:268-271 | exactly the entry for `other` goes; every other entry keeps its word |
| Dependencies.Without | libs/qCC_db/ccHObject.cpp:268-271 | removeDependencyWith changes the caller's table only |
| Dependencies.RemoveFlagEffect | libs/qCC_db/ccHObject.cpp:273-285 | only the given bit is cleared; the entry is erased exactly when no bit remains; nothing changes when the bit was not set; other entries are kept; the table stays well-formed |
| Dependencies.ClearFlag | libs/qCC_db/ccHObject.cpp:273-285 | removeDependencyFlag changes the caller's table only |
| Dependencies.ClearFlagWellFormed | libs/qCC_db/ccHObject.cpp:273-285 | no entry becomes zero or negative |
| Dependencies.GuardsChangeNothing | libs/qCC_db/ccHObject.cpp:227-236 | a null object, negative flags or no flags leave every table unchanged |
| Dependencies.DepthBound | libs/qCC_db/ccHObject.cpp:238-258 | the recursion makes at most three nested calls, and none exactly when a guard or the early return at 246 applies |
| Dependencies.DepthDecreases | libs/qCC_db/ccHObject.cpp:250-258 | the call back at line 258, made on the table after the store at 253, is exactly one level shallower than its caller; `AddDependency` recurses on this measure, which ties `DepthBound` to the recursion itself |
| Dependencies.FirstLinkTakesThreeCalls | libs/qCC_db/ccHObject.cpp:244-258 | a first link with a flag other than NOTIFY takes all three calls |
| Dependencies.AddDependencyEffect | libs/qCC_db/ccHObject.cpp:225-259 | between two different objects: the caller stores the merged word (plus NOTIFY when the reverse link was new), the other object gains NOTIFY for the caller |
| Dependencies.AddSelfDependencyEffect | libs/qCC_db/ccHObject.cpp:225-259 | on itself: the merged word with NOTIFY added |
| Dependencies.AddDependencyIsLinked | libs/qCC_db/ccHObject.cpp:225-259 | the recursive definition equals the non-recursive closed form on every input |
| Dependencies.AddDependencyGrows | libs/qCC_db/ccHObject.cpp:238-258 | additive addDependency loses no entry and no bit of any table |
| Dependencies.LinkedStores | libs/qCC_db/ccHObject.cpp:238-258 | past the guards, both entries exist; the caller holds `flags` (merged with its old word in additive mode), possibly with NOTIFY added; the other object holds NOTIFY for the caller |
| Dependencies.LinkedHasFlags | libs/qCC_db/ccHObject.cpp:238-253 | whatever path is taken, every requested non-negative flag is held afterwards |
| Dependencies.LinkedMonotone | libs/qCC_db/ccHObject.cpp:238-250 | additive mode never clears a bit of any entry nor erases one |
| Dependencies.LinkedTouchesOnlyPair | libs/qCC_db/ccHObject.cpp:253-258 | no entry outside the pair of objects changes |
| Dependencies.EarlyReturnKeepsMissingReverseLink | libs/qCC_db/ccHObject.cpp:244-247 | adding flags already held returns before the reverse link is registered, so a missing reverse link stays missing |
| Dependencies.AddDependencyWellFormed | libs/qCC_db/ccHObject.cpp:225-259 | no entry becomes zero or negative |
| ChildLists.InsertPos | libs/qCC_db/ccHObject.cpp:318-321 | an in-range index is kept; a negative or too-large index means the end |
| ChildLists.InsertedPlacement | libs/qCC_db/ccHObject.cpp:318-321 | the child is at the clamped position; the old children keep their order around it; erasing it gives back the list |
| ChildLists.IndexOf | libs/qCC_db/ccHObject.cpp:387-394 | the first index holding the element, or -1 exactly when it is absent |
| ChildLists.RemoveAtKeepsOrder | libs/qCC_db/ccHObject.cpp:731-732 | erasing at a position keeps every other element in order and loses one copy |
| ChildLists.RemoveFirstEffect | libs/qCC_db/ccHObject.cpp:674-679 | the first occurrence goes and the rest keep their order; an absent element changes nothing |
| ChildLists.SwappedEffect | libs/qCC_db/ccHObject.cpp:435-441 | the two elements are exchanged, the others are kept, and swapping again restores the list |
| ChildLists.SwappedPermutes | libs/qCC_db/ccHObject.cpp:435-441 | swapping permutes the list |
| Hierarchy.WithKids | libs/qCC_db/ccHObject.cpp:432 | setting one object's child list leaves every other list alone |
| Hierarchy.ClearParentIf | libs/qCC_db/ccHObject.cpp:671-672 | the parent link is cleared only where it pointed at this object |
| Hierarchy.DropFirst | libs/qCC_db/ccHObject.cpp:296-301 | only the first occurrence leaves this object's list; nothing else changes |
| Hierarchy.Index | libs/qCC_db/ccHObject.cpp:443-446 | the first position of the object in its parent's list; negative exactly when it has no parent or is not in that list |
| Hierarchy.OnDeletionOfEffect | libs/qCC_db/ccHObject.cpp:287-302 | only this object's own entry for `obj` goes (the other side is untouched), and the first occurrence of `obj` leaves the list with the order kept |
| Hierarchy.AddChildRefused | libs/qCC_db/ccHObject.cpp:304-313 | the result is false exactly for a null child or a leaf parent, and then nothing changes |
| Hierarchy.AddChildPlacement | libs/qCC_db/ccHObject.cpp:315-321 | the child is inserted at the clamped index; other lists, other parent links and the leaves are unchanged |
| Hierarchy.AddChildParent | libs/qCC_db/ccHObject.cpp:334-339 | the child's parent becomes this object exactly when DP_PARENT_OF_OTHER is requested |
| Hierarchy.AddChildDependencies | libs/qCC_db/ccHObject.cpp:329-333 | afterwards the child holds NOTIFY for the parent and the parent holds every requested flag |
| Hierarchy.AddChildTouchesOnlyPair | libs/qCC_db/ccHObject.cpp:329-333 | no dependency entry outside the parent-child pair changes |
| Hierarchy.DetachOneEffect | libs/qCC_db/ccHObject.cpp:667-672 | both entries go, the parent link is cleared only where it pointed here, the lists are untouched |
| Hierarchy.DetachChildEffect | libs/qCC_db/ccHObject.cpp:659-680 | a null child changes nothing; otherwise both entries go, the parent link is cleared only where it pointed here, and the first occurrence leaves the list with the order kept |
| Hierarchy.RemoveChildAtEffect | libs/qCC_db/ccHObject.cpp:705-733 | exactly the child at `pos` leaves the list, order kept; both entries go; the child is released when held with DP_DELETE_OTHER, else its parent link is cleared if it pointed here |
| Hierarchy.RemoveChildEffect | libs/qCC_db/ccHObject.cpp:698-703 | an object that is not a child changes nothing; a child loses its first occurrence and both entries |
| Hierarchy.PopReleasedMembers | libs/qCC_db/ccHObject.cpp:737-750 | the children released are exactly those held with DP_DELETE_OTHER |
| Hierarchy.RemoveAllChildrenClosed | libs/qCC_db/ccHObject.cpp:735-751 | the pop loop equals emptying the list and appending the released children, last child first |
| Hierarchy.RemoveAllChildrenEffect | libs/qCC_db/ccHObject.cpp:735-751 | the list ends empty; the children held with DP_DELETE_OTHER are released; no dependency entry and no parent link changes |
| Hierarchy.DetachEachRows | libs/qCC_db/ccHObject.cpp:684-694 | the loop removes exactly the entries between this object and the visited children, in both directions |
| Hierarchy.DetachEachParents | libs/qCC_db/ccHObject.cpp:684-694 | the loop clears exactly the visited children's parent links that pointed here |
| Hierarchy.DetachEachKeeps | libs/qCC_db/ccHObject.cpp:684-694 | the loop changes no child list and releases nothing |
| Hierarchy.DetatchAllChildrenEffect | libs/qCC_db/ccHObject.cpp:682-696 | the list ends empty; no entry between this object and a child remains; no child keeps this object as parent; nothing else changes |
| Hierarchy.SwapChildrenEffect | libs/qCC_db/ccHObject.cpp:435-441 | the two children are exchanged, the list is permuted, and swapping again restores it |
| Hierarchy.TransferOneKids | libs/qCC_db/ccHObject.cpp:417-427 | one turn appends the child to the new parent's list unless that is a leaf; other lists are unchanged |
| Hierarchy.TransferEachKids | libs/qCC_db/ccHObject.cpp:415-431 | the loop appends the visited children, in order, to the new parent's list |
| Hierarchy.TransferChildrenEffect | libs/qCC_db/ccHObject.cpp:413-433 | this object's list ends empty and the new parent's list gains all the children in order (none when it is a leaf) |
| Hierarchy.TransferChildrenDependencies | libs/qCC_db/ccHObject.cpp:413-433 | for children that are neither this object nor the new parent: no entry between this object and a child remains; the new parent holds at least the old parent's flags for each child when it accepts children, and each child holds at least its old flags for the new parent (sign bit clear); every entry not between this object or the new parent and a child is unchanged |
| Hierarchy.TransferEachDependencies | libs/qCC_db/ccHObject.cpp:415-431 | the same for the loop over any list of visited children, repeated children included |
| Hierarchy.TransferOneDependencies | libs/qCC_db/ccHObject.cpp:417-427 | one turn, for distinct objects: both entries between this object and the child go; the new parent holds the old parent's flags for the child when it accepts children; the child holds its old flags for the new parent; both keep what they held for each other before; no other entry changes; the leaves are unchanged |
| Hierarchy.UnlinkEntries | libs/qCC_db/ccHObject.cpp:423-424 | the two removeDependencyWith calls remove exactly the entries between this object and the child |
| Hierarchy.AttachDependencies | libs/qCC_db/ccHObject.cpp:425-426 | addChild with the old parent's flags, then the child's addDependency with its own: the tables only grow; both words are held; no entry outside the new pair changes |
| Hierarchy.AddChildGrows | libs/qCC_db/ccHObject.cpp:329-333 | addChild loses no dependency entry and no bit of any table |
| Hierarchy.TransferChildrenKeepsOldParent | libs/qCC_db/ccHObject.cpp:423-430 | a child held without DP_PARENT_OF_OTHER keeps its parent link at the old parent after transferChildren, so the check at line 430 does not hold for it; transferChild clears that link |
| Hierarchy.TransferChildKids | libs/qCC_db/ccHObject.cpp:396-411 | the child leaves this object's list, order kept, and is appended to the new parent's list unless that is a leaf |
| Hierarchy.TransferChildDependencies | libs/qCC_db/ccHObject.cpp:396-411 | for distinct objects, transferChild leaves the same tables as one turn of transferChildren, and so moves the child's entries as `TransferOneDependencies` states |
| Hierarchy.TransferChildToSelfDependencies | libs/qCC_db/ccHObject.cpp:396-411 | transferChild onto this object itself: this object holds the old flags for the child when it accepts children, the child holds its old flags for this object, and no other entry changes |
| Hierarchy.TransferChildParent | libs/qCC_db/ccHObject.cpp:396-411 | the child's parent becomes the new parent when DP_PARENT_OF_OTHER was held, else null if it was this object, else unchanged |
| Hierarchy.OnDeletionOfValid | libs/qCC_db/ccHObject.cpp:294 | the tables stay well-formed |
| Hierarchy.AddChildValid | libs/qCC_db/ccHObject.cpp:329-333 | the tables stay well-formed |
| Hierarchy.DetachChildValid | libs/qCC_db/ccHObject.cpp:667-669 | the tables stay well-formed |
| Hierarchy.DetachEachValid | libs/qCC_db/ccHObject.cpp:688-690 | the tables stay well-formed |
| Hierarchy.RemoveChildAtValid | libs/qCC_db/ccHObject.cpp:714-716 | the tables stay well-formed |
| Hierarchy.TransferOneValid | libs/qCC_db/ccHObject.cpp:419-427 | the tables stay well-formed |
| Hierarchy.TransferEachValid | libs/qCC_db/ccHObject.cpp:415-431 | the tables stay well-formed |
| Hierarchy.TransferChildValid | libs/qCC_db/ccHObject.cpp:401-407 | the tables stay well-formed |
| Traversal.Find | libs/qCC_db/ccHObject.cpp:344-359 | a result matches the id and lies in this object's subtree; null only when nothing in the subtree matches |
| Traversal.FindIn | libs/qCC_db/ccHObject.cpp:351-356 | the loop finds a match below this object, or there is none in the remaining children's subtrees |
| Traversal.IsAncestorOfChain | libs/qCC_db/ccHObject.cpp:448-459 | true exactly when this object is reached from `o` by one or more parent links |
| Traversal.IsBranchEnabledChain | libs/qCC_db/ccHObject.cpp:537-546 | true exactly when this object and every ancestor are enabled |
| Scenes.Scene.constructor | libs/qCC_db/ccHObject.cpp:62-67 | objects start with no parent, no children and no dependencies |
| Scenes.Scene.AddDependency | libs/qCC_db/ccHObject.cpp:225-259 | the in-place update with its recursive call ends in `Dependencies.AddDependency` and keeps the tables well-formed |
| Scenes.Scene.RemoveDependencyWith | libs/qCC_db/ccHObject.cpp:268-271 | ends in `Dependencies.Without` and keeps the tables well-formed |
| Scenes.Scene.RemoveDependencyFlag | libs/qCC_db/ccHObject.cpp:273-285 | ends in `Dependencies.ClearFlag` and keeps the tables well-formed |
| Scenes.Scene.OnDeletionOf | libs/qCC_db/ccHObject.cpp:287-302 | ends in `Hierarchy.OnDeletionOf`, tables well-formed |
| Scenes.Scene.AddChild | libs/qCC_db/ccHObject.cpp:304-342 | the new state and the result are those of `Hierarchy.AddChild`, tables well-formed |
| Scenes.Scene.DetachChild | libs/qCC_db/ccHObject.cpp:659-680 | ends in `Hierarchy.DetachChild`, tables well-formed |
| Scenes.Scene.DetatchAllChildren | libs/qCC_db/ccHObject.cpp:682-696 | the loop over the children ends in `Hierarchy.DetatchAllChildren`, tables well-formed |
| Scenes.Scene.RemoveChildAt | libs/qCC_db/ccHObject.cpp:705-733 | ends in `Hierarchy.RemoveChildAt`, tables well-formed |
| Scenes.Scene.RemoveChild | libs/qCC_db/ccHObject.cpp:698-703 | ends in `Hierarchy.RemoveChild`, tables well-formed |
| Scenes.Scene.RemoveAllChildren | libs/qCC_db/ccHObject.cpp:735-751 | the pop loop ends in `Hierarchy.RemoveAllChildren`, tables well-formed |
| Scenes.Scene.TransferChild | libs/qCC_db/ccHObject.cpp:396-411 | ends in `Hierarchy.TransferChild`, tables well-formed |
| Scenes.Scene.TransferChildren | libs/qCC_db/ccHObject.cpp:413-433 | the loop ends in `Hierarchy.TransferChildren`, tables well-formed |
| Scenes.Scene.SwapChildren | libs/qCC_db/ccHObject.cpp:435-441 | ends in `Hierarchy.SwapChildren`, tables well-formed |
| Scenes.Scene.GetChildIndex | libs/qCC_db/ccHObject.cpp:387-394 | the search loop returns the first index holding the child, or -1 exactly when it is absent |
| Scenes.Scene.GetIndex | libs/qCC_db/ccHObject.cpp:443-446 | the position of the object in its parent's list, as `Hierarchy.Index` gives it |
| Scenes.Scene.FilterChildren | libs/qCC_db/ccHObject.cpp:361-385 | the prior output is a prefix of the result; nothing appended was already present; the appended objects are exactly the ones of the kind among the children (the whole subtree when recursive); the count is the final length as a 32-bit unsigned |
| Streams.U32RoundTrip | libs/qCC_db/ccHObject.cpp:776-777 | reading back the four bytes of a 32-bit count gives the count |
| Streams.ReadField | libs/qCC_db/ccHObject.cpp:938-939 | a read takes the field's length in bytes from the front of the stream and leaves the rest unread; a short read copies the whole stream over the front of the field, keeps the field's remaining bytes and consumes everything; it fails only when checked and short |
| Streams.ReadBool | libs/qCC_db/ccHObject.cpp:938-939 | a one-byte read into a `bool`: the stored byte, or the old value at the end of the data |
| Streams.OutStream.Write | libs/qCC_db/ccHObject.cpp:894-895 | `write` appends the bytes |
| Streams.InStream.Read | libs/qCC_db/ccHObject.cpp:938 | `read` delivers up to `n` bytes from the position, fewer at the end of the data |
| Streams.ReadInto | libs/qCC_db/ccHObject.cpp:938-939 | the read-and-check in place agrees with `ReadField` |
| OwnData.DecodeMeOnly | libs/qCC_db/ccHObject.cpp:931-980 | a file older than version 24 turns the name display off; as written it never reports an error |
| OwnData.MeOnlyRoundTrip | libs/qCC_db/ccHObject.cpp:887-980 | reading back a record in the layout of data version v restores every stored field and leaves the bytes after it, in either read mode; toFile_MeOnly writes the version-24 layout, and the older layouts are those earlier writers produced |
| OwnData.RestoredCurrent | libs/qCC_db/ccHObject.cpp:968-977 | for every data version from 24 on, reading back onto an object that agrees on the colour and matrix that were not stored restores every field |
| OwnData.ColorStoredIff | libs/qCC_db/ccHObject.cpp:908-916 | the colour bytes depend on the colour exactly when colorIsOverriden is set |
| OwnData.MatrixStoredIff | libs/qCC_db/ccHObject.cpp:917-922 | the matrix bytes depend on the matrix exactly when glTransEnabled is set |
| OwnData.MeOnlySize | libs/qCC_db/ccHObject.cpp:887-929 | seven flag bytes, plus the colour and the matrix when stored, plus the name flag from version 24 on |
| OwnData.EmptyStreamAccepted | libs/qCC_db/ccHObject.cpp:937-977 | as written, fromFile_MeOnly succeeds on an empty stream and keeps the old properties |
| OwnData.CheckedRejectsTruncated | libs/qCC_db/ccHObject.cpp:931-980 | with every read checked, a stream ending inside the record is an error |
| OwnData.DrawableState.ToFileMeOnly | libs/qCC_db/ccHObject.cpp:887-929 | writing the fields one by one appends `EncodeMeOnly` in the version-24 layout |
| OwnData.DrawableState.FromFileMeOnly | libs/qCC_db/ccHObject.cpp:931-980 | reading the fields one by one succeeds exactly when `DecodeMeOnly` does, and then leaves its result in the fields |
| TreeFiles.Fresh | libs/qCC_db/ccHObject.cpp:62-70 | a new object is serializable, invisible with its visibility locked, childless, with selection SELECTION_AA_BBOX |
| TreeFiles.Count | libs/qCC_db/ccHObject.cpp:753-757 | the serializable objects of a list are at most its length |
| TreeFiles.SerializableCount | libs/qCC_db/ccHObject.cpp:771-779 | the counting loop gives the number of serializable children in a 32-bit counter |
| TreeFiles.ToFile | libs/qCC_db/ccHObject.cpp:759-794 | appends `Encode` in the current layout |
| TreeFiles.ToFileBody | libs/qCC_db/ccHObject.cpp:763-794 | appends the header, the own record, the count, the serializable children and the selection |
| TreeFiles.ToFileKids | libs/qCC_db/ccHObject.cpp:781-789 | the loop writes exactly the serializable children, in order |
| TreeFiles.ReadClassID | libs/qCC_db/ccHObject.cpp:820 | four bytes are consumed; the read fails exactly when fewer remain |
| TreeFiles.DecodeBody | libs/qCC_db/ccHObject.cpp:796-885 | the class is kept; before version 23 the selection becomes SELECTION_AA_BBOX; with `omit_childrens` the children and selection are untouched |
| TreeFiles.DecodeTail | libs/qCC_db/ccHObject.cpp:811-884 | before version 23 the selection becomes SELECTION_AA_BBOX |
| TreeFiles.DecodeKids | libs/qCC_db/ccHObject.cpp:816-871 | a successful loop reads exactly `count` children |
| TreeFiles.ClassIDRoundTrip | libs/qCC_db/ccHObject.cpp:820-822 | the class ID written first is read back first |
| TreeFiles.BodyRoundTrip | libs/qCC_db/ccHObject.cpp:759-885 | reading back a body in the layout of data version v gives `Restored` (header, own record, serializable children appended, the selection from version 23 on) and leaves the bytes after it; toFile writes the version-24 layout, and the older layouts are those earlier writers produced |
| TreeFiles.FileRoundTrip | libs/qCC_db/ccHObject.cpp:759-885 | a whole file reads back through its class ID |
| TreeFiles.RestoredMatches | libs/qCC_db/ccHObject.cpp:759-885 | for every data version from 24 on, a whole tree read back onto a blank object of its class is the tree written, when every object in it is serializable and has no unstored display property that differs from the blank one |
| TreeFiles.RestoredChildMatches | libs/qCC_db/ccHObject.cpp:819-866 | for every data version from 24 on, such a child read back onto a fresh object is the child itself |
| TreeFiles.RestoredKidsMatch | libs/qCC_db/ccHObject.cpp:816-871 | for every data version from 24 on, the children read back are the children written, in order |
| TreeFiles.HeaderOnlyAccepted | libs/qCC_db/ccHObject.cpp:811-814 | as written, fromFile succeeds on a stream that ends right after an empty header block: no child is read, the existing children are kept, and the selection is the old one from version 23 on (SELECTION_AA_BBOX before) |
| TreeFiles.CheckedRejectsTruncatedTree | libs/qCC_db/ccHObject.cpp:796-885 | with every read checked, a stream ending inside the object is an error |
| TreeFiles.FromFile | libs/qCC_db/ccHObject.cpp:796-885 | the reads in sequence succeed exactly when `DecodeBody` does, with its result |
| TreeFiles.FromFileTail | libs/qCC_db/ccHObject.cpp:811-884 | the count, children and selection reads agree with `DecodeTail` |
| TreeFiles.FromFileKids | libs/qCC_db/ccHObject.cpp:816-871 | the loop over the children agrees with `DecodeKids` |
| TreeFiles.FromFileChild | libs/qCC_db/ccHObject.cpp:819-866 | one turn: the class ID is checked and the child is read onto a fresh object |

## Left out

- `draw`, `drawNameIn3D` and `getIcon` are not modelled: they only make OpenGL and Qt calls.
- `getBB`, `getBBCenter` and `applyGLTransformation_recursive` are not modelled: they are floating-point geometry.
- The two `New` factories are not modelled: one is a class switch, the other goes through plugin code. A child read by fromFile is created by `TreeFiles.Fresh`.
- Deleting an object is modelled as appending it to `released`, in order. The destructor is not modelled, and neither is the `CCShareable::release`/`link` reference count. So a deleted object's own `onDeletionOf` notifications are not modelled either.
- TreeFiles.DecodeKids: only plain hierarchy objects can be read as children. Any other class ID fails here, as `CC_TYPES::OBJECT` does. The `CUSTOM_H_OBJECT` seek-and-retry through plugin factories is not modelled.
- The contents of `ccObject::toFile`/`fromFile` are not part of this model. The header is modelled as a 32-bit class ID followed by a length-prefixed block of bytes. `ReadClassIDFromFile` is taken to read those four bytes and to fail at the end of the data.
- The form of `ccGLMatrix::toFile`/`fromFile` is not part of this model. The matrix is taken as a fixed 64-byte image, read with the same read-and-check pattern as the other fields. The constants `CC_TYPES::OBJECT` (0), `HIERARCHY_OBJECT` (1), `SELECTION_AA_BBOX` (all zero bytes) and the bit values of the `DP_*` flags are taken as assumptions: only their distinctness matters.
- Device errors are not modelled. `write` never fails, and `read` never returns a negative count. The `WriteError` that fromFile_MeOnly returns at line 972 for a read failure is only a log message; the result is the same `false`.
- The serialisers work on `TreeFiles.Node` values, not on a `Scene`. fromFile adds each child with `addChild(child)` and its default `DP_PARENT_OF_OTHER`; the model appends the child to the node's list, without the dependency entries and parent link that call sets, and without addChild's refusal on a leaf parent: there the source drops the child it read and still succeeds, where the model keeps it.
- TreeFiles.FromFile: on failure the result is the object as it was. The model does not say which fields and children the source has already overwritten by then.
- `addChild` running out of memory (`std::bad_alloc`) is not modelled.
- Scenes.Scene.GetChildIndex: the index is an unbounded integer. The `static_cast<int>` of an index of 2^31 or more is not modelled.
- `transferChildren` onto the object itself is excluded by `requires np != self`: pushing into the vector being iterated invalidates the iterator. Its `forceFatherDependent` parameter is unused in the source and is not modelled.
- `swapChildren` and `removeChild(pos)` assert valid indices; the model requires them.
- Hierarchy.TransferOneDependencies, Hierarchy.TransferChildDependencies: stated only when this object, the child and the new parent are three different objects. `transferChild(child, *this)`, where the new parent is this object, is covered by Hierarchy.TransferChildToSelfDependencies instead. transferChildren excludes that case itself. The cases left are a child that is this object or the new parent, which make an object its own child. Hierarchy.TransferChildrenDependencies likewise needs a children list that holds neither this object nor the new parent.
- The debug-only failure paths are not modelled; only their release-build behaviour is. These are `ccLog::Error` and `assert(false)` in addDependency's guard (lines 227-231), which then returns with nothing changed, and `assert(false)` on a null child in detachChild (line 663), which then returns. The log message is dropped.
- Traversal.Find: when several objects in the subtree share the id, the model does not state which of them is returned. The source returns the first in preorder; the model takes unique IDs to be assumed.
- `find`, `filterChildren`, `isAncestorOf` and `isBranchEnabled` recurse without a bound, so the source only terminates on an acyclic hierarchy. They take a ghost ranking that makes that assumption explicit. Cyclic hierarchies are left out.
- `filterChildren` matches by a set of objects of the requested kind (`ofKind`): the class tree behind `isKindOf` is not modelled.
- Dependencies.DepthBound: the bound is three nested calls, not one; the third call always returns early.
- Dependencies.LinkedStores: in non-additive mode the stored word is `flags` or `flags` with NOTIFY, not always exactly `flags`. The call back adds NOTIFY when the reverse link was new.
- Hierarchy.RemoveChildEffect: the released list is stated only by its length. The exact rule for releasing and for the parent link is that of Hierarchy.RemoveChildAtEffect, at the index `IndexOf` gives.

## Findings

| source | as written | input that shows it | evidently intended | confidence | as-written member | corrected member |
|---|---|---|---|---|---|---|
| libs/qCC_db/ccHObject.cpp:811-814, 873-877, 937-972 | every field is read with `in.read(...) < 0` as the only error test. At the end of the data `read` returns 0 or a short count, so the field keeps its old bytes (in part or whole) and the read counts as a success | fromFile_MeOnly on an empty stream; fromFile on a stream that ends right after a header block of length 0 (the four bytes `00 00 00 00`) | a stream that ends inside the record is a read error | not executed; medium (it depends on QIODevice returning a short count rather than -1 at the end of the data) | OwnData.EmptyStreamAccepted, TreeFiles.HeaderOnlyAccepted | OwnData.CheckedRejectsTruncated, TreeFiles.CheckedRejectsTruncatedTree |
