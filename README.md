# Three IDE helpers, modelled in Dafny

This project models three small pieces of logic from the IntelliJ Community
code base and proves properties of them.

- **Sibling renumbering** (`CCUtils.updateHigherElements`, course creator).
  After a lesson or task is inserted or deleted, every sibling directory
  whose orderable has an index above a threshold is processed. Its index is
  shifted by `delta` and its directory is renamed to `prefix + newIndex`.
  The order of processing is chosen so that no rename hits a name still
  held by a sibling (module `CourseCreator`, file `cc_utils.dfy`). Java's
  decimal rendering of an `int` in `prefix + newIndex` is modelled with a
  parser and a round-trip proof (module `Decimal`, file `decimal.dfy`).
- **Directory-path creation** (`CreateDirectoryPathFix`, platform quick
  fix). The fix walks the target's path-to-create and then the new
  location's sub-path, finding or creating each directory. It then creates
  the new directory. Any failed creation clears the fix's availability flag
  (module `QuickFix`, file `create_directory_path_fix.dfy`). The directory
  tree is a set of paths. The platform's refusals are a set of paths it
  will not create.
- **Maven dependency insertion** (`MavenDependencyInsertionHandler`). When
  an artifact is picked from dependency completion in a pom, the handler
  finds the artifact-coordinates element under the caret and fills in
  groupId, artifactId, scope and version. It re-invokes completion at the
  artifactId or the version when the item leaves them open (module
  `MavenCompletion`, file `maven_dependency_insertion.dfy`).

`Wrappers` holds the `Option` type shared by all modules.

The imperative code is imperative here too:

- `UpdateHigherElements` updates an `array<Dir>` in place. It filters with
  a loop and sorts an `array<nat>` of positions in place with insertion
  sort. It then shifts and renames entry by entry.
- `CreateDirectoryPathFix` is a class whose `Apply` updates
  `myIsAvailable` and `myIsAvailableTimeStamp`. It walks a
  `DirectoryTree` object with a loop.
- The Maven handler mutates `XmlTag` and `ArtifactCoordinates` objects.

Each method is proved against a pure specification function: `Run`,
`WalkSegments` / `CreateDirectoryPath`, or `PlanDependency`. The
properties are proved as lemmas about those functions.

**Processing direction.** The comparator at CCUtils.java:69 carries the
comment "if we delete some dir we should start increasing numbers in dir
names from the end". For a deletion (`delta < 0`) the code does not start
from the end. The comparator is `(-delta) * compare(o1, o2)`, and
`EduUtils.INDEX_COMPARATOR` is taken to compare indices ascending. A
deletion therefore processes ascending, from the lowest index
(`ProcessingDirection`, `DeletionExample`). This model follows the code.
Ascending is also the order in which a deletion's renames never hit a
sibling still waiting (`NoCollisionWithPending`).

## Model

| member | source | states |
|---|---|---|
| Decimal.NatToString | python/educational/course-creator/src/com/jetbrains/edu/coursecreator/CCUtils.java:82 | the decimal text of a non-negative index is non-empty, all digits, and has no leading zero from 10 on |
| Decimal.IntToString | python/educational/course-creator/src/com/jetbrains/edu/coursecreator/CCUtils.java:82 | the text of `newIndex` in `prefix + newIndex` is non-empty and starts with '-' exactly when the index is negative |
| Decimal.NatRoundTrip | python/educational/course-creator/src/com/jetbrains/edu/coursecreator/CCUtils.java:82 | parsing the digits of n gives back n |
| Decimal.IntRoundTrip | python/educational/course-creator/src/com/jetbrains/edu/coursecreator/CCUtils.java:82 | the text of any int is well formed and parses back to that int |
| Decimal.IntToStringInjective | python/educational/course-creator/src/com/jetbrains/edu/coursecreator/CCUtils.java:82 | different indices give different texts |
| Decimal.PrefixedNameInjective | python/educational/course-creator/src/com/jetbrains/edu/coursecreator/CCUtils.java:82 | with a common prefix, the directory name determines the index |
| CourseCreator.SortKey | python/educational/course-creator/src/com/jetbrains/edu/coursecreator/CCUtils.java:64-71 | the index as the sign-flipped comparator sees it: negated for delta > 0, as is for delta < 0, constant for delta = 0; through `Precedes` and `PrecedesMatchesComparator` it gives the comparator's order |
| CourseCreator.Precedes | python/educational/course-creator/src/com/jetbrains/edu/coursecreator/CCUtils.java:64-72 | the order the stable sort leaves: by the comparator, ties by input position; `PrecedesMatchesComparator` ties it to `(-delta) * compare`, and `SortedUnique` shows it determines the sorted list |
| CourseCreator.Shift | python/educational/course-creator/src/com/jetbrains/edu/coursecreator/CCUtils.java:75-87 | one loop iteration: the index becomes index + delta, the name becomes `prefix + newIndex` unless the rename throws and is swallowed; `RunShifts` and `RunRenumbers` state its effect on the whole array |
| CourseCreator.PrecedesMatchesComparator | python/educational/course-creator/src/com/jetbrains/edu/coursecreator/CCUtils.java:64-71 | `Precedes` holds exactly when the sign-flipped comparator ranks p first, or ranks them equal and p comes first in the input (stable sort) |
| CourseCreator.ProcessingDirection | python/educational/course-creator/src/com/jetbrains/edu/coursecreator/CCUtils.java:64-71 | the processing order is descending by index for delta > 0, ascending for delta < 0, and the input order for delta = 0 |
| CourseCreator.SortedUnique | python/educational/course-creator/src/com/jetbrains/edu/coursecreator/CCUtils.java:64-72 | two orders sorted by `Precedes` that hold the same positions are equal, so the processing order is determined by the selection |
| CourseCreator.SelectHigher | python/educational/course-creator/src/com/jetbrains/edu/coursecreator/CCUtils.java:52-63 | the filter keeps exactly the positions whose orderable is non-null with index strictly above the threshold, in array order |
| CourseCreator.SortForRenaming | python/educational/course-creator/src/com/jetbrains/edu/coursecreator/CCUtils.java:64-72 | the in-place sort permutes the selected positions (same multiset, still distinct) into `Precedes` order |
| CourseCreator.Run | python/educational/course-creator/src/com/jetbrains/edu/coursecreator/CCUtils.java:74-89 | processing keeps the number of directories and which of them have an orderable |
| CourseCreator.RunFrame | python/educational/course-creator/src/com/jetbrains/edu/coursecreator/CCUtils.java:74-89 | a directory not yet processed is exactly as it was |
| CourseCreator.RunShifts | python/educational/course-creator/src/com/jetbrains/edu/coursecreator/CCUtils.java:75-88 | a processed directory has index old + delta and name `prefix + newIndex`, or keeps its old name when the rename failed |
| CourseCreator.RunRenumbers | python/educational/course-creator/src/com/jetbrains/edu/coursecreator/CCUtils.java:52-89 | after processing, each selected directory is shifted once and every other directory keeps its name and index |
| CourseCreator.ShiftAndRename | python/educational/course-creator/src/com/jetbrains/edu/coursecreator/CCUtils.java:74-89 | the loop leaves the array equal to `Run` of the given order on the old array |
| CourseCreator.UpdateHigherElements | python/educational/course-creator/src/com/jetbrains/edu/coursecreator/CCUtils.java:47-90 | processes exactly the selected directories, once each, in the comparator's stable order; afterwards each selected directory has index old + delta and name `prefix + newIndex` (or its old name if the rename failed) and every other directory is unchanged |
| CourseCreator.NoCollisionWithPending | python/educational/course-creator/src/com/jetbrains/edu/coursecreator/CCUtils.java:64-89 | for any nonzero delta, with selected directories named after their indices, no rename targets the name of a selected sibling still waiting to be processed |
| CourseCreator.NoRenameCollision | python/educational/course-creator/src/com/jetbrains/edu/coursecreator/CCUtils.java:64-89 | if selected indices are distinct, no rename fails and no unselected sibling holds a new name, then no rename targets a name held by any other directory at that moment |
| CourseCreator.DeletionExample | python/educational/course-creator/src/com/jetbrains/edu/coursecreator/CCUtils.java:64-89 | deleting lesson2 from lesson1, lesson3, lesson4 (threshold 2, delta -1) processes lesson3 then lesson4 and yields lesson1, lesson2, lesson3 |
| QuickFix.FindOrCreate | platform/lang-impl/src/com/intellij/codeInsight/daemon/quickFix/CreateDirectoryPathFix.java:64 | one find-or-create step: the existing child is reused, a refused child fails, otherwise the child is added; `DirectoryTree.FindOrCreateSubdirectory` is proved against it and `WalkSegments` chains it |
| QuickFix.CreateDirectoryPath | platform/lang-impl/src/com/intellij/codeInsight/daemon/quickFix/CreateDirectoryPathFix.java:62-73 | the try block: walk the segments, then create the new directory, the whole failing at the first refused creation; `CreateDirectoryPathSucceeds` and `CreateDirectoryPathFailure` state when it succeeds and what it adds, and `Apply` is proved against it |
| QuickFix.WalkSegments | platform/lang-impl/src/com/intellij/codeInsight/daemon/quickFix/CreateDirectoryPathFix.java:63-68 | the walk never removes a directory; when it succeeds it reaches `start / segs` and has added exactly the directories along that path |
| QuickFix.WalkSucceedsIff | platform/lang-impl/src/com/intellij/codeInsight/daemon/quickFix/CreateDirectoryPathFix.java:63-68 | the walk succeeds exactly when no missing directory along the path is refused |
| QuickFix.WalkFailureStops | platform/lang-impl/src/com/intellij/codeInsight/daemon/quickFix/CreateDirectoryPathFix.java:62-73 | once a prefix of the walk fails, the later segments change nothing |
| QuickFix.WalkStopsAtFirstBlocked | platform/lang-impl/src/com/intellij/codeInsight/daemon/quickFix/CreateDirectoryPathFix.java:62-73 | at the first refused creation the walk fails, keeping exactly the directories created before it (no rollback) |
| QuickFix.FirstBlocked | platform/lang-impl/src/com/intellij/codeInsight/daemon/quickFix/CreateDirectoryPathFix.java:62-73 | a failed walk has a first refused segment, and every segment before it was passed |
| QuickFix.WalkReusesExisting | platform/lang-impl/src/com/intellij/codeInsight/daemon/quickFix/CreateDirectoryPathFix.java:63-68 | when every directory along the path exists, the walk reuses them and creates nothing |
| QuickFix.WalkIdempotent | platform/lang-impl/src/com/intellij/codeInsight/daemon/quickFix/CreateDirectoryPathFix.java:63-68 | repeating a successful walk on its own result changes nothing |
| QuickFix.WalkConcat | platform/lang-impl/src/com/intellij/codeInsight/daemon/quickFix/CreateDirectoryPathFix.java:63-68 | walking path-to-create then sub-path, as the two loops do, is walking their concatenation |
| QuickFix.WalkKeepsTreeClosed | platform/lang-impl/src/com/intellij/codeInsight/daemon/quickFix/CreateDirectoryPathFix.java:63-68 | from an existing directory, the walk keeps every directory's parent in the tree and reaches an existing directory |
| QuickFix.CreateDirectoryPathSucceeds | platform/lang-impl/src/com/intellij/codeInsight/daemon/quickFix/CreateDirectoryPathFix.java:63-69 | the fix succeeds exactly when no missing intermediate directory is refused and the new directory neither exists nor is refused; it then adds exactly the missing directories of `root / segs / newName` |
| QuickFix.CreateDirectoryPathFailure | platform/lang-impl/src/com/intellij/codeInsight/daemon/quickFix/CreateDirectoryPathFix.java:62-73 | no directory is ever removed, and on failure only intermediate directories may have been added |
| QuickFix.DirectoryTree.CreateSubdirectory | platform/lang-impl/src/com/intellij/codeInsight/daemon/quickFix/CreateDirectoryPathFix.java:69 | creating a child succeeds exactly when it neither exists nor is refused, and then adds only that child |
| QuickFix.DirectoryTree.FindOrCreateSubdirectory | platform/lang-impl/src/com/intellij/codeInsight/daemon/quickFix/CreateDirectoryPathFix.java:64 | returns the existing child, or else creates it, failing when it is refused |
| QuickFix.CreateDirectoryPathFix.constructor | platform/lang-impl/src/com/intellij/codeInsight/daemon/quickFix/CreateDirectoryPathFix.java:21-28 | a new fix is available, stamped with the given time, and keeps its key, file name and sub-path |
| QuickFix.CreateDirectoryPathFix.WithDefaultKey | platform/lang-impl/src/com/intellij/codeInsight/daemon/quickFix/CreateDirectoryPathFix.java:30-33 | the two-argument constructor uses the key "create.directory.text" |
| QuickFix.CreateDirectoryPathFix.WalkFrom | platform/lang-impl/src/com/intellij/codeInsight/daemon/quickFix/CreateDirectoryPathFix.java:63-68 | each `for` loop over path parts leaves the tree and the reached directory as `WalkSegments` says, and the tree stays prefix-closed |
| QuickFix.CreateDirectoryPathFix.Apply | platform/lang-impl/src/com/intellij/codeInsight/daemon/quickFix/CreateDirectoryPathFix.java:54-74 | the timestamp becomes 0 on every call; with no target directory nothing else changes; otherwise the tree is `CreateDirectoryPath` of path-to-create + sub-path + new name and availability is cleared exactly when that fails |
| MavenCompletion.CheckIsInsideManagedDependencies | plugins/maven/src/main/java/org/jetbrains/idea/maven/dom/model/completion/insert/MavenDependencyInsertionHandler.java:120-125 | true exactly when the coordinates' tag has a grandparent and that grandparent is named "dependencyManagement" |
| MavenCompletion.PlanDependency | plugins/maven/src/main/java/org/jetbrains/idea/maven/dom/model/completion/insert/MavenDependencyInsertionHandler.java:73-117 | the decision tree of `setDependency`: which fields are written, with what, and where completion is re-invoked; its promises are the `PlanNeedsGroupId`, `PlanMissingArtifactId`, `PlanScope`, `PlanVersion` and `PlanShape` rows, and `SetDependency` is proved against it |
| MavenCompletion.CoordinatesFor | plugins/maven/src/main/java/org/jetbrains/idea/maven/dom/model/completion/insert/MavenDependencyInsertionHandler.java:55-68 | the coordinates found for a tag: its own, else its parent's, else null; `GetDomCoordinatesFromCurrentTag` is proved to return it and `HandleInsert` uses it for its early return |
| MavenCompletion.PlanNeedsGroupId | plugins/maven/src/main/java/org/jetbrains/idea/maven/dom/model/completion/insert/MavenDependencyInsertionHandler.java:73-76 | nothing is written and no completion is requested exactly when the item has no groupId; otherwise the groupId is written |
| MavenCompletion.PlanMissingArtifactId | plugins/maven/src/main/java/org/jetbrains/idea/maven/dom/model/completion/insert/MavenDependencyInsertionHandler.java:76-84 | without an artifactId, the artifactId is set to "" with completion re-invoked there, and scope and version are untouched |
| MavenCompletion.PlanScope | plugins/maven/src/main/java/org/jetbrains/idea/maven/dom/model/completion/insert/MavenDependencyInsertionHandler.java:88-93 | the scope is written exactly when both ids are known, the coordinates are a dependency and the usual scope is non-null, and then it is the usual scope |
| MavenCompletion.PlanVersion | plugins/maven/src/main/java/org/jetbrains/idea/maven/dom/model/completion/insert/MavenDependencyInsertionHandler.java:98-117 | a managed dependency outside dependencyManagement leaves the version untouched; otherwise the version is the item's exactly when there is one item with a version, and is "" with completion at the version in every other case |
| MavenCompletion.PlanShape | plugins/maven/src/main/java/org/jetbrains/idea/maven/dom/model/completion/insert/MavenDependencyInsertionHandler.java:70-118 | fields are written in source order with the item's values, and completion is only requested at the field just emptied |
| MavenCompletion.SetDependency | plugins/maven/src/main/java/org/jetbrains/idea/maven/dom/model/completion/insert/MavenDependencyInsertionHandler.java:70-118 | the coordinates' fields change exactly as `PlanDependency` decides and the requested completion is the planned one |
| MavenCompletion.GetDomCoordinatesFromCurrentTag | plugins/maven/src/main/java/org/jetbrains/idea/maven/dom/model/completion/insert/MavenDependencyInsertionHandler.java:55-68 | returns the tag's own coordinates and clears the tag's text, or else the parent's coordinates without clearing, or null |
| MavenCompletion.HandleInsert | plugins/maven/src/main/java/org/jetbrains/idea/maven/dom/model/completion/insert/MavenDependencyInsertionHandler.java:29-52 | changes nothing and requests no completion when the object is not an artifact, the file is not XML, there is no tag, or no coordinates are found; otherwise it acts as `GetDomCoordinatesFromCurrentTag` then `SetDependency` |

## Left out

- Integer width: indices are unbounded integers, and the model does not capture 32-bit wrap-around. `getIndex() + delta` on a Java `int` can wrap around. So can the comparator's product `(-delta) * compare(...)` at CCUtils.java:70: for `delta == Integer.MIN_VALUE`, `-delta` is `delta` itself. Both orders of a pair then compare negative, and `Collections.sort` may throw "Comparison method violates its general contract".
- The orderable lookup: `getStudyOrderable` is assumed to give each directory its own orderable, folded into `Dir.orderable`. Two directories sharing one orderable (aliasing) are not modelled.
- `EduUtils.INDEX_COMPARATOR`: its source is not shown. `CompareIndex` models it under the assumption that it compares indices ascending.
- Rename failures (`IOException` from `VirtualFile.rename`) are the input set `renameFails` of positions. `LOG.error` and `runWriteAction` are left out.
- Shift: the input set `renameFails` does not depend on the state of the directories. So a rename onto a name a sibling still holds succeeds in the model, leaving two directories with one name. A caller that wants the file system's behaviour must put such a rename in `renameFails`. `NoRenameCollision` gives conditions under which no such rename occurs.
- UpdateHigherElements: returns the processing order. The Java method returns nothing; the order is only there so the contract can speak about it.
- `findOrCreateSubdirectory` and `PsiDirectory.createSubdirectory`: their source is not shown. `FindOrCreate`, `DirectoryTree.FindOrCreateSubdirectory` and `DirectoryTree.CreateSubdirectory` model them under this assumption: creating a child fails exactly when the child already exists or the platform refuses it. Any failure ends the fix through `IncorrectOperationException`.
- `getText`, `getFamilyName` and `getElementToMakeWritable` are left out. They only return message strings or null.
- `System.currentTimeMillis` is a constructor parameter. The project and the popup that picks the target directory are left out.
- `InsertionContext.commitDocument` is left out, as are the caret move and `invokeCompletion`. The caret move and `invokeCompletion` are reported as the returned `CompletionRequest`.
- `DomManager.getDomElement` is the tag's `domCoordinates` field. The tag's text and the coordinates' fields are modelled as independent state, not as one XML document.
- `getDomElement(null)` for a tag without a parent is taken to give null.
- `MavenScopeTable.getUsualScope` and `findManagedDependency` are inputs (`usualScope`, `hasManagedDependency`).
- `getItems()` is reduced to its length, or None when it is null.
