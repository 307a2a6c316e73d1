# pandora / nix core in Dafny

This project models three core parts of the nix / pandora library:

- The strided N-dimensional array `nix::NDArray` (`src/NDArray.cpp`). It is a flat byte buffer addressed by row-major strides that are computed from the extents.
- The file object `pandora::File` (`src/File.cpp`). The model covers:
  - the open mode;
  - the root attributes the constructor fills in with "default";
  - creating block groups;
  - the random ids made of 32 hexadecimal characters.
- The metadata section `pandora::Section` (`src/Section.cpp`). A section is a node of a tree of sections kept in the file. It has:
  - attributes: name, type, repository, mapping, parent id and link id;
  - child section groups;
  - property groups.

  The operations on it fall into three groups:
  - linking, and adding or removing child sections and properties;
  - looking up properties, including properties inherited through the link;
  - the relationship searches: downstream, upstream, sideways and the depth-limited `findSections`.

The HDF5 file is modelled by the content it holds. For sections that content is a map from section id to a record (`Store.Tree`). Parent and link are stored as ids. The tree is kept well formed (`Store.WellFormed`):

- ids are non-empty;
- a parent id names a stored section;
- parent ids and child lists mirror each other;
- group names are unique within a group;
- parent chains end.

Every modelled update is proved to keep the tree well formed.

Modules:

- `Errors`: the error kinds (the library's exceptions) and `Result`.
- `NDArrays`: the `NDArray` class, its size arithmetic, and the stride and index lemmas.
- `Store`: the section tree, the well-formedness rules, depth and ancestry, and the add-child and remove-child updates.
- `Search`: the searches as functions of the tree. Each search has a lemma saying which sections it finds.
- `Files`: the `File` class, the root attributes and the id characters.
- `Sections`: the `Section` view class, whose methods read and update its file's tree, and the property functions.

`Section::operator==` is `Sections.Section.Equals`, which compares ids. `Section::propertyCount` is `Sections.PropertyCount`. It is a `size_t` count, one less when a "values" subgroup exists, so it wraps to `SIZE_MAX` when there are no property groups. Its effect is stated through `Sections.VisibleShape`.

In `NDArray::calc_strides`, extents [3,4,2] give strides [8,2,1], and subscript [2,3,1] gives index 23 (`NDArrays.StridesExample`).

## Model

| member | source | states |
|---|---|---|
| `NDArrays.TypeSize` | src/NDArray.cpp:21 | an element is 1 to 8 bytes wide |
| `NDArrays.Resized` | src/NDArray.cpp:24 | `vector::resize`: the new length; old bytes kept up to it; new bytes are zero |
| `NDArrays.NDArray.constructor` | src/NDArray.cpp:15 | the member initialisers store the data type and the extents |
| `NDArrays.NDArray.New` | src/NDArray.cpp:15-17 | construction fails exactly when the byte count exceeds `SIZE_MAX`; otherwise the array is allocated, its buffer zeroed and its strides row-major |
| `NDArrays.NDArray.AllocateSpace` | src/NDArray.cpp:20-27 | succeeds exactly when element count times type size fits in `size_t`; then the buffer has that many bytes (old prefix kept) and the strides are recomputed; a failure changes nothing |
| `NDArrays.NDArray.Resize` | src/NDArray.cpp:30-33 | the new extents are stored first; on success the array is allocated for them; on failure the buffer and strides stay those of the old extents |
| `NDArrays.NDArray.CalcStrides` | src/NDArray.cpp:36-46 | the loop leaves exactly the row-major strides, each product taken modulo 2^64 |
| `NDArrays.NDArray.Sub2Index` | src/NDArray.cpp:49-53 | succeeds exactly when the ranks match and the dot product of strides and subscript is at most `SIZE_MAX`, and then returns that dot product; a rank mismatch gives `RankMismatch`, otherwise `IndexTooLarge` |
| `NDArrays.RowMajorStrides` | src/NDArray.cpp:36-46 | one stride per axis; each is the element count of the later axes, modulo 2^64 |
| `NDArrays.StridesRecurrence` | src/NDArray.cpp:36-46 | one stride per axis; the last is 1; each is the next stride times the next extent, in `size_t` |
| `NDArrays.StridesExact` | src/NDArray.cpp:36-46 | with positive extents whose product fits, no stride product wraps |
| `NDArrays.IndexBelowCount` | src/NDArray.cpp:49-53 | row-major addressing of an in-bounds subscript stays below the element count |
| `NDArrays.IndexInjective` | src/NDArray.cpp:49-53 | distinct in-bounds subscripts have distinct row-major indices |
| `NDArrays.Sub2IndexInBounds` | src/NDArray.cpp:49-53 | on an allocated array, `sub2index` of an in-bounds subscript succeeds and addresses an element |
| `NDArrays.Sub2IndexInjective` | src/NDArray.cpp:49-53 | on an allocated array, two in-bounds subscripts with the same index are equal |
| `NDArrays.StridesExample` | src/NDArray.cpp:36-53 | extents [3,4,2] give strides [8,2,1]; subscript [2,3,1] gives index 23 |
| `NDArrays.UncheckedAxesAlias` | src/NDArray.cpp:49-53 | axes are not checked: out-of-range [0,4] aliases in-range [1,1] for extents [2,3] |
| `Store.FindSection` | src/Section.cpp:43 | `findSection` returns at most one section; it is empty exactly when the id is not stored |
| `Store.ReplaceRecordWellFormed` | src/Section.cpp:42-55 | rewriting a section's attributes or properties, keeping its parent, children and distinct property ids, keeps the tree well formed |
| `Store.WithChildWellFormed` | src/Section.cpp:96-103 | opening (or creating) a child group keeps the tree well formed |
| `Store.WithChildShape` | src/Section.cpp:96-103 | after `addSection` the child has the given name, type and parent; the parent lists it once; no other section changes |
| `Store.WithoutChildWellFormed` | src/Section.cpp:105-112 | removing a child group, and everything below it, keeps the tree well formed |
| `Store.WithoutChildShape` | src/Section.cpp:105-112 | after `removeSection` the whole subtree of the child is gone; the parent keeps its other children; no other section changes |
| `Search.HasParent` | src/Section.cpp:84-86 | a parent exists exactly when the parent id is non-empty and names a stored section |
| `Search.Below` | src/Section.cpp:221-248 | the depth-limited walk yields only stored sections that satisfy the predicate |
| `Search.BelowList` | src/Section.cpp:244-246 | the walks below a list of children yield only stored sections that satisfy the predicate |
| `Search.TreeIterator` | src/Section.cpp:277-280 | the tree iterator yields only stored sections of the requested type |
| `Search.FindUpstream` | src/Section.cpp:155-168 | a non-empty result is a stored section of the type, strictly nearer the root |
| `Search.FindSideways` | src/Section.cpp:170-188 | every sideways result is a stored section of the type |
| `Search.Related` | src/Section.cpp:118-132 | every related result is a stored section of the type |
| `Search.FindParent` | src/Section.cpp:88-94 | `findParent` succeeds exactly when the parent id names a section, and returns it; otherwise `ParentNotFound` |
| `Search.HasParentIff` | src/Section.cpp:84-94 | `hasParent` holds exactly when the section has a proper ancestor, and exactly when `findParent` succeeds |
| `Search.Filter` | src/Section.cpp:230-238 | the children kept are exactly those satisfying the predicate |
| `Search.BelowMembers` | src/Section.cpp:221-248 | the depth-limited walk finds exactly the sections strictly below the start, within the limit, that satisfy the predicate |
| `Search.OneLevel` | src/Section.cpp:174 | the iterator limited to depth 1 yields exactly the children of the type |
| `Search.UpstreamNearest` | src/Section.cpp:155-168 | `findUpstream` returns the nearest proper ancestor of the type; it returns "" exactly when no ancestor has the type |
| `Search.SidewaysNearest` | src/Section.cpp:170-188 | `findSideways` returns the children of that type of the nearest ancestor that has any; it returns nothing exactly when no ancestor has such a child |
| `Search.SelfIsSideways` | src/Section.cpp:170-188 | a section of the type with a parent is among its own sideways results |
| `Search.DownstreamFound` | src/Section.cpp:145-153 | `findDownstream` is non-empty exactly when a descendant has the type |
| `Search.RelatedFound` | src/Section.cpp:118-143 | the related search finds something exactly when a descendant or an ancestor has the type, or an ancestor has a child of the type |
| `Files.WithDefaults` | src/File.cpp:36-42 | after the check every listed attribute exists; present values are kept; added ones are "default" |
| `Files.WithDefaultsIdempotent` | src/File.cpp:36-42 | checking the attributes a second time changes nothing |
| `Files.HexIndex` | src/File.cpp:63 | the table index is at most 16, and is 16 exactly for the draw `RAND_MAX` |
| `Files.HexTableShape` | src/File.cpp:54 | the table is the 16 hexadecimal digits followed by the terminating NUL |
| `Files.IdChars` | src/File.cpp:62-65 | one character per draw |
| `Files.IdCharIsHex` | src/File.cpp:63 | a draw yields a hexadecimal digit exactly when it is below `RAND_MAX`; `RAND_MAX` yields NUL |
| `Files.IdCharsAt` | src/File.cpp:62-65 | the i-th id character comes from the i-th draw |
| `Files.IdCharsAllHex` | src/File.cpp:62-65 | the id is all hexadecimal digits exactly when no draw is `RAND_MAX` |
| `Files.RandMaxDrawYieldsNul` | src/File.cpp:63 | a draw of `RAND_MAX` puts a NUL character into the id |
| `Files.FixedHexIndex` | src/File.cpp:63 | scaling by `RAND_MAX + 1` keeps the index below 16; it agrees with the as-written index for every other draw |
| `Files.FixedIndexAgrees` | src/File.cpp:63 | the corrected index is below 16 and equals the as-written index unless the draw is `RAND_MAX` |
| `Files.FixedIdChar` | src/File.cpp:63 | the corrected character is always a hexadecimal digit and agrees with the as-written character below `RAND_MAX` |
| `Files.File.constructor` | src/File.cpp:11-26 | mode "r" opens the stored content read-only; any other mode truncates to empty; then the four root attributes exist |
| `Files.File.CheckAttributes` | src/File.cpp:36-42 | the loop sets each missing listed attribute to "default" and keeps the rest |
| `Files.File.CreateBlock` | src/File.cpp:44-50 | creates the root group with its type; a taken name fails with the blocks unchanged |
| `Files.File.CreateId` | src/File.cpp:52-68 | the id is the prefix, "_", then one table character per draw; its length is the prefix length plus 33 |
| `Sections.FirstWhere` | src/Section.cpp:323-326 | the scan stops at the first property satisfying the test, or at the end |
| `Sections.PropertyCount` | src/Section.cpp:357-362 | the count exceeds the number of groups exactly when a "values" subgroup meets no property group (the `size_t` wrap); it is below that number exactly when a "values" subgroup hides one |
| `Sections.Visible` | src/Section.cpp:290-299 | reading succeeds exactly when the count does not pass the last group; the result is the first `propertyCount()` groups; otherwise `ObjectIndexOutOfRange` |
| `Sections.VisibleShape` | src/Section.cpp:290-299 | without a "values" subgroup all properties are listed; with one the last is hidden; with one and no properties, reading fails |
| `Sections.HasName` | src/Section.cpp:376-383 | fails exactly when reading the properties fails, with the same error; true only when a property has the name |
| `Sections.HasNameIff` | src/Section.cpp:376-383 | `hasPropertyByName` is true exactly when a listed property has the name |
| `Sections.GetProperty` | src/Section.cpp:312-319 | succeeds exactly when a property group has the id, and returns it; otherwise `PropertyNotFound` |
| `Sections.WithoutId` | src/Section.cpp:351-355 | exactly the properties with a different id remain; ids stay distinct; an absent id changes nothing |
| `Sections.LinkTarget` | src/Section.cpp:301-310 | the link target is at most one stored section, named by the link id |
| `Sections.Inherited` | src/Section.cpp:301-310 | no link target gives no properties; every inherited property is a property group of the link target |
| `Sections.PropertyByName` | src/Section.cpp:321-337 | a found property has the name and belongs to the section or its link target; the only failures are `PropertyNotFound` or a failed read |
| `Sections.PropertyByNameFound` | src/Section.cpp:321-337 | the result has the name; own properties win; it fails (`PropertyNotFound`) exactly when neither the section nor its link target lists the name |
| `Sections.LinkCheck` | src/Section.cpp:42-55 | accepted only for exactly one found section of the same type; nothing found gives `LinkTargetMissing`; otherwise `LinkTypeDeviates` |
| `Sections.LinkAccepted` | src/Section.cpp:42-55 | a link is accepted exactly when the target exists with the same type; a missing target and a deviating type are told apart |
| `Sections.LinkThenInherit` | src/Section.cpp:301-310 | once linked, the inherited properties are exactly the target's listed properties |
| `Sections.AddKeepsNamesUnique` | src/Section.cpp:339-349 | with every property listed, adding an unlisted name keeps names unique |
| `Sections.HiddenNameCanRepeat` | src/Section.cpp:339-349 | with a "values" subgroup, the hidden last name passes the check and can be added twice |
| `Sections.RecLimit` | src/Section.cpp:240-245 | a non-positive `max_depth` means no limit; a passed level collects children only; otherwise the walk goes deeper |
| `Sections.RecLimitStep` | src/Section.cpp:244-246 | one level deeper, the remaining limit is one less |
| `Sections.AsWrittenLimit` | src/Section.cpp:198 | as called, the walk is never unlimited: `max_depth` >= 2 gives children only |
| `Sections.FixedLimit` | src/Section.cpp:190-200 | in declared order, `max_depth` <= 0 is unlimited and otherwise `max_depth + 1` levels |
| `Sections.SwappedArgumentsMissGrandchild` | src/Section.cpp:198 | with `max_depth` 2, a matching grandchild is missed as written and found in declared order |
| `Sections.Section.constructor` | src/Section.cpp:19-23 | a view of one file and section id |
| `Sections.Section.Equals` | src/Section.cpp:364-366 | two views are equal exactly when their ids are |
| `Sections.EqualsIsEquivalence` | src/Section.cpp:364-366 | `operator==` is reflexive, symmetric and transitive |
| `Sections.Section.Link` | src/Section.cpp:42-55 | stores the link exactly when the link check accepts; otherwise the error and no change |
| `Sections.Section.AddSection` | src/Section.cpp:96-103 | the tree gains (or rewrites) the child with the name, type and parent; it stays well formed |
| `Sections.Section.RemoveSection` | src/Section.cpp:105-112 | reports whether the child existed; removes it and its subtree; afterwards it is not a child |
| `Sections.Section.HasSection` | src/Section.cpp:114-116 | true exactly when the id is a child group, whose parent is then this section |
| `Sections.Section.AddProperty` | src/Section.cpp:339-349 | fails on a listed name; otherwise appends a property with that name and a fresh candidate id |
| `Sections.Section.RemoveProperty` | src/Section.cpp:351-355 | the group with the id is removed if present; afterwards no group has it |
| `Sections.Section.Properties` | src/Section.cpp:290-299 | the loop reads exactly the listed properties, or fails past the last group |
| `Sections.Section.HasPropertyByName` | src/Section.cpp:376-383 | the scan agrees with `HasName` |
| `Sections.Section.GetPropertyByName` | src/Section.cpp:321-337 | the scan and the recursive call on the link target agree with `PropertyByName` |
| `Sections.Section.FindDownstream` | src/Section.cpp:145-153 | collects the unlimited tree iterator's sections |
| `Sections.Section.FindSideways` | src/Section.cpp:170-188 | the loop and the recursion on the parent agree with `Search.FindSideways` |
| `Sections.Section.GetRelatedSections` | src/Section.cpp:118-132 | downstream if any, else upstream, else sideways |
| `Sections.Section.HasRelatedSection` | src/Section.cpp:134-143 | true exactly when the related search finds something |
| `Sections.Section.FindSectionsRec` | src/Section.cpp:221-248 | appends exactly the depth-limited walk below the current section |
| `Sections.Section.DescendChildren` | src/Section.cpp:244-246 | the second loop appends the walks below each child in turn |
| `Sections.Section.MatchingChildren` | src/Section.cpp:230-238 | the first loop keeps the matching children in order |
| `Sections.Section.FindSections` | src/Section.cpp:190-200 | as written: the root if wanted and matching, then the walk with the swapped arguments |
| `Sections.Section.FindSectionsFixed` | src/Section.cpp:190-200 | in declared order: exactly the matching sections within `max_depth + 1` levels (any depth when `max_depth` <= 0), plus the root if wanted |

## Left out

- The HDF5 layer: groups, attributes, data types, and `openGroup`, `hasGroup` and `objectCount` themselves. They are modelled only by the content they hold. `File::close` and the destructors only release HDF5 handles and are left out.
- The attribute setters and getters of `Section` (name, type, repository, mapping, parent, link) are not members of their own. The getters are field reads of `Store.SectionRec`.
- The `parent` setter (src/Section.cpp:74-76) is not modelled. It stores any id, so it can make a section its own parent or close a cycle. The model assumes parent ids are written only by `addSection`, and every section view requires a well-formed, acyclic tree (`Store.WfTree`, `Sections.Section.Valid`). On a cyclic parent chain the source's `findUpstream` and `findSideways` recurse without end; the model does not cover that case.
- `Section::sections`, `getSection`, `sectionCount`, `children`, `hasChildren` and the `SectionIterator` class: a section's children are its child list in enumeration order. The tree iterator class is not part of this model. It is taken to yield what `findSectionsRec` yields: no start section, the matching children first, then each child's walk, depth 0 meaning no limit.
- Property enumeration order: new property groups are taken to enumerate last (`Sections.WithProperty`). HDF5's actual order by name is not modelled.
- Store.WithChild: a newly created child group is placed last in its parent's child list, and `Store.WithChildShape` states that order. HDF5 enumerates groups by name, so in the source the new section can appear elsewhere in the results of `findSections`, `findDownstream`, `findSideways` and the tree iterator after `Sections.Section.AddSection`. The model fixes the order; which sections are found (`Search.BelowMembers`, `Search.UpstreamNearest`, `Search.SidewaysNearest`) does not depend on it.
- `File::findSection` is not part of this model. Ids are unique in the store, so it returns the section with the id or nothing.
- `time`, `srand` and `rand`: random values are passed in as parameters. The `initialized` flag in `createId` is never set, so `srand` runs on every call; that is not modelled.
- `NDSize::nelms`, `NDSize::dot`, `data_type_to_size` and `check::fits_in_size_t` are not part of this model. Their meaning is assumed:
  - `nelms` is the exact product of the extents;
  - `dot` is the exact dot product, and it rejects operands of different rank (`RankMismatch`);
  - `data_type_to_size` gives the byte widths;
  - `fits_in_size_t` compares with `SIZE_MAX`.

  `NDArrays.DataType` lists only the 12 numeric element types; the library's non-numeric types, such as String, are not modelled.
- NDArrays.NDArray.AllocateSpace: the element count and the byte count are taken in exact arithmetic before the `SIZE_MAX` check. The source forms them in 64-bit `ndsize_t`, where they could wrap. On a host whose `size_t` is also 64-bit, the `fits_in_size_t` check at src/NDArray.cpp:23 can then never fail, and a wrapped `nelms() * type_size` gives a buffer that is too short, with no error.
- NDArrays.NDArray.Sub2Index: the dot product is taken in exact arithmetic before the `SIZE_MAX` check. The source forms it in 64-bit `ndsize_t`, where it wraps, so on a host whose `size_t` is also 64-bit the `fits_in_size_t` check at src/NDArray.cpp:51 can never fail.
- NDArrays.NDArray.New: inherits the exact byte count of `AllocateSpace`.
- Sections.Section.AddSection: the random id is passed in and required not to name a section elsewhere in the file. The source relies on the 128-bit id being unique.
- Sections.Section.AddProperty: the candidate ids are passed in, and one of them is required to be fresh. The source keeps drawing until an id is fresh.
- Files.File.CreateId: the 32 `rand()` draws are passed in. The conversion through `double` is modelled as the exact integer quotient, which it equals for draws up to `RAND_MAX`.
- Writes to a file opened read-only fail in HDF5. The model does not reject them.
- Sections.Section.FindSectionsRec: takes the tree by value (a static method) rather than a `Section` handle, because the walk only reads the tree.
- `cli/modules/Dump.hpp` and the test sources are not modelled.

## Findings

| source | as written | input that shows it | evidently intended | confidence | as-written member | corrected member |
|---|---|---|---|---|---|---|
| src/File.cpp:63 | `hex[(size_t)((double)rand() / RAND_MAX * 16)]` | `rand()` returns `RAND_MAX` (2147483647): the index is 16, the string's terminating NUL, so the id contains a NUL character | scale by `RAND_MAX + 1`, so every draw picks one of the 16 digits | not executed | `Files.RandMaxDrawYieldsNul` | `Files.FixedIdChar` |
| src/Section.cpp:198 | `findSectionsRec(*this, results, predicate, max_depth, 1)` passes `max_depth` as the level and 1 as the maximum depth | `max_depth = 2` and a matching grandchild: only children are collected, so the grandchild is missed; no `max_depth` gives an unlimited search | `findSectionsRec(*this, results, predicate, 1, max_depth)` | not executed | `Sections.SwappedArgumentsMissGrandchild` | `Sections.Section.FindSectionsFixed` |
