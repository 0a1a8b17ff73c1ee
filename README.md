# TypeDoc: serializer registry, package metadata and search index

This project models three parts of TypeDoc in Dafny and proves properties of them.

- **The serializer** (`serializer.dfy`, module `Serialization`) keeps a registry of serializer components.
  - Components are grouped by their `serializeGroup` predicate.
  - The groups are kept in the order in which each was first registered.
  - Each group has a bucket that is re-sorted by descending priority after every registration.
  - To turn a value into JSON, the serializer picks the components whose group and whose own `supports` accept the value. It then folds their `toObject` over an initial object.
  - `projectToObject` wraps this fold in a begin event and an end event.
  - The `Serializer` class holds the registry as mutable fields, plus a ghost history of every registration.
  - The invariant `Valid` ties the registry to that history: each bucket is the stable descending sort of the components registered in its group.
- **The package plugin** (`package_plugin.dfy`, module `PackagePlugin`) is a class.
  - Its fields are the readme file, the readme contents and the package.json found at the start of a conversion.
  - `onBegin` sets these fields.
  - The end handler and `onRevive` clear them.
  - `addEntries` copies these fields onto the project reflection: the readme summary, the package name, a default project name and, when asked for, the package version.
- **The search index plugin** (`javascript_index.dfy`, module `JavascriptIndex`) selects the reflections that get a search row.
  - For each selected reflection it builds the row and the document given to the index builder, with consecutive ids.
  - It also builds the comment text that is indexed.

`common.dfy` holds the shared values: `Option`, JavaScript truthiness of an optional string, and `endsWith`. `comments.dfy` holds the parts of a parsed comment that are read here.

The sort in `addSerializer` is `Array.prototype.sort` with comparator `b.priority - a.priority`, which is a stable descending sort. The model proves the following about it:

- A sort that is stable and descending is unique (`StableSortUnique`).
- So pushing onto a sorted bucket and sorting gives the same bucket as inserting the new component after the last element whose priority is at least its own (`PushThenSort`, `AnyStableSortIsInsert`).
- `SortBucket` computes that insertion with a loop and is proved equal to it.

In `projectToObject`, the end event is built with the object `toObject` returned, and that object is what the caller gets. The `outputDirectory` and `outputFile` of `eventData.end` are written onto the begin event, after the begin event was triggered, so the end event never carries them. The model keeps this behaviour as written: `ProjectToObject` returns the end event as sent, with neither field set, and the begin event as it ends up.

Inputs the model takes as given:

- The effect of the event listeners (`trigger`).
- File discovery (`Discovery`).
- `parseRawComment`.
- The theme's `getReflectionClasses`.
- The effect of the `PREPARE_INDEX` listeners (`prepareIndex`).
- The construction of each concrete serializer component (`instantiate`).

## Model

| member | source | states |
|---|---|---|
| Serialization.Serializer.constructor | src/lib/serialization/serializer.ts:51-54 | A new serializer satisfies the registry invariant, and the history of what it registered is the default component list, in order. |
| Serialization.Serializer.AddSerializers | src/lib/serialization/serializer.ts:149-153 | The 23 default components are registered one after the other, in list order. The invariant is preserved. |
| Serialization.Serializer.AddEach | src/lib/serialization/serializer.ts:150-152 | The loop registers one component per class, in list order, and keeps the registry invariant. |
| Serialization.InstancesPointwise | src/lib/serialization/serializer.ts:119-153 | The default registrations are one component per class of the list, in list order. |
| Serialization.Serializer.AddSerializer | src/lib/serialization/serializer.ts:56-65 | Registering appends to the history. A group seen for the first time is appended to the group order, and only then. The group's bucket becomes the old bucket with the component inserted after the last entry of priority at least its own. The registry invariant is kept. |
| Serialization.AddToBuckets | src/lib/serialization/serializer.ts:57-64 | On the map itself: a group without a bucket gets a new one at the end of the key order. The group's bucket becomes the sorted push of the component. No other bucket changes. |
| Serialization.SortBucket | src/lib/serialization/serializer.ts:63-64 | Pushing onto a sorted bucket and then sorting gives the stable descending sort of the pushed bucket, which equals the insertion. |
| Serialization.PushThenSort | src/lib/serialization/serializer.ts:63-64 | On a sorted bucket, push followed by the stable descending sort equals insertion after the last element of priority at least the new one. |
| Serialization.AnyStableSortIsInsert | src/lib/serialization/serializer.ts:63-64 | Any order that is sorted by descending priority and keeps the relative order of equal priorities equals that insertion. |
| Serialization.StableSortUnique | src/lib/serialization/serializer.ts:64 | Two descending-sorted sequences with the same run of elements at every priority are equal. |
| Serialization.InsertSorted | src/lib/serialization/serializer.ts:63-64 | Inserting into a sorted bucket leaves it sorted by non-increasing priority. |
| Serialization.InsertMultiset | src/lib/serialization/serializer.ts:63 | Inserting adds exactly one copy of the component and loses nothing. |
| Serialization.InsertWithPriority | src/lib/serialization/serializer.ts:63-64 | Inserting appends the component to the end of its priority run and leaves other runs unchanged. |
| Serialization.InsertAt | src/lib/serialization/serializer.ts:63-64 | The insertion puts the new component at the position after the last element of priority at least its own. |
| Serialization.SortByPrioritySorted | src/lib/serialization/serializer.ts:64 | The bucket sort yields non-increasing priorities. |
| Serialization.SortByPriorityMultiset | src/lib/serialization/serializer.ts:64 | The bucket sort is a permutation. |
| Serialization.SortByPriorityStable | src/lib/serialization/serializer.ts:64 | The bucket sort keeps the relative order of components of equal priority. |
| Serialization.SortedIsFixpoint | src/lib/serialization/serializer.ts:64 | Sorting an already sorted bucket changes nothing. |
| Serialization.WithPriorityAppend | src/lib/serialization/serializer.ts:63 | Pushing a component extends exactly its own priority run. |
| Serialization.WithPriorityMember | src/lib/serialization/serializer.ts:64 | A priority run holds only components of the bucket with that priority. |
| Serialization.GroupOrderDistinct | src/lib/serialization/serializer.ts:57-61 | The map holds each group key once. |
| Serialization.GroupOrderMembership | src/lib/serialization/serializer.ts:57-61 | A group has a bucket exactly when some registered component belongs to it. |
| Serialization.GroupOrderFollowsFirstRegistration | src/lib/serialization/serializer.ts:57-61 | Groups are ordered by first registration. For a group that comes earlier than another, some component of the earlier group was registered before any given component of the later one. |
| Serialization.InGroupCount | src/lib/serialization/serializer.ts:63 | A group's registrations hold each component of that group as often as it was registered, and no component of another group. |
| Serialization.InGroupUnseen | src/lib/serialization/serializer.ts:57-61 | A group key that was never registered has no components. |
| Serialization.RegistryAfterAdd | src/lib/serialization/serializer.ts:56-65 | One registration turns the registry invariant for a history into the invariant for the history extended by that component. |
| Serialization.RegistryBucketSorted | src/lib/serialization/serializer.ts:64 | Under the registry invariant, every bucket, present or absent, is sorted. |
| Serialization.ValidWellFormed | src/lib/serialization/serializer.ts:49 | In a valid registry the group order has no repeats, and every bucket holds only components of its own group. |
| Serialization.BucketsSorted | src/lib/serialization/serializer.ts:56-65 | After any sequence of registrations, each bucket is sorted by non-increasing priority. |
| Serialization.BucketsStable | src/lib/serialization/serializer.ts:63-64 | After any sequence of registrations, components of equal priority in a bucket keep their registration order. |
| Serialization.BucketHoldsEveryRegistration | src/lib/serialization/serializer.ts:63 | There is no deduplication: a component appears in its bucket once per registration. |
| Serialization.Serializer.FindSerializers | src/lib/serialization/serializer.ts:102-116 | The nested loops return the components of each accepting group in group order, filtered by `supports`. They call `supports` exactly on the components of accepting groups. |
| Serialization.Dispatch | src/lib/serialization/serializer.ts:103-115 | The outer loop collects, group by group in key order, the accepted members of each accepting group's bucket. |
| Serialization.SelectSupported | src/lib/serialization/serializer.ts:107-111 | The inner loop keeps exactly the bucket members whose `supports` accepts the value, in bucket order, and asks every member. |
| Serialization.SupportedCount | src/lib/serialization/serializer.ts:107-111 | The inner loop keeps each component that supports the value as often as it occurs, and drops the others. |
| Serialization.SupportedSubsequence | src/lib/serialization/serializer.ts:107-111 | The inner loop keeps only components of the bucket that support the value. |
| Serialization.SupportedSorted | src/lib/serialization/serializer.ts:107-111 | Filtering a sorted bucket keeps it sorted. |
| Serialization.RoutesCount | src/lib/serialization/serializer.ts:105-113 | With distinct groups and consistent buckets, the result holds a component as often as its bucket does, when its group is present and both predicates accept the value; otherwise not at all. |
| Serialization.RoutesMember | src/lib/serialization/serializer.ts:105-113 | Every selected component belongs to a registered group, and both its group predicate and its own `supports` accept the value. |
| Serialization.RoutesOrdered | src/lib/serialization/serializer.ts:105-113 | In the result, components of an earlier group precede those of a later group. Inside a group, priorities do not increase. |
| Serialization.SupportedWithPriority | src/lib/serialization/serializer.ts:107-111 | Filtering by `supports` keeps each priority run in bucket order: the run of the filtered bucket is the filtered run of the bucket. |
| Serialization.RoutesOfGroup | src/lib/serialization/serializer.ts:105-113 | The components of one group in the result are exactly that group's bucket filtered by `supports`, in bucket order, when the group is registered and accepts the value. Otherwise there are none. |
| Serialization.QueriedOnlyAcceptedGroups | src/lib/serialization/serializer.ts:106-108 | `supports` is only asked of components whose group accepted the value. |
| Serialization.IndexOf | src/lib/serialization/serializer.ts:105 | The position of a group key in the group order: its first occurrence. |
| Serialization.RoutesAreApplicableRegistrations | src/lib/serialization/serializer.ts:102-116 | For a valid serializer, the selected components are exactly the applicable registrations, each once per registration. |
| Serialization.RoutesInRegistryOrder | src/lib/serialization/serializer.ts:105-113 | For a valid serializer, the selection is ordered by the first registration of each group, then by non-increasing priority inside a group. Tie order inside a group is stated by `RoutesKeepRegistrationOrder`. |
| Serialization.RoutesKeepRegistrationOrder | src/lib/serialization/serializer.ts:105-113 | For a valid serializer, the components of one group in the result are its bucket filtered by `supports`, in bucket order. Among components of equal priority in an accepting group, those applied are the ones registered, filtered by `supports`, in registration order. |
| Serialization.SupportsAskedOnlyInAcceptedGroups | src/lib/serialization/serializer.ts:106-108 | For a valid serializer, a component whose group rejects the value is never asked `supports`. |
| Serialization.Serializer.ToObject | src/lib/serialization/serializer.ts:67-72 | The result is the left fold of the selected components' `toObject`, starting from `init`. When no registered component applies, the result is `init` unchanged. |
| Serialization.FoldConcat | src/lib/serialization/serializer.ts:71 | Folding over two consecutive selections is folding over the first, then over the second from its result. |
| Serialization.LastComponentWritesLast | src/lib/serialization/serializer.ts:71 | The last selected component is applied to the result of all the earlier ones, so its writes win. |
| Serialization.Serializer.ProjectToObject | src/lib/serialization/serializer.ts:79-100 | The begin event starts with output `{}` and carries the begin data. The fold is seeded with the begin event's output as left by its listeners. The end event carries the fold's result and no directory or file. The caller receives the end event's output. The end data is written onto the begin event. |
| PackagePlugin.PackagePlugin.constructor | src/lib/converter/plugins/PackagePlugin.ts:43-53 | A new plugin has found nothing yet. |
| PackagePlugin.PackagePlugin.OnEnd | src/lib/converter/plugins/PackagePlugin.ts:62-66 | After the end of a conversion, the readme file, the readme contents and the package.json are all undefined. |
| PackagePlugin.PackagePlugin.OnBegin | src/lib/converter/plugins/PackagePlugin.ts:78-126 | The fields are reset, then hold the discovered package.json and the readme that `DiscoveredReadme` describes. |
| PackagePlugin.DiscoveredReadme | src/lib/converter/plugins/PackagePlugin.ts:97-125 | If the readme option ends in "none", there is no readme. A file is found exactly when its contents are. When a path is given, it is found, with its contents, exactly when it can be read; otherwise nothing is found. With no path given, they are what the upward search found. |
| PackagePlugin.ResolvedNoneFindsNoReadme | src/lib/converter/plugins/PackagePlugin.ts:96-99 | A readme option resolved against any directory and ending in "none" yields no readme. |
| PackagePlugin.PackagePlugin.AddEntries | src/lib/converter/plugins/PackagePlugin.ts:132-170 | The readme is set to the parsed summary only when both the file and the contents are non-empty; otherwise it is left unchanged. The package name is set only when a package.json is present. The name is settled by `ProjectName`. The version is set only when a package.json is present and the version is asked for. |
| PackagePlugin.ProjectName | src/lib/converter/plugins/PackagePlugin.ts:155-157 | The name is never empty afterwards. A non-empty name is kept. Otherwise it becomes the package name when there is a non-empty one, else "Documentation". |
| PackagePlugin.PackageVersion | src/lib/converter/plugins/PackagePlugin.ts:158-163 | The version is undefined exactly when package.json has none. Otherwise it is `StripLeadingV` of the version: exactly one leading "v" removed when there is one, so "vv1" becomes "v1". |
| PackagePlugin.StripLeadingV | src/lib/converter/plugins/PackagePlugin.ts:159-162 | At most one leading "v" is removed. The string is unchanged exactly when it does not start with "v". |
| PackagePlugin.PackagePlugin.OnRevive | src/lib/converter/plugins/PackagePlugin.ts:70-76 | A revived project receives what `addEntries` gives after a fresh begin search. Afterwards the three fields are undefined. |
| JavascriptIndex.InitialSearchResults | src/lib/output/plugins/JavascriptIndexPlugin.ts:51-60 | The initial candidates are exactly the declarations with a non-empty url and name that are not external, with none added. |
| JavascriptIndex.Kept | src/lib/output/plugins/JavascriptIndexPlugin.ts:77-84 | A search result yields a row exactly when it has a non-empty url and an effective boost above 0. |
| JavascriptIndex.KeptHaveUrlAndPositiveBoost | src/lib/output/plugins/JavascriptIndexPlugin.ts:77-84 | Every reflection that yields a row has a url and a positive boost. |
| JavascriptIndex.RowOf | src/lib/output/plugins/JavascriptIndexPlugin.ts:86-100 | A row copies kind, name and url, and its classes are those the theme gives the reflection. It has a parent, the parent's full name, exactly when the reflection's parent exists and is not the project. |
| JavascriptIndex.DocOf | src/lib/output/plugins/JavascriptIndexPlugin.ts:102-108 | The k-th document has id k, which extra fields cannot override. The extra fields come from `searchFields[k]` and override name and comment. Without them, name is the reflection's name and comment is the comment text. |
| JavascriptIndex.IndexRow | src/lib/output/plugins/JavascriptIndexPlugin.ts:81-111 | One iteration for a kept reflection produces its row and the document with the effective boost, `relevanceBoost ?? 1`. |
| JavascriptIndex.OnRendererBegin | src/lib/output/plugins/JavascriptIndexPlugin.ts:45-112 | Nothing is built unless the theme is the default theme. Otherwise the rows and the documents correspond one to one with the kept search results of the prepared index event, in order. The k-th document has id k, its row is the k-th row, and its boost is the effective boost. |
| JavascriptIndex.GetCommentSearchText | src/lib/output/plugins/JavascriptIndexPlugin.ts:133-156 | The text is undefined exactly when comment search is off or no comment exists. Otherwise it is the display parts of the collected comments, joined by newlines. |
| JavascriptIndex.PushSignatureComments | src/lib/output/plugins/JavascriptIndexPlugin.ts:138-140 | Each signature's comment, when it has one, is pushed in signature order after the comments already collected. |
| JavascriptIndex.SearchTextOrder | src/lib/output/plugins/JavascriptIndexPlugin.ts:136-155 | The indexed parts are those of the own comment, then of each signature's comment, then of the getter's, then of the setter's. |
| JavascriptIndex.PartsConcat | src/lib/output/plugins/JavascriptIndexPlugin.ts:150-152 | The parts of a list of comments are the parts of each comment in turn: its summary, then each block tag's content. |
| JavascriptIndex.SplitJoin | src/lib/output/plugins/JavascriptIndexPlugin.ts:153-155 | When no part contains a newline, the joined text splits back into exactly the parts' texts. |
| JavascriptIndex.Texts | src/lib/output/plugins/JavascriptIndexPlugin.ts:153 | One text per display part, in order. |

## Left out

- File discovery is not modelled. This covers `discoverPackageJson`, `readFile`, `discoverInParentDir`, `deriveRootDir`, the entry-point strategy and `Path.resolve`/`join`. Its answers are the input `Discovery`, and a read that throws is `None`.
- `parseRawComment` is an input function. The warning about block and modifier tags in the readme is not modelled, and neither is any other logger output. Only that warning reads a tag's name and the modifier tags, so the comment model keeps neither.
- `onBeginResolve` is not a separate member: it only calls `addEntries` on the context's project, which `AddEntries` models.
- The event dispatcher and its listeners are not modelled. `trigger` is an input function from the event as sent to the event as the listeners leave it.
- `ProjectToObject` does not model aliasing between the returned object and the end event's output. An end listener that mutates that object is modelled as if it replaced it. The begin event's output that seeds the fold is handled the same way.
- Serializer components are kept abstract, because their field lists are not part of this model. `Behaviour` supplies each component's group predicate, `supports` and `toObject`, and `instantiate` maps each class in the default list to a component.
- Object key insertion order is not modelled. Output objects are maps, and the spread merge is a right-biased map union.
- The index builder is not modelled: no lunr `Builder`, pipeline, `searchFieldWeights` field setup or `build()`. It is an ordered record of the documents added and their boosts.
- `JSON.stringify`, the written `search.js` file and everything after the row loop are not modelled.
- `getReflectionClasses` and `getFullName` are inputs. The parent's full name is carried in `Parent`.
- The order of `Object.values(project.reflections)` is taken to be the order of the given sequence.
- Dafny's `real` stands in for JavaScript's floating-point boost; no rounding is modelled.
- A NaN `relevanceBoost` is not modelled, because `real` has no NaN. In the source, NaN fails `boost <= 0`, so the reflection is indexed with a NaN boost.
- Exceptions are not modelled. In the model, the group predicates, `supports`, `toObject` and the event listeners are total functions. In the source, any of them may throw. Nothing in `toObject`, `findSerializers` or `projectToObject` catches the exception, so it aborts the whole pass.
- Serialization.Serializer.ToObject: the default `init = {}` is not a separate entry point. Callers pass `init`, and passing `map[]` gives the default.
