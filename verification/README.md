# Verified model of the cabinet's JSON engine and controller

This project models, in Dafny, two parts of the safe-cabinet firmware and proves what they
are relied on for:

* **The JSON engine** (`packages/cJSON-v1.7.17`), with which every cloud message is built:
  the recursive-descent parser, the printer that writes into a growing or fixed buffer,
  the sibling list with its "head's `prev` is the tail" convention, the in-place
  mergesort, two independent equality tests, JSON Pointer, JSON Patch and JSON Merge
  Patch, and the ownership of memory under an allocator that may refuse any request.
* **The cabinet controller** (`applications/finger.c`, `applications/msg.c`): the
  fingerprint receiver that rescans its buffer, the key loop that locks and unlocks the
  door, and the correlator that pairs fingerprint and RFID events before an upload.

## How it is organised

Values come first. `Json` is a tree as the program keeps it, members in list order;
`Value` is what it means, objects as maps, so that equality of JSON data is `==`
(`Json.dfy`). Each algorithm is then given twice: as a function on these values, and as
a method or class that runs as the C code does, proved to compute that function. The
theorems are about the functions, and so about every run of the methods.

| files | what they hold |
|---|---|
| `Basics`, `Strings`, `Sorting`, `Tails`, `Json` | byte strings, the order of `sort_list`, where appending to a list arrives, trees and their meaning |
| `SiblingList`, `SortList` | the linked nodes and the mergesort that relinks them |
| `Compare`, `CompareLoops`, `CompareProofs`, `Folding` | `compare_json` and `cJSON_Compare`; what not minding case means |
| `Pointer`, `PointerLoops`, `PointerProofs`, `PointerReading`, `PointerDecoding`, `Readback` | RFC 6901 and the in-place decoder |
| `Patch`, `PatchLoops`, `PatchMeaning`, `PatchFailures` | RFC 6902: applying patches, and what each operation means for data |
| `PatchFrames`, `PatchShapes`, `PatchMembers`, `PatchRoundTrip`, `PatchConverse`, `PatchExact`, `PatchRemovals`, `PatchFolded`, `PatchNothing` | RFC 6902: from generated patches back to the goal, and exactly when |
| `Merge`, `MergeLoops`, `MergeWalks`, `MergeProofs`, `MergeFolded`, `MergeLimits` | RFC 7396 |
| `Memory`, `Items` | the allocator, owned blocks, `cJSON_Delete` and `cJSON_Duplicate` |
| `Printing`, `PrintLoops`, `Layout` | the text of a tree; the print buffer; the two formats |
| `Unicode`, `UnicodeLoops`, `Parsing`, `ParsingProofs`, `StringSizing`, `ParseLoops`, `ParsePrint` | the parser, and parsing against printing |
| `Grammar`, `GrammarTexts`, `GrammarProofs`, `GrammarResults`, `GrammarPrints` | JSON text defined apart from the parser, the library's and RFC 8259's, and the parser and the printer against it |
| `Frames`, `FrameLoops`, `StaleBytes`, `Cabinet`, `Correlation`, `Sessions` | the fingerprint receiver, the key loop, the event correlator, and from a key to the cloud |

Functions work on what is left of the input (`Parsing`, `Frames`) or on sequences; the
methods work on offsets, arrays and nodes. `dafny verify dfyconfig.toml` checks the whole
project.

## What turned out not to hold, and exactly when it does

* *Decoding a pointer token in place undoes the encoding* (`cJSON_Utils.c:360-391`): the
  bytes behind an escape are not moved down, and `/` is written one place late. It holds
  exactly for the keys of `PointerDecoding.Survives` (`DecodeUndoesEncode`). A member is
  added as asked if and only if its name survives and its list can be appended to
  (`PatchMembers.AddedExactly`).
* *Case-sensitive patches remove the member they name*: `detach_path` looks members up
  without regard to case (`cJSON_Utils.c:467`). The right member is removed if and only if
  its name survives and no member *before* it bears the name in another case; one behind it
  does no harm (`PatchMembers.RemovedExactly`, and `ReplacedExactly` for replacing).
* *Generated patches lead from a copy of `from` to `to`*: always, if they fit
  (`PatchRoundTrip.RoundTrip`), where only names that are removed, added or replaced as a
  whole matter: `{"a/b":true}` patched to itself succeeds. If no object of the copy has two
  names alike up to case, then if and only if all those names survive
  (`PatchExact.RoundTripExactly`); that they survive is necessary for every copy
  (`ReachedNamesSurvive`). With one patch at any depth fitting is necessary too, for every
  copy (`OnePatchExactly`). With two it is not: two removals can each hit the member the
  other one names, and still empty the object (`BothRemoved`). For pairs that only lose
  members the exact condition is that, among names alike up to case, the removed ones come
  first (`PatchRemovals.RemovalsExactly`).
* *Generated patches lead to the goal without regard to case*: to the goal as the mode sees
  it. A member that `from` calls by the same name in another case keeps that name
  (`PatchFolded.FoldedRoundTrip`), and where nothing but case differs there is no patch
  (`PatchNothing.NothingToPatch`).
* *An index is a decimal*: the digit loop looks at the first byte only
  (`cJSON_Utils.c:289`), so that the empty token is index 0 and letters behind a digit count
  (`PointerReading.OddIndices`). Which tokens are taken for an index, and for which, is
  `IndexExactly`.
* *The parser accepts JSON*: all of RFC 8259 (`GrammarResults.StandardIsParsed`), but for
  numbers longer than 63 bytes, which are cut (`cJSON.c:310-384`); and more, which
  `ParsesExactly` describes: any byte up to 32 is a blank, a zero among them; texts may hold
  control characters; numbers are what `strtod` takes; and four bytes behind `\u` that are not
  hexadecimal digits count as zero, wherever escape sequences start among them.
* *An object can be appended to*: sorting, which `test`, generating patches and generating
  merge patches all do, leaves the head's `prev` on the end of the list if and only if
  neither the first nor the last node moves (`SortList.SortThenAppend`,
  `Tails.SortKeepsTail`). So an `add` after a `test` of the same object can report success
  and lose members (`PatchMeaning.TestThenAdd`), and the round trips are stated for copies
  whose lists can be appended to, as the parser and `cJSON_Duplicate` make them.
* *A failing operation changes nothing*: a `move` whose target cannot be added to has lost its
  value, and a `replace` without a value has removed the old one
  (`PatchFailures.FailureMeans`, `Incomplete`); all others leave the document as it was.
* *A value can be moved or copied to the whole document*: the code refuses both
  (`PatchMeaning.WholeIsRefused`), though RFC 6902 allows copying there.
* *A generated merge patch leads to its goal*: if and only if the goal is `NullSafe` and the
  order of names is `Kept`, and no difference in nothing but case is overlooked
  (`MergeProofs.MergeRoundTrip`). The
  lists are sorted in one order and walked in another, so a name that both objects have can
  be taken from one of them before the other. Taken from `to` first, the patch sets it and
  then removes it (`MergeLimits.CapitalsMislead`); taken from `from` first, it is removed
  and then given in full, which does no harm as long as it holds no null
  (`CapitalsPassed`). `Merge.ArrivalAt` says which it is, from the two sets of names. Names
  without capitals always arrive together (`MergeLimits.LowerRoundTrip`), and so do the
  names of a flat object in the case-sensitive mode (`MergeProofs.FlatRoundTrip`). Names
  are repeated in the patch if and only if some do not arrive together
  (`MergeLimits.PatchNamesExactly`, `MergeProofs.GenerateDenotes`).
* *Allocating five bytes more than needed is safe*, says the header
  (`packages/cJSON-v1.7.17/cJSON.h:162`): two bytes more than the text are exactly enough.
* *Parsing stays inside the buffer*: always, unless the last byte is a comma, which cannot
  be in a terminated text (`ParsingProofs.ParsePromises`, `OverrunBehindComma`).
* *The receiver always comes back*: unless the scan reaches, frame by frame, a header that
  announces 0xFFF7 bytes before any decisive frame (`Frames.StuckIff`), however the bytes
  come in (`BadHeaderHangs`). In the model such a run ends with `Hung`.
* *The door opens only on an answer to the command just sent*: the port is cleared 20 ms
  before the command is written (`finger.c:477-480`), and what arrives in between is read as
  an answer (`Cabinet.StalePacketOpens`). It holds if and only if nothing that waits when
  the command goes out can become part of a genuine packet
  (`SafeSinceCommandIff`, `StaleBytes.SinceCommandIff`), which `StaleBytes.StalePossible`
  tests on those bytes. Unconditionally, the packet arrived
  since the same attempt cleared the port (`DoorSafety`).
* *A match is only paired with scans of the next five seconds*: until the tick counter has
  wrapped around (`Correlation.WindowWraps`).

## Assumptions about what lies outside

* `strtod` is a parameter. The parser's results hold for every function that takes no more
  bytes than it is given; parsing against printing also needs it to read back what `%d`
  writes (`ParsePrint.ReadsDecimals`), which `ParsePrint.ReadWhole` does.
* The allocator refuses whichever requests its schedule says; results hold for all schedules.
* Key presses, arriving bytes (also those between clearing the port and the command),
  whether a command gets out, tick readings and the presence of the servo are parameters,
  and results hold for all of them.
* `size_t` has 32 bits, as on the STM32F407 (`Pointer.dfy`); the tick counter has 32 bits and
  runs at 1000 Hz; the receiver computes frame lengths in 16 bits.

## Model

| member | source | states |
|---|---|---|
| Strings.CompareFolded | packages/cJSON-v1.7.17/cJSON_Utils.c:84-110 | the case-insensitive loop of `compare_strings` has the sign of the order on folded texts; `StrcmpZero`, `StrcmpAntisymmetric` and `StrcmpTransitive` make it a total order |
| Sorting.SortPermutes | packages/cJSON-v1.7.17/cJSON_Utils.c:485-594 | the sorted list holds exactly the elements of the list it started from |
| Sorting.SortOrders | packages/cJSON-v1.7.17/cJSON_Utils.c:485-594 | the sorted list is in ascending order of name, in both case modes |
| SortList.IsAscending | packages/cJSON-v1.7.17/cJSON_Utils.c:499-508 | the first loop finds out whether each element is strictly before its successor |
| SortList.Middle | packages/cJSON-v1.7.17/cJSON_Utils.c:510-522 | the two-pointer walk ends at the middle node, for lists of any length |
| SortList.Split | packages/cJSON-v1.7.17/cJSON_Utils.c:523-528 | cutting the list leaves two well-formed chains that share no node |
| SortList.MergeLists | packages/cJSON-v1.7.17/cJSON_Utils.c:530-593 | merging two chains in place gives a chain of the same nodes in the order of the merge on sequences |
| SortList.SortList | packages/cJSON-v1.7.17/cJSON_Utils.c:485-594 | for every well-formed list: terminates; the result is a chain of the same nodes, in the order of the mergesort on sequences, `prev` of every later node is its predecessor; and what the head's `prev` holds is stated exactly |
| SortList.SortObject | packages/cJSON-v1.7.17/cJSON_Utils.c:596-603 | the object ends up sorted, and where appending to it arrives afterwards is what `Tails.SortTail` says, wherever it arrived before |
| SortList.SortThenAppend | packages/cJSON-v1.7.17/cJSON_Utils.c:596-603 | what an append after sorting does to the nodes; in a list that was well formed it works exactly if sorting moved neither the first nor the last node, otherwise the item is lost, or nodes behind the former tail are |
| Tails.SortedPlaces | packages/cJSON-v1.7.17/cJSON_Utils.c:485-594 | each place of the sorted list holds the element of one place of the unsorted list, and none twice |
| Tails.SortKeepsTail | packages/cJSON-v1.7.17/cJSON_Utils.c:485-603 | sorting leaves the way to the end intact if and only if neither the first nor the last element moves, repeated names included |
| SiblingList.Parent.GetArrayItem | packages/cJSON-v1.7.17/cJSON.c:1861-1878 | the node at an index, or NULL |
| SiblingList.Parent.AddItemToArray | packages/cJSON-v1.7.17/cJSON.c:1966-1997 | appends to the sequence of nodes where the head's `prev` leads to the tail; where it leads to another node or to none, what is lost is stated exactly |
| SiblingList.Parent.DetachItemViaPointer | packages/cJSON-v1.7.17/cJSON.c:2197-2231 | removes that node from the sequence, leaves a chain and a node that points nowhere, and says where the head's `prev` leads then, which can be to the removed node |
| SiblingList.Parent.DetachItemFromArray | packages/cJSON-v1.7.17/cJSON_Utils.c:394-428 | removes the node at an index, or changes nothing |
| SiblingList.Parent.InsertItemInArray | packages/cJSON-v1.7.17/cJSON.c:2273-2305 | inserts in front of the node at an index, appends past the end, refuses a negative index |
| SiblingList.Parent.InsertItemAt | packages/cJSON-v1.7.17/cJSON_Utils.c:694-729 | inserts at an index up to the length and refuses to leave a gap |
| SiblingList.Parent.ReplaceItemViaPointer | packages/cJSON-v1.7.17/cJSON.c:2307-2354 | puts the new node in the old node's place in the sequence |
| CompareLoops.RunCompareJson | packages/cJSON-v1.7.17/cJSON_Utils.c:605-691 | the recursive walk computes `CompareJson`, with both trees as it leaves them |
| CompareProofs.CompareKeeps | packages/cJSON-v1.7.17/cJSON_Utils.c:605-691 | whatever it answers, `compare_json` only reorders members: at every depth the same names and values as a multiset, repeated names included; with unique names the same meaning |
| Folding.CompareDecides | packages/cJSON-v1.7.17/cJSON_Utils.c:605-691 | in either mode, for trees in which no object has two names that are the same in that mode: sort-then-zip decides equality of the data, member order aside, and without regard to case with every name folded |
| CompareLoops.RunCJsonCompare | packages/cJSON-v1.7.17/cJSON.c:3001-3124 | the mutual lookup computes `CJsonCompare` |
| Folding.CJsonDecides | packages/cJSON-v1.7.17/cJSON.c:3001-3124 | mutual lookup decides the same equality for the same trees, and never accepts an invalid node |
| Folding.EqualitiesAgree | packages/cJSON-v1.7.17/cJSON_Utils.c:605-691 | in either mode the two equalities agree on all such trees without an invalid node |
| PointerLoops.RunComparePointers | packages/cJSON-v1.7.17/cJSON_Utils.c:121-155 | the loop compares a name with an escaped token in both case modes |
| PointerProofs.CompareEncoded | packages/cJSON-v1.7.17/cJSON_Utils.c:121-155 | a token written for a key matches a name exactly if the name is that key, for keys with `~` and `/` too |
| PointerLoops.PointerEncodedLength | packages/cJSON-v1.7.17/cJSON_Utils.c:158-171 | the length of the escaped token |
| PointerLoops.EncodeStringAsPointer | packages/cJSON-v1.7.17/cJSON_Utils.c:174-197 | writes the escaped token and its terminator and nothing else |
| PointerLoops.DecodeArrayIndexFromPointer | packages/cJSON-v1.7.17/cJSON_Utils.c:275-300 | the loop with its test of the first byte only, in `size_t` arithmetic |
| PointerProofs.DecodeDigits | packages/cJSON-v1.7.17/cJSON_Utils.c:275-300 | canonical decimals decode to the number they denote, as far as `size_t` holds it |
| PointerLoops.GetItemFromPointer | packages/cJSON-v1.7.17/cJSON_Utils.c:302-347 | the walk computes `Resolve` |
| PointerLoops.FindPointerFromObjectTo | packages/cJSON-v1.7.17/cJSON_Utils.c:199-260 | finds the pointer to a node below the root, and NULL for a node that is not |
| PointerProofs.FindThenResolve | packages/cJSON-v1.7.17/cJSON_Utils.c:199-347 | reading the pointer written for a node returns that node exactly if no name on the way is shadowed, in both case modes |
| PointerProofs.PointerRoundTrip | packages/cJSON-v1.7.17/cJSON_Utils.c:199-347 | RFC 6901 sections 3 and 4: with unique names the case-sensitive lookup always returns that node |
| PointerReading.EscapedExactly | packages/cJSON-v1.7.17/cJSON_Utils.c:121-197 | RFC 6901 section 4: a token is the escaped form of a name if and only if replacing `~1` by `/` and `~0` by `~` gives that name |
| PointerReading.MatchesExactly | packages/cJSON-v1.7.17/cJSON_Utils.c:121-155 | for every token, well formed or not, and both case modes: it matches just the names that it stands for, and none if it has another escape sequence |
| PointerReading.MemberExactly | packages/cJSON-v1.7.17/cJSON_Utils.c:318-327 | a token in an object selects the first member that is called what it stands for, if there is one |
| PointerReading.IndexExactly | packages/cJSON-v1.7.17/cJSON_Utils.c:275-300 | for every token: it is taken for an index if and only if it is empty, or starts with a digit, that is zero only if it stands alone, and has no byte below the digit zero; then for its decimal value modulo the range of `size_t` |
| PointerReading.CountsDecimals | packages/cJSON-v1.7.17/cJSON_Utils.c:275-300 | of these tokens, those made of digits are the decimals without leading zeros that RFC 6901 section 4 lets stand, with their value |
| PointerReading.OddIndices | packages/cJSON-v1.7.17/cJSON_Utils.c:289-298 | the empty token selects the first element, and `1A` the one at index 27 |
| PointerReading.ReadsTokens | packages/cJSON-v1.7.17/cJSON_Utils.c:302-347 | a pointer is read token by token, and one that does not start with a slash leads to where reading starts |
| PointerLoops.DecodePointerInPlace | packages/cJSON-v1.7.17/cJSON_Utils.c:360-391 | the in-place decoder as it is, with bytes left where they are after an escape |
| PointerDecoding.DecodeUndoesEncode | packages/cJSON-v1.7.17/cJSON_Utils.c:360-391 | the decoder undoes the encoder exactly on the keys described by `Survives` |
| PointerDecoding.PlainSurvives | packages/cJSON-v1.7.17/cJSON_Utils.c:360-391 | keys without `~` and `/` are among them |
| PointerDecoding.SlashIsLost | packages/cJSON-v1.7.17/cJSON_Utils.c:378 | a key with `/` that the decoder garbles |
| Readback.LostIsOther | packages/cJSON-v1.7.17/cJSON_Utils.c:360-391 | a name that does not survive is not read back as itself in another case either |
| Readback.ReadBackAdvances | packages/cJSON-v1.7.17/cJSON_Utils.c:360-391 | reading back again and again never returns to a name: each time at least one byte more comes back right |
| PatchLoops.PatchArray.ComposePatch | packages/cJSON-v1.7.17/cJSON_Utils.c:1097-1135 | appends one patch object with operation, path, escaped suffix and value |
| PatchLoops.PatchArray.CreatePatches | packages/cJSON-v1.7.17/cJSON_Utils.c:1142-1280 | appends exactly the patches of `CreateEdits`, and leaves both trees reordered only, `from` with the tail that sorting leaves |
| PatchFrames.ComposeAllApplies | packages/cJSON-v1.7.17/cJSON_Utils.c:808-1037 | applying the composed patch objects is applying the edits they were composed from |
| PatchFrames.EditsUnder | packages/cJSON-v1.7.17/cJSON_Utils.c:808-1037 | frame, in both modes: patches under the path of a child change that child and nothing else |
| PatchFrames.RemoveItem | packages/cJSON-v1.7.17/cJSON_Utils.c:431-482 | removing by index path removes that element |
| PatchFrames.AppendItem | packages/cJSON-v1.7.17/cJSON_Utils.c:982-1000 | adding at `-` appends |
| PatchMembers.RemovedExactly | packages/cJSON-v1.7.17/cJSON_Utils.c:431-482 | for every object with unique names: removing a member does so if and only if its name survives the in-place decoder and no member before it bears the name in another case |
| PatchMembers.AddedExactly | packages/cJSON-v1.7.17/cJSON_Utils.c:1004-1018 | for every such object: adding a member does so if and only if its name survives and the list is empty or can be appended to |
| PatchMembers.ReplacedExactly | packages/cJSON-v1.7.17/cJSON_Utils.c:897-909 | for every such object: replacing a value by another does so if and only if removing works and the list that is left can be appended to |
| PatchRoundTrip.EditsReach | packages/cJSON-v1.7.17/cJSON_Utils.c:1142-1280 | in both modes: generated edits lead any tree with the data of `from` that they fit to the data of `to` |
| PatchRoundTrip.RoundTrip | packages/cJSON-v1.7.17/cJSON_Utils.c:808-1310 | RFC 6902 sections 4.1 to 4.3, in both modes: generated patches apply to a copy of `from` with status 0 and leave a tree equal to `to`; of the names only those removed, added or replaced have to survive, and only those removed or replaced to come first up to case; without regard to case the names of both sides are told apart |
| PatchFolded.FoldedRoundTrip | packages/cJSON-v1.7.17/cJSON_Utils.c:808-1310 | without regard to case, asking only that no object has two names alike up to case and that the touched names survive: status 0, and the goal under the names that `from` has for what is alike, which with all names folded is the goal |
| PatchNothing.NothingToPatch | packages/cJSON-v1.7.17/cJSON_Utils.c:1142-1310 | in both modes: no patch is generated if and only if the data are equal, without regard to case with all names folded |
| PatchConverse.BadNameFails | packages/cJSON-v1.7.17/cJSON_Utils.c:808-1310 | if a touched name of an object does not survive, no patch of the list ever hits the worst of these names, and the goal is missed |
| PatchExact.ReachedNamesSurvive | packages/cJSON-v1.7.17/cJSON_Utils.c:808-1310 | for every copy: the round trip succeeds only if all touched names survive, at any depth |
| PatchExact.RoundTripExactly | packages/cJSON-v1.7.17/cJSON_Utils.c:808-1310 | for copies in which no object has two names alike up to case, the round trip succeeds if and only if all touched names survive |
| PatchExact.OnePatchExactly | packages/cJSON-v1.7.17/cJSON_Utils.c:808-1310 | for every copy and any pair for which at most one patch is generated, at any depth, the round trip succeeds if and only if that patch fits |
| PatchExact.BothRemoved | packages/cJSON-v1.7.17/cJSON_Utils.c:467 | two removals that each hit the other one's member still reach the goal, so with more patches fitting is not necessary |
| PatchRemovals.RemovalsExactly | packages/cJSON-v1.7.17/cJSON_Utils.c:431-482 | for every copy and any pair that only loses members, names alike up to case included: the round trip succeeds if and only if the removed names survive and, in each class of names alike, are the first ones in list order |
| PatchMeaning.AddMeans | packages/cJSON-v1.7.17/cJSON_Utils.c:960-1036 | RFC 6902 section 4.1 on data, in both modes, a name standing for the one member called so in the mode: a member is set, an element inserted at its index or appended at `-`; otherwise it fails |
| PatchMeaning.RemoveMeans | packages/cJSON-v1.7.17/cJSON_Utils.c:431-482 | section 4.2 on data in both modes, and the item handed back is the value that was there |
| PatchMeaning.TestMeans | packages/cJSON-v1.7.17/cJSON_Utils.c:832-837 | section 4.6: status 0 if and only if the data at the path is equal, without regard to case with names folded; and no data changes |
| PatchMeaning.ReplaceIsUpdate | packages/cJSON-v1.7.17/cJSON_Utils.c:877-958 | section 4.3, with regard to case: replacing, done as a removal and an addition, puts the new value where the old one was |
| PatchMeaning.ApplyPatchMeans | packages/cJSON-v1.7.17/cJSON_Utils.c:808-1037 | sections 4.1 to 4.6 in both modes, for every patch object that spells an operation and every document that meets what the code asks of names, indices and lists: it succeeds exactly when the RFC's operation does, with its data |
| PatchMeaning.ApplyPatchesMeans | packages/cJSON-v1.7.17/cJSON_Utils.c:1068-1095 | section 5, in both modes: a whole patch document succeeds exactly when all its operations do, and leaves what they leave |
| PatchFailures.FailureMeans | packages/cJSON-v1.7.17/cJSON_Utils.c:808-1037 | in both modes, for the same patches and documents, where the RFC's operation fails: the status, by operation and by what is missing, and that the document is as it was, or has lost what a `move` could not put anywhere |
| PatchFailures.Unreadable | packages/cJSON-v1.7.17/cJSON_Utils.c:818-831 | a patch without a path, or without one of the six operations |
| PatchFailures.Incomplete | packages/cJSON-v1.7.17/cJSON_Utils.c:826-958 | a patch without the value or the `from` that its operation needs; a `replace` without a value has removed what it was to replace |
| PatchMeaning.WholeIsRefused | packages/cJSON-v1.7.17/cJSON_Utils.c:834-875 | moving or copying to the whole document always fails, which section 4.5 does not ask for |
| PatchMeaning.TestThenAdd | packages/cJSON-v1.7.17/cJSON_Utils.c:596-1036 | for every object: an addition of a new member after a `test` of the object works if and only if the sorting of the test moved neither its first nor its last member |
| PatchLoops.Document.DetachPath | packages/cJSON-v1.7.17/cJSON_Utils.c:431-482 | unlinks the node and hands it back, or changes nothing; on data, in either mode, the removal of RFC 6902 section 4.2 |
| PatchLoops.Document.AddValue | packages/cJSON-v1.7.17/cJSON_Utils.c:960-1036 | links a value in below an existing parent, with the error statuses 9, 10 and 11; on data, in either mode, the addition of section 4.1 |
| PatchLoops.Document.ApplyPatch | packages/cJSON-v1.7.17/cJSON_Utils.c:808-1037 | all six operations with every status, and the call with a NULL string that `move` can make; on data, in either mode, the operation of section 4 that the patch spells |
| PatchLoops.Document.ApplyPatches | packages/cJSON-v1.7.17/cJSON_Utils.c:1068-1095 | one patch after the other up to the first that fails, each on the lists as the one before has left them; on data, in either mode, the operations of the document in turn |
| MergeLoops.RunMergePatch | packages/cJSON-v1.7.17/cJSON_Utils.c:1322-1380 | the loop computes `MergePatch`, with the list ends that unlinking and appending leave |
| MergeFolded.MergeIsRfcIn | packages/cJSON-v1.7.17/cJSON_Utils.c:1322-1380 | in either mode, for trees in which no object has two names that are the same in that mode: the result is that of the MergePatch function of RFC 7396 section 2, member order aside, and without regard to case on the data with every name folded |
| MergeProofs.MergeIsRfc | packages/cJSON-v1.7.17/cJSON_Utils.c:1322-1380 | and without folding anything, wherever the names of each merged pair of objects are told apart |
| MergeProofs.MergedExactly | packages/cJSON-v1.7.17/cJSON_Utils.c:1322-1380 | for every object and every member of a patch that carries no object, merging it is as the RFC says if and only if the lookup finds what the exact lookup finds |
| MergeProofs.MergeTwice | packages/cJSON-v1.7.17/cJSON_Utils.c:1322-1380 | applying the same patch twice is applying it once |
| MergeLoops.RunGenerateMergePatch | packages/cJSON-v1.7.17/cJSON_Utils.c:1392-1472 | the walk computes `GenerateMergePatch` |
| MergeProofs.PutAllUnder | packages/cJSON-v1.7.17/cJSON_Utils.c:1322-1380 | what applying a patch does, repeated names included: each member of it in turn changes the value under its own name, and no other |
| MergeWalks.GeneratedUnder | packages/cJSON-v1.7.17/cJSON_Utils.c:1407-1458 | for every pair of sorted lists, in each of which the mode tells the names apart, what the walk says of each name: nothing, null, the value, the change, null and then the value, or the value and then null, the last three by how the name arrives |
| MergeProofs.GenerateDenotes | packages/cJSON-v1.7.17/cJSON_Utils.c:1392-1472 | whatever the order of names, the mode telling those of each object apart: no patch is generated if and only if the objects have the same names and no difference is seen under any of them, as the mode and the walk compare; a patch names each member once, at every depth, if and only if names are in step everywhere, and then it says the difference of the data |
| MergeWalks.CleanIsInStep | packages/cJSON-v1.7.17/cJSON_Utils.c:1407-1458 | the walk along two sorted lists never passes a name that the other list still has if and only if every shared name is held up by the same names on both sides |
| MergeProofs.MergeRoundTrip | packages/cJSON-v1.7.17/cJSON_Utils.c:1322-1482 | RFC 7396 section 2: a generated patch, applied to a copy of `from` whose lists can be appended to, or no patch, leads to `to` if and only if `to` is null-safe, the order of names keeps its members (none that both objects have arrives from `to` first, and none that arrives from `from` first holds a null), and no difference that is one of case only is overlooked |
| MergeProofs.FlatRoundTrip | packages/cJSON-v1.7.17/cJSON_Utils.c:1392-1482 | in the case-sensitive mode, for objects without objects under the same name, any names: the round trip succeeds if and only if `to` is null-safe |
| MergeProofs.NoNullIsSafe | packages/cJSON-v1.7.17/cJSON_Utils.c:1392-1472 | a goal without null members outside arrays is null-safe whatever the source |
| MergeLimits.PatchNamesExactly | packages/cJSON-v1.7.17/cJSON_Utils.c:1392-1472 | for every pair of objects in each of which the mode tells the names apart, the generated patch names each member once if and only if the names are in step |
| MergeLimits.LowerRoundTrip | packages/cJSON-v1.7.17/cJSON_Utils.c:1392-1482 | in both modes, for names without capitals and a goal without null members outside arrays: generating and merging always leads from a copy of `from` to `to` |
| MergeLimits.CapitalsMislead | packages/cJSON-v1.7.17/cJSON_Utils.c:1424 | a pair whose generated patch loses a member that both objects have, since it arrives from `to` first |
| MergeLimits.CapitalsPassed | packages/cJSON-v1.7.17/cJSON_Utils.c:1424 | a pair whose generated patch names a member twice, since it arrives from `from` first, and still leads to its goal |
| PrintLoops.PrintBuffer.Ensure | packages/cJSON-v1.7.17/cJSON.c:449-532 | succeeds exactly if the bytes and one to spare fit what the buffer can come to hold and no request is refused; keeps the text |
| PrintLoops.PrintBuffer.UpdateOffset | packages/cJSON-v1.7.17/cJSON.c:535-545 | moves the offset to the end of the text in the buffer |
| PrintLoops.PrintBuffer.PrintNumber | packages/cJSON-v1.7.17/cJSON.c:555-622 | writes the decimal text of an `int` |
| PrintLoops.PrintBuffer.PrintStringPtr | packages/cJSON-v1.7.17/cJSON.c:912-1031 | sizing pass and escaping pass agree: the buffer holds the quoted text, with and without escapes |
| PrintLoops.PrintBuffer.PrintValue | packages/cJSON-v1.7.17/cJSON.c:1377-1448 | succeeds exactly if the tree has no invalid node, the text and two bytes fit, and no request is refused; then the buffer holds the text |
| PrintLoops.PrintBuffer.PrintArray | packages/cJSON-v1.7.17/cJSON.c:1549-1608 | the same for arrays |
| PrintLoops.PrintBuffer.PrintObject | packages/cJSON-v1.7.17/cJSON.c:1724-1835 | the same for objects, in both formats and with every intermediate `ensure` |
| PrintLoops.PrintPreallocated | packages/cJSON-v1.7.17/cJSON.c:1302-1319 | exact capacity: succeeds if and only if the tree is printable and `length >= |text| + 2`; no byte past `length` changes |
| PrintLoops.PrintTree | packages/cJSON-v1.7.17/cJSON.c:1197-1259 | for every schedule of refusals: the text in a block of exactly its size, or NULL and no block gained or lost |
| PrintLoops.PrintBuffered | packages/cJSON-v1.7.17/cJSON.c:1272-1300 | the same for a first size chosen by the caller |
| Printing.PrintNulFree | packages/cJSON-v1.7.17/cJSON.c:1377-1448 | the text of a tree contains no NUL |
| GrammarPrints.PrintedIsStandard | packages/cJSON-v1.7.17/cJSON.c:1377-1835 | RFC 8259: what is printed, in both formats, is a text of its grammar, and that text derives the tree |
| GrammarPrints.QuoteIsShortest | packages/cJSON-v1.7.17/cJSON.c:912-1031 | of all the texts that RFC 8259 has for a string, none is shorter than the printed one |
| Layout.FormatsDifferInBlanks | packages/cJSON-v1.7.17/cJSON.c:1377-1835 | the unformatted text has no byte up to 32 outside its quoted texts, and the formatted text is the same but for such bytes |
| Layout.FormattedIsLaidOut | packages/cJSON-v1.7.17/cJSON.c:1549-1835 | the formatted text is the unformatted one laid out: each member on a line of its own behind a tab for each array and object around it, a tab behind each colon, a space behind each element but the last |
| UnicodeLoops.ParseHex4 | packages/cJSON-v1.7.17/cJSON.c:625-658 | the four-digit loop; anything but hexadecimal digits counts as zero |
| UnicodeLoops.EncodeUtf8 | packages/cJSON-v1.7.17/cJSON.c:745-775 | the encoding loop writes the UTF-8 form |
| UnicodeLoops.Utf16LiteralToUtf8 | packages/cJSON-v1.7.17/cJSON.c:662-780 | one or two groups become UTF-8, or 0 is returned, within the buffer |
| Unicode.Utf8RoundTrip | packages/cJSON-v1.7.17/cJSON.c:725-775 | RFC 3629 section 3: an independent decoder that takes only shortest forms recovers every scalar |
| Unicode.Utf8Unique | packages/cJSON-v1.7.17/cJSON.c:725-775 | no other byte string decodes to that scalar |
| Unicode.ConvertsScalars | packages/cJSON-v1.7.17/cJSON.c:662-780 | RFC 8259 section 7, RFC 2781 section 2.2: every scalar written as one or two groups becomes its UTF-8 form |
| Unicode.Refused | packages/cJSON-v1.7.17/cJSON.c:662-780 | exactly which sequences are refused: cut short, lone low surrogates, unpaired high surrogates |
| StringSizing.BufferSuffices | packages/cJSON-v1.7.17/cJSON.c:783-909 | for every literal the decoding pass writes no more bytes than the sizing pass has counted, also where the two disagree on escapes; and what it writes has the length of the decoded text |
| ParseLoops.FindQuote | packages/cJSON-v1.7.17/cJSON.c:796-817 | the sizing pass |
| ParseLoops.DecodeLiteral | packages/cJSON-v1.7.17/cJSON.c:828-888 | the decoding pass; no write is outside the allocation |
| ParseLoops.ParseBuffer.SkipWhitespace | packages/cJSON-v1.7.17/cJSON.c:1048-1071 | with its step back from the end |
| ParseLoops.ParseBuffer.ParseNumber | packages/cJSON-v1.7.17/cJSON.c:310-384 | the copied characters go to `strtod`; saturation to `int` |
| ParseLoops.ParseBuffer.ParseString | packages/cJSON-v1.7.17/cJSON.c:783-909 | text, offset, failure position and the block it takes |
| ParseLoops.ParseBuffer.ParseValue | packages/cJSON-v1.7.17/cJSON.c:1322-1374 | the tree, offset, depth and failure position of the specification; the item owns exactly the blocks that became live, and each of them that is for a text holds it; or everything is given back |
| ParseLoops.ParseBuffer.ParseArray | packages/cJSON-v1.7.17/cJSON.c:1451-1546 | the same for arrays |
| ParseLoops.ParseBuffer.ParseObject | packages/cJSON-v1.7.17/cJSON.c:1611-1721 | the same for objects |
| ParseLoops.ParseWithLengthOpts | packages/cJSON-v1.7.17/cJSON.c:1105-1182 | for every schedule of refusals: an item with the value that the content derives in the grammar, or none because it derives nothing or a request was refused; the item owns exactly the newly live blocks, with every text in its block, and without an item nothing is gained; the reported position is inside the text |
| GrammarResults.ParsesExactly | packages/cJSON-v1.7.17/cJSON.c:1105-1721 | a content is accepted if and only if it derives in a grammar that is written without the parser, and then with the value and the end that it derives: a byte order mark, blanks around each structural byte, words, every escape sequence, numbers as `strtod` takes them, at most 1000 levels, and nothing but blanks up to a zero behind the value where a terminator is required |
| GrammarResults.StandardIsParsed | packages/cJSON-v1.7.17/cJSON.c:1105-1721 | every text of RFC 8259 whose numbers have at most 63 bytes and that is nested at most 1000 deep is accepted, and gives the value of its derivation |
| GrammarProofs.SpellInFront | packages/cJSON-v1.7.17/cJSON.c:1105-1721 | in that grammar the text of a node in front of something is its text and that behind it |
| ParsingProofs.ParsePromises | packages/cJSON-v1.7.17/cJSON.c:1105-1182 | for every input: terminates, reads past the end only behind a final comma, accepts only trees that C data can hold, that are nested at most 1000 deep and whose lists can all be appended to |
| ParsingProofs.OverrunBehindComma | packages/cJSON-v1.7.17/cJSON.c:1668-1670 | an input that ends in a comma and makes `parse_object` read behind it |
| ParsePrint.ParseUndoesPrint | packages/cJSON-v1.7.17/cJSON.c:912-1835 | parsing the text of a tree, formatted or not, with the check for the terminator, gives the tree back, every list fit to be appended to |
| ParsePrint.PrintNormalises | packages/cJSON-v1.7.17/cJSON.c:1105-1835 | whatever has been parsed survives printing and parsing again |
| ParsePrint.PrintInjective | packages/cJSON-v1.7.17/cJSON.c:1377-1448 | trees that differ in more than where appending arrives have different texts |
| ParsePrint.ReadWholeReadsDecimals | packages/cJSON-v1.7.17/cJSON.c:358 | the demand on `strtod` can be met |
| Items.Delete | packages/cJSON-v1.7.17/cJSON.c:258-279 | frees each block that the items own exactly once, and no other; references and constant names are kept |
| Items.Strdup | packages/cJSON-v1.7.17/cJSON.c:193-212 | a new block that holds the text byte by byte with its terminator, or nothing |
| Items.Duplicate | packages/cJSON-v1.7.17/cJSON.c:2721-2802 | for every schedule of refusals: an equal tree in new blocks only, every text copied into its block, or NULL and nothing gained |
| FrameLoops.VerifyChecksum | applications/finger.c:241-254 | the accumulating loop computes the 16-bit checksum |
| FrameLoops.ExaminePacket | applications/finger.c:267-310 | success, failure or neither |
| FrameLoops.ScanBuffer | applications/finger.c:340-366 | the rescanning loop finds the first decisive packet, or the frame it never gets past |
| FrameLoops.WaitResponseOnce | applications/finger.c:324-378 | polls, rescans and empties the buffer as `Wait` says, starting with what waits in the driver |
| Frames.AcceptedIsGenuine | applications/finger.c:267-310 | a 17-byte packet is a success if and only if type, length, checksum, confirmation, parameter and finger are right |
| Frames.FailedIsFailing | applications/finger.c:267-310 | a packet is a failure if and only if it is well formed and its confirmation is not 0, or its parameter is 5 and its finger FFFF; and a packet of 17 bytes that is neither this nor a success decides nothing |
| Frames.OneByteFlipped | applications/finger.c:241-310 | flipping any one byte from index 6 to 16 of a success is never accepted as success |
| Frames.MatchedIsGenuine | applications/finger.c:324-378 | a match is always a genuine packet in what has arrived |
| Frames.ChunkingDoesNotMatter | applications/finger.c:324-378 | for every stream of whole frames that fits the buffer, however polls cut it up, the answer is that of the first frame that is genuine or failing by its bytes |
| Frames.FirstDecides | applications/finger.c:324-378 | the same whatever follows those frames |
| Frames.FailureDecides | applications/finger.c:324-378 | a stream that begins with undecided frames and a failing one is a failure, whatever comes behind |
| Frames.StuckIff | applications/finger.c:347-360 | for every buffer: the scan never ends if and only if it reaches, frame by frame, a header announcing 0xFFF7 bytes before any decisive frame |
| Frames.BadHeaderHangs | applications/finger.c:324-378 | undecided frames followed by such a header hang the receiver however polls cut them up |
| StaleBytes.StaleExactly | applications/finger.c:347-366 | a test on the waiting bytes alone, by the fixed fields, the checksum and the frames in front, is true if and only if some bytes to come make them the start of a genuine packet that the scan gets to |
| StaleBytes.SinceCommandIff | applications/finger.c:381-486 | for every stretch of bytes that waits in the driver when the command goes out, at least a packet shorter than the buffer: each match is on a packet that arrived since the command if and only if those bytes fail that test |
| Cabinet.Controller.ServoUnlock | applications/finger.c:133-143 | flags follow the servo, and stay as they are without one |
| Cabinet.Controller.ServoLock | applications/finger.c:146-156 | likewise |
| Cabinet.Controller.ReceiveResponse | applications/finger.c:381-444 | up to three attempts as `Verify` says |
| Cabinet.Controller.PressKey | applications/finger.c:541-709 | what each key does; `is_locked` is the opposite of `is_unlocked`, and no verification is pending afterwards |
| Cabinet.DoorAfterPress | applications/finger.c:541-709 | after any history: KEY0 and KEY1 open the door if there is a servo and an attempt matches, KEY2 held long locks it, nothing else moves it |
| Cabinet.KeyLoop | applications/finger.c:541-709 | every run has the trace that the safety results are about, and ends locked or hung as that trace says |
| Cabinet.DoorSafety | applications/finger.c:381-709 | over every run, the door is only unlocked right after a genuine packet that arrived since the same attempt cleared the port; since its command, if nothing that waits when a command goes out can become part of a genuine packet |
| Cabinet.SafeSinceCommandIff | applications/finger.c:381-486 | for every stretch of bytes that waits when a command goes out: the door opens only on packets that arrived since the command, whatever follows, if and only if nothing in that stretch can become part of a genuine packet |
| Cabinet.StalePacketOpens | applications/finger.c:477-480 | any genuine packet that arrives between the clearing of the port and the command opens the door without an answer to the command |
| Cabinet.OpensIff | applications/finger.c:381-444 | a verification opens the door exactly if there is a servo and some attempt matches after only failing ones |
| Cabinet.AtMostThreeCommands | applications/finger.c:381-486 | no key press sends more than three commands |
| Correlation.Correlator.constructor | applications/msg.c:222-255 | the state after initialisation |
| Correlation.Correlator.FingerCallback | applications/msg.c:21-54 | records the match; uploads nothing |
| Correlation.Correlator.RfidCallback | applications/msg.c:57-109 | uploads what the history calls for |
| Correlation.Correlator.GenerateAndSend | applications/msg.c:112-209 | uploads store and take messages only, and clears the flags |
| Correlation.Run | applications/msg.c:21-219 | any interleaving of the callbacks uploads exactly what its history calls for |
| Correlation.UploadsAreDue | applications/msg.c:21-219 | over every run: the uploads are, in order, those of exactly the scans that follow their match directly or within its window, a store if the operation of the latest match before it was 0 and a take otherwise, and with that match's id on the first scan after it only |
| Correlation.IdsUploadedOnce | applications/msg.c:21-219 | over every run: each upload with an id comes from a match of its own, carries that match's id, and later scans of the match carry 0 |
| Sessions.KeyToCloud | applications/msg.c:21-209 | across both components, after any history: a verification under KEY1 that matches, with a scan right after it, uploads one more message, a store with the id in the genuine packet; under KEY0 a take |
| Sessions.UnmatchedUnheard | applications/finger.c:381-444 | a key press without a match makes the correlator hear nothing |
| Correlation.WindowWraps | applications/msg.c:80-81 | the 5000 ms window is exact until the tick counter wraps around, and modular after that |

## Left out

- Numbers other than `int` values: doubles, `%g`, the tolerance of `compare_double`, NaN and infinities. A number is its `valueint`.
- `cJSON_Raw` items, and a NULL `valuestring` or name where the text `""` would be printed.
- `cJSON_Minify`, the creation functions, hook installation, locales and the MSH commands.
- CompareLoops.RunCJsonCompare: the shortcut for two arguments that are the same item is left out; items are compared as values.
- Non-recursive `cJSON_Duplicate`.
- Linking nodes while parsing and duplicating: there items are appended to sequences, and the linked list is the subject of `SiblingList` and `SortList` alone.
- PatchLoops.Document.ApplyPatch: works on value trees. An append through a node that is no longer in its list ends in a fault, of which nothing more is said. It does not model that `test` also sorts the patch's own value, nor names left on items that move from an object into an array, nor refused allocations. What it means on data is stated for documents in which no object has two names the same in the mode, and for paths that are pointers of RFC 6901.
- PatchMeaning.ApplyPatchMeans: for names, indices and lists that do not meet what the code asks nothing is claimed beyond `PatchMembers`; the code then does something else than the RFC, or the same by chance.
- PatchLoops.PatchArray.ComposePatch: refused allocations while composing a patch are not modelled.
- PatchLoops.PatchArray.CreatePatches: refused allocations while composing patches are not modelled.
- MergeLoops.RunMergePatch: works on value trees, without refused allocations. An append through a node that is no longer in its list leaves the members as they are.
- MergeLoops.RunGenerateMergePatch: works on value trees; refused allocations, and the sorted order in which it leaves `from` and `to`, are not part of it.
- PointerLoops.FindPointerFromObjectTo: a node is given by its position in the tree, and refused allocations are not modelled.
- PatchFolded.FoldedRoundTrip: that the names survive is sufficient; that it is necessary is proved for the case-sensitive functions only.
- PatchRoundTrip.RoundTrip: the copy is one whose lists can be appended to; `from` itself, which generating has sorted, may not be.
- PatchExact.OnePatchExactly: for two or more patches on a copy with names alike up to case, of which some add or replace, there is a sufficient condition (`PatchRoundTrip.Fits`) and a necessary one (`ReachedNamesSurvive`) only.
- MergeProofs.MergeRoundTrip: pairs one of which has a name of the other in another case are left out where the patch is applied without regard to case; what is generated for them is part of `GenerateDenotes` and `MergeWalks.GeneratedUnder`.
- PrintLoops.PrintBuffered: a first size of 0 is modelled only for hooks with a `realloc`; without one `ensure` copies a byte from an empty block.
- PrintLoops.PrintBuffer.PrintNumber: the copying loop and the temporary buffer are one step, and only `int` values occur.
- PrintLoops.PrintBuffer.PrintValue: raw items and numbers that are no `int` are left out.
- UnicodeLoops.Utf16LiteralToUtf8: bit operations are written as the arithmetic they do.
- SiblingList.Parent.ReplaceItemViaPointer: deleting the replaced item is not part of it; see `Items.Delete`.
- ParseLoops.ParseWithLengthOpts: inputs that end in a comma, behind which the parser can read, are only part of `ParsingProofs`.
- ParseLoops.ParseBuffer.ParseNumber: `strtod` yields a real number, so that saturation is modelled but infinities and NaN are not.
- GrammarResults.ParsesExactly: which byte a failure is reported at is not part of it.
- ParsingProofs.ParsePromises: that the last byte is a comma is necessary for a read past the end, but not sufficient.
- Frames.FirstDecides: like `ChunkingDoesNotMatter`, is about streams of whole frames without a header inside a frame; noise between frames is covered by `Frames.MatchedIsGenuine` only.
- StaleBytes.SinceCommandIff: for more than the buffer less one packet of waiting bytes nothing is claimed; the driver's queue holds 64.
- Cabinet.Controller.PressKey: display, LED, delays and waiting for keys to be released do nothing in the model; RFID scanning from the cabinet reaches `Correlation` only as an event.
- Correlation.Correlator.RfidCallback: calls before initialisation, debug output, the manual test messages and `msg_clear` are not modelled; the outcome of the cloud upload is ignored, as the source ignores it.
- Drivers, the RTOS, WiFi, MQTT, RFID framing and the display.
