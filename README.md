# regex-rename: the renaming engine, modelled in Dafny

regex-rename is a Qt desktop tool that renames files in batches. The user
builds an ordered list of operation cards: regex replace, prefix, suffix,
insert at a position, change extension and change case. The tool applies
them in order to every file name in its list, shows the new names as a
preview and then renames the files on disk. Numbering tags such as `<000>`
or `<00:5>` in the texts the user types are replaced by the file's
position in the list, zero-padded.

This project models that engine and proves properties of the model:

- `QtString.dfy`: the QString primitives the engine relies on.
  - `lastIndexOf`, `indexOf`.
  - `toInt` with its trimming, its sign and its range check.
  - `QString::number` and `arg` with a zero-filled field width.
- `Tags.dfy`: the numbering tags of `Operation::replaceTags` in
  `src/operation.cpp`.
  - The tag as a value, the scan for the pattern `<(0+)(?::(\d+))?>` and
    the global match.
  - The number a tag becomes, and the left-to-right expansion of a text.
- `TagScan.dfy`: what the scan and the expansion are proved to do.
  - The scan finds exactly the tags written in a text, leftmost first.
  - Text without tags is kept, and the documented examples hold.
- `TagReplace.dfy`: `replaceTags` as the code runs it. It collects the
  matches last first, then replaces them in place, and is proved equal
  to the left-to-right expansion.
- `Operations.dfy`: the operations of `src/operation.h` and `src/operation.cpp`.
  - The split of a name into base name and extension (`lastIndexOf('.') > 0`).
  - One function per `perform`, and `getType`.
- `FileList.dfy`: `FileListWidget` from `src/filelistwidget.cpp`, as a class.
  - Its fields are the file list and the set of known paths.
  - Its methods are `addFiles`, `clearFiles`, `removeSelectedFiles`, the
    preview computation with its `"index|name"` encoding, `onPreviewsReady`,
    `applyOperations` and `applyRename`.
  - A small model of the disk shows what a rename run does to the files.
- `OperationList.dfy`: `OperationListWidget` from `src/operationlistwidget.cpp`.
  - Cards become operations (`getOperations`).
  - Cards are added, removed and moved up or down, as operations on the
    ordered card list.

The Qt text services are parameters of the model
(`Operations.TextServices`): a regular-expression validity test, a
replace-all function, and the case mapping of the change-case operation.
File-system facts are parameters too:
- which paths name existing regular files, for `addFiles`;
- which paths exist and which renames the system refuses (`FileList.Disk`).

The model follows the code:
- `<00:5>` for the file at index 3 renders as `08`: the field width is the
  length of the run of zeros (src/operation.cpp:26, 35), and the digits after
  ':' only give the start number.
- `ChangeExtensionOperation::perform` does not expand tags in the new
  extension, although the other operations do.

## Model

| member | source | states |
|---|---|---|
| QtString.LastIndexOf | src/operation.cpp:52 | the result is -1 or a position of the character, and no later position holds it |
| QtString.IndexOf | src/filelistwidget.cpp:136 | the result is -1 or a position of the character, and no earlier position holds it; -1 means it occurs nowhere |
| QtString.NatToDecimal | src/filelistwidget.cpp:149 | the rendering is a non-empty digit string that reads back as the number and has no leading zero |
| QtString.ZeroPadded | src/operation.cpp:35 | the digits right-aligned in a field of the given width, filled with '0' on the left, and never cut when wider |
| QtString.ToInt | src/operationlistwidget.cpp:64 | toInt always yields a value in the range of a 32-bit int |
| QtString.ToIntNonZeroIsWellFormed | src/operationlistwidget.cpp:64 | a result other than 0 comes only from white space, one optional sign, at least one digit and white space, and is the signed value of that number; so a misplaced sign or space, or a value out of range, reads as 0 |
| QtString.TrimStartDropsSpace | src/operationlistwidget.cpp:64 | the leading trim of toInt removes a prefix made of white space and nothing else |
| QtString.TrimEndDropsSpace | src/operationlistwidget.cpp:64 | the trailing trim of toInt removes a suffix made of white space and nothing else |
| QtString.ToIntStrayCharacter | src/operationlistwidget.cpp:64 | a text holding any character that is not a digit, a sign or white space reads as 0 |
| QtString.ToIntWithoutDigits | src/operationlistwidget.cpp:64 | a text without a single digit (empty, blank, a lone sign) reads as 0 |
| QtString.ToIntOfDigits | src/operation.cpp:29 | toInt of a digit string is its decimal value, or 0 when that does not fit in an int |
| QtString.ToIntOfIntToString | src/operationlistwidget.cpp:64 | toInt reads back every int rendered in base 10, sign included |
| QtString.LeadingZerosValue | src/operation.cpp:29 | leading zeros in a start number such as `<0:007>` do not change its value |
| Tags.TagAt | src/operation.cpp:8-10 | a tag recognised at i is well formed (at least one zero), starts at i and lies inside the text |
| TagScan.TagAtMatchesText | src/operation.cpp:10 | the text a recognised tag covers is exactly '<', its zeros, optionally ':' and its digits, then '>' |
| TagScan.TagAtFindsEveryTag | src/operation.cpp:10 | conversely, every well-formed tag written in the text is recognised at its first character, with the same zeros and digits |
| TagScan.TagAtFindsNumberedTag | src/operation.cpp:10 | a tag with a start number is recognised once its '<', zeros, ':', digits and '>' stand in the text |
| TagScan.NumberedTagAt | src/operation.cpp:10 | '<', a run of zeros, ':', a non-empty digit run and '>' written at i are recognised as the tag with those zeros and digits |
| Tags.StartNumber | src/operation.cpp:28-29 | a tag without a start number counts from 1; otherwise it counts from the decimal value of its digits, or from 0 when that does not fit in an int |
| Tags.NextTag | src/operation.cpp:12-17 | the next match from a position starts at or after it and is a tag recognised there |
| Tags.TagsFrom | src/operation.cpp:12-17 | every match of the global match is a well-formed tag inside the text, at or after the position the search starts from |
| TagScan.NextTagIsLeftmost | src/operation.cpp:12-17 | no tag starts between the search position and the match found (global matching takes the leftmost match) |
| TagScan.NextTagSkips | src/operation.cpp:12-17 | a stretch of text without '<' holds no match: the search from its start and from its end find the same match |
| TagReplace.TagsFromAreConsecutive | src/operation.cpp:12-18 | the matches follow one another: each is the next match after the end of the one before, and none follows the last |
| Tags.Render | src/operation.cpp:26-35 | the formatted number is all digits, at least as wide as the tag's zeros, has the value start number plus file index, and starts with '0' only when it is padding |
| TagReplace.CollectTags | src/operation.cpp:15-18 | the collected list holds all matches, last match first |
| TagReplace.RenderInPlace | src/operation.cpp:38 | replacing a match keeps the text before it and the text after it, puts the rendering in between, and the length changes by the rendering's length less the match's |
| TagReplace.RewriteOneMatch | src/operation.cpp:20-38 | once the text after a match is expanded, replacing that match in place extends the expansion back to where the search for it started |
| TagReplace.ReplaceStep | src/operation.cpp:20-39 | one turn of the replacing loop: the remaining matches stay the earlier ones, last first, and the text is expanded from the first match replaced so far |
| TagReplace.ReplaceTags | src/operation.cpp:4-41 | replacing the matches from last to first gives the text with every tag, from left to right, replaced by its formatted number |
| TagScan.PlainTextUnchanged | src/operation.cpp:4-41 | a text without '<' comes back unchanged |
| TagScan.ExpandDropsOneOpeningPerTag | src/operation.cpp:12-38 | every match the expansion replaces takes exactly one '<' out of the text; nothing else adds or removes one |
| TagScan.ExpandUnchangedIffNoTag | src/operation.cpp:12-38 | expanding a text leaves it unchanged exactly when the search finds no tag in it |
| TagScan.RenderedNumberIsFinal | src/operation.cpp:32-38 | a formatted number holds no tag, so expanding it again changes nothing |
| TagScan.TagBetweenPlainText | src/operation.cpp:20-38 | a tag between two texts without '<' becomes its formatted number and the two texts are kept |
| TagScan.LoneTag | src/operation.cpp:20-38 | a text that is a single tag becomes that tag's formatted number |
| TagScan.RenderWide | src/operation.cpp:35 | a number with at least as many digits as the tag has zeros is written without padding and without being cut |
| TagScan.TagExampleFirstFile | src/operation.cpp:29-35 | `<0>` for the first file becomes `1`: the start number defaults to 1 |
| TagScan.TagExampleStartNumber | src/operation.cpp:29-35 | `<00:5>` for the file at index 3 becomes `08` |
| TagScan.TagExampleInText | src/operation.cpp:20-38 | `img_<000>_x` for the file at index 2 becomes `img_003_x` |
| Operations.TypeName | src/operation.h:54-156 | getType gives one of the six identifiers `replace`, `prefix`, `suffix`, `insert`, `change_ext`, `change_case` |
| Operations.TypeNameIdentifiesKind | src/operation.h:54-156 | two operations have the same getType string exactly when they are of the same kind |
| Operations.ExtensionDot | src/operation.cpp:52-53 | the dot that splits a name is the last '.', and only if it is not the first character; otherwise no '.' follows the first character |
| Operations.SplitName | src/operation.cpp:94-106 | base name and extension together are the name; a non-empty extension is '.' plus dot-free text, after a non-empty base name |
| Operations.ExtensionAfter | src/operation.cpp:52-56 | a non-empty base, '.', and dot-free text split into exactly that base and that extension |
| Operations.NoExtension | src/operation.cpp:102-106 | a name has no extension exactly when no '.' follows its first character, and then its base name is the whole name |
| Operations.PerformReplace | src/operation.cpp:44-67 | an invalid pattern leaves the name alone; a valid one is replaced everywhere in the base name by the tag-expanded replacement, and the extension is kept |
| Operations.ReplaceKeepsExtension | src/operation.cpp:52-58 | the result of a replace always ends with the original extension |
| Operations.PerformPrefix | src/operation.cpp:69-73 | the result is the expanded prefix followed by the whole name: it starts with the expanded prefix, ends with the name, and has no other characters |
| Operations.PrefixKeepsExtension | src/operation.cpp:69-73 | a prefix goes in front of the base name and leaves the extension as it was |
| Operations.PerformSuffix | src/operation.cpp:75-87 | the expanded suffix goes between base name and extension (at the end when there is no extension) |
| Operations.SuffixExtendsBase | src/operation.cpp:79-83 | after a dot-free suffix, the base name is the old base plus the suffix and the extension is unchanged |
| Operations.Clamp | src/operation.cpp:110-116 | the insert position is clamped into 0 to the base name's length, and kept when already inside |
| Operations.PerformInsert | src/operation.cpp:89-120 | the expanded text goes into the base name at the clamped position, with the extension kept after it |
| Operations.InsertNothing | src/operation.cpp:89-120 | inserting text that expands to nothing leaves the name unchanged |
| Operations.InsertAtStartIsPrefix | src/operation.cpp:110-119 | an insert at a position at or below 0 is the prefix operation |
| Operations.InsertAtEndIsSuffix | src/operation.cpp:114-119 | an insert at or past the end of the base name is the suffix operation |
| Operations.Perform | src/operation.h:24 | every operation except change_ext and change_case keeps the old extension at the end of the name; change_ext keeps the base name at its start |
| Operations.DottedExtension | src/operation.cpp:130-135 | an empty new extension adds nothing; otherwise the text added starts with exactly one '.' supplied when it was missing |
| Operations.PerformChangeExtension | src/operation.cpp:122-137 | the result is the base name followed by the dotted new extension |
| Operations.ChangeExtensionToNothing | src/operation.cpp:127-130 | an empty new extension strips the extension |
| Operations.ChangeExtensionSets | src/operation.cpp:122-137 | for a new extension given with or without its dot, the base name is unchanged and the extension is the new one with exactly one leading dot |
| Operations.ChangeExtensionRoundTrip | src/operation.cpp:122-137 | changing the extension (with or without its dot) and then changing it back to the old one restores the name |
| Operations.ChangeExtensionOfDotFile | src/operation.cpp:124-129 | a dot file keeps its whole name: `.bashrc` with `txt` becomes `.bashrc.txt` |
| Operations.ChangeExtensionExample | src/operation.cpp:122-137 | `a.jpg` with `txt` becomes `a.txt`: the missing dot is supplied |
| Operations.ChangeExtensionDotOptional | src/operation.cpp:130-134 | a new extension given with its leading dot (`.txt`) gives the same name as without it (`txt`) |
| Operations.ChangeExtensionBackExample | src/operation.cpp:122-137 | `a.jpg` changed to `txt` and then to `.jpg` is `a.jpg` again: a new extension given with its dot is not dotted twice |
| FileList.JoinPathSplits | src/filelistwidget.cpp:168 | a target path made of a directory and a slash-free name gives back that name and that directory |
| FileList.NewEntry | src/filelistwidget.cpp:87-91 | a new entry is for the path it was added with and starts with no pending change |
| FileList.AdmittedExactly | src/filelistwidget.cpp:76-101 | addFiles admits, each once, exactly the paths given that are existing regular files and were not in the list before |
| FileList.AddKeepsLedger | src/filelistwidget.cpp:99-100 | after adding, the list still holds each path once and the path set is exactly the paths in the list |
| FileList.AddStep | src/filelistwidget.cpp:76-101 | one turn of the addFiles loop appends the path, to the list and to the set, exactly when it is a regular file not yet present |
| FileList.FileListWidget.AddFiles | src/filelistwidget.cpp:68-107 | the admitted paths are appended as new entries in the order given and added to the path set; the list and path set stay in step |
| FileList.FileListWidget.ClearFiles | src/filelistwidget.cpp:109-115 | the list and the path set are empty |
| FileList.Survivors | src/filelistwidget.cpp:292-303 | the entries left after removal are entries of the list |
| FileList.SurvivorsCount | src/filelistwidget.cpp:292-303 | the entries left and the entries removed together are all the entries |
| FileList.NothingSelected | src/filelistwidget.cpp:277-280 | with nothing selected, nothing is removed |
| FileList.SurvivorPaths | src/filelistwidget.cpp:292-303 | the entries left still hold each path once, and their paths are the old paths less the removed ones |
| FileList.RemoveStep | src/filelistwidget.cpp:292-303 | one turn of the removal loop, from the last entry down: entry i leaves the list and its path leaves the set exactly when it is selected |
| FileList.RemoveKeepsLedger | src/filelistwidget.cpp:294-301 | removing entries and their paths keeps the list and the path set in step |
| FileList.FileListWidget.RemoveSelectedFiles | src/filelistwidget.cpp:275-309 | the selected entries are removed, the others keep their order, and their paths leave the path set |
| FileList.PipelineConcat | src/filelistwidget.cpp:245-258 | applying a list of operations is applying its first part, then its second part to that result |
| FileList.NullsSkipped | src/filelistwidget.cpp:251-253 | null entries in the operation list have no effect |
| FileList.ApplyOperations | src/filelistwidget.cpp:245-258 | the loop returns the name with every present operation performed in list order |
| FileList.Encode | src/filelistwidget.cpp:149 | the encoded string is longer than the name it carries |
| FileList.Decode | src/filelistwidget.cpp:136-142 | a string without '|' is treated as the name of file 0 |
| FileList.DecodeEncode | src/filelistwidget.cpp:136-149 | decoding the encoding of an index and a name gives back both, even when the name itself holds the separator |
| FileList.FileListWidget.UpdatePreviews | src/filelistwidget.cpp:117-155 | with no files nothing starts; otherwise file k's preview is its original name put through the operations with file index k |
| FileList.WithNewNames | src/filelistwidget.cpp:222-224 | storing the previews keeps the number of entries |
| FileList.NewNamesMarkChanges | src/filelistwidget.cpp:222-238 | each entry gets its preview as new name and keeps everything else; it is marked changed exactly when the preview differs from its name |
| FileList.NewNamesKeepLedger | src/filelistwidget.cpp:222-224 | storing the previews keeps every path, so the list and the path set stay in step |
| FileList.FileListWidget.OnPreviewsReady | src/filelistwidget.cpp:204-243 | previews of the wrong count are ignored; otherwise each entry's new name is its preview; the path set is untouched and the list stays in step with it |
| FileList.TargetPath | src/filelistwidget.cpp:168 | the target joins the directory and the new name, and splits back into them when the name has no '/' |
| FileList.ConflictMessage | src/filelistwidget.cpp:171-175 | the message for an existing target starts with "Cannot rename '" and the file's original name, and names the new name after "': target file '" |
| FileList.FailureMessage | src/filelistwidget.cpp:189-192 | the message for a refused rename starts with "Failed to rename '" and the file's original name, and ends with the reason the system gives |
| FileList.ErrorKindsDiffer | src/filelistwidget.cpp:171-192 | a conflict message and a failure message are never the same text |
| FileList.RenameStep | src/filelistwidget.cpp:162-194 | one loop iteration only ever changes the entry it handles |
| FileList.RenameRun | src/filelistwidget.cpp:157-197 | the rename loop keeps the number of entries |
| FileList.NotYetReached | src/filelistwidget.cpp:162-194 | entries the loop has not reached are as they were |
| FileList.EveryChangeAccounted | src/filelistwidget.cpp:162-194 | every changed entry the loop handled is either a success or exactly one error message, and unchanged entries count for neither |
| FileList.NoFileLost | src/filelistwidget.cpp:179-181 | renaming never changes how many files exist |
| FileList.RenamedEntry | src/filelistwidget.cpp:168-182 | a renamed entry now has the target path and the new name as its name, the target did not exist before, and the new path splits back into the entry's directory and name |
| FileList.PendingFilesExist | src/filelistwidget.cpp:162-194 | files the loop has not reached still exist at their paths |
| FileList.TargetStays | src/filelistwidget.cpp:171-176 | a file renamed to a target is still there when the loop ends; a later entry cannot overwrite it |
| FileList.SharedTargetRenamedOnce | src/filelistwidget.cpp:171-181 | of two entries with the same target, at most one is renamed |
| FileList.ErrorsFreeRunSettles | src/filelistwidget.cpp:162-194 | when there were no errors, every handled entry has no pending change |
| FileList.FullRunSettles | src/filelistwidget.cpp:157-197 | a rename with no errors leaves no entry with a pending change |
| FileList.NothingPendingNothingDone | src/filelistwidget.cpp:163-165 | with no pending changes the loop renames nothing and reports no error |
| FileList.SecondRenameIsIdle | src/filelistwidget.cpp:157-197 | renaming again after an error-free rename does nothing |
| FileList.RenameLeavesPathSetStale | src/filelistwidget.cpp:179-182 | renaming `/d/a` to `/d/b` changes the entry's path but not the path set, so the set no longer matches the list and adding `/d/b` would list the file twice |
| FileList.FileListWidget.ApplyRename | src/filelistwidget.cpp:157-197 | the method's entries, success count, errors and resulting disk are those of the rename loop; the path set is untouched |
| OperationList.ParseCaseType | src/operationlistwidget.cpp:69-80 | each of `lowercase`, `uppercase` and `titlecase` gives the case of that name; any other text gives lowercase |
| OperationList.CardOperation | src/operationlistwidget.cpp:51-82 | a card gives an operation exactly when its type is one of the six known ones, and the operation's getType is the card's type |
| OperationList.CardRoundTrip | src/operationlistwidget.cpp:51-82 | a card filled from an operation's type and getters gives back that same operation |
| OperationList.InsertPositionMalformed | src/operationlistwidget.cpp:63-66 | an insert card whose position text cannot be read as a number in the int range (no number between white space, a misplaced sign or space, a value out of range) inserts at position 0 |
| OperationList.InsertPositionNotNumeric | src/operationlistwidget.cpp:63-66 | an insert card whose position text holds a character that is no digit, sign or white space, or holds no digit at all, inserts at position 0 |
| OperationList.InsertPositionExample | src/operationlistwidget.cpp:63-66 | the position `abc` inserts at position 0 |
| OperationList.OneOperationPerKnownCard | src/operationlistwidget.cpp:50-87 | cards of unknown type are skipped and every other card gives one operation |
| OperationList.OperationsInCardOrder | src/operationlistwidget.cpp:50-87 | the operations follow the card order: the operations of two lists of cards are those of the first, then those of the second |
| OperationList.OperationCard.constructor | src/operationcard.cpp:32 | a new card is a replace card with empty fields |
| OperationList.OperationListWidget.GetOperations | src/operationlistwidget.cpp:47-89 | the loop returns the operations of the cards, in card order |
| OperationList.OperationListWidget.OnAddOperation | src/operationlistwidget.cpp:96-117 | a fresh replace card is appended; the cards stay distinct |
| OperationList.IndexOfItem | src/operationlistwidget.cpp:124 | the result is -1 when the card is not in the list, else its first position |
| OperationList.Removed | src/operationlistwidget.cpp:119-133 | a card not in the list changes nothing; otherwise the list is one shorter and the others keep their order, closing the gap at the card's first position |
| OperationList.MovedUp | src/operationlistwidget.cpp:135-152 | the card and the one before it change places and everything else stays; a first or absent card changes nothing |
| OperationList.MovedDown | src/operationlistwidget.cpp:154-171 | the card and the one after it change places and everything else stays; a last or absent card changes nothing |
| OperationList.RemovedTakesOne | src/operationlistwidget.cpp:119-133 | removing takes out exactly one copy of a card in the list and leaves a list without it unchanged |
| OperationList.OperationListWidget.OnRemoveOperation | src/operationlistwidget.cpp:119-133 | a null sender changes nothing; otherwise the card's first occurrence is removed; the cards stay distinct |
| OperationList.Swap | src/operationlistwidget.cpp:143 | the two positions exchange their items and all others are kept |
| OperationList.SwapMovesItem | src/operationlistwidget.cpp:135-171 | in a list of distinct cards, moving a card puts it at the position it was swapped to |
| OperationList.SwapPermutes | src/operationlistwidget.cpp:143 | a swap keeps the same items |
| OperationList.MovesPermute | src/operationlistwidget.cpp:135-171 | moving a card up or down keeps the same cards |
| OperationList.MovesKeepDistinct | src/operationlistwidget.cpp:119-171 | removing and moving keep the cards distinct |
| OperationList.UpThenDown | src/operationlistwidget.cpp:135-171 | moving a card up and then down again restores the list, when the card was not first |
| OperationList.DownThenUp | src/operationlistwidget.cpp:135-171 | moving a card down and then up again restores the list, when the card was not last |
| OperationList.OperationListWidget.OnMoveOperationUp | src/operationlistwidget.cpp:135-152 | a null sender changes nothing; otherwise the card swaps with the one before it, unless it is first or absent |
| OperationList.OperationListWidget.OnMoveOperationDown | src/operationlistwidget.cpp:154-171 | a null sender changes nothing; otherwise the card swaps with the one after it, unless it is last or absent |

## Left out

- FileList.FileListWidget.AddFiles: the loop builds the new list and path set in local variables and stores them in the fields after the loop, where the code appends to the fields one path at a time. Nothing reads the fields during the loop, so the end state is the same.
- The widgets are not modelled: tree items, colours, bold fonts, layouts, button states, the debounce timer and the signals (`filesChanged`, `operationsChanged`).
- The concurrency of the preview run is not modelled. `UpdatePreviews` computes every preview at once, and `OnPreviewsReady` takes the results as a parameter. The cancelling of a pending run is left out.
- Regular expressions are a parameter: whether a pattern is valid and what replace-all gives. QRegularExpression itself is not modelled.
- The tag pattern `<(0+)(?::(\d+))?>` is scanned by hand (`Tags.TagAt`). Its runs of zeros and digits are greedy, and no other match can start at the same place.
- `\d` stands for the ASCII digits. Other Unicode decimal digits are not modelled.
- `ChangeCaseOperation::perform` is declared in `src/operation.h` but defined nowhere in the sources. The model hands the whole name to the case mapping of `Operations.TextServices` and does not describe that mapping.
- Operations.Perform: promises nothing about the extension for change_case. The documented behaviour changes the case of the whole file name, so the extension can change too (`a.JPG` lowercased ends with `.jpg`).
- Operations.PerformInsert: positions count Unicode scalar values, not UTF-16 code units. For a name with a character outside the Basic Multilingual Plane (an emoji, say), the insert lands at a different place than in Qt, and a position that splits a surrogate pair cannot be represented.
- Tags.Render: the start number plus the file index is an unbounded natural number. The 32-bit overflow of `startNum + fileIndex`, for a start number close to 2147483647, is not modelled. A start number too large for an int still reads as 0, as `toInt` gives.
- The file index is a natural number. A negative index (from a malformed `"-3|name"` string that the code never produces) is not modelled.
- QtString.ToInt trims ASCII white space only. Other Unicode spaces are not modelled.
- Whether a path exists and is a regular file is a parameter of `AddFiles`. The directory and file name come from splitting the path at its last '/'. `QFileInfo::absolutePath` for relative paths and symbolic links is not modelled.
- The target path joins with '/'. The Windows separator of `QDir::separator()` is not modelled.
- The disk is a set of existing paths plus the renames the system refuses, with their error texts. `QFile::rename` is atomic in the model.
- The error texts are the untranslated English strings. Translation through `tr` is not modelled.
- `applyRename` does not update the path set in the code, and the model keeps that behaviour. The list and the path set are proved to stay in step only across add, clear and remove.
- FileList.FileListWidget.UpdatePreviews requires at most 2147483647 files, the range of the `int` index the code encodes.
- The selection for `removeSelectedFiles` is a set of list positions. It stands for the set of selected tree items.
- The card shown in `src/operationcard.cpp` offers no change-case type and no case selector. `getOperations` still reads both, so `OperationCard` carries a case field.
- Everything else of the card is not part of this model.
- `main.cpp` and `mainwindow.cpp` (menus, dialogs, the drag-and-drop of files) are not part of this model.
- FileList.ConflictMessage and FileList.FailureMessage join the names into the text as they are. The code fills the text with chained `QString::arg`, so a `%1` or `%2` inside the original name is itself replaced by the next argument; names holding such markers are not modelled.
- Operations.ExtensionDot and the operations built on it follow the code. A file named `.bashrc` has no extension, but `a.` has the extension `.`.
