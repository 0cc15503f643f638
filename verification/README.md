# dexdisassembler main window, modelled in Dafny

This project models the logic of the main window of dexdisassembler, a GTK
front end that lists the classes of an Android `.dex` container and shows
the disassembly of the selected class or method. The widgets are left out.
What remains is modelled and proved:

- **The package index** (`PopulateClasses`). Each class name gives a package
  key: the text before its last dot, or `"default"` when it has no dot. The
  classes are grouped by key in a sorted dictionary. A three-level tree store
  is built from the groups: package rows, then class rows, then method rows,
  all of them visible.
- **The search filter** (`OnEntrySearchEditingDone`). A pre-order walk over
  the store remembers the current package row and class row. It hides each
  package row when it reaches it. It shows a class or method row when the
  lower-cased name contains the lower-cased query, and a match also shows
  the rows above it.
- **The class label** (`RenderClassOrMethodName`). A class row shows its name
  with `"<package name>."` removed.
- **Highlighting** (`OnSelectionChanged`, `LanguageChanged`, `CodeHighlight`).
  Each rule of the current writer becomes a text tag with a numbered name
  and a `#RRGGBB` foreground. After the selected entity is written out,
  every rule, in list order, styles group 1 of each of its matches.

Modules, one file each:

- `wrappers.dfy`: `Option`.
- `text.dfy` (`Text`): ASCII lower-casing, ordinal `IndexOf`, `LastIndexOf`
  and replace-all.
- `ordinal.dfy` (`Ordinal`): the ordinal order on strings, and the sorted
  enumeration of a key set.
- `package_index.dfy` (`PackageIndex`): the package key and the package
  index. `IsIndexOf(t, cs)` characterises the index: one package per
  distinct key, keys strictly increasing, and each package holding exactly
  the classes of its key, in container order.
- `tree_model.dfy` (`TreeModel`): the two-column tree store. It is a class
  whose `rows` (column 0) and `visible` (column 1) are kept in pre-order.
  It also lays an index out as rows (`Flatten`).
- `visibility.dfy` (`Visibility`): the search rule, stated twice.
  - Per node of the index: `Flags`.
  - On the flat rows: `Shown`, meaning "the row matches, or a row below it
    does".
  - `FlagsAgree` proves the two equal.
- `highlight.dfy` (`Highlight`): tag names, foreground strings and spans.
- `main_window.dfy` (`Window`): the window as a class, plus the loops of
  `PopulateClasses` and of the search walk as methods.

A run of the search walk depends only on the rows and the query.
`OnEntrySearchEditingDone` leaves `visible == Flags(tree, query)` and
changes nothing else. Running the same query twice therefore leaves the
same flags.

## Model

| member | source | states |
|---|---|---|
| Text.LowerSpec | dexdisassembler/MainWindow.cs:298 | lower-casing keeps the length, works character by character and leaves no upper-case ASCII letter |
| Text.IndexOfSpec | dexdisassembler/MainWindow.cs:298 | `IndexOf` is -1 exactly when the query occurs nowhere; otherwise it is the first position where it occurs |
| Text.IndexOfEmpty | dexdisassembler/MainWindow.cs:298 | the empty query is found at position 0 of every name |
| Text.LastIndexOfSpec | dexdisassembler/MainWindow.cs:243 | `LastIndexOf('.')` is -1 exactly when the name has no dot; otherwise that position holds a dot and no dot follows it |
| Text.ReplaceAllAbsent | dexdisassembler/MainWindow.cs:194 | `Replace` leaves unchanged a name that lacks some character of the pattern |
| Text.ReplaceLeadingOnce | dexdisassembler/MainWindow.cs:194 | replacing a prefix that does not recur in the rest leaves the replacement followed by the rest |
| Ordinal.LessIrreflexive | dexdisassembler/MainWindow.cs:239 | no key sorts before itself |
| Ordinal.LessTransitive | dexdisassembler/MainWindow.cs:239 | the key order is transitive |
| Ordinal.LessTotal | dexdisassembler/MainWindow.cs:239 | any two different keys are ordered one way or the other |
| Ordinal.LessAsymmetric | dexdisassembler/MainWindow.cs:239 | no two keys sort before each other |
| Ordinal.LeastExists | dexdisassembler/MainWindow.cs:263 | every non-empty key set has a least key |
| Ordinal.SortedUnique | dexdisassembler/MainWindow.cs:263 | two strictly sorted sequences with the same keys are equal, so the enumeration order is determined |
| Ordinal.SortedKeys | dexdisassembler/MainWindow.cs:263 | enumerating the dictionary yields each key exactly once, in strictly increasing order |
| PackageIndex.PackageKeySpec | dexdisassembler/MainWindow.cs:243-249 | with a dot, the key is the prefix before the last dot, and no dot follows it; without a dot it is `"default"`; a trailing dot keeps the whole prefix; a lone leading dot gives `""` |
| PackageIndex.AfterLastDot | dexdisassembler/MainWindow.cs:194 | the text after the last dot is a dot-free suffix of the name, right after a dot; without a dot it is the whole name |
| PackageIndex.ClassLabelIsAfterLastDot | dexdisassembler/MainWindow.cs:194 | removing `key + "."` from a class name leaves exactly the text after its last dot |
| PackageIndex.FilterSpec | dexdisassembler/MainWindow.cs:251-257 | a key's group holds exactly the classes of that key and no others |
| PackageIndex.IndexUnique | dexdisassembler/MainWindow.cs:239-264 | two package indexes of the same classes are equal: the built tree is determined by the classes |
| PackageIndex.IndexOfNothing | dexdisassembler/MainWindow.cs:242 | a container without classes gives the empty tree |
| PackageIndex.PackagesNonEmpty | dexdisassembler/MainWindow.cs:252-257 | every package of the index holds at least one class |
| PackageIndex.ClassInExactlyOnePackage | dexdisassembler/MainWindow.cs:251-257 | each class sits in the package of its own key, and in no other |
| PackageIndex.IndexPartitions | dexdisassembler/MainWindow.cs:242-258 | taken package by package, the index holds the container's classes, each exactly as often as it occurs |
| TreeModel.Parent | dexdisassembler/MainWindow.cs:191 | `IterParent` of a class or method row is its unique parent: the nearest package row above a class, the nearest class row above a method |
| TreeModel.ParentInPrefix | dexdisassembler/MainWindow.cs:264-270 | rows appended later do not change an existing row's parent |
| TreeModel.Flatten | dexdisassembler/MainWindow.cs:261-273 | the rows of an index are well formed and start with a package row |
| TreeModel.TreeStore.constructor | dexdisassembler/MainWindow.cs:261 | a new store has no rows |
| TreeModel.TreeStore.AppendValues | dexdisassembler/MainWindow.cs:264-270 | appending adds exactly one row, with its flag, at the end under the given parent, and keeps the rows well formed |
| TreeModel.TreeStore.SetValue | dexdisassembler/MainWindow.cs:294 | setting column 1 changes that row's flag and nothing else |
| Visibility.EmptyQueryMatches | dexdisassembler/MainWindow.cs:298 | the empty query matches every name |
| Visibility.ExtendShown | dexdisassembler/MainWindow.cs:289-313 | taking one more row into account changes only the flags of the rows it lies below |
| Visibility.RowsAbove | dexdisassembler/MainWindow.cs:293-296 | the rows a class or method row lies below are exactly the remembered `currentPackage`, and for a method also `currentClass` |
| Visibility.WalkStepSettles | dexdisassembler/MainWindow.cs:292-313 | one step of the walk leaves every row it has treated with its correct flag, the new row included |
| Visibility.FlagsAgree | dexdisassembler/MainWindow.cs:292-313 | on the rows of any index, the flat rule agrees row by row with the per-node rule: a method iff it matches; a class iff it or a method of it matches; a package iff some class below it is shown |
| Visibility.NoShownRowUnderHiddenParent | dexdisassembler/MainWindow.cs:302-313 | the parent of a shown class or method row is shown |
| Visibility.EmptyQueryShowsAll | dexdisassembler/MainWindow.cs:298 | on any package index, the empty query shows every row |
| Visibility.SomeRowMatches | dexdisassembler/MainWindow.cs:302-313 | some class or method row of a package matches iff one of its classes is shown |
| Window.ClassRowParent | dexdisassembler/MainWindow.cs:190-192 | the parent of a class row is the package row of that class's key |
| Window.ClassLabel | dexdisassembler/MainWindow.cs:189-194 | in a built tree, a class row is labelled with the text after the last dot of its name |
| Window.IndexIsKeyed | dexdisassembler/MainWindow.cs:251-257 | every class of an index sits under the package of its own key |
| Window.GroupStep | dexdisassembler/MainWindow.cs:242-258 | one grouping step keeps the dictionary equal to the groups of the classes seen so far |
| Window.GroupByPackage | dexdisassembler/MainWindow.cs:239-258 | the dictionary's keys are the classes' keys, and each key's list holds exactly that key's classes, in container order |
| Window.GroupsIndex | dexdisassembler/MainWindow.cs:239-264 | the groups, taken in sorted key order, form the package index of the classes |
| Window.BuildStore | dexdisassembler/MainWindow.cs:261-273 | the store holds the rows of the index, in pre-order, all flags true |
| Window.AppendPackage | dexdisassembler/MainWindow.cs:264-272 | a package row, then the rows of its classes, are appended, all visible |
| Window.AppendClass | dexdisassembler/MainWindow.cs:267-271 | a class row and then its method rows, in `GetMethods` order, are appended under the package row, all visible |
| Window.ShowMatches | dexdisassembler/MainWindow.cs:289-317 | after the walk, each row is shown exactly when it or a row below it matches; the rows are unchanged |
| Window.MainWindow.constructor | dexdisassembler/MainWindow.cs:14-21 | no container, no tree model, no rules |
| Window.MainWindow.Open | dexdisassembler/MainWindow.cs:104-105 | the store holds the rows of the container's package index, all visible |
| Window.MainWindow.Close | dexdisassembler/MainWindow.cs:161-174 | the container is dropped and the view has no model; the rules and the counter are kept |
| Window.MainWindow.PopulateClasses | dexdisassembler/MainWindow.cs:237-279 | the tree is the package index of the container's classes, the store holds its rows in pre-order, and every flag is true |
| Window.MainWindow.OnEntrySearchEditingDone | dexdisassembler/MainWindow.cs:281-318 | with no container nothing changes; otherwise the rows are unchanged, each flag is the flat rule, and the flags equal the per-node rule `Flags(tree, query)` |
| Window.MainWindow.OnSelectionChanged | dexdisassembler/MainWindow.cs:202-234 | with no model nothing is shown; otherwise the text is the writer's output for the selected class or method (empty for a package), and the spans are those of the registered rules on that text |
| Window.MainWindow.LanguageChanged | dexdisassembler/MainWindow.cs:320-335 | with a container loaded, the rules become the writer's rules, registered in order from the current counter, and the counter moves on by their number; without one the rules and the counter stay (the writer, which is not modelled, is still replaced) |
| Window.MainWindow.RegisterRules | dexdisassembler/MainWindow.cs:328-331 | the rules become exactly the writer's rules registered in order from the old counter, which moves on by their number |
| Highlight.Digits | dexdisassembler/MainWindow.cs:357 | a number is written with at least one digit |
| Highlight.DigitsRoundTrip | dexdisassembler/MainWindow.cs:357 | reading the digits of a number back gives the number |
| Highlight.DigitsInjective | dexdisassembler/MainWindow.cs:357 | different counter values give different tag names |
| Highlight.DigitsInBase | dexdisassembler/MainWindow.cs:357 | every character written is a digit of the base |
| Highlight.LeadingZero | dexdisassembler/MainWindow.cs:360 | the padding zero of `X2` does not change the value |
| Highlight.X2Spec | dexdisassembler/MainWindow.cs:360 | a component below 256 is written as exactly two upper-case hex digits, which read back as the component |
| Highlight.ForegroundFormat | dexdisassembler/MainWindow.cs:360 | for byte components the foreground is 7 characters: `#`, then two upper-case hex digits each for red, green and blue, which read back as the colour |
| Highlight.NewCodeHighlightSpec | dexdisassembler/MainWindow.cs:355-361 | a registered rule keeps the writer's expression; its tag name is the counter in decimal digits; for byte components its foreground is 7 characters that read back as the colour; the counter moves on by one |
| Highlight.RegisteredSpec | dexdisassembler/MainWindow.cs:329-331 | the i-th registered rule keeps the i-th writer rule's expression, is named after counter value `start + i`, and takes that rule's colour as foreground |
| Highlight.RegisteredTagsDiffer | dexdisassembler/MainWindow.cs:357 | rules registered in a row get pairwise different tag names |
| Highlight.MatchSpansSpec | dexdisassembler/MainWindow.cs:231-232 | one span per match, the k-th spanning exactly `[index, index + length)` of the k-th match's group 1 |
| Highlight.HighlightSpansAppend | dexdisassembler/MainWindow.cs:230 | rules are applied in list order: the spans of two rule lists in a row are those of the first, then those of the second |
| Highlight.NoMatchNoSpans | dexdisassembler/MainWindow.cs:231 | a rule with no match adds no span: dropping it leaves the same spans |
| Highlight.SpanOrigin | dexdisassembler/MainWindow.cs:230-233 | a span is applied iff it is the group-1 span of some match of some rule |
| Highlight.SpansWithinText | dexdisassembler/MainWindow.cs:232 | when every capture lies inside the text, every span does too |
| Highlight.ApplyHighlights | dexdisassembler/MainWindow.cs:230-234 | the nested loop applies exactly the spans of the rules, rule by rule, match by match |

## Left out

- The GTK widgets: window construction, the cell renderers other than the class label, the language combobox, the file chooser, the about dialog and the menu handlers. They are UI plumbing.
- `Main.cs`, which only starts the application. Opening a file is not modelled either: APK extraction with SharpZipLib, the temporary file and the `FileStream` are file I/O. `Open` takes the decoded container as a value.
- `Dex`, `Class`, `Method`, the writers and `GetCodeHightlight` belong to libraries outside this repository. Classes and methods are their names. A container is its list of classes, each with its method names. The writer's output is a parameter (`writeClass`, `writeMethod`), and so are its rules (`infos`).
- The .NET regular expression engine is a parameter `engine`. For a pattern and a text it gives the group-1 capture of each match, in match order. `TextBuffer.ApplyTag` is modelled as the list of spans applied.
- Culture-sensitive string operations are replaced:
  - `ToLower` by ASCII lower-casing;
  - `IndexOf` and `LastIndexOf` by ordinal search;
  - the `SortedDictionary` default comparer by the ordinal order on characters.
- Offsets are character positions. UTF-16 code units and `GetIterAtOffset` are not modelled.
- Highlight.NewCodeHighlight: does not model the 32-bit wrap-around of the static `uint` counter, which is kept as an unbounded number. Tag names are therefore proved pairwise different, which wrap-around would break after 2^32 rules.
- The static counter is a field of the window. The program creates a single window (`Main.cs`), but the model allows several `MainWindow` objects, each with its own counter. Two windows of the model could therefore register the same tag name, which the shared static counter of the program would not.
- Highlight.ForegroundFormat: the colour component type comes from a library outside this repository. The 7-character format is proved only for components below 256. For larger values `X2` is modelled as writing all the hex digits.
- Removing the old tags from the tag table, clearing the buffer, and the re-render at the end of `LanguageChanged` are left out. `OnSelectionChanged` is a separate method of the model.
- Window.MainWindow.Close: requires a loaded container, because the program calls `Dispose` on the container without checking it and throws when nothing is open (MainWindow.cs:163-165).
- The selected writer is not part of the model's state. `LanguageChanged` replaces it even when no container is loaded, and the model cannot show that a file opened later is written with the new writer but highlighted with the old writer's rules.
- `Close` does not model disposing the container, clearing the class cache and the text buffer, or deleting the temporary file.
- `OnSelectionChanged` models a selection that is missing, or not a row, as yielding empty text. In the program that case reads an invalid iterator.
- `AppendValues` is modelled only for appending a last child under a row of the last package or class. That is the only way `PopulateClasses` calls it.
- The `SortedDictionary<string, List<Class>>` is modelled as a map of sequences. Growing a group's list in place, through the reference the dictionary holds, is modelled as replacing the map entry.
- The `TreeModelFilter` over the store is modelled as the store's visibility column.
