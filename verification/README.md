# GNAT Studio: verified models of its stateful cores

This project models nine parts of GNAT Studio in Dafny and proves what they are for:

* the outline of a QGen model: an explicit-stack walk over a graph of diagrams that numbers
  constructs, and the navigation that recovers the tree from those numbers alone
  (`DiagramTree`, `OutlineBuilder`, `OutlineNavigation`, `OutlineViewer`), with the loading of
  the diagrams (`DiagramLoading`) and of call stacks (`FrameExpansion`);
* the search that explains why one file depends on another (`FileDependencies`);
* the debounced hooks, as a protocol and as the generated code (`DebounceProtocol`, `DebounceHook`);
* the command line that the Windows wrapper builds, against the argv rules of the Microsoft C
  runtime (`ArgvSyntax`, `CommandLineBuffer`);
* the formulas and bit ranges of representation clauses (`RepresentationFormula`);
* the rounds in which a bundle's libraries are collected (`LibraryResolver`);
* the in-place corrections of the spell checker (`SpellChecker`);
* the filter string of the native file dialog (`FilterString`);
* the action and keymap stacks of the vim layer (`VimLayer`, `VimSession`).

`Wrappers` and `Sequences` hold an option type and equalities of sequences. Loops and objects of
the source are methods and classes here; each is proved against a function on values, and the
results are lemmas about those functions. `dafny verify dfyconfig.toml` checks everything.

The reference graph of a model is assumed to be acyclic, as a rank function tells; the same rank
gives termination. The editor, the main loop, otool, the file system and the block names of QGen
are functions, sets or buffers with marks.

## Findings

Where the code does not do what one would expect of it, the condition under which it does is proved:

* Debounced hooks: a parameter declared with its asynchronous key setting false would be neither
  compared nor replaced, so that a timer could deliver stale arguments (`DebounceProtocol.FrozenIsStale`,
  `DebounceProtocol.PromptUnlessFrozen`). The generator permits such a parameter; no hook type that is
  declared at present has one.
* Wrapper: an argument with a tab but no space or quote is split; a program path that holds a
  quote, or a space and a backslash at its end, is not read back (`ArgvSyntax.CommandLineReadsBackIff`).
  A quote is not an input that Windows can give.
* Formulas: a conditional without exactly three operands, and an operator without code or operands, is
  printed like something else, so that nobody can tell the two apart (`RepresentationFormula.ReadsBackIff`,
  `RepresentationFormula.NotToldApart`).
* Spell checker: a word is looked for with a chain of moves from the start of its line, the first of
  which goes back one character. Each move stops at the beginning of the buffer, so that every word
  of the first line is taken one character too far on: correcting "teh cat" gives "tthecat"
  (`SpellChecker.FirstLineIsShifted`). The same happens once earlier words of a line have
  lost as many letters as the buffer has in front of the line. The corrections are right whatever the user
  answers if and only if there is room for one character, and for the letters of the words reported
  before each word, in front of the line (`SpellChecker.AlwaysRightIff`).
* Spell checker: a misspelled word at the end of a last line without newline has no place behind it
  for the mark, so that the offset is wrong, and the next line is taken to start before the
  replacement, which is then looked at again (`SpellChecker.Line.NothingIsMissingIff`). The header
  comment of the file says that "i" adds a word for good and "a" for the session; the code does
  the opposite. Both have the same effect on the line.
* Filter string: a pattern of braces only ends the list early (`FilterString.FiltersReadBackIff`).
* Vim: "D" after "d" deletes the line and not to its end (`VimLayer.DeleteToLineEndIff`). A second "c"
  fails if and only if the lowest action that waits is a change, because a change asks its operand for
  an end and another change has none: "cc" fails, and "dcc" does not (`VimLayer.SecondChangeLacksEndIff`,
  `VimLayer.ChangeTwice`). Doubled keys and chains are never remembered for "."
  (`VimSession.VimState.KeyPressed`).
* Outline: the number of constructs exceeds the final progress maximum, by one, if and only if every
  reference of the unfolded model is resolved, since the root is listed but is not a reference
  (`OutlineBuilder.ProgressExceedsIff`, `OutlineBuilder.RootAloneExceeds`).
* Outline: while it is being built, going up from the first recorded diagram leads in front of the
  history, and the next double click then makes another diagram than the root the first one
  (`OutlineViewer.UpAndInto`). The history of constructs exists afterwards if and only if the first
  recorded diagram is the root or nothing is recorded; otherwise all its entries are empty ids
  (`OutlineViewer.Viewer.ParsingDone`). The filter of the action, which asks for a displayed diagram
  other than the root, keeps users from it as long as the first position shows the root.
* Resolver: libraries at distance ten make it give up. What is within eleven steps has been bundled by
  then, so that nothing is missing if and only if nothing is further than that
  (`LibraryResolver.Resolver.ResolveLibraryDependencies`).

## Model

| member | source | states |
|---|---|---|
| DiagramTree.NumbersOnce | share/plug-ins/qgen/__init__.py:166-227 | Over the constructs of an unfolded model, every integer from 0 to 2n-1 is the start or the end of exactly one construct. |
| DiagramTree.NumberNested | share/plug-ins/qgen/__init__.py:166-227 | Any two of the numbered intervals are nested or apart, and a construct is listed after everything inside it or to its left. |
| DiagramTree.ChildrenAreConsecutive | share/plug-ins/qgen/__init__.py:166-227 | The first child of a construct starts one after it, each next child one after the end of the previous one, and the construct ends one after its last child, or after its own start. |
| DiagramTree.Locate | share/plug-ins/qgen/__init__.py:166-227 | A node's subtree is contiguous in the list and ends with the node; what is listed earlier is to its left, what is listed later encloses it or is to its right. |
| DiagramTree.ChildrenAreReferences | share/plug-ins/qgen/__init__.py:166-203 | The root shows the first diagram of the index, and the direct children of every construct show, by name and diagram and in order, the references in the entry of its diagram, less those to diagrams without an entry. |
| OutlineBuilder.VisitChild | share/plug-ins/qgen/__init__.py:170-185 | Taking one reference off the top of the stack: an unresolved one only disappears, a resolved one is stacked with the next number; the child list of the root changes in place. |
| OutlineBuilder.VisitChildren | share/plug-ins/qgen/__init__.py:167-203 | The inner loop over a copy of the children keeps "listed so far, followed by what the stack stands for" equal to the whole numbering, and either does nothing or makes the work left smaller. |
| OutlineBuilder.CloseFinished | share/plug-ins/qgen/__init__.py:205-226 | Closing the finished frames keeps the same equation; this is the second place where constructs are emitted. |
| OutlineBuilder.ProcessItem | share/plug-ins/qgen/__init__.py:157-226 | For every acyclic index the loop terminates and yields exactly the recursive post-order of the unfolded model with its numbers, root last, unresolved references skipped. The progress maximum yielded with a construct is the number of references in the entries of all diagrams opened before the construct is closed, each counted as often as it is opened; so it only grows, is never below the number of constructs before it, ends as the number of all references, and is exceeded by the number of constructs exactly if every reference is resolved. Only the root's child list is consumed. |
| OutlineBuilder.ProgressExceedsIff | share/plug-ins/qgen/__init__.py:166-226 | The unfolded model has at most one construct more than references, and that many exactly if every reference met while unfolding is resolved. |
| OutlineBuilder.RootAloneExceeds | share/plug-ins/qgen/__init__.py:166-226 | A model of the root alone yields one construct, with a progress maximum of zero. |
| OutlineViewer.Viewer.FillTree | share/plug-ins/qgen/__init__.py:105-126 | One yielded construct is appended to the list and entered in the map under its id. |
| OutlineViewer.Viewer.ParseModelTree | share/plug-ins/qgen/__init__.py:129-155 | Afterwards the list is the whole numbering and the map finds every construct by its id; the history holds ids that the map has exactly if it started at the root or was empty. |
| OutlineNavigation.SameIdIff | share/plug-ins/qgen/__init__.py:116-126 | Two constructs have the same id exactly if they have the same name, end number and diagram, and no construct has the empty id. |
| OutlineNavigation.ScanFindsChildren | share/plug-ins/qgen/__init__.py:1061-1075 | The scan that moves a marker from one end to the next finds exactly the direct children of a construct, in order, whether it is bounded by the construct or not bounded at all. |
| OutlineNavigation.FirstTreeIsEnough | share/plug-ins/qgen/__init__.py:1061-1075 | A path of diagram ids labels some tree of the list exactly if it labels the first tree with its first id: equal ids unfold to equal subtrees, so no backtracking is needed. |
| OutlineNavigation.SearchFindsLongestPrefix | share/plug-ins/qgen/__init__.py:1045-1075 | For every path there is a k such that exactly the first k prefixes label root paths; the search returns the construct at the end of the longest one, and the empty id exactly if the path is empty or does not start at the root. |
| OutlineViewer.Viewer.GetConstructFromList | share/plug-ins/qgen/__init__.py:1045-1075 | The loop with its moving marker and early recursion computes the list search that the previous row is about. |
| OutlineViewer.Viewer.FindPath | share/plug-ins/qgen/__init__.py:1045-1075 | The same for the viewer: longest prefix in a finished outline, and nothing at all while the root has not been listed yet. |
| OutlineViewer.NothingBeforeRoot | share/plug-ins/qgen/__init__.py:1045-1075 | On any proper beginning of the construct list every search gives the empty id. |
| OutlineNavigation.RootsAreNotEnclosed | share/plug-ins/qgen/__init__.py:1123-1150 | No construct of a list of trees encloses the end of one of its roots, so the parent scan finds nothing for the root. |
| OutlineNavigation.ParentIsInnermost | share/plug-ins/qgen/__init__.py:1123-1145 | Among the constructs that enclose the end of a child, the one that starts last is its parent and no other. |
| OutlineNavigation.NodeHasParent | share/plug-ins/qgen/__init__.py:1123-1150 | Every construct that is not a root is a direct child of some construct. |
| OutlineNavigation.ParentHasOtherDiagram | share/plug-ins/qgen/__init__.py:1123-1150 | In an acyclic model the parent shows another diagram than the child, so comparing diagram names tells whether a parent was found. |
| OutlineViewer.NamesEndIff | share/plug-ins/qgen/__init__.py:1097-1104 | A title names the end of a path exactly if the path is some text, a slash and the title, or is the title and ends with a slash itself. |
| OutlineViewer.LongestNamed | share/plug-ins/qgen/__init__.py:1086-1106 | Among the constructs the scan finds, the first of those with the longest title that names the end of the clicked path behind a slash; the empty id exactly if there is none. |
| OutlineViewer.InnermostEnclosing | share/plug-ins/qgen/__init__.py:1123-1145 | The construct with the largest start among those that enclose the end of the current one, or the current one if there is none. |
| OutlineViewer.Viewer.GetConstructForDblclick | share/plug-ins/qgen/__init__.py:1077-1106 | With a finished outline, the best-named direct child of the current construct; otherwise nothing. |
| OutlineViewer.Viewer.GetParentDiag | share/plug-ins/qgen/__init__.py:1108-1150 | With a finished outline, the diagram of the immediate parent in the unfolded model, nothing exactly at the root, and the history grows by the parent if asked to; before that, one step back, from the first position to in front of it with the last diagram, and nothing from there. |
| OutlineViewer.Viewer.UpdateNavStatus | share/plug-ins/qgen/__init__.py:972-979 | A construct id is inserted behind the current history position, which moves to it; the empty id changes nothing. |
| OutlineViewer.Viewer.UpdatePreloadingNav | share/plug-ins/qgen/__init__.py:981-983 | The same for the history of diagrams while the outline is not finished, whatever the diagram. |
| OutlineViewer.Viewer.GetPrevDiag | share/plug-ins/qgen/__init__.py:1029-1043 | Steps back by one and gives the diagram there, or does nothing at the first position. |
| OutlineViewer.Viewer.ParsingDone | share/plug-ins/qgen/__init__.py:997-1015 | The history of diagrams becomes a history of constructs of the same length: each entry is what the search finds for the diagrams up to it; all of them exist exactly if the first diagram is the root, and none otherwise; an empty history becomes the root. |
| OutlineViewer.Viewer.OnDblclick | share/plug-ins/qgen/__init__.py:1211-1219 | A double click moves the history to the best-named child if there is one, leaves it alone if not, and records the diagram while the outline is not finished. |
| OutlineViewer.UpAndInto | share/plug-ins/qgen/__init__.py:1108-1122 | From the first position of an unfinished outline, the parent step and a double click on another diagram than the root leave a history that does not start at the root. |
| OutlineViewer.Viewer.UpdateCurrentConstruct | share/plug-ins/qgen/__init__.py:1886-1898 | Dropping frames until something is found moves to the construct of the longest prefix of the whole path, or nowhere; while constructs are being listed the history stays as it is. |
| DiagramLoading.KnownIsContained | share/support/ui/gpsbrowsers.py:166-175 | A diagram is known in an index exactly if its id is among those of the loaded diagrams, which follow the index. |
| DiagramLoading.Contains | share/support/ui/gpsbrowsers.py:166-175 | The loop over the loaded diagrams answers whether one has the id. |
| DiagramLoading.LoadReferencedDiagram | share/plug-ins/qgen/__init__.py:868-885 | The entries and the diagrams of a file are appended exactly if the diagram is not there yet and has a file, and stay in step. |
| DiagramLoading.ExtendedHas | share/plug-ins/qgen/__init__.py:868-885 | What is there after loading is what was there before, in front, and all entries of the files loaded, and nothing else. |
| DiagramLoading.LoadedOnce | share/plug-ins/qgen/__init__.py:868-885 | No file is loaded twice, nor the file of a diagram that was there at the start. |
| DiagramLoading.LoadAllReferencedDiagrams | share/plug-ins/qgen/__init__.py:845-860 | Walking over the index while it grows terminates. Afterwards every reference of every entry, loaded ones included, is loaded or has no file; each loaded file was asked for by an entry already there, none was loaded twice, and the original entries come first. |
| FrameExpansion.PrefixJoinsNames | share/plug-ins/qgen/__init__.py:1852-1882 | If mangling the front of a text first makes no difference, the diagram of a prefix is the mangled text of its names in order with slashes between them, and the first name itself for the first. |
| FrameExpansion.AncestorsArePrefixes | share/plug-ins/qgen/__init__.py:1865-1882 | The frames that are added are the diagrams of the successive prefixes of the path, cut at the first one that is the frame's own diagram or at the last name. |
| FrameExpansion.InsertAncestors | share/plug-ins/qgen/__init__.py:1878-1884 | Inserting before the i-th frame puts exactly its missing ancestors there, and tells by how much the list has grown. |
| FrameExpansion.ExpandInPlace | share/plug-ins/qgen/__init__.py:1852-1884 | The walk over the list it is inserting into gives, frame by frame, the missing ancestors followed by the frame; the cached length equals the length at every outer iteration. |
| FileDependencies.RevisitPushesNothing | share/library/filedeps.py:35-52 | Popping a file that has been visited pushes nothing, because all it imports has been visited. |
| FileDependencies.StepIsRunning | share/library/filedeps.py:35-52 | One pop keeps the invariants: every import of a visited file is visited or waits on the stack, above any other entry for that file; every recorded parent was first visited strictly before its child, although parents are overwritten; the spec of the starting file is visited second. |
| FileDependencies.StepIsUnderWay | share/library/filedeps.py:35-52 | One pop makes progress: fewer files are unvisited, or as many and a shorter stack. |
| FileDependencies.DrySearchIsComplete | share/library/filedeps.py:35-52 | When the stack is empty, every file that can be reached has been visited. |
| FileDependencies.Analyze | share/library/filedeps.py:28-52 | The search terminates; what it records goes back to the starting file without a cycle; and a target that can be reached has been recorded. |
| FileDependencies.WayBackIsPath | share/library/filedeps.py:54-65 | A way back that ends at the starting file, read backwards, is a path of genuine imports to the target, except that a body may lead to its own spec. |
| FileDependencies.WayBackIsShown | share/library/filedeps.py:54-65 | Unless a path has a newline, the lines of the text, read in order, show a path of dependencies from the starting file to the target. |
| FileDependencies.InternalDependencyPath | share/library/filedeps.py:24-65 | If the target can be reached, the answer is a repetition-free chain of links from it back to the starting file, and the lines of the text show this path from the starting file on; otherwise it is the refusal. |
| FileDependencies.DependencyPath | share/library/filedeps.py:83-96 | The path without implicit imports if there is one, and otherwise the answer with them; "Same file" for equal files. |
| DebounceProtocol.StepKeepsInv | kernel/src/hooks.py:2326-2360 | Whatever step is taken (run, expiry, force, unregister, time, other sources), ids of pending entries stay distinct and equal to the live timers of the hook, and no two entries have the same key. |
| DebounceProtocol.AlwaysInv | kernel/src/hooks.py:2260-2286 | The same in every state of every run, under any interleaving. |
| DebounceProtocol.TimerFindsItsEntry | kernel/src/hooks.py:2260-2276 | An expiring timer finds exactly one entry, its own. |
| DebounceProtocol.OthersSurvive | kernel/src/hooks.py:2435-2452 | A source of the main loop that is none of the hook's timers stays through every step but its own release. |
| DebounceProtocol.ClearingTakesTimers | kernel/src/hooks.py:2516-2531 | Forcing and unregistering leave exactly the sources that are none of the hook's timers, and nothing pending. |
| DebounceProtocol.PendingKeysDiffer | kernel/src/hooks.py:1904-1918 | In every reachable state two pending entries differ in a parameter that is an asynchronous key. |
| DebounceProtocol.WithoutKeysOneWaits | kernel/src/hooks.py:1904-1930 | If no parameter is an asynchronous key, at most one entry waits at any time. |
| DebounceProtocol.RunAddsUnlessKeysAgree | kernel/src/hooks.py:2336-2359 | A run leaves the number of entries as it is exactly if some pending entry agrees with it on all parameters that are asynchronous keys, and adds one otherwise. |
| DebounceProtocol.PendingIsLatest | kernel/src/hooks.py:2336-2359 | Without frozen parameters, a pending entry holds the arguments of the latest run for its key, and is due one delay after it. |
| DebounceProtocol.DeliveryIsPrompt | kernel/src/hooks.py:2268-2284 | Without frozen parameters, a delivery by a timer carries the arguments of the latest run for its key, not cleared since, and comes at least a delay after it. |
| DebounceProtocol.FrozenIsStale | kernel/src/hooks.py:117-126 | For any hook with a parameter whose key setting is false there is a run in which a timer delivers arguments that no latest run has. |
| DebounceProtocol.PromptUnlessFrozen | kernel/src/hooks.py:1899-1930 | Deliveries are those of the latest run in all runs if and only if no parameter has its key setting false. |
| DebounceProtocol.RunsAreConserved | kernel/src/hooks.py:2336-2359 | In every run, enqueued = delivered + superseded + cancelled + pending, and each expiry delivers exactly one. |
| DebounceHook.MainLoop.TimeoutAdd | kernel/src/hooks.py:2347-2356 | The id of a new timer is one that no live source has. |
| DebounceHook.Hook.Enqueue | kernel/src/hooks.py:2336-2359 | The loop over the records either refreshes the record with the same key in place or appends a new one, the former exactly if some record agrees on all parameters that are keys; the records and the main loop then show the protocol's state after a run. |
| DebounceHook.Hook.OnTimeout | kernel/src/hooks.py:2260-2286 | An expiry removes the very record that the timer carries and delivers its arguments; the records then show the state after an expiry. |
| DebounceHook.Hook.ForceDebounce | kernel/src/hooks.py:2435-2452 | Forcing removes all timers and records, and then calls both kinds of functions, unless nothing is pending. |
| DebounceHook.Hook.ClearQueue | kernel/src/hooks.py:2516-2531 | Unregistering leaves no record and none of their timers. |
| ArgvSyntax.ReadEscaped | distrib/windows_gps_wrapper.c:150-200 | What is written for a quoted argument reads back as the argument, whatever the number of backslashes before a quote or at the end. |
| ArgvSyntax.DocumentedRules | distrib/windows_gps_wrapper.c:150-165 | The reader follows the documented rules for backslashes, quotes and blanks. |
| ArgvSyntax.QuotesAreEscaped | distrib/windows_gps_wrapper.c:158-206 | In a quoted argument every quote of the argument stands behind an odd number of backslashes, and the closing one behind an even number. |
| ArgvSyntax.CommandLineInPieces | distrib/windows_gps_wrapper.c:142-209 | The command line is put together, in order, of non-empty arguments without space and quote as they are, and of all others in quotes, each followed by a space. |
| ArgvSyntax.ArgsReadBackIff | distrib/windows_gps_wrapper.c:124-213 | The arguments read back exactly if none that is written without quotes contains a tab. |
| ArgvSyntax.ReadProgramIff | distrib/windows_gps_wrapper.c:128-140 | The program name reads back exactly if it has no quote, does not end in a backslash when it has a space, and has no tab unless it has a space. |
| ArgvSyntax.CommandLineReadsBackIff | distrib/windows_gps_wrapper.c:115-213 | The whole command line reads back as the argument list if and only if both conditions hold. |
| ArgvSyntax.CommandLineRoom | distrib/windows_gps_wrapper.c:115-213 | Each argument takes at most twice its length and three characters. |
| CommandLineBuffer.ComputeNeedQuote | distrib/windows_gps_wrapper.c:142-153 | Quotes are needed exactly for empty arguments and those in which some character is a space or a quote. |
| CommandLineBuffer.PutPiece | distrib/windows_gps_wrapper.c:167-199 | What is appended for one character, with the backslashes before a quote or the end doubled. |
| CommandLineBuffer.AppendQuoted | distrib/windows_gps_wrapper.c:158-206 | Appends the argument in its quoted form and a space to the string in the buffer. |
| CommandLineBuffer.BuildCommandLine | distrib/windows_gps_wrapper.c:118-215 | The buffer holds the command line for the started program and the wrapper's arguments: each argument that needs no quotes is there as it is, with a space, the others are in quotes. |
| CommandLineBuffer.CommandLineInBuffer | distrib/windows_gps_wrapper.c:107-215 | The fixed buffer is large enough if the arguments take less than its size at two characters each and three more. |
| CommandLineBuffer.BuiltCommandLineReadsBackIff | distrib/windows_gps_wrapper.c:118-215 | What is built reads back as the started program and the wrapper's arguments exactly under the two conditions. |
| RepresentationFormula.WriteIsFormula | share/plug-ins/show_representation.py:77-107 | The text of the tokens is the formula that is shown. |
| RepresentationFormula.DigitsShowNumber | share/plug-ins/show_representation.py:82-84 | The digits shown for a number are worth the number, without leading zeros. |
| RepresentationFormula.IntTextShowsNumber | share/plug-ins/show_representation.py:82-84 | A number is shown as the digits of its size, behind a minus exactly if it is negative. |
| RepresentationFormula.OperandsAreEnclosed | share/plug-ins/show_representation.py:90-107 | Two operands are shown in parentheses, behind the code and with a comma for "max" and "min", and around the code for all others but the conditional. |
| RepresentationFormula.ParseWritten | share/plug-ins/show_representation.py:77-107 | A well-formed expression is read back from its tokens, whatever follows. |
| RepresentationFormula.WriteParsed | share/plug-ins/show_representation.py:77-107 | Whatever is read is well formed, and its tokens are exactly those that were read. |
| RepresentationFormula.ReadsBackIff | share/plug-ins/show_representation.py:77-107 | An expression reads back in every context if and only if it is well formed: each operator has a code and operands, and a conditional exactly three. |
| RepresentationFormula.NotToldApart | share/plug-ins/show_representation.py:77-107 | What is not well formed is printed with the same tokens as some other expression, whatever follows, so that the condition does not depend on how one reads. |
| RepresentationFormula.RangeSpansSize | share/plug-ins/show_representation.py:123-137 | The shown range, read as an expression, is worth the first bit to the first bit plus the size less one, for all meanings of names and operators. |
| RepresentationFormula.ValueKeepsMeaning | share/plug-ins/show_representation.py:109-113 | Showing a text that is a number as that number keeps its meaning, and no such text is left as a name. |
| RepresentationFormula.LineSpansSize | share/plug-ins/show_representation.py:123-137 | The line of a component has its name, its position and two texts: the first is read as the first bit, the second as the first bit and the size less one. |
| RepresentationFormula.LinesInOrder | share/plug-ins/show_representation.py:122-138 | The lines of the components stand one after the other in the order of the components. |
| RepresentationFormula.ParseRecord | share/plug-ins/show_representation.py:116-139 | The clause has one line for each component, in order, and is empty for a record without components. |
| LibraryResolver.Resolver.PrefixFilter | osx_bundle/scripts/resolver.py:33-64 | Keeps every library under a prefix or moved there and not part of the system, and nothing else but what is bundled already; only others are remembered as ignored. |
| LibraryResolver.World.AcceptedIff | osx_bundle/scripts/resolver.py:33-64 | A library is bundled exactly if its path is absolute and it is under a prefix, or is none of the system's and a file of its name is under one. |
| LibraryResolver.World.TargetIs | osx_bundle/scripts/resolver.py:79-114 | A library under a prefix is copied from where it is, any other from the first prefix that has a file of its name, with the first such prefix replaced by the bundle's. |
| LibraryResolver.World.MainTargetIs | osx_bundle/scripts/resolver.py:131-148 | A main file under a prefix is copied with the first such prefix replaced by the bundle's; any other is left where it is. |
| LibraryResolver.Resolver.GetDeps | osx_bundle/scripts/resolver.py:70-77 | The accepted libraries among the result are exactly those the file uses. |
| LibraryResolver.Resolver.AddDeps | osx_bundle/scripts/resolver.py:79-114 | Bundles exactly the accepted libraries that the files use, each with its target, and puts their files on the input list. |
| LibraryResolver.Resolver.NextRound | osx_bundle/scripts/resolver.py:151-154 | After round r+1, exactly the accepted libraries at distance at most r+1 are bundled, each with its target. |
| LibraryResolver.World.ReachIsLeast | osx_bundle/scripts/resolver.py:151-154 | What is bundled is contained in every set that has the mains and is closed under accepted dependencies. |
| LibraryResolver.World.ClosedIff | osx_bundle/scripts/resolver.py:151-154 | What is within any number of steps is closed exactly if one more step adds nothing. |
| LibraryResolver.World.StoppedIsNine | osx_bundle/scripts/resolver.py:149-159 | If the last of at most ten rounds adds nothing, nothing is further away than nine steps, and the bundle is closed. |
| LibraryResolver.Resolver.ResolveLibraryDependencies | osx_bundle/scripts/resolver.py:131-159 | The loop ends normally exactly if nothing is further than nine steps from the mains; then the bundle is what is within nine steps, is closed, and has all targets. Otherwise it gives up with all that is within eleven steps, which is closed exactly if nothing is further. |
| SpellChecker.SubstituteOneMore | share/library/ispell.py:325-346 | One more edit at the end of a list of edits is a replacement in the text that the others give, moved by their growth. |
| SpellChecker.ReplacementsArePlaced | share/library/ispell.py:325-346 | In the line with all edits at once, every replacement stands where the edits before it have moved it to. |
| SpellChecker.OthersAreKept | share/library/ispell.py:325-346 | Every other character of the line stands where the edits before it have moved it to. |
| SpellChecker.AskedUnlessAccepted | share/library/ispell.py:292-327 | The user is asked about a reported word exactly if it has not been accepted earlier in the same line. |
| SpellChecker.Line.NothingIsMissingIff | share/library/ispell.py:333-346 | What the running offset lacks of the growth is nothing exactly if no word at the very end of the buffer was asked about, and the mark of the next line lags behind exactly if such a word was replaced by a text that is not empty. |
| SpellChecker.Line.PlacedIff | share/library/ispell.py:325-328 | A word is looked for where the earlier edits have moved it exactly if there is a character in front of the line and the running offset does not lead back over the beginning of the buffer; otherwise too far on. |
| SpellChecker.Line.ProcessIsRight | share/library/ispell.py:325-346 | As long as all words asked about are so placed, text, offset and mark are those of the simultaneous replacements. |
| SpellChecker.Line.WrongIfMisplaced | share/library/ispell.py:325-346 | The first misplaced word that is replaced by a text with another first letter leaves a wrong buffer. |
| SpellChecker.AlwaysRightIff | share/library/ispell.py:325-346 | The buffer is right for all answers if and only if, for every reported word, the text in front of the line has a character and as many more as the words reported before have letters. |
| SpellChecker.FirstLineIsShifted | share/library/ispell.py:328-346 | In a buffer that starts with the line "teh cat", replacing "teh" by "the" gives "tthecat". |
| SpellChecker.Checker.ReplaceCurrent | share/library/ispell.py:368-374 | The word is deleted and the text inserted, in the text that moves and deletions clamped at both ends leave; every mark is moved as deleting and inserting move it. |
| SpellChecker.Checker.Ask | share/library/ispell.py:325-346 | One question leads from what the first n reports lead to, in buffer, offset and mark of the next line, to what the first n+1 lead to. The user is shown the reported word and suggestions, and the place shown has that word if all words so far have been placed. |
| SpellChecker.Checker.FixLine | share/library/ispell.py:282-348 | For any line, reports and answers the loop reaches what the reports up to the first cancelled one lead to. For ordered reports whose moves all stay within the buffer, that is the original line with all replacements made simultaneously, between the same text before and after; the offset is the growth and the mark is at the next line, less exactly what a word at the end of the buffer costs. |
| FilterString.PartsMakeUpList | widgets/src/native_file_selection.c:139-188 | The parts of a list hold no separator and, put together with separators, are the list, except for one separator at its end. |
| FilterString.PlainIsCharwise | widgets/src/native_file_selection.c:161-171 | The dialog gets a semicolon for each comma, nothing for a brace, and every other character as it is, in order. |
| FilterString.FilterForEachPattern | widgets/src/native_file_selection.c:146-188 | There is one filter for each pattern, with commas as semicolons and without braces, paired with the name at the same place, or with itself where the name is missing or empty. |
| FilterString.StringsOfEncoded | widgets/src/native_file_selection.c:139-192 | Reading the buffer as strings up to an empty one gives the pairs up to the first empty pattern, and the name of that one. |
| FilterString.FiltersReadBackIff | widgets/src/native_file_selection.c:139-192 | All pairs are read back if and only if every pattern has a character other than a brace. |
| FilterString.EncodedRoom | widgets/src/native_file_selection.c:139-192 | The buffer needs at most the length of the names, twice that of the patterns, and three characters. |
| FilterString.CopyPattern | widgets/src/native_file_selection.c:161-171 | Appends the pattern under the cursor in the form the dialog wants, and moves the cursor to the separator. |
| FilterString.CopyAgain | widgets/src/native_file_selection.c:173-183 | Appends a copy of what was just written, reading and writing the same array. |
| FilterString.BuildFilter | widgets/src/native_file_selection.c:139-192 | The two-cursor loop terminates with the encoded pairs in the buffer. |
| VimLayer.KeysSuit | share/library/vim.py:684-755 | Whatever key is pressed under either kind of map, the action, or each part of its chain, comes at the right time: a character exactly when one is waited for. |
| VimLayer.KeyWaitsIff | share/library/vim.py:684-755 | When nothing waits, something waits after a key exactly for "c", "f", "F", "t" and "T", and in normal mode "d" and "y". |
| VimLayer.SecondLineKeyIff | share/library/vim.py:467-475 | A second line key works on the line exactly if it is the one that waits on top; any other waits too. |
| VimLayer.ComposedIsComplete | share/library/vim.py:324-335 | A plain action, or a repeated one, inside all that waits has everything it will look up. |
| VimLayer.ComposedKeepsOrder | share/library/vim.py:368-377 | Composing nests the actions in the order in which their keys were pressed, and empties the stack. |
| VimLayer.DoneIsComplete | share/library/vim.py:602-608 | Whatever the parts of a chain do can be done: a search always has its character, and no character is ever done by itself. |
| VimLayer.DeleteToLineEndIff | share/library/vim.py:700-706 | The key for deleting to the end of the line does so if and only if no deletion waits; otherwise the line is deleted and the cursor moves to its end. |
| VimLayer.ComposedLacksEndIff | share/library/vim.py:527-538 | What is done lacks the end it asks for exactly if the lowest action that waits is a change whose operand, the action itself or the one above it, is no movement. |
| VimLayer.SecondChangeLacksEndIff | share/library/vim.py:527-538 | A second change key fails for want of an end exactly if the lowest action that waits is a change. |
| VimLayer.ChangeTwice | share/library/vim.py:527-538 | The keys "cc" lack an end; "dcc" do not. |
| VimLayer.ChangeLacksEndIff | share/library/vim.py:527-538 | Behind "c", a key that acts at once lacks an end exactly if it is none of h, l, k, j, w, b, $, ^ and 0. |
| VimLayer.ChangeToCharHasEnd | share/library/vim.py:527-538 | Behind "c", a search for a character has an end. |
| VimSession.VimState.ApplyAction | share/library/vim.py:385-538 | What an action does to mode and keymaps. It fails exactly if the editor does, or if it is a change whose operand has no end. The mode afterwards is insertion for an insertion and for an opened line or a change that worked, the visual mode asked for, normal after a visual deletion or yank that worked, and the same as before in all other cases. |
| VimSession.VimState.Compose | share/library/vim.py:372-377 | Takes the whole stack off and gives the nested action; the map for characters is taken off with the search that put it there. |
| VimSession.VimState.Apply | share/library/vim.py:324-335 | One action is done inside all that waits, or waits itself; only a plain action that worked is returned to be remembered. |
| VimSession.VimState.ApplyChain | share/library/vim.py:602-608 | A chain has the outcome of its parts one after the other, up to one that fails. |
| VimSession.VimState.KeyPressed | share/library/vim.py:254-294 | Between keys, a map for characters is on top exactly if a search is on top of the stack, only actions that wait are on it, at most one search and that on top, and the map belongs to the mode; any plain action empties the stack, failing or not; a key fails exactly if one of its parts does, for the editor or for want of an end, and later parts are then not done; Escape empties the stack; a key with no meaning changes nothing. For each key the mode it leads to is stated: with nothing waiting, "v" and "V" to the visual modes, "d", "D", "y" and "Y" from these back to normal, "i", "a", "o", "O" and "C" to insertion, all others to none; with something waiting, only a change at the bottom of the stack, if it works, to insertion. |
| VimSession.ReplayDoesItAgain | share/library/vim.py:268-280 | Once remembered, a search is done again by ";" and a change of the text by ".", and neither changes what the other key does. |
| VimSession.DeadKeyIsCaret | share/library/vim.py:254-258 | The dead circumflex stands for the plain one, and every other key for itself. |
| VimSession.VimState.Session | share/library/vim.py:254-294 | The same after any sequence of keys. |

## Left out

- OutlineViewer.Viewer.OnDblclick: the operations on a finished outline start from a history whose entries exist; what the code does with the empty ids of one that did not start at the root (a failing lookup) is not modelled.
- OutlineViewer.Viewer.FillTree: ids of constructs are triples of name, end number and diagram; that block names never contain the text that joins them in the code is not modelled.
- OutlineBuilder.ProcessItem: the constant category and the zero line and column that come with each construct are not part of the result.
- Child lists other than the root's are values: they are private copies in the code.
- How a title is shortened for display, how block names are split and mangled, and which block a frame is in, are functions that are given.
- The diagram that is displayed, highlighting, scaling and the save and restore of viewers.
- DiagramLoading.LoadAllReferencedDiagrams: the hash that gives a file its name is not modelled; each file has an entry for the diagram it was asked for.
- FileDependencies.DependencyPath: filling the locations view is not modelled; the imports of a file do not change while it runs, and whether a file is a body is given.
- DebounceHook.Hook.Enqueue: parameters that do not show on the Ada side, reference counts of hook functions, and which functions a call reaches are not modelled; calls may run any other step, which is why the protocol allows all interleavings.
- CommandLineBuffer.BuildCommandLine: what happens beyond the end of the fixed buffer is not modelled, nor the second fixed buffer, which holds the path of the started program; the parts of the wrapper's own path are given.
- The jobs and processes of the wrapper.
- RepresentationFormula.ParseRecord: positions are printed as given; reading the compiler's output and editing the file are not modelled. Texts of names are single tokens.
- LibraryResolver.Resolver.ResolveLibraryDependencies: the lists start empty, although the class shares them between its objects; changing the install names afterwards is not modelled.
- The regular expression that picks libraries out of the lines of otool; path joining is a function.
- SpellChecker.Checker.FixLine: one line; the loop over the lines of a block, which compares with a fixed end, and the talk with the spell checker's process are not modelled. The user's keys are given as answers. Positions are offsets into the text, while the editor keeps a line and a column; the two differ only after a misplaced replacement.
- FilterString.BuildFilter: what happens when the buffer is too small is not modelled, nor the conversion to wide characters.
- VimSession.VimState.ApplyAction: what actions do to text, cursor and selection is left to the editor, which may fail at any time; keys typed in insert mode and replayed by "." are not recorded.
- Word motions, search in the editor, registration of menus and keys, and the remaining plug-ins.
