# Verified models of the repository's lint, sync and generator scripts

This project models four scripts and proves what they guarantee.

* **cpplint** (`scripts/cpplint.py`). The forward and the backward expression
  matcher, which keep `<` and `>` on the stack only tentatively, are shown to
  compute plain bracket matching on the whole file and to undo each other. The
  nesting state machine is shown to ignore `#else` branches, to return to its
  start on well-formed files and to report exactly the blocks left open. The
  comment eraser, the raw string remover, the constructor argument splitter,
  the include order check and the filter list are each tied to a description
  that does not mention how they work.
* **pod_lib_lint** (`scripts/pod_lib_lint.rb`). The recursive search with its
  shared set of seen podspecs returns exactly the reachable local podspecs.
* **sync_project** (`scripts/sync_project.rb`). The memoised directory walk
  flags exactly the files it should, and it is said exactly when a second
  synchronisation finds nothing to do.
* **binary_to_array** (`scripts/binary_to_array.py`). The printed array reads
  back as the input bytes and one zero.

Loops and objects of the scripts are loops, classes and arrays here. Each is
proved equal to a function of its inputs or of its old state, and the theorems
are about those functions. Conditional groups follow section 16.1 of ISO C++11
and raw strings section 2.14.5 of ISO C++11 (the script's own comment names
section 2.14.15, which is not the one about string literals).

## How the modules fit together

| files | content |
|---|---|
| `Text`, `Lines`, `Brackets` | string helpers, files as one text, the bracket grammar and the plain matchers |
| `ForwardMatch`, `BackwardMatch`, `TemplateArguments` | the two expression matchers, and what they say about `<` and `>` |
| `Lookahead`, `TextInside` | the look-ahead for template argument lists, and the second matcher |
| `Preprocessor`, `Nesting`, `NestingStates`, `LineReading` | checkpoints at conditionals, the stack of open blocks, both together, and what is read off a line |
| `ConstructorArgs`, `Comments`, `RawStrings`, `IncludeOrder`, `Filters` | the other parts of cpplint |
| `LocalDeps` | pod_lib_lint |
| `GroupDiff`, `SyncSpec`, `GroupPlaces`, `SyncProject` | sync_project: the comparison, what a synchronisation means, where files are listed, how it is done |
| `BinaryToArray` | binary_to_array |

The matchers are related to the grammar in three steps: the scan over lines is
one scan over a text of tokens (`CloseIsTokenScan`), tentative brackets do not
influence that scan (`TokenScanRefines`), and the plain matcher finds what the
grammar calls a group (`ForwardFindsGroup`).

## Where the code does not do what one would expect

* From the `>` of an arrow or another operator the backward matcher answers for a
  bracket that is closed before it (`ArrowAnswersElsewhere`); `OperatorAnswer` says
  for which one, and `InverseExactly` that the two matchers are inverse everywhere
  else.
* From a `<` that is the second half of `<<`, or follows `operator`, the forward
  matcher answers for the next bracket or `<` of the line instead
  (`UnpushedAngleAnswersElsewhere`); `UnpushedAngle` says for which one.
* Parentheses are counted for the block that is innermost at the start of a
  line. A call whose argument has braces over several lines leaves a parenthesis
  open for good, and classes declared after it are not recognised
  (`CallHidesClasses`). `NestReturns` says that the stack comes back if and only
  if the parentheses outside inner blocks balance, `ClassRecognised` that a class
  is recognised if and only if none of them is left open.
* A constructor argument such as `a<b` makes the gluing loop run past the end of
  its list (`ComparisonRunsOut`), and so does `p->x,c<d`, whose counts agree
  (`ArrowThenComparisonRunsOut`). `GlueIsArguments` says for every text when.
* When groups hold two references to a missing file, only the one visited last is
  removed, and the next synchronisation reports the other one
  (`DoubleReferenceStays`). A stale file that is in a target twice, or in the wrong
  phase, is reported again as well (`MisplacedFileSticks`). `Converges` gives the
  exact condition for all projects, `ConvergesOneReference` the simpler one for
  projects with one reference for each path.
* Within one configuration file it is the first filter option that wins, because
  the collected options are added in reverse order (`NearestDecides`).

## Model

| member | source | states |
|---|---|---|
| `Brackets.ForwardFindsGroup` | scripts/cpplint.py:2076-2117 | The plain three-bracket matcher answers the end of the group that the grammar of balanced text describes at a position, and answers nothing exactly when there is none |
| `Brackets.BackwardFindsGroup` | scripts/cpplint.py:2197-2232 | The same for the matcher that reads backwards |
| `ForwardMatch.FindEndOfExpressionInLine` | scripts/cpplint.py:1998-2073 | The in-line loop with its mutable stack returns the position and stack of the step-by-step token machine, for every line, start and initial stack |
| `ForwardMatch.CloseExpression` | scripts/cpplint.py:2076-2117 | The multi-line loop returns the line, line number and position that Close defines; on failure the end of the file, -1 and the line on which the scan ended |
| `ForwardMatch.CloseIsTokenScan` | scripts/cpplint.py:1998-2117 | Scanning line by line is one scan over the whole file: line breaks have no influence |
| `ForwardMatch.TokenScanRefines` | scripts/cpplint.py:2016-2073 | Over a real bracket, tentative `<` and `>` change nothing: the scan equals the plain matcher on the stack without them |
| `ForwardMatch.CloseRefines` | scripts/cpplint.py:1998-2117 | From `(`, `[` or `{` CloseExpression has the end position and the failures of the plain matcher on the whole text |
| `ForwardMatch.CloseFindsGroup` | scripts/cpplint.py:2076-2117 | From a bracket, success means a balanced group that starts there, and failure means that no such group exists |
| `ForwardMatch.CloseIffGroup` | scripts/cpplint.py:2076-2117 | CloseExpression answers just past `q` if and only if `q` ends the group that starts at `p` |
| `ForwardMatch.LayoutIrrelevant` | scripts/cpplint.py:1998-2117 | Rewriting every character that is not a bracket and breaking the lines anywhere else does not move the answer |
| `BackwardMatch.StrideSkipsPlain` | scripts/cpplint.py:2141-2159 | The extra character the backward scan skips at `->`, `>=`, `operator>` or `<<` is never a bracket or a semicolon |
| `BackwardMatch.FindStartOfExpressionInLine` | scripts/cpplint.py:2120-2194 | The backward in-line loop returns the position and stack of the backward token machine |
| `BackwardMatch.ReverseCloseExpression` | scripts/cpplint.py:2197-2232 | The backward multi-line loop returns what ReverseClose defines; on failure 0, -1 and the line on which the scan ended |
| `BackwardMatch.ReverseCloseRefines` | scripts/cpplint.py:2120-2232 | From `)`, `]` or `}` ReverseCloseExpression has the answer and the failures of the plain backward matcher on the whole text |
| `BackwardMatch.ReverseCloseFindsGroup` | scripts/cpplint.py:2197-2232 | From a closing bracket, success means a balanced group that ends there, and failure means that there is none |
| `BackwardMatch.ReverseCloseIffGroup` | scripts/cpplint.py:2197-2232 | ReverseCloseExpression answers `p` if and only if `p` starts the group that ends at `q` |
| `BackwardMatch.ForwardBackwardInverse` | scripts/cpplint.py:1998-2232 | From an opening bracket and for every position `q`: the forward answer is just past `q` if and only if `q` is a closing bracket and the backward answer from `q` is the opening bracket |
| `BackwardMatch.ReverseCloseAngle` | scripts/cpplint.py:2141-2173 | From a `>` that is no operator the backward answer is always a `<` |
| `BackwardMatch.InverseUnlessOperator` | scripts/cpplint.py:1998-2232 | From an opening bracket the two matchers are inverse for every end position, bracket or not, that is not the `>` of `->`, ` >= ` or `operator>` |
| `BackwardMatch.OperatorAnswer` | scripts/cpplint.py:2141-2193 | From the `>` of an operator the backward answer is that of the last closing bracket or plain `>` before it on the line, and there is none when an opening bracket, a semicolon or the start of the line comes first |
| `BackwardMatch.InverseExactly` | scripts/cpplint.py:1998-2232 | For every opening bracket and every end position the inverse holds if and only if the position is not the `>` of an operator that answers for this very bracket |
| `BackwardMatch.ArrowAnswersElsewhere` | scripts/cpplint.py:2144-2151 | A concrete line on which the backward matcher, started at the `>` of an arrow, answers for a bracket it does not close |
| `TemplateArguments.CloseAngle` | scripts/cpplint.py:2011-2117 | From a `<` that goes on the stack, success ends just past a `>`; the text between is balanced in `()[]{}` and each semicolon in it is inside brackets |
| `TemplateArguments.CloseIffArgumentList` | scripts/cpplint.py:2011-2117 | From a `<` that is pushed and starts neither `<<` nor `<=`, CloseExpression answers just past a position if and only if a `>` stands there and the text between is derived by the grammar of argument lists, with nested lists, shifts and bracket groups, over any number of lines |
| `TemplateArguments.ReverseCloseArgumentList` | scripts/cpplint.py:2120-2232 | A list as the backward matcher reads it, with arrows and shifts, is opened at its own `<` when matching starts at the `>` |
| `TemplateArguments.ReverseCloseIffArgumentList` | scripts/cpplint.py:2120-2232 | From a `>` that is no operator, ReverseCloseExpression answers a position if and only if a `<` stands there and the text between is derived by the grammar of lists read backwards, with nested lists, operators and bracket groups and without a semicolon outside brackets, over any number of lines |
| `TemplateArguments.ReverseCloseArguments` | scripts/cpplint.py:2120-2232 | From a `>` that is no operator, success is at a `<`; the text between is balanced in `()[]{}` and each semicolon in it is inside brackets |
| `TemplateArguments.OperatorsAreNoAngles` | scripts/cpplint.py:2016-2157 | In any surroundings the `>` of `->`, the second `<` of `<<`, the `>` of ` >= ` read backwards, `operator<`, `operator>` read backwards and a `>` two characters after `operator` do not count as angle brackets |
| `TemplateArguments.AnglesCount` | scripts/cpplint.py:2016-2159 | A `<` or `>` after a word other than `operator` counts as an angle bracket for both matchers |
| `TemplateArguments.ListInverse` | scripts/cpplint.py:1998-2232 | On a template argument list that both matchers read alike outside its bracket groups they undo each other, from the `<` to the `>` and back |
| `TemplateArguments.ReadAlike` | scripts/cpplint.py:2016-2064 | Every character is read alike but a `<` after `operator` or after two others, and a `>` of ` >= ` or after `operator` |
| `TemplateArguments.UnpushedAngle` | scripts/cpplint.py:2016-2063 | From a `<` that is not pushed the answer is CloseExpression's own answer for the first opening bracket or pushed `<` after it on the line, and there is none when a closing bracket, a semicolon, `<<` or the end of the line comes first; only a `<=` reached in this way is scanned although CloseExpression itself would refuse it, and then an answer ends an argument list |
| `TemplateArguments.UnpushedAngleAnswersElsewhere` | scripts/cpplint.py:2025-2033 | A concrete line on which the matcher, started at the second `<` of a shift, answers for a parenthesis |
| `Lookahead.CloseAdvances` | scripts/cpplint.py:2099-2117 | Every successful CloseExpression ends strictly after its start, inside the file |
| `Lookahead.InTemplateArgumentList` | scripts/cpplint.py:2965-3015 | The look-ahead loop terminates on every file and position; it accepts if and only if a trail of characters that are no stops and whole closed lists leads to `>`, `=`, `[`, `]` or `.` |
| `Lookahead.AcceptedIffTrail` | scripts/cpplint.py:2975-3012 | The same equivalence for the answer as a function: nothing else is accepted, and nothing that has such a trail is refused |
| `TextInside.GetTextInside` | scripts/cpplint.py:5197-5227 | The second, independently written matcher returns the text up to the end the first one finds, and nothing exactly when that one fails or runs out |
| `Preprocessor.ElseBranchesIrrelevant` | scripts/cpplint.py:3017-3071 | For any effect of the lines: where no open conditional is past its first branch, stack and checkpoints equal those of the file with all `#else` and `#elif` branches deleted at every depth |
| `Preprocessor.CheckpointsBelowKept` | scripts/cpplint.py:3035-3071 | Lines whose directives all have their `#if` among them never touch the checkpoints that were there before |
| `Preprocessor.WellNestedRestores` | scripts/cpplint.py:3017-3071 | A well-nested stretch returns the checkpoints to their starting value and leaves the stack that its first branches alone would leave |
| `Preprocessor.ElseRestores` | scripts/cpplint.py:3038-3053 | For any effect and any state: at every `#else` and `#elif`, the first and any later one, the stack is what it was before the `#if`, whatever the branches before did |
| `Preprocessor.EndifKeeps` | scripts/cpplint.py:3057-3068 | At the `#endif` of a conditional without `#else` the stack goes on and the checkpoints are those from before the `#if` |
| `Preprocessor.EndifRestores` | scripts/cpplint.py:3042-3068 | At the `#endif` of a conditional with other branches the stack is what it was at the end of the first one, whatever the others did |
| `Preprocessor.DirectiveRead` | scripts/cpplint.py:3038-3057 | A line is a directive by the whole word after its `#`, with any white space around the `#` |
| `Preprocessor.DirectiveWords` | scripts/cpplint.py:3038-3057 | The words are `if`, `ifdef`, `ifndef`, `else`, `elif` and `endif`, and no others |
| `Preprocessor.NoHashNoDirective` | scripts/cpplint.py:3038-3057 | A line that starts with anything but `#` is no directive |
| `Nesting.NestRuns` | scripts/cpplint.py:3098-3236 | Every nest of namespaces, classes, forward declarations, blocks and statements, with any parentheses around and between its blocks, returns the stack to where it was but for its own unbalanced parentheses in the top block |
| `Nesting.NestReturns` | scripts/cpplint.py:3098-3236 | The open blocks always come back; the very stack comes back if and only if the nest stands in no block or its parentheses outside inner blocks balance |
| `Nesting.ClassRecognised` | scripts/cpplint.py:3141-3166 | In a block, a class declared after a nest is recognised if and only if the nest leaves no parenthesis open there |
| `Nesting.NestCut` | scripts/cpplint.py:3098-3236 | After any prefix of such a nest the stack holds the starting blocks and then the nest's open blocks, outermost first |
| `NestingStates.CallHidesClasses` | scripts/cpplint.py:3098-3103 | A concrete file of three lines: a call with braces over two lines leaves its parenthesis counted in the function, and no class declared there afterwards is recognised |
| `NestingStates.UpdateBlocks` | scripts/cpplint.py:3098-3236 | The parenthesis, namespace, class and brace steps together apply exactly the line's events to the stack; which these are is said by ParenthesesFirst, NamespaceLine and OtherLine |
| `NestingStates.NestingState.UpdatePreprocessor` | scripts/cpplint.py:3017-3071 | The directive's effect on stack and checkpoints, including directives without an `#if`; the effect is that of ElseRestores, EndifKeeps and EndifRestores |
| `NestingStates.NestingState.Update` | scripts/cpplint.py:3074-3236 | One line is one step of the run that the preprocessor and nesting theorems are about |
| `NestingStates.NestingState.CheckCompletedBlocks` | scripts/cpplint.py:3250-3269 | One report for each class and namespace still open, outermost first, none for plain blocks |
| `NestingStates.ProcessLines` | scripts/cpplint.py:6404-6442 | Processing all lines of a file from an empty state reports what the run leaves open |
| `NestingStates.FileReportsOpenBlocks` | scripts/cpplint.py:3017-3269 | A file whose first branches spell a nest, or any prefix of one, is reported for exactly the named blocks open there; a complete nest gives no report, whatever the `#else` branches hold and whatever the parentheses do |
| `NestingStates.ReportedConcat` | scripts/cpplint.py:3250-3269 | The reports for one stack of blocks above another are those of the one followed by those of the other |
| `NestingStates.ReportedOne` | scripts/cpplint.py:3250-3269 | A class or namespace is reported with its line, kind and name, a plain block is not |
| `LineReading.TokensConcat` | scripts/cpplint.py:3200-3236 | The braces, semicolons and closing parentheses of a text are read from left to right, each by itself |
| `LineReading.TokensOfOne` | scripts/cpplint.py:3202-3236 | What each single character stands for |
| `LineReading.ParenthesesFirst` | scripts/cpplint.py:3098-3103 | A line's parentheses are counted before anything else on it is read |
| `LineReading.NamespaceLine` | scripts/cpplint.py:3124-3139 | A line that starts with a namespace head, however it is spaced, reads as that one declaration followed by what the text after its brace reads as, or after its name when it has no brace on the line |
| `LineReading.OtherLine` | scripts/cpplint.py:3129-3236 | Any line that starts with another word or none reads as its class head, if there is one, and the tokens of the rest |
| `LineReading.EveryBraceOnce` | scripts/cpplint.py:3124-3236 | Every opening brace of every line is read exactly once, as a plain one or as that of a namespace |
| `LineReading.NamespaceIsClosed` | scripts/cpplint.py:3124-3269 | A file that opens a namespace on one line and closes it on the next is not reported |
| `LocalDeps.AllDeps` | scripts/pod_lib_lint.rb:113-126 | Each pod that some spec depends on, cut at the first slash, exactly once |
| `LocalDeps.PodNameCut` | scripts/pod_lib_lint.rb:118 | A dependency names the pod before its first slash, or is the pod itself |
| `LocalDeps.ClosedHoldsPath` | scripts/pod_lib_lint.rb:131-156 | A set of podspecs closed under local dependencies holds everything reachable |
| `LocalDeps.FindLocalDeps` | scripts/pod_lib_lint.rb:131-156 | Terminates on every graph and returns, once each and never the root, exactly the local podspecs reachable along paths that avoid what was seen; `seen` ends as its start plus root plus result |
| `LocalDeps.RootMayBeAvoided` | scripts/pod_lib_lint.rb:131-156 | Paths that come back to the root can be cut there: avoiding the root as well excludes nothing but the root |
| `LocalDeps.IncludedPodspecs` | scripts/pod_lib_lint.rb:131-156 | Started with the ignored podspecs, the search returns exactly the others, but the root, that are reachable without them |
| `GroupDiff.ListEntries` | scripts/sync_project.rb:826-857 | The entries of a directory that no ignore pattern matches, all of them |
| `GroupDiff.GroupDiffer.FindFsFiles` | scripts/sync_project.rb:785-801 | The memoised walk terminates and deals with everything below a directory, changing source marks only |
| `GroupDiff.GroupDiffer.DiffProjectFiles` | scripts/sync_project.rb:766-783 | Traversing groups and subgroups extends what is tracked by exactly their directories and listed files; a path is named by the reference to it that is visited last |
| `GroupDiff.GroupDiffer.DiffGroups` | scripts/sync_project.rb:755-801 | A path is flagged as source if and only if it is a non-directory below a group directory through names that are not ignored, or a listed file that exists; as target if and only if it is listed |
| `GroupDiff.TrackedExactly` | scripts/sync_project.rb:755-801 | A complete traversal has flagged neither more nor less, although directories walked before are skipped |
| `GroupDiff.OrderIrrelevant` | scripts/sync_project.rb:755-801 | Groups with the same directories and listed paths give the same comparison: order, nesting, repetition and aliasing do not matter |
| `GroupDiff.OwnFilesNameLast` | scripts/sync_project.rb:766-783 | When a group and its subgroups list several references to a path, the last one among the group's own files names it |
| `GroupPlaces.AddFileExact` | scripts/sync_project.rb:457-471 | Placing a reference lists it and nothing else, and adds no directory to be traversed |
| `GroupPlaces.AddFilePlaces` | scripts/sync_project.rb:462-466 | A new reference is listed last in the subgroup that the names lead to, and every other group, looked up by names, lists what it did |
| `GroupPlaces.AddFileGroups` | scripts/sync_project.rb:462-464 | Every group stays and stands for the directory it did; of the others exactly those on the way are created |
| `GroupPlaces.CreatedPath` | scripts/sync_project.rb:462-464 | A group that is created stands for the directory of the group it is in |
| `GroupPlaces.RelativeForm` | scripts/sync_project.rb:463-482 | A group contains exactly the paths whose relative form does not start with two dots, and a file belongs in the subgroup that the directory of this form names |
| `GroupPlaces.RemoveFileExact` | scripts/sync_project.rb:490-495 | Removing a reference unlists it and nothing else; other references to its path stay |
| `GroupPlaces.RemoveFilePlaces` | scripts/sync_project.rb:490-495 | Each group, looked up by names, lists what it did but for the removed reference |
| `SyncProject.DiffTarget` | scripts/sync_project.rb:295-313 | A target's comparison has what its patterns match on one side and what its phases hold on the other; a missing path is named by a project reference, any other by one of the target's |
| `SyncProject.SyncTargetEntry` | scripts/sync_project.rb:499-533 | A missing file gains one reference in the phase its extension selects, a stale one loses one there, and only that counts as a change |
| `SyncProject.SyncTarget` | scripts/sync_project.rb:412-420 | Synchronising all entries, in any order, adds one reference per missing and drops one per stale path and counts both |
| `SyncProject.Project.AddToProject` | scripts/sync_project.rb:457-485 | Succeeds if and only if each new file lies under a root group, and lists a new reference to each in the subgroup its directories name under the first root group that contains it, with every other listing as it was; when it fails, exactly the files dealt with so far have been listed |
| `SyncProject.Project.RemoveFromProject` | scripts/sync_project.rb:490-495 | Removed references leave the groups, the project and every phase of every target; every other reference stays in its group, and nothing else changes |
| `SyncProject.Project.Sync` | scripts/sync_project.rb:399-430 | Fails if and only if a new file lies under no root group; otherwise the project becomes After, with the last visited reference of each missing path removed and every other reference in the group it was in, each new file is listed where it belongs, and the number of changes is returned |
| `SyncProject.Project.SyncTwice` | scripts/sync_project.rb:399-430 | The second synchronisation never fails; it reports zero changes if and only if every removed path had one reference in the groups and every target settles, and with one reference for each path if and only if no stale file sticks |
| `SyncSpec.GroupsSettled` | scripts/sync_project.rb:399-430 | The second synchronisation has nothing to add, and to remove exactly the paths that were to be removed and are listed more than once |
| `SyncSpec.ProjectRefsAfter` | scripts/sync_project.rb:434-453 | The references offered to the targets before anything is removed are those that groups manage in the project as the synchronisation leaves it, but for ignored paths and other references to removed ones |
| `SyncSpec.ProjectFilesSettled` | scripts/sync_project.rb:434-453 | The second synchronisation offers the same files to the targets, and those of which a reference is left over |
| `SyncSpec.SettledHolds` | scripts/sync_project.rb:295-313 | After its synchronisation a target holds what it should, and a file it should not exactly when a reference to it is neither removed from the project nor dropped, or is dropped once but was there twice or in another phase |
| `SyncSpec.TargetSettled` | scripts/sync_project.rb:499-533 | A synchronised target needs no further change if and only if the unwanted files that stay in it are exactly those left over that it wants |
| `SyncSpec.Converges` | scripts/sync_project.rb:399-430 | For every project, file system and order of visits: a second synchronisation reports zero changes if and only if every removed path was listed once and every synchronised target settles |
| `SyncSpec.ConvergesOneReference` | scripts/sync_project.rb:399-430 | With one reference for each path, if and only if every stale file is in its target once and in the phase its extension selects, or is removed from the project |
| `SyncSpec.NoChangesNoEffect` | scripts/sync_project.rb:399-430 | A synchronisation that reports no change leaves the project as it was |
| `SyncSpec.TargetsMatchPatterns` | scripts/sync_project.rb:291-313 | When the second synchronisation has nothing to do, a source-synchronised target holds a file of a known phase if and only if its patterns match it among the project files left |
| `SyncSpec.FreshKept` | scripts/sync_project.rb:457-471 | References created by a synchronisation differ from all others |
| `SyncSpec.MisplacedFileSticks` | scripts/sync_project.rb:499-533 | A concrete project with a source file in the resources phase for which the second synchronisation still reports a change |
| `SyncSpec.DoubleReferenceStays` | scripts/sync_project.rb:766-783 | Two references to any missing path: the second synchronisation still has it to remove |
| `SyncSpec.PhaseByExtension` | scripts/sync_project.rb:521-533 | `.c`, `.cc`, `.m`, `.mm` and `.swift` files are sources, `.h` files belong to no phase, all others are resources; dots at the start of a name do not begin an extension |
| `SyncSpec.DefOfIsFirst` | scripts/sync_project.rb:378-385 | The first definition of a name counts |
| `ConstructorArgs.ConstructorArguments` | scripts/cpplint.py:3379-3394 | The in-place gluing loop computes Glue of the split text and fails exactly where the list index would be past the end |
| `ConstructorArgs.GlueIsArguments` | scripts/cpplint.py:3382-3394 | For every text: each argument ends at the first comma that is no deeper than its start, and the loop indexes past the end if and only if the text ends deeper than its last argument starts |
| `ConstructorArgs.ArgumentsAreTopLevel` | scripts/cpplint.py:3382-3394 | Without stray closers the result is the split at top-level commas if all brackets are closed, and an index error otherwise |
| `ConstructorArgs.GlueJoins` | scripts/cpplint.py:3386-3394 | For any pieces, a result joins back to the same text and each argument in it is finished |
| `ConstructorArgs.ArgumentsJoinBack` | scripts/cpplint.py:3382-3394 | Whatever the text, arguments that are recovered join back to it |
| `ConstructorArgs.ComparisonRunsOut` | scripts/cpplint.py:3389-3391 | A concrete text that makes the loop index past the end |
| `ConstructorArgs.ArrowThenComparisonRunsOut` | scripts/cpplint.py:3389-3391 | A concrete text with equal counts of both brackets that does so too |
| `Comments.FindNextMultiLineCommentStart` | scripts/cpplint.py:1843-1851 | The first line from a position on that begins a comment without ending it, or the number of lines |
| `Comments.FindNextMultiLineCommentEnd` | scripts/cpplint.py:1854-1860 | The first line from a position on that ends a comment, or the number of lines |
| `Comments.StartRead` | scripts/cpplint.py:1846-1848 | Between any white space, a line begins a comment that goes on if and only if it starts with the opening mark and no closing mark follows it |
| `Comments.EndRead` | scripts/cpplint.py:1857 | Between any white space, a line ends a comment if and only if it ends with the closing mark |
| `Comments.RemoveMultiLineCommentsFromRange` | scripts/cpplint.py:1863-1868 | Exactly the lines of the range become the placeholder |
| `Comments.RemoveMultiLineComments` | scripts/cpplint.py:1871-1884 | Terminates; in place, a line becomes the placeholder if and only if it lies in a comment that ends later; the error names the line where a comment without an end begins, if there is one |
| `Comments.CleanedLine` | scripts/cpplint.py:1871-1884 | No comment begins before the one that never ends, and from there on the lines are untouched |
| `Comments.CleanedTwice` | scripts/cpplint.py:1871-1884 | Whatever begins and ends a comment, as long as the placeholder begins none: erasing twice is erasing once, in lines and in error outcome, also when the last comment never ends |
| `Comments.RemoveMultiLineCommentsTwice` | scripts/cpplint.py:1843-1884 | The eraser called twice on one array: the second call changes no line and reports the same error, and without an error no line begins a comment |
| `RawStrings.RawTurnerIsSound` | scripts/cpplint.py:1787-1837 | Each turn of the inner loop strictly shortens the line, and a turn changes nothing exactly when there is no live raw string |
| `RawStrings.RawIsWritten` | scripts/cpplint.py:1818 | What is taken for a raw string is one of the five prefixes where a word may begin, a quote, a delimiter without white space, backslash and parentheses, and a parenthesis |
| `RawStrings.RawEmptied` | scripts/cpplint.py:1818-1829 | In a line written as text, prefix, delimiter, parenthesis, body, end and text, the first raw string becomes an empty string and the text around it stays, unless it is commented out |
| `RawStrings.RawCut` | scripts/cpplint.py:1818-1832 | A first raw string that does not end on the line becomes an empty string, what follows it is dropped, and its end is remembered |
| `RawStrings.RawOverLines` | scripts/cpplint.py:1789-1832 | A raw string over any number of lines leaves the text before it and an empty string, one empty string for each line between, and the leading space of its last line, an empty string and the text after it, which is treated like the start of a line |
| `RawStrings.CutHasNoRaw` | scripts/cpplint.py:1831-1834 | Cutting a line at its first raw string leaves no raw string |
| `RawStrings.CleanseRawStrings` | scripts/cpplint.py:1767-1840 | The loops terminate, never miss the leading space, and give one line out for each line in, equal to Cleanse, whose turns are those of RawEmptied and RawCut |
| `RawStrings.InsideRawString` | scripts/cpplint.py:1787-1803 | Before each line it is determined which raw string is open; a line without its delimiter comes out empty and leaves it open, from any other only leading space and what follows the first delimiter is treated like a line |
| `RawStrings.UnchangedIffNotLive` | scripts/cpplint.py:1767-1840 | Lines come out unchanged if and only if none of them has a live raw string |
| `RawStrings.CleanseTwice` | scripts/cpplint.py:1767-1840 | Removing raw strings twice is removing them once, and no live one is left |
| `IncludeOrder.IncludeState.CheckNextIncludeOrder` | scripts/cpplint.py:1187-1244 | The next section, the error and when the last header is forgotten; the section never moves backwards |
| `IncludeOrder.NoErrorIffInOrder` | scripts/cpplint.py:1187-1244 | A run of headers since a reset has no error if and only if it has the shape my* C* C++* other-system* (my or other)* |
| `IncludeOrder.IncludeState.CheckAll` | scripts/cpplint.py:1187-1244 | Checking a run of headers from a reset on reports none if and only if they are in order |
| `IncludeOrder.DeletingReported` | scripts/cpplint.py:1187-1244 | Deleting a header that is reported leaves every other report as it was |
| `Filters.IsFiltered` | scripts/cpplint.py:1669-1682 | The loop decides by the last filter that concerns the category |
| `Filters.ConcernsPrefix` | scripts/cpplint.py:1670-1676 | A filter concerns the categories that its text, after the sign, is a prefix of |
| `Filters.LaterLayerDecides` | scripts/cpplint.py:1309-1322 | A later layer of filters decides every category it concerns and leaves the others to the earlier layers |
| `Filters.FiltersRead` | scripts/cpplint.py:1315-1318 | Filters are told apart by commas, white space around them does not count, and empty ones are dropped |
| `Filters.ValuesConcat` | scripts/cpplint.py:6480-6510 | The options of a configuration file are read in order, and nothing is left if one of them excludes the source |
| `Filters.ValuesOfOne` | scripts/cpplint.py:6489-6510 | What each option contributes |
| `Filters.CollectStops` | scripts/cpplint.py:6467-6490 | Configuration files are read from the nearest directory upwards up to the first one that says it has no parent; what lies further out does not matter |
| `Filters.NearestDecides` | scripts/cpplint.py:6537-6542 | The filter option read first, the nearest directory's, beats every other option, the command line and the defaults |
| `Filters.LintState.AddFilters` | scripts/cpplint.py:1313-1322 | The filters are appended, and the call fails if and only if some filter has no sign |
| `Filters.LintState.ProcessFile` | scripts/cpplint.py:6545-6635 | The filter list is restored on all three return paths (excluded, unreadable, checked), and only a filter without a sign makes the call fail; the categories of a file that is checked are decided by all layers together |
| `Filters.LintState.ProcessFiles` | scripts/cpplint.py:6545-6635 | After any sequence of files whose filters are well formed the filter list is its initial value |
| `BinaryToArray.EmitBytes` | scripts/binary_to_array.py:184-196 | Reading the emitted lines gives the input bytes and one final zero; there are n / 12 + 2 lines with the terminator |
| `BinaryToArray.DataLinesShape` | scripts/binary_to_array.py:185-195 | There are n / 12 + 1 data lines, none wider than 75 columns |
| `BinaryToArray.TwoBytesPrinted` | scripts/binary_to_array.py:186-195 | The text of two bytes, to the character |
| `BinaryToArray.ReadEmitted` | scripts/binary_to_array.py:184-202 | The round trip from any byte on, so `sizeof` minus 1 is the input length |

## Left out

- GetTextInside: the search for the start pattern is a parameter, the end of its match, because the pattern is the caller's regular expression.
- InTemplateArgumentList: the regular expression that splits a line at its next stop character is modelled as the first such character; its backtracking on a line without one ends on the next line either way.
- UpdateBlocks: the regular expression for class declarations and its attribute and template checks are an arbitrary matcher whose matched part holds no brace, semicolon or closing parenthesis.
- NestReturns: between a namespace or class head and its brace or semicolon only parentheses may come, since a second head there is not C++.
- CleanseRawStrings: whether a raw string stands in a comment is an arbitrary predicate, because the code's test is an admitted heuristic.
- ProcessFile: reading configuration files, the options other than filters and exclusion, and the lint run itself are parameters or left out; the other options are not restored between files.
- White space and word characters are the ASCII ones.
- Nesting state: `extern "C"` blocks, inline assembler, access specifiers, indentation, base classes and the previous stack top are not modelled; an `extern "C"` block counts as a plain one.
- Projects: a build phase is a multiset of references, a new subgroup stands for its parent's directory, dropping a reference that a phase does not hold does nothing, and patterns are arbitrary predicates, because the Xcodeproj library is not part of the repository.
- Projects: sorting, printing, configuration merging and a group path that names a regular file are not modelled.
- Podspecs: loading a specification is a function from file names to dependency lists; a specification that fails to load is not modelled.
- Include order: the classification of headers and the alphabetical check are not modelled.
- The header, namespace and size lines around the emitted byte array.
- The per-line style checks of cpplint and the release, lint-driver and generator scripts: each is one branch or one pattern, with no property that spans operations.
- The Objective-C and Swift sources, whose headers declare interfaces only.
