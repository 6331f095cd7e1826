# Sinter's decision logic, modelled and proved

Sinter is a configuration-management engine: it reads recipes, orders their resources, evaluates
conditions, and plans, applies or audits them on targets. This project models the parts that decide
rather than transport, and proves what they promise:

- the expression language (lexer, parser, three-valued evaluator with sensitivity flags, `{{ }}`
  templates, the detector of unsupported template tags): `Syntax`, `Literals`, `Parsing`, `Printing`,
  `Interpolation`, `Templates`, `Evaluation`, `Meaning`, `Soundness`, `TemplateTags`
- the plan/apply engine (execution order, run loop, dependency gate, fail-fast, handlers, report, what
  earlier changes may affect a path): `Ordering`, `Results`, `Effects`, `Engine`, `Outcomes`, `Run`,
  `Blocked`, `PlanApply`, `PlanGuards`
- the account resources with the shadow-utils commands they issue: `AccountTools`, `Accounts`,
  `AccountArgs`, `Convergence`, `Safeguards`, `AccountRun`
- host selection: `Glob`, `Selection`
- the backup stage, its run ids and paths: `Calendar`, `Paths`, `Backup`
- command lines, bounded captures and what a command leaves behind: `CommandLine`, `Capture`, `CommandRun`

`Text.dfy` holds `Wrappers` and the string functions several modules share (`Text`).

Code of the original that is made of expressions is a function here. Code that steps through a loop or
updates an object is a method or a class (`Lexer`, `Parser`, `Runner`, `PlannedEffects`, `Resolution`,
`RemoteStream`, `Target`), proved equal to a function or to a stated property; the theorems are then
about that function. Conditions, dispatch outcomes, handlers, copies and stream reads are arbitrary
parameters, so every theorem about a run is about every world the run could meet.

`dafny verify dfyconfig.toml` checks the project.

## Where the code and its comments or tests differ

- `src/inventory.rs:634` says the hosts of an accepted limit are a subset of the targeted hosts. They are
  not (`Selection.LimitMayNameMore`): `*` also returns untargeted hosts. What the following
  `apply_allowed` selects is (`Selection.LimitNarrows`).
- Handlers pending after a resource stopped the run are reported in name order, not in declaration order
  (`Run.StoppedPendingByName`, exact condition in `Run.AlwaysDeclarationOrder`).
- `check_overlap` compares texts with a slash appended, so `/` overlaps only itself; recipes cannot
  declare `/` (`Paths.OverlapExact`, `src/document.rs:431`).
- Non-interference of `result` holds if and only if no completeness flag is sensitive while its stream
  is public (`Soundness.NonInterferenceExact`). The scope of `changed_when` meets that by leaving the
  flags public, although they are computed from the sensitive bytes (`src/resources.rs:2863-2870`): what
  unflagged results tell of a sensitive command is its exit code and whether each stream can be used
  (`Capture.ChangedWhenTells`, witness `Capture.CompletenessTells`). The error of a condition is reported
  too, by its category, and the value whatever its flag; with that, what is told is all that the usable
  streams say (`Capture.ErrorsTell`, witness `Capture.ErrorTells`).
- A `when` decided in plan can come out otherwise in apply. A command whose guard is satisfied stores a
  definite register in plan (`src/resources.rs:2895-2907`) although the guard may flip, which plan records
  at the same time. Plan's decisions hold exactly as long as no such command executes
  (`PlanApply.DecisionsStayExact`, witness `PlanGuards.FlipWitness`), and plan's record is enough to know
  that none does (`PlanGuards.RecordForesees`).
- No text splits into a literal that ends in a backslash, or in a run of exactly one brace, followed by
  an expression; everything else can be written (`Interpolation.SplitImage`).
- An account removed locally that another identity source also provides does not reach `absent`: the
  run's own second look then refuses to manage it (`Convergence.DeletionUncovers`, exact condition in
  `Convergence.UserReaches` and `Convergence.GroupReaches`).
- The bytes of a remote capture that was cut off by an error are not marked truncated; only the
  completion says so (`Capture.CutOffIsNotMarked`). The register is stored all the same, and what keeps
  anyone from reading it is that an indeterminate result stops the run
  (`CommandRun.LaterReadersGetAll`).

## Model

| member | source | states |
|---|---|---|
| Parsing.Lexer.SkipSpace | src/expressions.rs:173-181 | leaves exactly the text after the leading white space |
| Parsing.Lexer.TakeString | src/expressions.rs:255-283 | the quoted text with escapes resolved and what follows the closing quote, or an unterminated-string error |
| Parsing.Lexer.NextToken | src/expressions.rs:183-253 | takes exactly the first token of what is left, or gives the lexical error |
| Parsing.Lexer.NextWord | src/expressions.rs:285-322 | a number or word token takes the longest run of its characters; a malformed number is an error |
| Parsing.Parser.OrExpr | src/expressions.rs:363-371 | the token parser consumes what the grammar's `or` level consumes and gives its tree |
| Parsing.Parser.AndExpr | src/expressions.rs:373-381 | the same for `and`, left-associative |
| Parsing.Parser.NotExpr | src/expressions.rs:383-390 | the same for prefix `not` |
| Parsing.Parser.CmpExpr | src/expressions.rs:392-406 | the same for one non-associative comparison |
| Parsing.Parser.PrimaryExpr | src/expressions.rs:408-426 | the same for literals, references and parentheses |
| Parsing.ParseSource | src/expressions.rs:329-346 | terminates on every text with the tree of the grammar, or an error |
| Literals.LiteralExact | src/expressions.rs:255-283 | a text in either quotes is read exactly as the pieces it is written with: characters for themselves, and escapes for what the six known ones stand for, any other keeping its backslash |
| Literals.SpaceSkipped | src/expressions.rs:173-181 | spaces, tabs and line ends in front of a token change nothing |
| Literals.FloatExact | src/expressions.rs:285-322 | a float is digits, an optional fraction that may have no digits, and an optional signed exponent, and nothing else |
| Printing.LexInverts | src/expressions.rs:183-322 | lexing a rendered token list gives the list back |
| Printing.OrInverts | src/expressions.rs:348-426 | parsing tokens printed with only the parentheses precedence needs gives the tree back and leaves the rest |
| Printing.ParsePrint | src/expressions.rs:329-427 | printing then lexing then parsing any tree gives the same tree |
| Printing.ParserImage | src/expressions.rs:329-471 | the trees the parser can produce are exactly the printable ones |
| Printing.ReparsePrinted | src/expressions.rs:329-471 | every text that parses has the same meaning as its printed normal form |
| Interpolation.FindClose | src/expressions.rs:937-963 | the first closing braces outside quotes, escapes inside quotes skipped |
| Interpolation.SplitText | src/expressions.rs:900-935 | the index loop gives the literal and expression segments of the text, or the first error |
| Interpolation.ScanForInterpolation | src/expressions.rs:1157-1171 | true exactly when an unescaped opener occurs |
| Interpolation.HasInterpolationExact | src/expressions.rs:1157-1171 | false exactly when splitting meets no expression; when true splitting fails or yields an expression |
| Interpolation.EscapeRoundTrip | src/expressions.rs:900-935 | escaping every opener of any text and splitting yields one literal, the original |
| Interpolation.CloseAfterPrint | src/expressions.rs:937-963 | the closing scan agrees with the lexer: it never stops inside a printed expression |
| Interpolation.TemplateRoundTrip | src/expressions.rs:848-963 | writing segments and splitting gives them back if and only if any text at all splits into them |
| Interpolation.SplitImage | src/expressions.rs:900-935 | exactly which segment lists splitting can produce: the empty literal alone, or non-empty literals with an expression between any two, none in front of an expression ending in a backslash or a run of one brace |
| Interpolation.SpelledScans | src/expressions.rs:900-935 | a literal written with its braces escaped in pairs, the odd one in front, is read back whatever follows |
| Templates.LexedCloses | src/expressions.rs:937-963 | for every text the lexer accepts, either kind of quotes included, the closing braces found are those right behind it |
| Templates.AnyExpression | src/expressions.rs:900-935 | any text that parses, put in braces, is split off as its expression, whatever is around it |
| Evaluation.InterpolateText | src/expressions.rs:859-898 | the accumulating loop gives the specified value, Unknown or error of an interpolated text |
| Evaluation.InterpolateValue | src/expressions.rs:966-1016 | the same for lists and maps, element by element |
| Meaning.DegreeExact | src/expressions.rs:514-846 | a condition comes out true, undecided or false exactly as the greater, lesser or negative of its parts' degrees of truth, and is an error exactly when a part that has to be looked at is |
| Meaning.DecidedClassically | src/expressions.rs:740-846 | a decided condition is what classical logic makes of its atoms whatever the undecided ones are; with every atom decided it is decided |
| Meaning.DeMorgan | src/expressions.rs:514-846 | De Morgan's laws and double negation, errors, Unknown and sensitivity included |
| Meaning.ComparesAs | src/expressions.rs:690-738 | the six operators are equality and the order of the integers and of the texts character by character, one the negation of another; other pairs are errors of the right category |
| Meaning.ComparisonMeans | src/expressions.rs:671-688 | a comparison is undecided when either side is Unknown and flagged when either side is |
| Meaning.NegatedComparison | src/expressions.rs:518-536 | `!(a < b)` is `a >= b`, and likewise for every operator, if and only if no pair of floats is in the way |
| Meaning.ReferenceReads | src/expressions.rs:537-632 | `vars.x` and `template.x` read the binding of that name in that table, or are the error of its absence |
| Meaning.FactReads | src/expressions.rs:553-618 | `facts.a.b` reads that fact, never flagged, and `item` the loop item with its flag |
| Meaning.FieldReads | src/expressions.rs:634-669 | what a register's field reads as in every case: Unknown, incomplete, missing, or its entry |
| Meaning.FlagComesFrom | src/expressions.rs:514-846 | a flagged result has a flagged reference in it: nothing is flagged without a reason |
| Meaning.SegmentsMean | src/expressions.rs:866-897 | an interpolated text is the concatenation, in order, of the literals and the scalars' texts, flagged when one of them is; the first error or Unknown ends it |
| Meaning.TextConcat | src/expressions.rs:866-897 | the text of two lists of segments is the text of the first followed by that of the second, errors, Unknown and flags included |
| Meaning.TextMeans | src/expressions.rs:859-898 | of any text: the split error, the one expression's own value, or the text of its segments |
| Meaning.PlainText | src/expressions.rs:859-935 | a text with its openers escaped stands for itself in every scope |
| Meaning.HostText | src/expressions.rs:859-898 | `web-{{ facts.hostname }}` is `web-` followed by the host's name |
| Meaning.ValueMeans | src/expressions.rs:966-1016 | a list has the values of its items in their places and a map each key with its own value; the first error or Unknown ends it |
| Meaning.ScalarMeans | src/value.rs:76-85 | the text of null, a boolean or an integer is the source text that is read back as it; a negative number has a sign in front |
| Soundness.NonInterference | src/expressions.rs:514-846 | scopes that differ only in sensitive values give the same result wherever the result is not flagged; whether the other side is an error is not compared |
| Soundness.TextNonInterference | src/expressions.rs:859-898 | the same for interpolated text |
| Soundness.ValueNonInterference | src/expressions.rs:966-1016 | the same for nested values |
| Soundness.NonInterferenceExact | src/expressions.rs:514-669 | non-interference holds of a scope if and only if no completeness flag of `result` is sensitive while its stream is public |
| Soundness.UnflaggedLeaks | src/expressions.rs:582-632 | a public stream with a sensitive completeness flag reveals it |
| Soundness.UnknownSound | src/expressions.rs:514-846 | a definite value computed with Unknown inputs stays that value, or becomes an error, when they are filled in |
| Soundness.TextUnknownSound | src/expressions.rs:859-898 | the same for interpolated text |
| Soundness.ValueUnknownSound | src/expressions.rs:966-1016 | the same for nested values |
| Soundness.WhenStays | src/expressions.rs:1019-1029 | a decided `when` evaluated again in a scope that fills in Unknowns comes out the same, or as an error; which scopes of plan and apply are such is `PlanApply.FilledInExact` |
| Soundness.ErrorsDoNotStay | src/expressions.rs:740-846 | both directions of the error exception are real: a value can become an error and an error a value |
| TemplateTags.ScanPositions | src/expressions.rs:1105-1154 | collects in order all openers and closers outside interpolations and escapes |
| TemplateTags.PartitionPoint | src/expressions.rs:1105-1154 | the binary search finds the first position not below the bound |
| TemplateTags.TagByIndex | src/expressions.rs:1105-1154 | comparing list neighbours decides whether an opener is closed before the next opener of its kind |
| TemplateTags.FirstOfKind | src/expressions.rs:1105-1154 | the leftmost tag of a kind, None when there is none |
| TemplateTags.LineAndColumn | src/expressions.rs:1105-1154 | line is one more than the line ends before the position, column one more than the characters since |
| TemplateTags.UnsupportedTemplateTag | src/expressions.rs:1105-1154 | exactly the leftmost closed tag of either kind with its place, None if and only if no tag exists |
| TemplateTags.TagWhere | src/expressions.rs:1126-1133 | `{% %}` is a tag anywhere, `{# #}` is one unless a `$` stands in front of it |
| Ordering.ExecutionOrder | src/engine.rs:1184-1224 | succeeds exactly when all dependencies exist and the graph is acyclic, and then returns the lexicographically least topological order |
| Ordering.GreedyLeast | src/engine.rs:1184-1224 | taking the smallest ready index each time is no larger than any topological order |
| Ordering.TopologicalAcyclic | src/engine.rs:1184-1224 | a graph with a topological order has no cycle |
| Ordering.StuckIsCyclic | src/engine.rs:1184-1224 | when nothing is ready and resources remain, there is a cycle |
| Paths.PrefixTest | src/engine.rs:154-187 | the text test for at-or-below is the prefix order of path components |
| Paths.StrictPrefixTest | src/engine.rs:154-187 | the same for strictly below |
| Paths.OverlapExact | src/backup.rs:177-186 | the overlap check finds every containment of path and store either way, the root directory excepted |
| Paths.StoreChainNested | src/backup.rs:89-108 | the store chain is two valid paths, each one component below the last, under `/var/lib` with sudo and under the home directory without |
| Effects.AffectingExact | src/engine.rs:170-187 | None if and only if nothing unknown was planned and no run of the recorded changes can alter the path or an ancestor |
| Effects.AffectingSubtreeExact | src/engine.rs:154-166 | the same with everything below the path included |
| Effects.AffectingStays | src/engine.rs:113-187 | recording more never takes a warning back, and one about unknown changes keeps naming the same resource |
| Effects.StoreWarned | src/engine.rs:215-235 | a path in the backup store is warned about exactly when apply will, or may, create a directory of its chain |
| Effects.PlannedEffects.Record | src/engine.rs:125-141 | afterwards a path is given as unaffected exactly when it was before and the result changed nothing, or no path at or above it, or only accounts or roles |
| Effects.PlannedEffects.RecordBackupStore | src/engine.rs:219-235 | records the first directory of the store chain that apply will create, and no other |
| Effects.PlannedEffects.GuardedCommandMayRun | src/engine.rs:146-150 | afterwards a path is given as unaffected exactly when it was before and so was the guard's path |
| Effects.PlannedEffects.GuardMayFlip | src/resources.rs:352-363 | the same, and with links on the way to the guard only if no path change is planned at all |
| Engine.HistoryAt | src/engine.rs:441-610 | each outcome is the decision on the results before it |
| Engine.OneResultEach | src/engine.rs:441-610 | one result per resource, in execution order |
| Engine.SatisfiedWasDispatched | src/engine.rs:487-563 | nothing but a dispatched resource satisfies a dependency |
| Engine.FailFast | src/engine.rs:441-610 | after the first failed or indeterminate result nothing is dispatched and every result is blocked by fail-fast; before it none is |
| Engine.DispatchGate | src/engine.rs:461-563 | dispatched implies condition true, no stop before, and every direct dependency ran and satisfied |
| Engine.TransitiveGate | src/engine.rs:487-563 | and so did everything reached through any chain of dependencies |
| Engine.AlwaysProcessed | src/engine.rs:487-540 | in a topological order a dependency is never "not processed" |
| Engine.NotifiedInOrder | src/engine.rs:592-606 | each notified handler is queued once, in name order |
| Outcomes.OutcomeExact | src/engine.rs:441-563 | for each way a resource can be run or not run, exactly when its result says so, in terms of the four dimensions of the results before it; what is not run reports no change |
| Outcomes.DispatchTold | src/engine.rs:564-575 | a dispatched resource reports its own result; of an error, failed or indeterminate, and unchanged, changed or possibly changed as the mutation was |
| Outcomes.PlanErrsExact | src/engine.rs:472-575 | a plan ends in an error exactly when it comes to a resource whose condition or dispatch is one |
| Outcomes.NotifiedExact | src/engine.rs:592-606 | a handler is queued exactly by a resource that was run, succeeded, certainly changed something and was not found otherwise |
| Engine.WarningStays | src/engine.rs:437-450 | a path warned about stays warned about for the rest of the plan, guarded commands included |
| Engine.PlannedExact | src/engine.rs:113-187 | at every position of a plan a path is given as unaffected if and only if nothing reported so far may have changed it or an ancestor, and no satisfied guard may have flipped |
| Run.Runner.CheckDependencies | src/engine.rs:487-540 | the gate over the results so far: open, blocked by a dependency, or unknown |
| Run.Runner.Visit | src/engine.rs:461-590 | one resource's outcome: condition, then gate, then dispatch |
| Run.Runner.RunResources | src/engine.rs:425-610 | the loop produces the run's history, queue, stop flag and planned effects, with what planning guarded commands adds |
| Run.Runner.RunHandlerStage | src/engine.rs:617-705 | runs handlers in order until one stops, the rest stay pending |
| Run.Runner.Run | src/engine.rs:395-767 | order error exactly for missing dependencies or cycles, backup error exactly when an apply's copying fails, plan error exactly when the only possible order has no history; else the report of that history |
| Run.OneRunOrder | src/engine.rs:1184-1224 | a recipe has at most one order a run can take |
| Run.SortByDeclaration | src/engine.rs:627-634 | the notified handlers sorted by where they are declared |
| Run.HandlerStageExact | src/engine.rs:617-705 | run followed by pending is each notified handler in declaration order, each with what it does after those before it, only the last run one failed or indeterminate; none runs after a resource stop or in plan |
| Run.StatusExact | src/engine.rs:717-749 | one condition for each status, over the resources' executions, the handlers' states and what the manager says when asked with whether anything broke |
| Run.DeclaredOnce | src/engine.rs:617-705 | no handler appears twice |
| Run.AlwaysDeclarationOrder | src/engine.rs:617-705 | run followed by pending is in declaration order in every case if and only if that is also name order |
| Run.StoppedPendingByName | src/engine.rs:695-705 | two handlers and a stop for which pending is not in declaration order |
| Run.SuccessMeansDone | src/engine.rs:731-749 | status success leaves no handler pending or failed and no resource failed, indeterminate or blocked by fail-fast |
| Blocked.CertainlyBlocked | src/accounts.rs:1118-1137 | the worklist terminates and is true exactly when a resource one or more dependency edges away has a false condition |
| Blocked.BlockedNeverDispatched | src/accounts.rs:1113-1137 | the engine never dispatches what it calls blocked, for conditions that read anything, as long as what was false does not come out true |
| Blocked.BlockedExact | src/engine.rs:487-563 | with decided conditions and no failures a resource runs exactly when its condition is true and it is not certainly blocked |
| PlanApply.PlanDecides | src/engine.rs:461-563 | as long as no command behind a register found its guard satisfied in plan and executed in apply: a condition plan finds false is never dispatched by apply, one it finds true is never skipped |
| PlanApply.PlanBlocks | src/accounts.rs:1113-1137 | under the same condition, what plan finds certainly blocked is never dispatched by apply |
| PlanApply.FilledInExact | src/resources.rs:2632-2660 | apply's registers fill in plan's if and only if no command both have a register of found its guard satisfied in plan and executed in apply |
| PlanApply.DecisionsStayExact | src/engine.rs:773-822 | every condition that could stand at a position keeps plan's decision if and only if no register stored before comes from such a command |
| PlanApply.NotExecutedFlips | src/resources.rs:2895-2907 | for any such command, the condition that it was not executed is true in plan and false in apply |
| PlanApply.ConditionMeans | src/engine.rs:773-822 | a `when` holds, does not hold or is undecided as its degree of truth says, and is an error exactly when it does not parse or has none |
| PlanGuards.NotRunStays | src/engine.rs:461-563 | what plan skips or blocks for certain apply does not dispatch, as long as nothing flipped before |
| PlanGuards.GuardsStay | src/resources.rs:352-363 | a guard that plan's own record clears does not flip, whatever the commands before it do |
| PlanGuards.RecordForesees | src/engine.rs:113-187 | as long as plan's record gives any path as unaffected, no command has flipped |
| PlanGuards.FlipWitness | src/resources.rs:2632-2647 | a recipe of three resources where plan finds the last one due and apply skips it, a plan and an apply run in full, with plan's record saying that the guard may flip |
| AccountArgs.GroupaddReads | src/accounts.rs:908-919 | `groupadd` reads back exactly the declared name, gid and system flag |
| AccountArgs.UseraddReads | src/accounts.rs:921-951 | `useradd` reads back every declared field and nothing else |
| AccountArgs.UsermodReads | src/accounts.rs:953-982 | `usermod` reads back exactly the differing fields, with `-a` whenever groups are named |
| AccountArgs.GroupsRead | src/accounts.rs:934-937 | the comma-joined group list is read back as those groups |
| AccountArgs.PasswordReads | src/passwd_hash.rs:160-171 | the `chpasswd` input is one record that sets one user's hash and nothing else |
| Convergence.DriftExact | src/accounts.rs:744-842 | no differing dimension if and only if the local databases hold the declared state, and then nothing is refused or missing |
| Convergence.MembershipsExact | src/accounts.rs:846-855 | a group is listed exactly when it is declared, exists locally and lacks the user; as nonexistent exactly when it exists nowhere |
| Convergence.MissingIn | src/accounts.rs:756-765 | the missing groups are exactly the declared groups without a local record |
| Convergence.UseraddCreates | src/fakesys.rs:1591-1707 | the emitted `useradd` succeeds and creates the declared user, member of the declared groups, with the defaults where nothing is declared, and changes nothing else |
| Convergence.UseraddExact | src/fakesys.rs:1591-1707 | the emitted `useradd` fails exactly for a name or uid that is taken, a missing group, or an own group whose name is taken |
| Convergence.GroupaddExact | src/fakesys.rs:1510-1590 | the emitted `groupadd` fails exactly for a name or gid that is taken, and otherwise adds the declared group, empty |
| Convergence.UsermodModifies | src/fakesys.rs:1709-1805 | the emitted `usermod` sets the declared fields, keeps the uid and every membership, and fails only for a home directory in use |
| Convergence.UserdelDeletes | src/fakesys.rs:1807-1842 | `userdel` removes the user, its password and memberships, and fails only for a user with processes |
| Convergence.UserdelGroup | src/fakesys.rs:1807-1842 | the user's own group goes with it exactly when it has the user's primary gid and no other user has |
| Convergence.UserReaches | src/accounts.rs:1492-1727 | after a decided change the commands succeed unless a process is in the way, and the declared state holds if and only if the user is present or no other source provides the deleted one |
| Convergence.SettledKeeps | src/audit.rs:1290-1316 | a run keeps everything, and audit complies, if and only if the declared state holds |
| Convergence.SecondRunKeeps | src/accounts.rs:1492-1555 | a second run after a completed one issues no command in either mode, and audit complies |
| Convergence.RerunFinishes | src/accounts.rs:1645-1661 | when only the password could not be set, the next run issues that one command, or nothing |
| Convergence.UserRunKeeps | src/accounts.rs:3-20 | no run touches another user or password, renumbers a user or group, removes a membership of a present user, or touches another source |
| Convergence.UidsStayDistinct | src/accounts.rs:1580-1594 | distinct uids stay distinct |
| Convergence.LockedStays | src/passwd_hash.rs:150-156 | no run replaces a locked password |
| Safeguards.EssentialStay | src/accounts.rs:1026-1037 | no run of any user in any session deletes root, a uid-0 account, the account the run executes as or the one the session logged in as |
| Safeguards.DeletionExact | src/accounts.rs:1596-1606 | a local user to be deleted is refused as protected exactly when it is one of these, and otherwise deleted |
| Safeguards.NeededStay | src/accounts.rs:1276-1330 | no run of a group deletes root's group, the run's own or any user's primary group |
| Safeguards.GroupDeletionExact | src/accounts.rs:1299-1327 | a local group to be deleted is refused exactly when it is one of these, and otherwise deleted |
| Safeguards.GroupPresentExact | src/accounts.rs:1283-1298 | an absent group is created unless its gid is in use anywhere; an existing one is kept, or refused when its gid differs |
| Safeguards.ChangeExact | src/accounts.rs:1492-1606 | exactly when a user is changed, in terms of the databases, the session and the desired state |
| Safeguards.DeferExact | src/accounts.rs:1513-1551 | plan defers a user exactly when groups are missing and every one of them is still to be created |
| Safeguards.RefusalTells | src/accounts.rs:1492-1606 | the reason a refusal gives is the case |
| Safeguards.DimensionsExact | src/accounts.rs:766-842 | the dimensions reported are exactly those in which the databases differ from what is declared |
| Safeguards.AuditAgrees | src/audit.rs:1287-1316 | audit reports the dimensions a run would change, also of a change a run refuses; what audit cannot compare a run refuses for the same reason |
| Safeguards.GroupAuditAgrees | src/audit.rs:1287-1316 | the same for a group |
| Safeguards.SameExact | src/passwd_hash.rs:126-156 | a stored password is the desired one exactly when it is its hash behind any number of lock marks |
| Safeguards.LockedExact | src/passwd_hash.rs:126-156 | it counts as locked with another password exactly when it starts with a lock mark and a different hash is behind them |
| Convergence.PlanIsApply | src/accounts.rs:1513-1627 | a planned change is command for command the change apply makes; plan refuses more only for a same-named group certainly created earlier |
| Convergence.DeferralResolves | src/accounts.rs:1513-1551 | once earlier resources created the missing groups, a deferred user is neither deferred nor refused for a missing group |
| Convergence.DeletionUncovers | src/accounts.rs:744-748 | a deleted user that another source provides: deleted, not settled, and refused from then on, in every session that may delete it |
| Convergence.GroupReaches | src/accounts.rs:1218-1273 | a decided group change always succeeds, touches only that group, and reaches the declared state unless another source provides the deleted group |
| Convergence.GroupSecondRun | src/accounts.rs:1218-1236 | kept, and compliant, exactly in the declared state; a second run issues nothing |
| AccountRun.Target.ObserveUser | src/accounts.rs:1339-1363 | the observation holds the user, the declared primary group and every declared group in order |
| AccountRun.Target.RunUser | src/accounts.rs:1492-1727 | follows the decision; in apply issues its commands up to the first failure and reports verified exactly when the declared state was reached, everything undeclared kept; in every session root, the run's own and the login account stay |
| AccountRun.Target.SendBoth | src/accounts.rs:1628-1665 | sends up to the first failing command; the failure says whether the account command went through |
| AccountRun.Target.RunGroup | src/accounts.rs:1218-1273 | the same for a group; root's group, the run's own and primary groups stay |
| Glob.GlobMatch | src/inventory.rs:602-627 | terminates and matches exactly when trying every split for every `*` matches |
| Glob.StarStep | src/inventory.rs:602-627 | forgetting earlier stars at a new one loses no match |
| Glob.MatchesConcat | src/inventory.rs:602-627 | a pattern matches exactly what its parts match one behind the other |
| Glob.PieceMeans | src/inventory.rs:602-627 | `*` matches everything, `?` any one character, any other character itself, and no pattern nothing |
| Selection.ResolveExact | src/inventory.rs:286-334 | succeeds exactly when all names exist and something is meant, and then targets exactly the named hosts and group members |
| Selection.ReasonsExact | src/inventory.rs:309-325 | a host is reported as targeted by its own name and by each named group it is in, and by no other |
| Selection.Resolution.ApplyAllowed | src/inventory.rs:272-278 | marks exactly the targeted hosts outside the allowed set |
| Selection.NarrowedExact | src/inventory.rs:272-278 | after any narrowings the selected hosts are those in every allowed set, targeting unchanged |
| Selection.NarrowingOrderFree | src/inventory.rs:272-278 | in any order of the narrowings |
| Selection.ItemHosts | src/inventory.rs:659-718 | an item is accepted when it is not ambiguous and names something, and stands for exactly what it names |
| Selection.MatchLimit | src/inventory.rs:636-655 | accepted if and only if every item names something and reaches a targeted host |
| Selection.LimitNarrows | src/inventory.rs:628-655 | after narrowing, the selected hosts are the targeted ones the limit names |
| Selection.LimitStaysInside | src/inventory.rs:628-655 | an accepted limit stays inside the targeted hosts if and only if each of its patterns matches and each of its groups holds targeted hosts only |
| Selection.LimitMayNameMore | src/inventory.rs:1049-1054 | an accepted limit that names an untargeted host |
| Selection.SelectorTargets | src/inventory.rs:559-575 | a selector made into targets means exactly what its items name |
| Selection.ResolveWithSelector | src/inventory.rs:583-598 | declared targets win; without them one plain recipe takes the selector, a bundle is refused |
| Selection.SelectorRun | src/inventory.rs:583-655 | a selector on one plain recipe without targets selects exactly the hosts and group members it names |
| Calendar.CivilIsCalendar | src/backup.rs:135-157 | the division arithmetic gives the date reached by stepping day by day from 1970-01-01 under the Gregorian leap rule |
| Calendar.YearOfEraExact | src/backup.rs:139-144 | the year formula inverts the count of days, leap days included |
| Calendar.StampOrder | src/backup.rs:135-157 | up to the year 9999 the text order of stamps is time order |
| Calendar.StampLength | src/backup.rs:135-157 | a stamp has 16 characters if and only if the year is at most 9999 |
| Calendar.StampReads | src/backup.rs:135-157 | every stamp reads back as the calendar's date and the time of day |
| Calendar.StampOrderEnds | src/backup.rs:135-157 | the first stamp of the year 10000 sorts before the last of 9999 |
| Backup.Report | src/backup.rs:204-233 | keeps what was done, marks the failed path, and everything after it as not run |
| Backup.Perform | src/backup.rs:292-361 | succeeds exactly when no path overlaps the store and all copies succeed; every report lists each declared path once in order and says where it stopped |
| Backup.Destination | src/backup.rs:404-409 | a copy's place is a valid path: the original's components below the run directory |
| Backup.CopiesMirror | src/backup.rs:404-409 | no two paths share a copy, and copies nest exactly as originals do |
| Backup.ReportTells | src/backup.rs:404-425 | a completed report says of each path that it was absent, or where its copy is: the original's place below the run directory |
| Backup.ReportMirrors | src/backup.rs:404-425 | the copies reported are distinct and nest exactly as the reported originals do |
| Backup.CopiesAreOutside | src/backup.rs:177-186 | after the overlap check no copy lands on, in or above a path being backed up |
| CommandLine.Quote | src/executor.rs:2524-2538 | the loop gives the single-quoted text |
| CommandLine.BuildRemoteCommand | src/executor.rs:2340-2371 | the loop gives the joined, quoted command line |
| CommandLine.Wrap | src/executor.rs:986-1003 | the local wrapper starts the same argument vector, or the program unchanged |
| CommandLine.PosixWords | src/executor.rs:5121-5156 | the character loop is the word splitting it stands for |
| CommandLine.CommandRoundTrip | src/executor.rs:2340-2371 | for every request word splitting gives back exactly the wrapper, env, directory, variables, program and arguments |
| CommandLine.WrapsAgree | src/executor.rs:986-1003 | remote and local wrapped commands run the same argument vector if and only if the directory is given or defaults to root's |
| Capture.Absorb | src/executor.rs:1006-1046 | one chunk keeps the capture the prefix of all bytes so far |
| Capture.ReadCapped | src/executor.rs:1006-1046 | however the stream is cut into chunks: its prefix of at most the cap, truncated exactly when bytes were lost or the read failed |
| Capture.CutAnywhere | src/executor.rs:1006-1046 | what a pipe delivers does not depend on where its reads are cut or interrupted |
| Capture.RemoteStream.Drain | src/executor.rs:1696-1742 | every drain keeps captured plus pending the whole stream, counts what it took, and breaks off only for an error or the deadline |
| Capture.RemoteStream.Poll | src/executor.rs:1262-1305 | a turn ends the stream only at its end, and always makes progress |
| Capture.CollectRemote | src/executor.rs:1696-1742 | done means both captures are those of the whole streams; undisturbed streams and a late enough deadline are always done |
| Capture.Join | src/executor.rs:948-964 | a reader given up is empty and marked truncated, so either way the capture never passes for more than it is |
| Capture.RunLocal | src/executor.rs:833-912 | a local command that ended has both captures of its whole streams or marked truncated |
| Capture.RunRemote | src/executor.rs:1249-1453 | a remote command that is not indeterminate has both captures of its whole streams; undisturbed, in time and closed, it has the status sent |
| Capture.RegisterRead | src/engine.rs:1284-1343 | reading a register's stream gives its decoded text when complete, an error otherwise |
| Capture.ResultRead | src/resources.rs:2798-2893 | the same for `result` in `changed_when` |
| Capture.WholeStreamOrError | src/expressions.rs:634-669 | a reader of a command that exited or was signaled gets the whole decoded stream or an error, and the whole stream exactly when it fits the cap, was read to its end and decodes |
| Capture.ChangedWhenWhole | src/resources.rs:2798-2893 | the same for `changed_when` of a command that exited |
| Capture.ChangedWhenTells | src/resources.rs:2827-2878 | two outputs of a sensitive command are alike in every unflagged result if and only if both exited with the same code or neither exited, and the same streams can be used; errors not compared |
| Capture.ErrorsTell | src/resources.rs:2880-2892 | with errors compared too, alike if and only if exit code, or its absence, and what each usable stream says agree |
| Capture.ErrorTells | src/resources.rs:2880-2892 | two outputs alike in every unflagged result that one condition tells apart by being an error for one of them |
| Capture.CompletenessTells | src/resources.rs:2863-2870 | two sensitive outputs told apart by a public completeness flag |
| CommandRun.LaterReadersGetAll | src/resources.rs:2690-2795 | in every apply run, whatever is visited after a command executed reads the streams in its register whole or not at all; an indeterminate command's register has no reader |
| CommandRun.LaterReadersSee | src/resources.rs:2690-2795 | in every apply run, what is visited after a command executed reads that it exited with a success code, which one, that it succeeded, and whether it changed anything |
| CommandRun.ReadFields | src/engine.rs:1284-1343 | of any completion a register reads its exit code, or null when there is none, whether it changed anything, and how it is classed |
| CommandRun.UnexecutedReads | src/resources.rs:2632-2660 | after a satisfied guard the register says that nothing was executed or changed, in plan as in apply; after a command plan does not execute every field is Unknown |
| CommandRun.CommandTold | src/resources.rs:2680-2795 | a command succeeded exactly when it exited with a success code and `changed_when` says something, and is changed as that says; anything else is possibly changed |
| CommandRun.RegisterStored | src/resources.rs:2650-2795 | a register is in scope exactly when a command before stored it, with what that command stored |
| Capture.CutOffIsNotMarked | src/executor.rs:1696-1742 | a capture cut off by an error looks complete by itself |

## Left out

- SSH sessions, host-key checks, processes, timeouts, threads: wall-clock behaviour; a deadline is a
  number of reads in `Capture`.
- File, directory, link, package, service and plugin dispatch, manager reloads: dispatch is an arbitrary
  parameter of a run; the engine reads only the four result dimensions.
- Message texts, reasons, diffs, notes, progress events and rendered reports.
- A panic in a reader thread, which `join_with_budget` would turn into an empty capture: the observers
  called there are isolated (`src/executor.rs:41-49`).
- Writing the standard input of a remote command while its streams are collected: an error there makes
  the completion indeterminate like one of the streams.
- `changed_when` texts that do not parse: an error like any other raised while dispatching.
- Floats: their comparison and formatting are parameters (`Floats`), their spelling is kept as text.
- Characters beyond ASCII: which are letters, digits or white space is left open (uninterpreted sets).
- Bytes of account names: the names are strings of characters, one per byte of the accepted ones.
- Parsing of recipes, inventories, `--limit` values and `getent` records, and the schema checks: what they
  guarantee appears as `ValidUser`, `ValidGroup`, `UniqueIds`, `WellFormed` and the like.
- The path components of home and shell fields: they are any text in the account model.
- Opening secrets and the exact hash formats: a hash is any text starting with `$` without `:` and line
  ends; the refusal of one format on one platform is not modelled.
- The order of names inside a group record: members are a set.
- shadow-utils: the semantics follows `src/fakesys.rs`, with `-G` without `-a` replacing the memberships
  and an unreadable id refused as the real tools do; the id picked for a new account is any unused one
  (`PicksFresh`); skeleton files and mail spools are not modelled.
- Failing or malformed account lookups other than a missing password record: they are errors before
  anything is changed.
- Which earlier `group` resources count as producers (`src/accounts.rs:1053-1111`): the sets are
  parameters of `Session`; only the search `certainly_blocked` inside it is modelled.
- Links on the target: a tree has none, and only a guard knows whether links lead to it; a path change
  through a link is taken, as in plan's record, to change the path named.
- What dispatched resources do to the target: `PlanGuards.Bounded` takes each kind to change what plan's
  record takes it to change, and one that plan observed as declared to change nothing.
- Facts that differ between a plan and the apply after it: both use the same scopes but for registers.
- Trust checks, modes and ownership of the backup store: one flag, `prepared`.
- Sensitivity flags of resources and handlers in reports; redaction.
- The audit's counters, labels and exit codes, which count results and name a status; `src/diff.rs`, which
  summarizes two contents for display; `src/fsstage.rs`, a fixed staging script with the reading of its
  answers.
