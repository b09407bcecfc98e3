# Security rewrites over Java syntax trees: a Dafny model

This project models three pieces of rewrite logic from an OpenRewrite security-recipe
repository. Each one is a pure function over immutable trees or ancestor paths.

- **`UseFilesCreateTempDirectory`** replaces a three-statement idiom with one statement.
  - The idiom is `x = File.createTempFile(..); x.delete(); x.mkdir();`.
  - The replacement is `x = Files.createTempDirectory(..).toFile();`, which is secure.
  - The model covers the capture of creation candidates, the per-candidate role map
    (`create`, `secureCreate`, `delete`, `mkdir`), and the block rewrite.
  - It also covers the secure form of the creating call and the Java-version guard.
- **`FileConstructorFixVisitor`** rewrites `new File(a + sep + b)` as `new File(a, b)`.
  `computeNewArguments` finds the split point of the `+` chain by separator, trailing
  slash, recursion down the left spine, or a caller-supplied break-before predicate.
- **`CursorUtil`** answers two queries over the path from a node up to the root:
  - the enclosing executable block;
  - whether an enclosing `try` or method declaration can take a checked exception before
    a static or instance initializer is reached.

Modules:

| module | contents |
|---|---|
| `Wrappers` (`wrappers.dfy`) | `Option` |
| `JTree` (`jtree.dfy`) | the tree fragment (types, expressions, calls, statements with ids) and the signature matcher |
| `TempDirectory` (`temp_directory.dfy`) | `UseFilesCreateTempDirectory` and its `SecureTempDirectoryCreation` visitor |
| `TempDirectoryIdempotence` (`temp_directory_idempotence.dfy`) | a second run of `UseFilesCreateTempDirectory` over its own output changes nothing |
| `FileConstructorFix` (`file_constructor_fix.dfy`) | `FileConstructorFixVisitor` |
| `CursorUtil` (`cursor_util.dfy`) | `CursorUtil` |

Modelling decisions:

- **Node identity.** The tree's `equals`, which compares node ids, is equality of the
  `NodeId` carried by statements and named variables.
- **Signature matching.** A `MethodPattern` has an owner type, a name, and either "any
  parameters" (`(..)`) or an exact parameter list.
  - A call with no resolved type never matches.
  - The matcher takes the declared type literally. Overrides and subtypes are not
    considered.
- **Library predicates become parameters.** This covers the file-separator test, the
  break-before override, type assignability and the value of a non-literal operand.
- **Initializer blocks.** `isStaticOrInitBlock` is a flag on the `Block` path node.
- **Cursor positions.** A cursor is an index into the ancestor path. Index 0 is the start
  node and the last index is the root.
- **Candidate list.** The list that cursor messages carry from call visits to the
  enclosing block is computed explicitly as `TempDirectory.TopLevelCandidates`. It keeps
  the visiting order.

Where the code and its own documentation disagree, the model follows the code:

- **`findOuterExecutableBlock`** (`CursorUtil.java:31`). The documentation promises the
  *outermost* executable block. The loop returns the *first* one met going up, which is
  the innermost. `CursorUtil.InnermostStopWins` states this.

Further behaviour of the code that the model keeps:

- **Break-before override** (`FileConstructorFixVisitor.java:93-95`). It is tested first.
  - A separator on the left (`:99-100`) overwrites its result.
  - The recursive rule's `return` (`:101-109`) discards its result.
  - `FileConstructorFix.BreakBeforeRule` and `FileConstructorFix.SeparatorRule` state both.
- **`delete`/`mkdir` matching is by simple name** (`UseFilesCreateTempDirectory.java:157-167`).
  The receiver must be an identifier and is compared with the tracked variable by simple
  name only. The receiver's own type is never looked at; only the tracked variable must be
  a `java.io.File`. `TempDirectory.ReceiverTypeIsIgnored` and `TempDirectory.PrintPlaysNoRole`
  state this.
- **Every candidate scans the whole block** (`UseFilesCreateTempDirectory.java:115-127`).
  The last matching statement fills each role, whichever candidate it was written for.
  - With two idioms on one variable, the first candidate takes the *second* idiom's
    `delete` and `mkdir`. The second candidate then takes the first idiom's.
  - Both idioms are still rewritten. `TempDirectory.TwoIdiomsFirstPass`,
    `TempDirectory.TwoIdiomsSecondPass` and `TempDirectory.TwoIdiomsExample` show it.
- **Running the recipe twice.** On a block of a compiled file, a second run changes nothing
  (`TempDirectoryIdempotence.VisitBlockIdempotent`). Such a block has distinct node ids,
  and its `createTempFile` calls have the two or three arguments of the library's two
  overloads. The secure form of a fired candidate's creation records nothing. A candidate
  that did not fire still misses a role, because the rewrite only removes statements or
  replaces them by secure forms that play the same roles.

## Model

| member | source | states |
|---|---|---|
| TempDirectory.RecordCandidate | src/main/java/org/openrewrite/java/security/UseFilesCreateTempDirectory.java:88-108 | a call is recorded only when it matches `createTempFile`, lies inside a block, and its nearest parent is an assignment to a plain identifier or a named variable; a field-access target or any other parent records nothing; the candidate is that parent's node |
| TempDirectory.RecordedCandidateHasIdentifier | src/main/java/org/openrewrite/java/security/UseFilesCreateTempDirectory.java:170-179 | every recorded candidate yields the identifier it was captured on, so the cast of an assignment target to an identifier cannot fail |
| TempDirectory.AssignmentCandidatesAreStatements | src/main/java/org/openrewrite/java/security/UseFilesCreateTempDirectory.java:94-97 | every assignment candidate of a block is one of its statements, assigning to an identifier |
| TempDirectory.DeclarationsRecordOnlyDeclared | src/main/java/org/openrewrite/java/security/UseFilesCreateTempDirectory.java:98-100 | a declaration only ever records named-variable candidates |
| TempDirectory.CandidatesOfOne | src/main/java/org/openrewrite/java/security/UseFilesCreateTempDirectory.java:101-104 | when only one statement of a block records anything, the block's candidates are exactly that statement's |
| TempDirectory.CandidatesOfTwo | src/main/java/org/openrewrite/java/security/UseFilesCreateTempDirectory.java:101-104 | when two statements record, the block's candidates are theirs, in statement order |
| TempDirectory.NoCandidatesRecorded | src/main/java/org/openrewrite/java/security/UseFilesCreateTempDirectory.java:101-104 | a block none of whose statements records anything has no candidates |
| TempDirectory.TopLevelCandidatesAppend | src/main/java/org/openrewrite/java/security/UseFilesCreateTempDirectory.java:101-104 | candidates accumulate in visiting order: those of a concatenation are those of each part, in order |
| TempDirectory.RoleOfClassifies | src/main/java/org/openrewrite/java/security/UseFilesCreateTempDirectory.java:118-127 | a statement is `create` exactly when it is the recorded assignment or a one-variable declaration of the recorded variable; `delete`/`mkdir` exactly when it is a no-argument `java.io.File` call on a receiver of the tracked name and the tracked variable is a `File`; never `secureCreate` |
| TempDirectory.ReceiverTypeIsIgnored | src/main/java/org/openrewrite/java/security/UseFilesCreateTempDirectory.java:157-167 | the receiver's own type does not affect the role: only its simple name is compared |
| TempDirectory.SecureInvoke | src/main/java/org/openrewrite/java/security/UseFilesCreateTempDirectory.java:192-216 | a two-argument `createTempFile(p, s)` becomes `Files.createTempDirectory(p + s).toFile()` (receiver the `Files` class, `toFile` without arguments); a three-argument one becomes `Files.createTempDirectory(d.toPath(), p + s).toFile()` with the third argument moved first; other calls and argument counts are unchanged; a rewritten call no longer matches `createTempFile` |
| TempDirectory.SecureVariable | src/main/java/org/openrewrite/java/security/UseFilesCreateTempDirectory.java:122 | securing a named variable keeps its id and name |
| TempDirectory.SecureStatement | src/main/java/org/openrewrite/java/security/UseFilesCreateTempDirectory.java:122 | the secure form keeps the statement's id and kind, and a declaration keeps the number and ids of its variables; the assigned identifier and the replaced call are stated by `TempDirectory.SecureStatementKeepsVariable` |
| TempDirectory.SecureStatementKeepsVariable | src/main/java/org/openrewrite/java/security/UseFilesCreateTempDirectory.java:122 | the secured statement still assigns or declares the same variable, now bound to the secured call |
| TempDirectory.SecureInvokeIdempotent | src/main/java/org/openrewrite/java/security/UseFilesCreateTempDirectory.java:194-213 | securing a call twice is the same as securing it once |
| TempDirectory.SecureExprIdempotent | src/main/java/org/openrewrite/java/security/UseFilesCreateTempDirectory.java:192-216 | securing an expression is idempotent |
| TempDirectory.SecureStatementIdempotent | src/main/java/org/openrewrite/java/security/UseFilesCreateTempDirectory.java:122 | securing a statement is idempotent: a secured 2- or 3-argument `createTempFile` call is never matched again, and any other call is left as it is |
| TempDirectory.Scan | src/main/java/org/openrewrite/java/security/UseFilesCreateTempDirectory.java:116-129 | the role map holds `secureCreate` exactly when it holds `create`, `secureCreate` is the secure form of `create`, and every entry is a statement of the block |
| TempDirectory.RecordStep | src/main/java/org/openrewrite/java/security/UseFilesCreateTempDirectory.java:120-127 | one scan step: a statement filling a role takes it over, any other leaves the role as it was |
| TempDirectory.ScanKeepsLastOfEachRole | src/main/java/org/openrewrite/java/security/UseFilesCreateTempDirectory.java:117-127 | the scan covers every statement: a role is in the map exactly when some statement fills it, and then holds the last such statement |
| TempDirectory.FourRolesMeansAll | src/main/java/org/openrewrite/java/security/UseFilesCreateTempDirectory.java:130 | a role map has size 4 exactly when all four roles are present |
| TempDirectory.FiringPositions | src/main/java/org/openrewrite/java/security/UseFilesCreateTempDirectory.java:117-130 | a candidate whose map is full has a last statement for each of create, delete and mkdir |
| TempDirectory.ApplyCandidateMapsLastFills | src/main/java/org/openrewrite/java/security/UseFilesCreateTempDirectory.java:130-138 | with all roles filled, the rewrite maps the block with the last create, delete and mkdir statements, which are three distinct positions |
| TempDirectory.ApplyCandidate | src/main/java/org/openrewrite/java/security/UseFilesCreateTempDirectory.java:116-140 | one candidate's rewrite never lengthens the block and every statement of the result is an original statement or the secure form of one |
| TempDirectory.ApplyCandidateIncompleteIsNoOp | src/main/java/org/openrewrite/java/security/UseFilesCreateTempDirectory.java:130 | when some statement role is never filled, the block is unchanged |
| TempDirectory.ApplyCandidateRewrites | src/main/java/org/openrewrite/java/security/UseFilesCreateTempDirectory.java:130-138 | with all roles filled (last at i, j, k), the block shrinks by exactly 2, `create` is replaced in place by its secure form, and every other statement keeps its relative order |
| TempDirectory.ApplyCandidateIs | src/main/java/org/openrewrite/java/security/UseFilesCreateTempDirectory.java:131-138 | element-wise form of the same rewrite: a block with the expected statements at the shifted positions is the result |
| TempDirectory.MapStatementsLength | src/main/java/org/openrewrite/java/security/UseFilesCreateTempDirectory.java:131-138 | mapping with deletion keeps exactly the kept statements |
| TempDirectory.MapStatementsPlacesKept | src/main/java/org/openrewrite/java/security/UseFilesCreateTempDirectory.java:131-138 | a kept statement lands after all kept statements before it, replaced by the secure form when it is `create` |
| TempDirectory.CountKeptIsShift | src/main/java/org/openrewrite/java/security/UseFilesCreateTempDirectory.java:134-135 | with distinct ids, the number of statements kept before a position is the position less the removed ones before it |
| TempDirectory.MapStatementsRewrites | src/main/java/org/openrewrite/java/security/UseFilesCreateTempDirectory.java:131-138 | the mapping over distinct statements drops `delete` and `mkdir`, replaces `create` in place and keeps the rest in order |
| TempDirectory.MapStatementsKeepsOrSecures | src/main/java/org/openrewrite/java/security/UseFilesCreateTempDirectory.java:131-138 | the mapping's result is no longer than its input and holds only input statements or the replacement |
| TempDirectory.Unshift | src/main/java/org/openrewrite/java/security/UseFilesCreateTempDirectory.java:131-138 | every position of the rewritten block comes from exactly one original kept position: the returned one maps to it, every earlier kept position maps before it and every later kept position maps after it |
| TempDirectory.ApplyCandidateKeepsIdsUnique | src/main/java/org/openrewrite/java/security/UseFilesCreateTempDirectory.java:131-138 | the rewrite keeps statement ids distinct |
| TempDirectory.ApplyCandidateRemovesNoneOrTwo | src/main/java/org/openrewrite/java/security/UseFilesCreateTempDirectory.java:130-138 | a candidate whose map is full removes exactly 2 statements; otherwise the block is unchanged |
| TempDirectory.RewriteBlock | src/main/java/org/openrewrite/java/security/UseFilesCreateTempDirectory.java:114-143 | processing the candidates in order, each on the block the previous ones left, never lengthens the block |
| TempDirectory.VisitBlockOne | src/main/java/org/openrewrite/java/security/UseFilesCreateTempDirectory.java:114-143 | a block with one candidate is rewritten by that candidate alone |
| TempDirectory.VisitBlockTwo | src/main/java/org/openrewrite/java/security/UseFilesCreateTempDirectory.java:114-143 | a block with two candidates is rewritten by the first, then by the second on the first's result |
| TempDirectory.RewriteBlockRemovesTwoPerFiring | src/main/java/org/openrewrite/java/security/UseFilesCreateTempDirectory.java:114-143 | the block shrinks by exactly 2 for every candidate that fires |
| TempDirectory.SecuredFromTransitive | src/main/java/org/openrewrite/java/security/UseFilesCreateTempDirectory.java:115-141 | being built from original statements and their secure forms carries over successive rewrites |
| TempDirectory.RewriteBlockShape | src/main/java/org/openrewrite/java/security/UseFilesCreateTempDirectory.java:114-143 | the rewritten block has distinct ids and consists of original statements and secure forms of them |
| TempDirectory.ApplyCandidateKeepsStatement | src/main/java/org/openrewrite/java/security/UseFilesCreateTempDirectory.java:131-137 | a statement that is neither a call nor the candidate's creation survives unchanged |
| TempDirectory.RewriteBlockKeepsStatement | src/main/java/org/openrewrite/java/security/UseFilesCreateTempDirectory.java:114-143 | a statement that is neither a call nor the creation of any candidate survives the whole block rewrite |
| TempDirectory.FieldTargetIsNeverRewritten | src/main/java/org/openrewrite/java/security/UseFilesCreateTempDirectory.java:95-97 | an assignment to a field access is never rewritten |
| TempDirectory.MultiVariableDeclarationIsNeverRewritten | src/main/java/org/openrewrite/java/security/UseFilesCreateTempDirectory.java:150-153 | a declaration of other than exactly one variable is never rewritten |
| TempDirectory.VisitJavaSourceFile | src/main/java/org/openrewrite/java/security/UseFilesCreateTempDirectory.java:79-85 | a file marked with a Java version below 7 is unchanged; otherwise each block is rewritten and no block grows |
| TempDirectoryIdempotence.NoVariableRecords | src/main/java/org/openrewrite/java/security/UseFilesCreateTempDirectory.java:98-104 | a declaration none of whose initializers is a `createTempFile` call records no candidate |
| TempDirectoryIdempotence.SecureStatementRecordsNothing | src/main/java/org/openrewrite/java/security/UseFilesCreateTempDirectory.java:192-216 | the secure form of a statement whose `createTempFile` calls have 2 or 3 arguments records no candidate |
| TempDirectoryIdempotence.SecureStatementKeepsRole | src/main/java/org/openrewrite/java/security/UseFilesCreateTempDirectory.java:118-127 | securing a statement never changes the role it plays for any candidate |
| TempDirectoryIdempotence.SecuredRecordsNothing | src/main/java/org/openrewrite/java/security/UseFilesCreateTempDirectory.java:192-216 | the secure form of any statement built from a well-formed block records no candidate |
| TempDirectoryIdempotence.RecorderIsOriginal | src/main/java/org/openrewrite/java/security/UseFilesCreateTempDirectory.java:88-108 | a statement that records a candidate after some rewrites was already in the block before them |
| TempDirectoryIdempotence.NoFillSurvives | src/main/java/org/openrewrite/java/security/UseFilesCreateTempDirectory.java:117-130 | a role that no statement fills stays unfilled once statements are removed or secured |
| TempDirectoryIdempotence.FiresIffAllRolesFilled | src/main/java/org/openrewrite/java/security/UseFilesCreateTempDirectory.java:117-130 | a candidate fires exactly when create, delete and mkdir are each filled by some statement |
| TempDirectoryIdempotence.RewriteBlockNoneFire | src/main/java/org/openrewrite/java/security/UseFilesCreateTempDirectory.java:114-143 | candidates none of which fire leave the block unchanged |
| TempDirectoryIdempotence.CandidateRecordedBy | src/main/java/org/openrewrite/java/security/UseFilesCreateTempDirectory.java:101-104 | every candidate of a block is recorded by one of its statements |
| TempDirectoryIdempotence.RecordedIsCandidate | src/main/java/org/openrewrite/java/security/UseFilesCreateTempDirectory.java:101-104 | whatever a statement of the block records is one of the block's candidates |
| TempDirectoryIdempotence.VariableCandidatesAreVariables | src/main/java/org/openrewrite/java/security/UseFilesCreateTempDirectory.java:98-100 | a candidate recorded from a declaration is one of its named variables |
| TempDirectoryIdempotence.RewriteBlockSplit | src/main/java/org/openrewrite/java/security/UseFilesCreateTempDirectory.java:115 | applying a candidate list is applying a prefix of it and then the rest to the result |
| TempDirectoryIdempotence.RewriteBlockAt | src/main/java/org/openrewrite/java/security/UseFilesCreateTempDirectory.java:114-143 | the block just before candidate k is applied has distinct ids and is built from the original statements and their secure forms |
| TempDirectoryIdempotence.DeclarationOfVariable | src/main/java/org/openrewrite/java/security/UseFilesCreateTempDirectory.java:150-153 | with distinct variable ids, a one-variable declaration sharing a variable id with a declaration of the block is that declaration or its secure form |
| TempDirectoryIdempotence.CreateIsRecorder | src/main/java/org/openrewrite/java/security/UseFilesCreateTempDirectory.java:147-155 | the create statement a candidate finds has the id of the statement that recorded the candidate |
| TempDirectoryIdempotence.FiredCreate | src/main/java/org/openrewrite/java/security/UseFilesCreateTempDirectory.java:130-138 | when a recorded candidate fires, the statement it secures has the id of its recording statement, and its secure form is in the result |
| TempDirectoryIdempotence.FiredCandidateNotRecorded | src/main/java/org/openrewrite/java/security/UseFilesCreateTempDirectory.java:130-138 | no statement surviving a candidate's firing records that candidate again |
| TempDirectoryIdempotence.RecordedCandidateDoesNotFire | src/main/java/org/openrewrite/java/security/UseFilesCreateTempDirectory.java:114-143 | every candidate recorded by a statement of the rewritten block misses a role there |
| TempDirectoryIdempotence.VisitBlockIdempotent | src/main/java/org/openrewrite/java/security/UseFilesCreateTempDirectory.java:114-143 | on a block with distinct node ids and 2- or 3-argument `createTempFile` calls, rewriting the result a second time changes nothing |
| TempDirectoryIdempotence.VisitJavaSourceFileIdempotent | src/main/java/org/openrewrite/java/security/UseFilesCreateTempDirectory.java:79-85 | running the recipe over its own output leaves a file of such blocks unchanged |
| TempDirectory.PrintPlaysNoRole | src/main/java/org/openrewrite/java/security/UseFilesCreateTempDirectory.java:157-167 | `System.out.println(..)` records nothing and plays no role, because its receiver is a field access and not an identifier |
| TempDirectory.AssignedIdiomCandidates | src/test/kotlin/org/openrewrite/java/security/UseFilesCreateTempDirectoryTest.kt:29-57 | the assigned idiom yields exactly one candidate, the assignment |
| TempDirectory.AssignedIdiomRoles | src/test/kotlin/org/openrewrite/java/security/UseFilesCreateTempDirectoryTest.kt:29-57 | its create, delete and mkdir roles are filled by the second, third and fourth statements |
| TempDirectory.AssignedCreateSecureForm | src/test/kotlin/org/openrewrite/java/security/UseFilesCreateTempDirectoryTest.kt:29-57 | the secure form of `tempDir = File.createTempFile("OverridesTest", "dir")` is `tempDir = Files.createTempDirectory("OverridesTest" + "dir").toFile()` |
| TempDirectory.AssignedIdiomExample | src/test/kotlin/org/openrewrite/java/security/UseFilesCreateTempDirectoryTest.kt:29-57 | `tempDir = File.createTempFile("OverridesTest", "dir"); tempDir.delete(); tempDir.mkdir();` becomes the one secure assignment; the declaration before and the statement after stay |
| TempDirectory.DeclaredIdiomWithParentCandidates | src/test/kotlin/org/openrewrite/java/security/UseFilesCreateTempDirectoryTest.kt:60-87 | the declared idiom with a parent directory yields exactly one candidate, the named variable |
| TempDirectory.DeclaredIdiomWithParentRoles | src/test/kotlin/org/openrewrite/java/security/UseFilesCreateTempDirectoryTest.kt:60-87 | its three statements fill create, delete and mkdir |
| TempDirectory.DeclaredCreateSecureForm | src/test/kotlin/org/openrewrite/java/security/UseFilesCreateTempDirectoryTest.kt:60-87 | `File tmpDir = File.createTempFile("test", "dir", testData)` secures to `Files.createTempDirectory(testData.toPath(), "test" + "dir").toFile()` |
| TempDirectory.DeclaredIdiomWithParentExample | src/test/kotlin/org/openrewrite/java/security/UseFilesCreateTempDirectoryTest.kt:60-87 | the three-argument idiom becomes the one secure declaration |
| TempDirectory.IdiomWithoutMkdirHasNoMkdir | src/main/java/org/openrewrite/java/security/UseFilesCreateTempDirectory.java:125-126 | in a block with creation and delete only, no statement fills mkdir |
| TempDirectory.IdiomWithoutMkdirExample | src/main/java/org/openrewrite/java/security/UseFilesCreateTempDirectory.java:130 | creation and delete without mkdir leave the block unchanged |
| TempDirectory.ChildOfTmpdirExample | src/test/kotlin/org/openrewrite/java/security/UseFilesCreateTempDirectoryTest.kt:164-178 | `mkdir` on a file built with `new File(..)` is left unchanged |
| TempDirectory.FieldAndLocalCandidates | src/test/kotlin/org/openrewrite/java/security/UseFilesCreateTempDirectoryTest.kt:124-161 | the assignment to `C.FILE` records nothing; the local declaration is the only candidate |
| TempDirectory.FieldAndLocalRoles | src/test/kotlin/org/openrewrite/java/security/UseFilesCreateTempDirectoryTest.kt:124-161 | the local declaration, delete and mkdir fill the roles; the field assignment at the head of the block fills none |
| TempDirectory.FieldAndLocalExample | src/test/kotlin/org/openrewrite/java/security/UseFilesCreateTempDirectoryTest.kt:124-161 | the creation assigned to the field `C.FILE` stays, the local idiom is rewritten |
| TempDirectory.TwoIdiomsCandidates | src/test/kotlin/org/openrewrite/java/security/UseFilesCreateTempDirectoryTest.kt:90-122 | two idioms on one variable give two candidates, in order |
| TempDirectory.TwoIdiomsFirstPass | src/main/java/org/openrewrite/java/security/UseFilesCreateTempDirectory.java:117-127 | the first candidate's delete and mkdir are the second idiom's, the last ones in the block |
| TempDirectory.TwoIdiomsAfterFirstPass | src/main/java/org/openrewrite/java/security/UseFilesCreateTempDirectory.java:130-138 | after the first candidate the first creation is secured and the second idiom's delete and mkdir are gone |
| TempDirectory.TwoIdiomsSecondPass | src/main/java/org/openrewrite/java/security/UseFilesCreateTempDirectory.java:115-127 | the second candidate then takes the first idiom's delete and mkdir, which remain |
| TempDirectory.TwoIdiomsExample | src/test/kotlin/org/openrewrite/java/security/UseFilesCreateTempDirectoryTest.kt:90-122 | both idioms are rewritten; only the two secure creations and the other statements remain |
| FileConstructorFix.ComputeNewArguments | src/main/java/org/openrewrite/java/security/internal/FileConstructorFixVisitor.java:90-123 | the parent argument lies on the left spine of the chain; the child is the top-level right operand, or a fresh concatenation ending with it only when the rule recursed |
| FileConstructorFix.SeparatorRule | src/main/java/org/openrewrite/java/security/internal/FileConstructorFixVisitor.java:96-100 | `(l + sep) + r` splits as `(l, r)`, dropping the separator, whatever the break-before override says |
| FileConstructorFix.TrailingSeparatorLiteralRule | src/main/java/org/openrewrite/java/security/internal/FileConstructorFixVisitor.java:112-119 | a string literal ending in `/` or `\` on the left splits as `(literal, r)` |
| FileConstructorFix.RecursiveRule | src/main/java/org/openrewrite/java/security/internal/FileConstructorFixVisitor.java:101-109 | when the left is an addition over a binary with a non-separator right, the answer is the left's answer with `+ r` appended to its child, or none when the left has none |
| FileConstructorFix.BreakBeforeRule | src/main/java/org/openrewrite/java/security/internal/FileConstructorFixVisitor.java:93-95 | a break before the right operand splits as `(left, right)` unless the recursive rule applies; a separator on the left still takes precedence for the parent |
| FileConstructorFix.NoSplitPoint | src/main/java/org/openrewrite/java/security/internal/FileConstructorFixVisitor.java:121-122 | with no separator, trailing-slash literal, recursion or break, there is no split |
| FileConstructorFix.VisitNewClass | src/main/java/org/openrewrite/java/security/internal/FileConstructorFixVisitor.java:64-81 | only `File(String)` with a binary first argument is considered; without a split the node is unchanged; with one it becomes the two-argument constructor on exactly the split |
| FileConstructorFix.Operands | src/main/java/org/openrewrite/java/security/internal/FileConstructorFixVisitor.java:96-109 | the reference left-to-right flattening of a `+` chain into its operands, against which `FileConstructorFix.SplitPreservesOperandOrder` is stated; every chain has at least one operand |
| FileConstructorFix.SplitPreservesOperandOrder | src/main/java/org/openrewrite/java/security/internal/FileConstructorFixVisitor.java:90-123 | the operands of the parent, at most one dropped separator, then those of the child are exactly the chain's operands in order |
| FileConstructorFix.JoinValuesAppend | src/main/java/org/openrewrite/java/security/internal/FileConstructorFixVisitor.java:105-108 | the value of concatenated operand lists is the concatenation of their values |
| FileConstructorFix.EvalIsJoinOfOperands | src/main/java/org/openrewrite/java/security/internal/FileConstructorFixVisitor.java:105-108 | a chain's string value is the concatenation of its operands' values |
| FileConstructorFix.VisitNewClassPreservesValue | src/main/java/org/openrewrite/java/security/internal/FileConstructorFixVisitor.java:64-81 | whenever the constructor is rewritten, the new two-argument `File(parent, child)` spells the original path: the parent's value, the dropped separator's value if one was dropped, then the child's value |
| FileConstructorFix.SplitPreservesValue | src/main/java/org/openrewrite/java/security/internal/FileConstructorFixVisitor.java:90-123 | the original string is the parent's value, possibly a separator's value, then the child's value |
| FileConstructorFix.SeparatorExample | src/main/java/org/openrewrite/java/security/internal/FileConstructorFixVisitor.java:35-36 | `new File("base" + File.separator + "test.txt")` becomes `new File("base", "test.txt")` |
| FileConstructorFix.TrailingSlashExample | src/main/java/org/openrewrite/java/security/internal/FileConstructorFixVisitor.java:37 | `new File("base/" + "test.txt")` becomes `new File("base/", "test.txt")` |
| FileConstructorFix.NoSeparatorExample | src/main/java/org/openrewrite/java/security/internal/FileConstructorFixVisitor.java:121-122 | a chain with no split point leaves the constructor unchanged |
| CursorUtil.FindFrom | src/main/java/org/openrewrite/java/security/internal/CursorUtil.java:41-52 | from position i upward: none exactly when nothing stops the search, otherwise the report for the first stop |
| CursorUtil.FindOuterExecutableBlock | src/main/java/org/openrewrite/java/security/internal/CursorUtil.java:38-53 | the start node is skipped; the first method declaration reports the cursor below it, the first static or initializer block reports itself; none when the root is passed |
| CursorUtil.InnermostStopWins | src/main/java/org/openrewrite/java/security/internal/CursorUtil.java:31-53 | of two qualifying ancestors the inner one is reported, despite the "outermost" documentation |
| CursorUtil.StartNodeNotExamined | src/main/java/org/openrewrite/java/security/internal/CursorUtil.java:39-42 | replacing the start node does not change the answer |
| CursorUtil.FirstStopOf | src/main/java/org/openrewrite/java/security/internal/CursorUtil.java:41-51 | any stop on the path implies a first stop at or below it |
| CursorUtil.AnswerIsBlock | src/main/java/org/openrewrite/java/security/internal/CursorUtil.java:43-48 | on paths where methods are entered from their bodies (the asserted fact) the answer is always a block |
| CursorUtil.IsStaticOrInitBlockSafe | src/main/java/org/openrewrite/java/security/internal/CursorUtil.java:85-87 | the initializer test holds only of a block (a method, `try` or other node is never an initializer) |
| CursorUtil.ScopeBoundaries | src/main/java/org/openrewrite/java/security/internal/CursorUtil.java:56-61 | the filtered path holds exactly the initializer blocks, method declarations and `try` nodes of the path |
| CursorUtil.CanSupportScopeSupportExceptionOfType | src/main/java/org/openrewrite/java/security/internal/CursorUtil.java:55-83 | true exactly when some `try` catching an assignable type, or method declaring one, is met with no static or initializer block at or below it |
| CursorUtil.WalkFilteredIsScopeRule | src/main/java/org/openrewrite/java/security/internal/CursorUtil.java:62-82 | walking the filtered path is the same as the first-decisive-ancestor rule on the unfiltered path |
| CursorUtil.AcceptedFromParent | src/main/java/org/openrewrite/java/security/internal/CursorUtil.java:62-72 | a node that is no initializer lets an accepting ancestor above it decide |
| CursorUtil.AcceptedAboveNode | src/main/java/org/openrewrite/java/security/internal/CursorUtil.java:66-80 | a node that does not accept passes the decision to its ancestors |
| CursorUtil.InitializerFirstRefuses | src/main/java/org/openrewrite/java/security/internal/CursorUtil.java:62-65 | an initializer block met before any accepting ancestor gives false, whatever lies further out |
| CursorUtil.NonAcceptingBoundaryIsTransparent | src/main/java/org/openrewrite/java/security/internal/CursorUtil.java:66-80 | a `try` or method that does not accept the exception does not stop the walk |
| CursorUtil.NoBoundaryRefuses | src/main/java/org/openrewrite/java/security/internal/CursorUtil.java:82 | with no decisive ancestor the answer is false |

## Left out

- Recipe metadata: display name, description, tags and effort
  (`UseFilesCreateTempDirectory.java:37-56`). This is registration data with no logic.
- The `UsesMethod` applicability pre-filter (`UseFilesCreateTempDirectory.java:57-67`). It
  only skips files early. Files it skips have no matching `createTempFile` and no `mkdir`
  call, and the model leaves such blocks unchanged anyway.
- `SecureJacksonDefaultTyping` and the regular-expression denial-of-service recipe. They
  are not part of this model.
- Import management (`maybeAddImport`), auto-formatting (`maybeAutoFormat`), and the
  textual output of `JavaTemplate`. Templates are modelled by the tree they produce.
- The visitor's traversal and cursor messages (`computeMessageIfAbsent`, `pollMessage`).
  The candidate list is computed from the block's own statements instead.
  - A candidate recorded deeper down is never one of the block's statements, so it cannot
    fill `create` and has no effect.
  - Nested blocks are not traversed.
  - A compilation unit is a sequence of blocks.
- The secure visitor is applied to the `create` statement only. The model descends through
  binary, field-access and constructor-argument expressions. Other expression kinds are
  opaque.
- `MethodMatcher` details: override matching, wildcard owner types, and varargs. The model
  matches the declared owner, name and parameter list exactly.
- `TypeUtils.isAssignableTo`, `FileSeparatorUtil.isFileSeparatorExpression`, the
  break-before override, and non-literal operand values. These are parameters.
- Java `assert` statements are modelled as disabled, which is the JVM default. With
  assertions enabled, a method declaration reached from a non-block child would throw.
  `CursorUtil.AnswerIsBlock` shows this cannot happen on paths where methods are entered
  from their bodies.
- `getFirst()` on an empty argument list in `visitNewClass` would throw. The model treats
  an empty list as "not a candidate".
- TempDirectoryIdempotence.VisitBlockIdempotent: proved for blocks with distinct node ids
  whose `createTempFile` calls have 2 or 3 arguments. The library has only those two
  overloads, so a compiled file has no other call. Without distinct ids, or with a call of
  another arity, a second run can remove another `delete`/`mkdir` pair.
- FileConstructorFix.SplitPreservesOperandOrder: stated for a `+` chain only, which is the
  only binary expression that has a `String` value in this position.
- FileConstructorFix.SplitPreservesValue: stated for a `+` chain only, for the same reason.
- FileConstructorFix.VisitNewClassPreservesValue: stated for a `+` first argument only, for the same reason.
- CursorUtil.IsStaticOrInitBlockSafe: whether a block is a static or instance initializer is decided by the tree library from the block's parent (a class body holding the block directly); the model takes that decision as the `staticOrInit` flag on the block node and does not model class bodies.
