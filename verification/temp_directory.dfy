/**
 * The rewrite of the temp-directory idiom
 *
 *     File f = File.createTempFile(p, s);   f.delete();   f.mkdir();
 *
 * into `File f = Files.createTempDirectory(p + s).toFile();` within one block.
 *
 * A block is its list of statements. The tree walk records "create" candidates
 * while visiting calls; here they are handed to the block rewrite as an explicit
 * list, in the order the walk records them.
 */
module TempDirectory {
  import opened Wrappers
  import opened JTree

  // ---------------------------------------------------------------------------
  // The secure replacement (SecureTempDirectoryCreation)
  // ---------------------------------------------------------------------------

  const FileAttributes := "java.nio.file.attribute.FileAttribute[]"
  const FilesClass := Ident(Identifier("Files", Class("java.nio.file.Files")))

  /** `Files.createTempDirectory(args)`, resolved to the overload with the given leading parameters. */
  function CreateTempDirectory(leading: seq<string>, args: seq<Expr>): Invoke {
    Invoke(Some(FilesClass), "createTempDirectory",
           Some(MethodType("java.nio.file.Files", "createTempDirectory", leading + [FileAttributes])), args)
  }

  /** `path.toFile()` */
  function ToFile(path: Invoke): Invoke {
    Invoke(Some(Call(path)), "toFile", Some(MethodType("java.nio.file.Path", "toFile", [])), [])
  }

  /** `dir.toPath()` */
  function ToPath(dir: Expr): Expr {
    Call(Invoke(Some(dir), "toPath", Some(MethodType("java.io.File", "toPath", [])), []))
  }

  /** `#{any(String)} + #{any(String)}` */
  function Concat(l: Expr, r: Expr): Expr {
    Binary(Addition, l, r)
  }

  /**
   * SecureTempDirectoryCreation.visitMethodInvocation: a `createTempFile(prefix, suffix)`
   * call becomes `Files.createTempDirectory(prefix + suffix).toFile()`, and
   * `createTempFile(prefix, suffix, dir)` becomes
   * `Files.createTempDirectory(dir.toPath(), prefix + suffix).toFile()`.
   * Any other call, or any other argument count, is left as it is.
   */
  function SecureInvoke(m: Invoke): (r: Invoke)
    ensures !Matches(CreateTempFileMatcher, m.methodType) ==> r == m
    ensures Matches(CreateTempFileMatcher, m.methodType) && |m.arguments| == 2 ==>
              && r.name == "toFile" && r.arguments == [] && r.select.Some? && r.select.value.Call?
              && r.select.value.invocation.select == Some(FilesClass)
              && r.select.value.invocation.name == "createTempDirectory"
              && r.select.value.invocation.arguments == [Concat(m.arguments[0], m.arguments[1])]
    ensures Matches(CreateTempFileMatcher, m.methodType) && |m.arguments| == 3 ==>
              && r.name == "toFile" && r.arguments == [] && r.select.Some? && r.select.value.Call?
              && r.select.value.invocation.select == Some(FilesClass)
              && r.select.value.invocation.name == "createTempDirectory"
              && r.select.value.invocation.arguments == [ToPath(m.arguments[2]), Concat(m.arguments[0], m.arguments[1])]
    ensures |m.arguments| != 2 && |m.arguments| != 3 ==> r == m
    ensures |m.arguments| == 2 || |m.arguments| == 3 ==> !Matches(CreateTempFileMatcher, r.methodType)
  {
    if Matches(CreateTempFileMatcher, m.methodType) then
      if |m.arguments| == 2 then
        ToFile(CreateTempDirectory(["java.lang.String"], [Concat(m.arguments[0], m.arguments[1])]))
      else if |m.arguments| == 3 then
        ToFile(CreateTempDirectory(["java.nio.file.Path", "java.lang.String"],
                                   [ToPath(m.arguments[2]), Concat(m.arguments[0], m.arguments[1])]))
      else m
    else m
  }

  /** The visitor's walk of an expression: it descends until it reaches a call, which it rewrites without descending further. */
  function SecureExpr(e: Expr): Expr
    decreases e
  {
    match e
    case Call(inv) => Call(SecureInvoke(inv))
    case Binary(op, l, r) => Binary(op, SecureExpr(l), SecureExpr(r))
    case FieldAccess(t, n) => FieldAccess(SecureExpr(t), n)
    case NewClass(ct, args) => NewClass(ct, seq(|args|, i requires 0 <= i < |args| => SecureExpr(args[i])))
    case _ => e
  }

  function SecureVariable(v: NamedVariable): (r: NamedVariable)
    ensures r.id == v.id && r.name == v.name
  {
    match v.initializer
    case None => v
    case Some(e) => v.(initializer := Some(SecureExpr(e)))
  }

  /** The secure form of a whole statement; the statement keeps its id and kind. */
  function SecureStatement(s: Statement): (r: Statement)
    ensures r.id == s.id
    ensures r.Assignment? == s.Assignment? && r.VariableDeclarations? == s.VariableDeclarations?
    ensures r.Invocation? == s.Invocation? && r.OtherStatement? == s.OtherStatement?
    ensures s.VariableDeclarations? ==> |r.variables| == |s.variables|
    ensures s.VariableDeclarations? ==> forall i | 0 <= i < |s.variables| :: r.variables[i].id == s.variables[i].id
  {
    match s
    case Assignment(id, v, a) => Assignment(id, SecureExpr(v), SecureExpr(a))
    case VariableDeclarations(id, vars) =>
      VariableDeclarations(id, seq(|vars|, i requires 0 <= i < |vars| => SecureVariable(vars[i])))
    case Invocation(id, call) => Invocation(id, SecureInvoke(call))
    case OtherStatement(_) => s
  }

  /** The tracked variable is still the one assigned or declared, now bound to the secured call. */
  lemma SecureStatementKeepsVariable(s: Statement)
    ensures s.Assignment? && s.variable.Ident? ==> SecureStatement(s).variable == s.variable
    ensures s.Assignment? && s.assignment.Call? ==> SecureStatement(s).assignment == Call(SecureInvoke(s.assignment.invocation))
    ensures s.VariableDeclarations? ==> forall i | 0 <= i < |s.variables| :: SecureStatement(s).variables[i].name == s.variables[i].name
    ensures (s.VariableDeclarations? ==>
               forall i | 0 <= i < |s.variables| && s.variables[i].initializer.Some? && s.variables[i].initializer.value.Call? ::
                 SecureStatement(s).variables[i].initializer == Some(Call(SecureInvoke(s.variables[i].initializer.value.invocation))))
  {
  }

  /** The secure form is never itself a temp-file creation, so rewriting it again changes nothing. */
  lemma SecureInvokeIdempotent(m: Invoke)
    ensures SecureInvoke(SecureInvoke(m)) == SecureInvoke(m)
  {
  }

  lemma {:induction false} SecureExprIdempotent(e: Expr)
    ensures SecureExpr(SecureExpr(e)) == SecureExpr(e)
    decreases e
  {
    match e
    case Call(inv) => SecureInvokeIdempotent(inv);
    case Binary(op, l, r) => SecureExprIdempotent(l); SecureExprIdempotent(r);
    case FieldAccess(t, n) => SecureExprIdempotent(t);
    case NewClass(ct, args) =>
      forall i | 0 <= i < |args| ensures SecureExpr(SecureExpr(args[i])) == SecureExpr(args[i]) {
        SecureExprIdempotent(args[i]);
      }
    case _ =>
  }

  lemma SecureStatementIdempotent(s: Statement)
    ensures SecureStatement(SecureStatement(s)) == SecureStatement(s)
  {
    match s
    case Assignment(id, v, a) => SecureExprIdempotent(v); SecureExprIdempotent(a);
    case VariableDeclarations(id, vars) =>
      forall i | 0 <= i < |vars| ensures SecureVariable(SecureVariable(vars[i])) == SecureVariable(vars[i]) {
        if vars[i].initializer.Some? {
          SecureExprIdempotent(vars[i].initializer.value);
        }
      }
    case Invocation(id, call) => SecureInvokeIdempotent(call);
    case OtherStatement(_) =>
  }

  // ---------------------------------------------------------------------------
  // Candidate capture (visitMethodInvocation)
  // ---------------------------------------------------------------------------

  /**
   * A recorded "create" statement: the assignment node `x = createTempFile(..)` to a
   * plain identifier, or the named variable `x = createTempFile(..)` of a declaration.
   * `id` is the node's id; the identifier is the variable the idiom is tracked on.
   */
  datatype Candidate =
    | AssignedTo(id: NodeId, target: Identifier)
    | Declared(id: NodeId, name: Identifier)

  /** The nearest tree node above a call, which decides whether it is recorded. */
  datatype FirstParent =
    | AssignmentParent(id: NodeId, variable: Expr)
    | NamedVariableParent(v: NamedVariable)
    | OtherParent

  /**
   * visitMethodInvocation: a `createTempFile` call inside some block becomes a candidate
   * only when its nearest parent is an assignment to a plain identifier or a named variable.
   */
  function RecordCandidate(call: Invoke, insideBlock: bool, parent: FirstParent): (r: Option<Candidate>)
    ensures r.Some? ==> Matches(CreateTempFileMatcher, call.methodType) && insideBlock
    ensures parent.OtherParent? ==> r.None?
    ensures parent.AssignmentParent? && !parent.variable.Ident? ==> r.None?
    ensures r.Some? && parent.AssignmentParent? ==> r.value == AssignedTo(parent.id, parent.variable.ident)
    ensures r.Some? && parent.NamedVariableParent? ==> r.value == Declared(parent.v.id, parent.v.name)
    ensures (&& Matches(CreateTempFileMatcher, call.methodType) && insideBlock
             && (parent.NamedVariableParent? || (parent.AssignmentParent? && parent.variable.Ident?))) ==> r.Some?
  {
    if Matches(CreateTempFileMatcher, call.methodType) && insideBlock then
      match parent
      case AssignmentParent(id, variable) =>
        if variable.Ident? then Some(AssignedTo(id, variable.ident)) else None
      case NamedVariableParent(v) => Some(Declared(v.id, v.name))
      case OtherParent => None
    else None
  }

  function OptionToSeq<T>(o: Option<T>): seq<T> {
    if o.Some? then [o.value] else []
  }

  function VariableCandidates(vars: seq<NamedVariable>): seq<Candidate>
  {
    if |vars| == 0 then []
    else
      var v := vars[0];
      var here := if v.initializer.Some? && v.initializer.value.Call?
                  then OptionToSeq(RecordCandidate(v.initializer.value.invocation, true, NamedVariableParent(v)))
                  else [];
      here + VariableCandidates(vars[1..])
  }

  function StatementCandidates(s: Statement): seq<Candidate>
  {
    match s
    case Assignment(id, v, a) =>
      if a.Call? then OptionToSeq(RecordCandidate(a.invocation, true, AssignmentParent(id, v))) else []
    case VariableDeclarations(_, vars) => VariableCandidates(vars)
    case _ => []
  }

  /**
   * The candidates the walk records on a block from its own statements, in visiting
   * order. Candidates recorded from deeper positions (an assignment nested in an
   * expression or in an unbraced `if`) are never a statement of the block, so they
   * can never fill the `create` role and are not listed.
   */
  function TopLevelCandidates(stmts: seq<Statement>): seq<Candidate>
  {
    if |stmts| == 0 then [] else StatementCandidates(stmts[0]) + TopLevelCandidates(stmts[1..])
  }

  // ---------------------------------------------------------------------------
  // The role map (visitBlock)
  // ---------------------------------------------------------------------------

  datatype Role = Create | SecureCreate | Delete | Mkdir

  type RoleMap = map<Role, Statement>

  function TrackedIdentifier(c: Candidate): Identifier {
    match c
    case AssignedTo(_, target) => target
    case Declared(_, name) => name
  }

  /**
   * getIdent: a recorded candidate always yields the identifier of the variable it was
   * captured on, so the cast of an assignment's target to an identifier never fails.
   */
  lemma RecordedCandidateHasIdentifier(call: Invoke, insideBlock: bool, parent: FirstParent)
    requires RecordCandidate(call, insideBlock, parent).Some?
    ensures parent.AssignmentParent? ==>
              parent.variable.Ident? && TrackedIdentifier(RecordCandidate(call, insideBlock, parent).value) == parent.variable.ident
    ensures parent.NamedVariableParent? ==>
              TrackedIdentifier(RecordCandidate(call, insideBlock, parent).value) == parent.v.name
  {
  }

  /** isMatchingCreateFileStatement: the recorded node itself, or a declaration of exactly that one variable. */
  predicate IsMatchingCreateFileStatement(c: Candidate, s: Statement) {
    match c
    case AssignedTo(id, _) => s.Assignment? && s.id == id
    case Declared(id, _) => s.VariableDeclarations? && |s.variables| == 1 && s.variables[0].id == id
  }

  /** isMethodForIdent: a call statement `sel.m()` accepted by the matcher, on a receiver named like the tracked `java.io.File` variable. */
  predicate IsMethodForIdent(ident: Identifier, matcher: MethodPattern, s: Statement) {
    && s.Invocation?
    && s.call.select.Some?
    && s.call.select.value.Ident?
    && Matches(matcher, s.call.methodType)
    && ident.simpleName == s.call.select.value.ident.simpleName
    && ident.ty == Class("java.io.File")
  }

  /** The role a statement fills for a candidate, if any; the checks are tried in this order. */
  function RoleOf(c: Candidate, s: Statement): (r: Option<Role>)
    ensures r != Some(SecureCreate)
  {
    if IsMatchingCreateFileStatement(c, s) then Some(Create)
    else if IsMethodForIdent(TrackedIdentifier(c), DeleteMatcher, s) then Some(Delete)
    else if IsMethodForIdent(TrackedIdentifier(c), MkdirMatcher, s) then Some(Mkdir)
    else None
  }

  /** What each role requires of a statement, in terms of the statement's own parts. */
  lemma RoleOfClassifies(c: Candidate, s: Statement)
    // create: the recorded assignment itself, or a declaration of exactly the recorded variable
    ensures RoleOf(c, s) == Some(Create) <==>
              || (c.AssignedTo? && s.Assignment? && s.id == c.id)
              || (c.Declared? && s.VariableDeclarations? && |s.variables| == 1 && s.variables[0].id == c.id)
    // delete and mkdir: a no-argument call statement on a receiver named like the tracked `File` variable
    ensures RoleOf(c, s) == Some(Delete) <==>
              && s.Invocation? && s.call.select.Some? && s.call.select.value.Ident?
              && s.call.methodType == Some(MethodType("java.io.File", "delete", []))
              && s.call.select.value.ident.simpleName == TrackedIdentifier(c).simpleName
              && TrackedIdentifier(c).ty == Class("java.io.File")
    ensures RoleOf(c, s) == Some(Mkdir) <==>
              && s.Invocation? && s.call.select.Some? && s.call.select.value.Ident?
              && s.call.methodType == Some(MethodType("java.io.File", "mkdir", []))
              && s.call.select.value.ident.simpleName == TrackedIdentifier(c).simpleName
              && TrackedIdentifier(c).ty == Class("java.io.File")
  {
  }

  /**
   * The receiver of a delete or mkdir call is compared by simple name only: its own
   * resolved type plays no part, so a differently typed variable of the same name counts.
   */
  lemma ReceiverTypeIsIgnored(c: Candidate, id: NodeId, call: Invoke, name: string, t1: JType, t2: JType)
    ensures RoleOf(c, Invocation(id, call.(select := Some(Ident(Identifier(name, t1))))))
            == RoleOf(c, Invocation(id, call.(select := Some(Ident(Identifier(name, t2))))))
  {
  }

  predicate Fills(c: Candidate, s: Statement, role: Role) {
    RoleOf(c, s) == Some(role)
  }

  ghost predicate AnyFills(c: Candidate, stmts: seq<Statement>, role: Role) {
    exists i | 0 <= i < |stmts| :: Fills(c, stmts[i], role)
  }

  /** `i` is the last position of `stmts` that fills `role`. */
  ghost predicate LastFills(c: Candidate, stmts: seq<Statement>, role: Role, i: int) {
    && 0 <= i < |stmts|
    && Fills(c, stmts[i], role)
    && forall q | i < q < |stmts| :: !Fills(c, stmts[q], role)
  }

  /** One iteration of the scan: record the statement under the role it fills (create also records its secure form). */
  function Record(m: RoleMap, c: Candidate, s: Statement): RoleMap {
    match RoleOf(c, s)
    case Some(Create) => m[Create := s][SecureCreate := SecureStatement(s)]
    case Some(role) => m[role := s]
    case None => m
  }

  /** The scan of all statements in order, later matches overwriting earlier ones. */
  function Scan(c: Candidate, stmts: seq<Statement>): (m: RoleMap)
    ensures SecureCreate in m <==> Create in m
    ensures Create in m ==> m[SecureCreate] == SecureStatement(m[Create])
    ensures forall role | role in m :: m[role] in stmts || (role == SecureCreate && m[Create] in stmts)
    decreases |stmts|
  {
    if |stmts| == 0 then map[]
    else Record(Scan(c, stmts[..|stmts| - 1]), c, stmts[|stmts| - 1])
  }

  /** One step of the scan: a statement filling `role` takes it over, any other leaves it as it was. */
  lemma RecordStep(m: RoleMap, c: Candidate, s: Statement, role: Role)
    requires role != SecureCreate
    ensures Fills(c, s, role) ==> role in Record(m, c, s) && Record(m, c, s)[role] == s
    ensures !Fills(c, s, role) ==> (role in Record(m, c, s) <==> role in m)
    ensures !Fills(c, s, role) && role in m ==> Record(m, c, s)[role] == m[role]
  {
  }

  /** A last position in a prefix stays the last one when the next statement does not fill the role. */
  lemma LastFillsExtend(c: Candidate, stmts: seq<Statement>, role: Role, i: int)
    requires |stmts| > 0 && !Fills(c, stmts[|stmts| - 1], role)
    requires LastFills(c, stmts[..|stmts| - 1], role, i)
    ensures LastFills(c, stmts, role, i)
  {
    var init := stmts[..|stmts| - 1];
    forall q | i < q < |stmts| ensures !Fills(c, stmts[q], role) {
      if q < |stmts| - 1 {
        assert stmts[q] == init[q];
      }
    }
  }

  /** Some statement fills the role exactly when one in the prefix does or the last one does. */
  lemma AnyFillsExtend(c: Candidate, stmts: seq<Statement>, role: Role)
    requires |stmts| > 0
    ensures AnyFills(c, stmts, role) <==> AnyFills(c, stmts[..|stmts| - 1], role) || Fills(c, stmts[|stmts| - 1], role)
  {
    var init := stmts[..|stmts| - 1];
    if AnyFills(c, stmts, role) && !Fills(c, stmts[|stmts| - 1], role) {
      var i :| 0 <= i < |stmts| && Fills(c, stmts[i], role);
      assert init[i] == stmts[i];
    }
    if AnyFills(c, init, role) {
      var i :| 0 <= i < |init| && Fills(c, init[i], role);
      assert init[i] == stmts[i];
    }
  }

  /** The scan keeps, for each role, the last statement of the block that fills it. */
  lemma {:induction false} ScanKeepsLastOfEachRole(c: Candidate, stmts: seq<Statement>, role: Role)
    requires role != SecureCreate
    ensures role in Scan(c, stmts) <==> AnyFills(c, stmts, role)
    ensures role in Scan(c, stmts) ==> exists i :: LastFills(c, stmts, role, i) && Scan(c, stmts)[role] == stmts[i]
    decreases |stmts|
  {
    if |stmts| > 0 {
      var n := |stmts| - 1;
      var init := stmts[..n];
      ScanKeepsLastOfEachRole(c, init, role);
      AnyFillsExtend(c, stmts, role);
      var before := Scan(c, init);
      assert Scan(c, stmts) == Record(before, c, stmts[n]);
      RecordStep(before, c, stmts[n], role);
      if Fills(c, stmts[n], role) {
        assert LastFills(c, stmts, role, n);
      } else if role in before {
        var i :| LastFills(c, init, role, i) && before[role] == init[i];
        LastFillsExtend(c, stmts, role, i);
        assert init[i] == stmts[i];
      }
    }
  }

  /** A full map holds exactly the four roles, so `|m| == 4` means all of them are present. */
  lemma FourRolesMeansAll(m: RoleMap)
    ensures |m| == 4 <==> (Create in m && SecureCreate in m && Delete in m && Mkdir in m)
  {
    var all := {Create, SecureCreate, Delete, Mkdir};
    forall x | x in m.Keys ensures x in all {
      match x
      case Create =>
      case SecureCreate =>
      case Delete =>
      case Mkdir =>
    }
    if Create in m && SecureCreate in m && Delete in m && Mkdir in m {
      assert m.Keys == all;
    } else {
      var missing :| missing in all && missing !in m;
      assert m.Keys <= all - {missing};
      assert |all - {missing}| == 3;
      SubsetCardinality(m.Keys, all - {missing});
    }
  }

  lemma {:induction false} SubsetCardinality<T>(a: set<T>, b: set<T>)
    requires a <= b
    ensures |a| <= |b|
    decreases b
  {
    if a != {} {
      var x :| x in a;
      SubsetCardinality(a - {x}, b - {x});
    }
  }

  // ---------------------------------------------------------------------------
  // The rewrite
  // ---------------------------------------------------------------------------

  /** Whether a statement survives the rewrite: the create statement is replaced, delete and mkdir are dropped. */
  predicate Kept(s: Statement, create: Statement, delete: Statement, mkdir: Statement) {
    s.id == create.id || (s.id != delete.id && s.id != mkdir.id)
  }

  /** ListUtils.map over the statements, with statement identity as id equality. */
  function MapStatements(stmts: seq<Statement>, create: Statement, secure: Statement,
                         delete: Statement, mkdir: Statement): seq<Statement>
    decreases |stmts|
  {
    if |stmts| == 0 then []
    else
      var s := stmts[|stmts| - 1];
      var mapped := if s.id == create.id then [secure]
                    else if s.id == delete.id || s.id == mkdir.id then []
                    else [s];
      MapStatements(stmts[..|stmts| - 1], create, secure, delete, mkdir) + mapped
  }

  function CountKept(stmts: seq<Statement>, create: Statement, delete: Statement, mkdir: Statement): nat
    decreases |stmts|
  {
    if |stmts| == 0 then 0
    else CountKept(stmts[..|stmts| - 1], create, delete, mkdir)
         + (if Kept(stmts[|stmts| - 1], create, delete, mkdir) then 1 else 0)
  }

  lemma {:induction false} MapStatementsLength(stmts: seq<Statement>, create: Statement, secure: Statement,
                                               delete: Statement, mkdir: Statement)
    ensures |MapStatements(stmts, create, secure, delete, mkdir)| == CountKept(stmts, create, delete, mkdir)
    decreases |stmts|
  {
    if |stmts| > 0 {
      MapStatementsLength(stmts[..|stmts| - 1], create, secure, delete, mkdir);
    }
  }

  /** A kept statement lands at its rank among the kept ones, replaced when it is the create statement. */
  lemma {:induction false} MapStatementsPlacesKept(stmts: seq<Statement>, create: Statement, secure: Statement,
                                                   delete: Statement, mkdir: Statement, p: nat)
    requires p < |stmts| && Kept(stmts[p], create, delete, mkdir)
    ensures CountKept(stmts[..p], create, delete, mkdir) < |MapStatements(stmts, create, secure, delete, mkdir)|
    ensures MapStatements(stmts, create, secure, delete, mkdir)[CountKept(stmts[..p], create, delete, mkdir)]
            == (if stmts[p].id == create.id then secure else stmts[p])
    decreases |stmts|
  {
    var n := |stmts| - 1;
    var init := stmts[..n];
    var r' := MapStatements(init, create, secure, delete, mkdir);
    MapStatementsLength(init, create, secure, delete, mkdir);
    var idx := CountKept(stmts[..p], create, delete, mkdir);
    if p < n {
      assert init[..p] == stmts[..p];
      assert init[p] == stmts[p];
      MapStatementsPlacesKept(init, create, secure, delete, mkdir, p);
      assert idx < |r'|;
    } else {
      assert stmts[..p] == init;
      assert idx == |r'|;
    }
  }

  /** The position a surviving statement moves to once the statements at `j` and `k` are dropped. */
  function Shift(p: nat, j: nat, k: nat): int {
    p - (if j < p then 1 else 0) - (if k < p then 1 else 0)
  }

  lemma {:induction false} CountKeptIsShift(stmts: seq<Statement>, i: nat, j: nat, k: nat, p: nat)
    requires UniqueIds(stmts)
    requires i < |stmts| && j < |stmts| && k < |stmts| && i != j && i != k && j != k
    requires p <= |stmts|
    ensures CountKept(stmts[..p], stmts[i], stmts[j], stmts[k]) == Shift(p, j, k)
    decreases p
  {
    if p > 0 {
      CountKeptIsShift(stmts, i, j, k, p - 1);
      assert stmts[..p][..p - 1] == stmts[..p - 1];
      assert stmts[..p][p - 1] == stmts[p - 1];
    }
  }

  /** With the three roles at distinct positions, the map replaces `i` in place and drops `j` and `k`. */
  lemma MapStatementsRewrites(stmts: seq<Statement>, i: nat, j: nat, k: nat, secure: Statement)
    requires UniqueIds(stmts)
    requires i < |stmts| && j < |stmts| && k < |stmts| && i != j && i != k && j != k
    ensures var r := MapStatements(stmts, stmts[i], secure, stmts[j], stmts[k]);
            && |r| == |stmts| - 2
            && r[Shift(i, j, k)] == secure
            && forall p | 0 <= p < |stmts| && p != i && p != j && p != k :: r[Shift(p, j, k)] == stmts[p]
  {
    var r := MapStatements(stmts, stmts[i], secure, stmts[j], stmts[k]);
    MapStatementsLength(stmts, stmts[i], secure, stmts[j], stmts[k]);
    CountKeptIsShift(stmts, i, j, k, |stmts|);
    assert stmts[..|stmts|] == stmts;
    forall p | 0 <= p < |stmts| && p != j && p != k
      ensures r[Shift(p, j, k)] == (if p == i then secure else stmts[p])
    {
      CountKeptIsShift(stmts, i, j, k, p);
      MapStatementsPlacesKept(stmts, stmts[i], secure, stmts[j], stmts[k], p);
    }
  }

  /**
   * The rewrite for one candidate: scan the block into a role map and, when all
   * four roles are present, replace the create statement by its secure form and
   * drop the delete and mkdir statements.
   */
  function ApplyCandidate(stmts: seq<Statement>, c: Candidate): (r: seq<Statement>)
    ensures |r| <= |stmts|
    ensures forall s | s in r :: s in stmts || exists t | t in stmts :: s == SecureStatement(t)
  {
    var m := Scan(c, stmts);
    FourRolesMeansAll(m);
    if |m| == 4 then
      MapStatementsKeepsOrSecures(stmts, m[Create], m[SecureCreate], m[Delete], m[Mkdir]);
      MapStatements(stmts, m[Create], m[SecureCreate], m[Delete], m[Mkdir])
    else stmts
  }

  lemma {:induction false} MapStatementsKeepsOrSecures(stmts: seq<Statement>, create: Statement, secure: Statement,
                                                       delete: Statement, mkdir: Statement)
    ensures |MapStatements(stmts, create, secure, delete, mkdir)| <= |stmts|
    ensures forall s | s in MapStatements(stmts, create, secure, delete, mkdir) :: s in stmts || s == secure
    decreases |stmts|
  {
    if |stmts| > 0 {
      MapStatementsKeepsOrSecures(stmts[..|stmts| - 1], create, secure, delete, mkdir);
    }
  }

  /** With fewer than the three roles found, the candidate leaves the block as it is. */
  lemma ApplyCandidateIncompleteIsNoOp(stmts: seq<Statement>, c: Candidate)
    requires !AnyFills(c, stmts, Create) || !AnyFills(c, stmts, Delete) || !AnyFills(c, stmts, Mkdir)
    ensures ApplyCandidate(stmts, c) == stmts
  {
    ScanKeepsLastOfEachRole(c, stmts, Create);
    ScanKeepsLastOfEachRole(c, stmts, Delete);
    ScanKeepsLastOfEachRole(c, stmts, Mkdir);
    FourRolesMeansAll(Scan(c, stmts));
  }

  /**
   * With the last create, delete and mkdir statements at `i`, `j` and `k`, the block
   * loses exactly two statements, `i` becomes its secure form at the same relative
   * position, and every other statement keeps its relative order.
   */
  /** A candidate whose role map is full has a last statement for each of the three roles. */
  lemma FiringPositions(stmts: seq<Statement>, c: Candidate) returns (i: nat, j: nat, k: nat)
    requires Fires(stmts, c)
    ensures LastFills(c, stmts, Create, i) && LastFills(c, stmts, Delete, j) && LastFills(c, stmts, Mkdir, k)
  {
    var m := Scan(c, stmts);
    FourRolesMeansAll(m);
    ScanKeepsLastOfEachRole(c, stmts, Create);
    ScanKeepsLastOfEachRole(c, stmts, Delete);
    ScanKeepsLastOfEachRole(c, stmts, Mkdir);
    i :| LastFills(c, stmts, Create, i);
    j :| LastFills(c, stmts, Delete, j);
    k :| LastFills(c, stmts, Mkdir, k);
  }

  /** With every role filled, the candidate's rewrite is the mapping built from the last statement of each role. */
  lemma ApplyCandidateMapsLastFills(stmts: seq<Statement>, c: Candidate, i: nat, j: nat, k: nat)
    requires LastFills(c, stmts, Create, i) && LastFills(c, stmts, Delete, j) && LastFills(c, stmts, Mkdir, k)
    ensures i != j && i != k && j != k
    ensures ApplyCandidate(stmts, c) == MapStatements(stmts, stmts[i], SecureStatement(stmts[i]), stmts[j], stmts[k])
  {
    var m := Scan(c, stmts);
    ScanKeepsLastOfEachRole(c, stmts, Create);
    ScanKeepsLastOfEachRole(c, stmts, Delete);
    ScanKeepsLastOfEachRole(c, stmts, Mkdir);
    FourRolesMeansAll(m);
    var i' :| LastFills(c, stmts, Create, i') && m[Create] == stmts[i'];
    var j' :| LastFills(c, stmts, Delete, j') && m[Delete] == stmts[j'];
    var k' :| LastFills(c, stmts, Mkdir, k') && m[Mkdir] == stmts[k'];
    assert i' == i && j' == j && k' == k;
  }

  lemma ApplyCandidateRewrites(stmts: seq<Statement>, c: Candidate, i: nat, j: nat, k: nat)
    requires UniqueIds(stmts)
    requires LastFills(c, stmts, Create, i) && LastFills(c, stmts, Delete, j) && LastFills(c, stmts, Mkdir, k)
    ensures i != j && i != k && j != k
    ensures |ApplyCandidate(stmts, c)| == |stmts| - 2
    ensures 0 <= Shift(i, j, k) < |stmts| - 2
    ensures ApplyCandidate(stmts, c)[Shift(i, j, k)] == SecureStatement(stmts[i])
    ensures forall p | 0 <= p < |stmts| && p != i && p != j && p != k ::
              0 <= Shift(p, j, k) < |stmts| - 2 && ApplyCandidate(stmts, c)[Shift(p, j, k)] == stmts[p]
  {
    ApplyCandidateMapsLastFills(stmts, c, i, j, k);
    MapStatementsRewrites(stmts, i, j, k, SecureStatement(stmts[i]));
  }

  /** The secure replacement keeps the statement's id, so the block's ids stay distinct. */
  lemma ApplyCandidateKeepsIdsUnique(stmts: seq<Statement>, c: Candidate)
    requires UniqueIds(stmts)
    ensures UniqueIds(ApplyCandidate(stmts, c))
  {
    if Fires(stmts, c) {
      var i, j, k := FiringPositions(stmts, c);
      ApplyCandidateRewrites(stmts, c, i, j, k);
      var r := ApplyCandidate(stmts, c);
      forall a, b | 0 <= a < b < |r| ensures r[a].id != r[b].id {
        var pa := Unshift(a, j, k);
        var pb := Unshift(b, j, k);
        assert r[a].id == stmts[pa].id;
        assert r[b].id == stmts[pb].id;
      }
    }
  }

  /** The original position of the statement at `q` after the positions `j` and `k` were dropped. */
  lemma Unshift(q: nat, j: nat, k: nat) returns (p: nat)
    requires j != k
    ensures p != j && p != k && Shift(p, j, k) == q
    ensures forall p' :: 0 <= p' < p && p' != j && p' != k ==> Shift(p', j, k) < q
    ensures forall p' :: p < p' && p' != j && p' != k ==> Shift(p', j, k) > q
  {
    var lo := if j < k then j else k;
    var hi := if j < k then k else j;
    if q < lo { p := q; }
    else if q + 1 < hi { p := q + 1; }
    else { p := q + 2; }
  }

  // ---------------------------------------------------------------------------
  // The block and the compilation unit
  // ---------------------------------------------------------------------------

  /** visitBlock: the candidates are applied in order, each to the block the previous ones produced. */
  function RewriteBlock(stmts: seq<Statement>, candidates: seq<Candidate>): (r: seq<Statement>)
    ensures |r| <= |stmts|
    decreases |candidates|
  {
    if |candidates| == 0 then stmts
    else RewriteBlock(ApplyCandidate(stmts, candidates[0]), candidates[1..])
  }

  /** The rewrite of one block, with the candidates its own statements record. */
  function VisitBlock(stmts: seq<Statement>): seq<Statement> {
    RewriteBlock(stmts, TopLevelCandidates(stmts))
  }

  /** A candidate fires on a block when its role map is full. */
  predicate Fires(stmts: seq<Statement>, c: Candidate) {
    |Scan(c, stmts)| == 4
  }

  /** How many of the candidates fire, each on the block the earlier ones left. */
  function FiredCount(stmts: seq<Statement>, candidates: seq<Candidate>): nat
    decreases |candidates|
  {
    if |candidates| == 0 then 0
    else (if Fires(stmts, candidates[0]) then 1 else 0)
         + FiredCount(ApplyCandidate(stmts, candidates[0]), candidates[1..])
  }

  /** A candidate that fires removes exactly two statements; one that does not leaves the block alone. */
  lemma ApplyCandidateRemovesNoneOrTwo(stmts: seq<Statement>, c: Candidate)
    requires UniqueIds(stmts)
    ensures !Fires(stmts, c) ==> ApplyCandidate(stmts, c) == stmts
    ensures Fires(stmts, c) ==> |ApplyCandidate(stmts, c)| == |stmts| - 2
  {
    if Fires(stmts, c) {
      var i, j, k := FiringPositions(stmts, c);
      ApplyCandidateRewrites(stmts, c, i, j, k);
    }
  }

  /** The block loses exactly two statements for every candidate that fires. */
  lemma {:induction false} RewriteBlockRemovesTwoPerFiring(stmts: seq<Statement>, candidates: seq<Candidate>)
    requires UniqueIds(stmts)
    ensures |RewriteBlock(stmts, candidates)| == |stmts| - 2 * FiredCount(stmts, candidates)
    decreases |candidates|
  {
    if |candidates| > 0 {
      var c := candidates[0];
      ApplyCandidateKeepsIdsUnique(stmts, c);
      ApplyCandidateRemovesNoneOrTwo(stmts, c);
      RewriteBlockRemovesTwoPerFiring(ApplyCandidate(stmts, c), candidates[1..]);
    }
  }

  /** Every statement of `r` is a statement of `stmts` or the secure form of one. */
  ghost predicate SecuredFrom(r: seq<Statement>, stmts: seq<Statement>) {
    forall s | s in r :: s in stmts || exists t | t in stmts :: s == SecureStatement(t)
  }

  lemma SecuredFromTransitive(a: seq<Statement>, b: seq<Statement>, c: seq<Statement>)
    requires SecuredFrom(b, a) && SecuredFrom(c, b)
    ensures SecuredFrom(c, a)
  {
    forall s | s in c ensures s in a || exists t | t in a :: s == SecureStatement(t) {
      if s !in b {
        var u :| u in b && s == SecureStatement(u);
        if u !in a {
          var t :| t in a && u == SecureStatement(t);
          SecureStatementIdempotent(t);
        }
      }
    }
  }

  /**
   * Over a whole candidate list, ids stay distinct and every surviving statement is
   * an original one or the secure form of an original one.
   */
  lemma {:induction false} RewriteBlockShape(stmts: seq<Statement>, candidates: seq<Candidate>)
    requires UniqueIds(stmts)
    ensures UniqueIds(RewriteBlock(stmts, candidates))
    ensures SecuredFrom(RewriteBlock(stmts, candidates), stmts)
    decreases |candidates|
  {
    if |candidates| > 0 {
      var c := candidates[0];
      var next := ApplyCandidate(stmts, c);
      ApplyCandidateKeepsIdsUnique(stmts, c);
      RewriteBlockShape(next, candidates[1..]);
      assert SecuredFrom(next, stmts);
      SecuredFromTransitive(stmts, next, RewriteBlock(next, candidates[1..]));
    }
  }

  /** A statement that is not a call and that no candidate claims as its create statement survives unchanged. */
  lemma ApplyCandidateKeepsStatement(stmts: seq<Statement>, c: Candidate, s: Statement)
    requires UniqueIds(stmts) && s in stmts
    requires !s.Invocation? && !IsMatchingCreateFileStatement(c, s)
    ensures s in ApplyCandidate(stmts, c)
  {
    if Fires(stmts, c) {
      var i, j, k := FiringPositions(stmts, c);
      ApplyCandidateRewrites(stmts, c, i, j, k);
      var p :| 0 <= p < |stmts| && stmts[p] == s;
      assert p != i && p != j && p != k;
      assert ApplyCandidate(stmts, c)[Shift(p, j, k)] == s;
    }
  }

  lemma {:induction false} RewriteBlockKeepsStatement(stmts: seq<Statement>, candidates: seq<Candidate>, s: Statement)
    requires UniqueIds(stmts) && s in stmts
    requires !s.Invocation? && forall c | c in candidates :: !IsMatchingCreateFileStatement(c, s)
    ensures s in RewriteBlock(stmts, candidates)
    decreases |candidates|
  {
    if |candidates| > 0 {
      ApplyCandidateKeepsStatement(stmts, candidates[0], s);
      ApplyCandidateKeepsIdsUnique(stmts, candidates[0]);
      RewriteBlockKeepsStatement(ApplyCandidate(stmts, candidates[0]), candidates[1..], s);
    }
  }

  /** Every assignment candidate of a block is one of its assignment statements to a plain identifier. */
  lemma {:induction false} AssignmentCandidatesAreStatements(stmts: seq<Statement>, c: Candidate)
    requires c in TopLevelCandidates(stmts) && c.AssignedTo?
    ensures exists q | 0 <= q < |stmts| :: stmts[q].Assignment? && stmts[q].id == c.id && stmts[q].variable.Ident?
    decreases |stmts|
  {
    assert |stmts| > 0;
    if c in StatementCandidates(stmts[0]) {
      if stmts[0].VariableDeclarations? {
        DeclarationsRecordOnlyDeclared(stmts[0].variables, c);
      }
      assert stmts[0].Assignment? && stmts[0].id == c.id && stmts[0].variable.Ident?;
    } else {
      AssignmentCandidatesAreStatements(stmts[1..], c);
      var q :| 0 <= q < |stmts[1..]| && stmts[1..][q].Assignment? && stmts[1..][q].id == c.id && stmts[1..][q].variable.Ident?;
      assert stmts[q + 1] == stmts[1..][q];
    }
  }

  lemma {:induction false} DeclarationsRecordOnlyDeclared(vars: seq<NamedVariable>, c: Candidate)
    ensures c in VariableCandidates(vars) ==> c.Declared?
    decreases |vars|
  {
    if |vars| > 0 {
      DeclarationsRecordOnlyDeclared(vars[1..], c);
    }
  }

  /** `C.FILE = File.createTempFile(..)`: an assignment to anything but a plain identifier is never rewritten. */
  lemma FieldTargetIsNeverRewritten(stmts: seq<Statement>, p: nat)
    requires UniqueIds(stmts)
    requires p < |stmts| && stmts[p].Assignment? && !stmts[p].variable.Ident?
    ensures stmts[p] in VisitBlock(stmts)
  {
    var s := stmts[p];
    forall c | c in TopLevelCandidates(stmts) ensures !IsMatchingCreateFileStatement(c, s) {
      if c.AssignedTo? {
        AssignmentCandidatesAreStatements(stmts, c);
        var q :| 0 <= q < |stmts| && stmts[q].Assignment? && stmts[q].id == c.id && stmts[q].variable.Ident?;
        assert q != p;
      }
    }
    RewriteBlockKeepsStatement(stmts, TopLevelCandidates(stmts), s);
  }

  /** A declaration of several variables never fills the create role, so it is never rewritten. */
  lemma MultiVariableDeclarationIsNeverRewritten(stmts: seq<Statement>, candidates: seq<Candidate>, p: nat)
    requires UniqueIds(stmts)
    requires p < |stmts| && stmts[p].VariableDeclarations? && |stmts[p].variables| != 1
    ensures stmts[p] in RewriteBlock(stmts, candidates)
  {
    RewriteBlockKeepsStatement(stmts, candidates, stmts[p]);
  }

  /** A source file, as the blocks of statements it contains, and its Java version marker. */
  datatype CompilationUnit = CompilationUnit(javaVersion: Option<int>, blocks: seq<seq<Statement>>)

  /** visitJavaSourceFile: files marked as older than Java 7 are returned as they are; otherwise every block is rewritten. */
  function VisitJavaSourceFile(cu: CompilationUnit): (r: CompilationUnit)
    ensures cu.javaVersion.Some? && cu.javaVersion.value < 7 ==> r == cu
    ensures r.javaVersion == cu.javaVersion && |r.blocks| == |cu.blocks|
    ensures forall i | 0 <= i < |cu.blocks| :: |r.blocks[i]| <= |cu.blocks[i]|
    ensures !(cu.javaVersion.Some? && cu.javaVersion.value < 7) ==>
              forall i | 0 <= i < |cu.blocks| :: r.blocks[i] == VisitBlock(cu.blocks[i])
  {
    if cu.javaVersion.Some? && cu.javaVersion.value < 7 then cu
    else cu.(blocks := seq(|cu.blocks|, i requires 0 <= i < |cu.blocks| => VisitBlock(cu.blocks[i])))
  }

  // ---------------------------------------------------------------------------
  // Worked examples
  // ---------------------------------------------------------------------------

  const FileType := Class("java.io.File")

  function CreateTempFileCall(args: seq<Expr>): Expr {
    var params := if |args| == 3 then ["java.lang.String", "java.lang.String", "java.io.File"]
                  else ["java.lang.String", "java.lang.String"];
    Call(Invoke(Some(Ident(Identifier("File", FileType))), "createTempFile",
                Some(MethodType("java.io.File", "createTempFile", params)), args))
  }

  /** The statement `v.name();` for a no-argument `java.io.File` method. */
  function FileMethodStatement(id: NodeId, v: Identifier, name: string): Statement {
    Invocation(id, Invoke(Some(Ident(v)), name, Some(MethodType("java.io.File", name, [])), []))
  }

  /** `System.out.println(v.getAbsolutePath());`, a call statement whose receiver is a field access. */
  function PrintPath(id: NodeId, v: Identifier): Statement {
    Invocation(id, Invoke(Some(FieldAccess(Ident(Identifier("System", Class("java.lang.System"))), "out")), "println",
                          Some(MethodType("java.io.PrintStream", "println", ["java.lang.String"])),
                          [Call(Invoke(Some(Ident(v)), "getAbsolutePath", Some(MethodType("java.io.File", "getAbsolutePath", [])), []))]))
  }

  /** A print on `System.out` plays no role for any candidate: its receiver is a field access, not an identifier. */
  lemma PrintPlaysNoRole(c: Candidate, id: NodeId, v: Identifier)
    ensures RoleOf(c, PrintPath(id, v)) == None
    ensures StatementCandidates(PrintPath(id, v)) == []
  {
  }

  /** The candidates of a block whose statements record nothing except the one at `q` are those of `q`. */
  lemma {:induction false} CandidatesOfOne(stmts: seq<Statement>, q: nat)
    requires q < |stmts|
    requires forall x | 0 <= x < |stmts| && x != q :: StatementCandidates(stmts[x]) == []
    ensures TopLevelCandidates(stmts) == StatementCandidates(stmts[q])
    decreases |stmts|
  {
    if q > 0 {
      CandidatesOfOne(stmts[1..], q - 1);
    } else {
      NoCandidatesRecorded(stmts[1..]);
    }
  }

  /** With two recording statements, at `p` and then `q`, the candidates are theirs in that order. */
  lemma {:induction false} CandidatesOfTwo(stmts: seq<Statement>, p: nat, q: nat)
    requires p < q < |stmts|
    requires forall x | 0 <= x < |stmts| && x != p && x != q :: StatementCandidates(stmts[x]) == []
    ensures TopLevelCandidates(stmts) == StatementCandidates(stmts[p]) + StatementCandidates(stmts[q])
    decreases |stmts|
  {
    if p > 0 {
      CandidatesOfTwo(stmts[1..], p - 1, q - 1);
    } else {
      CandidatesOfOne(stmts[1..], q - 1);
    }
  }

  lemma {:induction false} NoCandidatesRecorded(stmts: seq<Statement>)
    requires forall x | 0 <= x < |stmts| :: StatementCandidates(stmts[x]) == []
    ensures TopLevelCandidates(stmts) == []
    decreases |stmts|
  {
    if |stmts| > 0 {
      NoCandidatesRecorded(stmts[1..]);
    }
  }


  /** Candidates accumulate in visiting order: those of a concatenation are those of each part, in turn. */
  lemma {:induction false} TopLevelCandidatesAppend(a: seq<Statement>, b: seq<Statement>)
    ensures TopLevelCandidates(a + b) == TopLevelCandidates(a) + TopLevelCandidates(b)
    decreases |a|
  {
    if |a| > 0 {
      assert (a + b)[1..] == a[1..] + b;
      TopLevelCandidatesAppend(a[1..], b);
    } else {
      assert a + b == b;
    }
  }

  /** A block with exactly one candidate is rewritten by that candidate alone. */
  lemma VisitBlockOne(stmts: seq<Statement>, c: Candidate)
    requires TopLevelCandidates(stmts) == [c]
    ensures VisitBlock(stmts) == ApplyCandidate(stmts, c)
  {
    var r := ApplyCandidate(stmts, c);
    assert [c][1..] == [];
    assert RewriteBlock(stmts, [c]) == RewriteBlock(r, []);
  }

  /** A block with two candidates is rewritten by the first, then by the second on the first's result. */
  lemma VisitBlockTwo(stmts: seq<Statement>, c1: Candidate, c2: Candidate)
    requires TopLevelCandidates(stmts) == [c1, c2]
    ensures VisitBlock(stmts) == ApplyCandidate(ApplyCandidate(stmts, c1), c2)
  {
    var r1 := ApplyCandidate(stmts, c1);
    var r2 := ApplyCandidate(r1, c2);
    assert [c1, c2][1..] == [c2];
    assert [c2][1..] == [];
    assert RewriteBlock(stmts, [c1, c2]) == RewriteBlock(r1, [c2]);
    assert RewriteBlock(r1, [c2]) == RewriteBlock(r2, []);
  }

  const TempDir := Identifier("tempDir", FileType)
  const TempDirDeclaration := VariableDeclarations(0, [NamedVariable(10, TempDir, None)])
  const OverridesArgs := [StringLiteral("OverridesTest"), StringLiteral("dir")]
  const AssignedCreate := Assignment(1, Ident(TempDir), CreateTempFileCall(OverridesArgs))

  /** `File tempDir; tempDir = File.createTempFile("OverridesTest", "dir"); tempDir.delete(); tempDir.mkdir(); System.out.println(..);` */
  const AssignedIdiom := [TempDirDeclaration, AssignedCreate,
                          FileMethodStatement(2, TempDir, "delete"), FileMethodStatement(3, TempDir, "mkdir"),
                          PrintPath(4, TempDir)]

  lemma AssignedIdiomCandidates()
    ensures TopLevelCandidates(AssignedIdiom) == [AssignedTo(1, TempDir)]
  {
    var stmts := AssignedIdiom;
    forall x | 0 <= x < |stmts| && x != 1
      ensures StatementCandidates(stmts[x]) == []
    {
      if x == 0 {
        var vs := TempDirDeclaration.variables;
        assert vs[1..] == [];
        assert VariableCandidates(vs) == [];
      } else {
        assert x in {2, 3, 4};
      }
    }
    CandidatesOfOne(stmts, 1);
    assert StatementCandidates(AssignedCreate) == [AssignedTo(1, TempDir)];
  }

  lemma AssignedIdiomRoles()
    ensures UniqueIds(AssignedIdiom)
    ensures LastFills(AssignedTo(1, TempDir), AssignedIdiom, Create, 1)
    ensures LastFills(AssignedTo(1, TempDir), AssignedIdiom, Delete, 2)
    ensures LastFills(AssignedTo(1, TempDir), AssignedIdiom, Mkdir, 3)
  {
    var stmts := AssignedIdiom;
    var c := AssignedTo(1, TempDir);
    assert Fills(c, stmts[1], Create);
    assert Fills(c, stmts[2], Delete);
    assert Fills(c, stmts[3], Mkdir);
    PrintPlaysNoRole(c, 4, TempDir);
  }

  const AssignedCreateSecure :=
    Assignment(1, Ident(TempDir), Call(ToFile(CreateTempDirectory(["java.lang.String"], [Concat(OverridesArgs[0], OverridesArgs[1])]))))

  lemma AssignedCreateSecureForm()
    ensures SecureStatement(AssignedCreate) == AssignedCreateSecure
  {
    assert SecureExpr(Ident(TempDir)) == Ident(TempDir);
  }

  /** The test "useFilesCreateTempDirectory": the three statements collapse into the secure assignment. */
  lemma AssignedIdiomExample()
    ensures VisitBlock(AssignedIdiom) == [TempDirDeclaration, AssignedCreateSecure, PrintPath(4, TempDir)]
  {
    var c := AssignedTo(1, TempDir);
    var e := [TempDirDeclaration, AssignedCreateSecure, PrintPath(4, TempDir)];
    AssignedIdiomCandidates();
    AssignedIdiomRoles();
    AssignedCreateSecureForm();
    VisitBlockOne(AssignedIdiom, c);
    forall p | 0 <= p < |AssignedIdiom| && p != 1 && p != 2 && p != 3
      ensures e[Shift(p, 2, 3)] == AssignedIdiom[p]
    {
      assert p in {0, 4};
    }
    ApplyCandidateIs(AssignedIdiom, c, 1, 2, 3, e);
  }

  const TmpDir := Identifier("tmpDir", FileType)
  const TestData := Ident(Identifier("testData", FileType))
  const DeclaredCreate :=
    VariableDeclarations(0, [NamedVariable(10, TmpDir, Some(CreateTempFileCall([StringLiteral("test"), StringLiteral("dir"), TestData])))])

  /** `File tmpDir = File.createTempFile("test", "dir", testData); tmpDir.delete(); tmpDir.mkdir();` */
  const DeclaredIdiomWithParent := [DeclaredCreate, FileMethodStatement(1, TmpDir, "delete"), FileMethodStatement(2, TmpDir, "mkdir")]

  lemma DeclaredIdiomWithParentCandidates()
    ensures TopLevelCandidates(DeclaredIdiomWithParent) == [Declared(10, TmpDir)]
  {
    var stmts := DeclaredIdiomWithParent;
    assert VariableCandidates(DeclaredCreate.variables) == [Declared(10, TmpDir)] by {
      assert DeclaredCreate.variables[1..] == [];
    }
    forall x | 0 <= x < |stmts| && x != 0
      ensures StatementCandidates(stmts[x]) == []
    {
      assert x in {1, 2};
    }
    CandidatesOfOne(stmts, 0);
  }

  lemma DeclaredIdiomWithParentRoles()
    ensures UniqueIds(DeclaredIdiomWithParent)
    ensures LastFills(Declared(10, TmpDir), DeclaredIdiomWithParent, Create, 0)
    ensures LastFills(Declared(10, TmpDir), DeclaredIdiomWithParent, Delete, 1)
    ensures LastFills(Declared(10, TmpDir), DeclaredIdiomWithParent, Mkdir, 2)
  {
    var stmts := DeclaredIdiomWithParent;
    var c := Declared(10, TmpDir);
    assert Fills(c, stmts[0], Create);
    assert Fills(c, stmts[1], Delete);
    assert Fills(c, stmts[2], Mkdir);
  }

  const ParentDirSecure :=
    ToFile(CreateTempDirectory(["java.nio.file.Path", "java.lang.String"],
                               [ToPath(TestData), Concat(StringLiteral("test"), StringLiteral("dir"))]))

  lemma DeclaredCreateSecureForm()
    ensures SecureStatement(DeclaredCreate) == VariableDeclarations(0, [NamedVariable(10, TmpDir, Some(Call(ParentDirSecure)))])
  {
    var v := DeclaredCreate.variables[0];
    assert SecureInvoke(v.initializer.value.invocation) == ParentDirSecure;
    assert SecureVariable(v) == NamedVariable(10, TmpDir, Some(Call(ParentDirSecure)));
  }

  /** The test "useFilesCreateTempDirectoryWithParentDir": the directory argument moves first, as `testData.toPath()`. */
  lemma DeclaredIdiomWithParentExample()
    ensures VisitBlock(DeclaredIdiomWithParent)
            == [VariableDeclarations(0, [NamedVariable(10, TmpDir, Some(Call(ParentDirSecure)))])]
  {
    var c := Declared(10, TmpDir);
    var e := [VariableDeclarations(0, [NamedVariable(10, TmpDir, Some(Call(ParentDirSecure)))])];
    DeclaredIdiomWithParentCandidates();
    DeclaredIdiomWithParentRoles();
    DeclaredCreateSecureForm();
    VisitBlockOne(DeclaredIdiomWithParent, c);
    ApplyCandidateIs(DeclaredIdiomWithParent, c, 0, 1, 2, e);
  }

  /** `File f = File.createTempFile("a", "b", dir); f.delete();` with no `mkdir` */
  const IdiomWithoutMkdir :=
    [VariableDeclarations(0, [NamedVariable(10, TmpDir, Some(CreateTempFileCall([StringLiteral("a"), StringLiteral("b"), TestData])))]),
     FileMethodStatement(1, TmpDir, "delete")]

  lemma IdiomWithoutMkdirCandidates()
    ensures TopLevelCandidates(IdiomWithoutMkdir) == [Declared(10, TmpDir)]
  {
    var stmts := IdiomWithoutMkdir;
    assert VariableCandidates(stmts[0].variables) == [Declared(10, TmpDir)] by {
      assert stmts[0].variables[1..] == [];
    }
    CandidatesOfOne(stmts, 0);
  }

  lemma IdiomWithoutMkdirHasNoMkdir()
    ensures !AnyFills(Declared(10, TmpDir), IdiomWithoutMkdir, Mkdir)
  {
    var c := Declared(10, TmpDir);
    assert !Fills(c, IdiomWithoutMkdir[0], Mkdir);
    assert !Fills(c, IdiomWithoutMkdir[1], Mkdir);
  }

  /** Without the mkdir statement the block is left exactly as it was. */
  lemma IdiomWithoutMkdirExample()
    ensures VisitBlock(IdiomWithoutMkdir) == IdiomWithoutMkdir
  {
    var c := Declared(10, TmpDir);
    IdiomWithoutMkdirCandidates();
    VisitBlockOne(IdiomWithoutMkdir, c);
    IdiomWithoutMkdirHasNoMkdir();
    ApplyCandidateIncompleteIsNoOp(IdiomWithoutMkdir, c);
  }

  /** `File tempDirChild = new File(tmpdir, "/child"); tempDirChild.mkdir();` has no temp-file creation to anchor on. */
  const TempDirChild := Identifier("tempDirChild", FileType)
  const ChildOfTmpdir := [VariableDeclarations(0, [NamedVariable(1, TempDirChild,
                             Some(NewClass(Some(MethodType("java.io.File", "<constructor>", ["java.lang.String", "java.lang.String"])),
                                           [OtherExpr(0), StringLiteral("/child")])))]),
                          FileMethodStatement(2, TempDirChild, "mkdir")]

  /** The test "Vulnerable File#mkdir() with tmpdir path param": nothing is recorded, so nothing changes. */
  lemma ChildOfTmpdirExample()
    ensures VisitBlock(ChildOfTmpdir) == ChildOfTmpdir
  {
    var stmts := ChildOfTmpdir;
    assert VariableCandidates(stmts[0].variables) == [] by {
      assert stmts[0].variables[1..] == [];
    }
    NoCandidatesRecorded(stmts);
  }

  const FieldTarget := FieldAccess(Ident(Identifier("C", Class("abc.C"))), "FILE")
  const FieldCreate := Assignment(0, FieldTarget, CreateTempFileCall([StringLiteral("cfile"), StringLiteral("txt")]))
  const PngCreate :=
    VariableDeclarations(1, [NamedVariable(11, TempDir, Some(CreateTempFileCall([StringLiteral("abc"), StringLiteral("png")])))])

  /** `C.FILE = File.createTempFile("cfile", "txt"); File tempDir = File.createTempFile("abc", "png"); tempDir.delete(); tempDir.mkdir();` */
  const FieldAndLocal := [FieldCreate, PngCreate, FileMethodStatement(2, TempDir, "delete"), FileMethodStatement(3, TempDir, "mkdir")]

  lemma FieldAndLocalCandidates()
    ensures TopLevelCandidates(FieldAndLocal) == [Declared(11, TempDir)]
  {
    var stmts := FieldAndLocal;
    assert VariableCandidates(PngCreate.variables) == [Declared(11, TempDir)] by {
      assert PngCreate.variables[1..] == [];
    }
    forall x | 0 <= x < |stmts| && x != 1
      ensures StatementCandidates(stmts[x]) == []
    {
      assert x in {0, 2, 3};
    }
    CandidatesOfOne(stmts, 1);
  }

  lemma FieldAndLocalRoles()
    ensures UniqueIds(FieldAndLocal)
    ensures LastFills(Declared(11, TempDir), FieldAndLocal, Create, 1)
    ensures LastFills(Declared(11, TempDir), FieldAndLocal, Delete, 2)
    ensures LastFills(Declared(11, TempDir), FieldAndLocal, Mkdir, 3)
    ensures RoleOf(Declared(11, TempDir), FieldAndLocal[0]) == None
  {
    var stmts := FieldAndLocal;
    var c := Declared(11, TempDir);
    assert Fills(c, stmts[1], Create);
    assert Fills(c, stmts[2], Delete);
    assert Fills(c, stmts[3], Mkdir);
    assert RoleOf(c, stmts[0]) == None;
  }

  /** The test "onlySupportAssignmentToJIdentifier": the field assignment stays, the local idiom is rewritten. */
  lemma FieldAndLocalExample()
    ensures VisitBlock(FieldAndLocal) == [FieldCreate, SecureStatement(PngCreate)]
  {
    var c := Declared(11, TempDir);
    FieldAndLocalCandidates();
    FieldAndLocalRoles();
    VisitBlockOne(FieldAndLocal, c);
    ApplyCandidateIs(FieldAndLocal, c, 1, 2, 3, [FieldCreate, SecureStatement(PngCreate)]);
  }

  const FirstCreate :=
    VariableDeclarations(0, [NamedVariable(10, TempDir, Some(CreateTempFileCall([StringLiteral("abc"), StringLiteral("def")])))])
  const SecondCreate := Assignment(4, Ident(TempDir), CreateTempFileCall([StringLiteral("efg"), StringLiteral("hij")]))

  /** The same idiom twice on one variable, each followed by a print. */
  const TwoIdioms := [FirstCreate, FileMethodStatement(1, TempDir, "delete"), FileMethodStatement(2, TempDir, "mkdir"),
                      PrintPath(3, TempDir),
                      SecondCreate, FileMethodStatement(5, TempDir, "delete"), FileMethodStatement(6, TempDir, "mkdir"),
                      PrintPath(7, TempDir)]

  lemma TwoIdiomsCandidates()
    ensures TopLevelCandidates(TwoIdioms) == [Declared(10, TempDir), AssignedTo(4, TempDir)]
  {
    var stmts := TwoIdioms;
    assert VariableCandidates(FirstCreate.variables) == [Declared(10, TempDir)] by {
      assert FirstCreate.variables[1..] == [];
    }
    assert StatementCandidates(SecondCreate) == [AssignedTo(4, TempDir)];
    forall x | 0 <= x < |stmts| && x != 0 && x != 4
      ensures StatementCandidates(stmts[x]) == []
    {
      assert x in {1, 2, 3, 5, 6, 7};
    }
    CandidatesOfTwo(stmts, 0, 4);
  }

  /** The first candidate, scanning the whole block, takes the last delete and mkdir: those of the second idiom. */
  lemma TwoIdiomsFirstPass()
    ensures UniqueIds(TwoIdioms)
    ensures LastFills(Declared(10, TempDir), TwoIdioms, Create, 0)
    ensures LastFills(Declared(10, TempDir), TwoIdioms, Delete, 5)
    ensures LastFills(Declared(10, TempDir), TwoIdioms, Mkdir, 6)
  {
    var stmts := TwoIdioms;
    var c := Declared(10, TempDir);
    assert Fills(c, stmts[0], Create);
    assert Fills(c, stmts[1], Delete) && Fills(c, stmts[5], Delete);
    assert Fills(c, stmts[2], Mkdir) && Fills(c, stmts[6], Mkdir);
    PrintPlaysNoRole(c, 3, TempDir);
    PrintPlaysNoRole(c, 7, TempDir);
    assert RoleOf(c, stmts[4]) == None;
  }

  const AfterFirstPass := [SecureStatement(FirstCreate), FileMethodStatement(1, TempDir, "delete"),
                           FileMethodStatement(2, TempDir, "mkdir"), PrintPath(3, TempDir), SecondCreate, PrintPath(7, TempDir)]

  lemma TwoIdiomsAfterFirstPass()
    ensures ApplyCandidate(TwoIdioms, Declared(10, TempDir)) == AfterFirstPass
  {
    TwoIdiomsFirstPass();
    var e := AfterFirstPass;
    assert e[Shift(0, 5, 6)] == SecureStatement(TwoIdioms[0]);
    forall p | 0 <= p < |TwoIdioms| && p != 0 && p != 5 && p != 6
      ensures e[Shift(p, 5, 6)] == TwoIdioms[p]
    {
      assert p in {1, 2, 3, 4, 7};
    }
    ApplyCandidateIs(TwoIdioms, Declared(10, TempDir), 0, 5, 6, e);
  }

  /** Element-wise form of ApplyCandidateRewrites: a block with the expected elements at the shifted positions is the result. */
  lemma ApplyCandidateIs(stmts: seq<Statement>, c: Candidate, i: nat, j: nat, k: nat, expected: seq<Statement>)
    requires UniqueIds(stmts)
    requires LastFills(c, stmts, Create, i) && LastFills(c, stmts, Delete, j) && LastFills(c, stmts, Mkdir, k)
    requires |expected| == |stmts| - 2
    requires 0 <= Shift(i, j, k) < |expected| && expected[Shift(i, j, k)] == SecureStatement(stmts[i])
    requires forall p | 0 <= p < |stmts| && p != i && p != j && p != k ::
               0 <= Shift(p, j, k) < |expected| && expected[Shift(p, j, k)] == stmts[p]
    ensures ApplyCandidate(stmts, c) == expected
  {
    ApplyCandidateRewrites(stmts, c, i, j, k);
    var r := ApplyCandidate(stmts, c);
    forall q | 0 <= q < |r|
      ensures r[q] == expected[q]
    {
      var p := Unshift(q, j, k);
    }
  }

  /** The second candidate then finds the first idiom's delete and mkdir, which are still in the block. */
  lemma TwoIdiomsSecondPass()
    ensures UniqueIds(AfterFirstPass)
    ensures LastFills(AssignedTo(4, TempDir), AfterFirstPass, Create, 4)
    ensures LastFills(AssignedTo(4, TempDir), AfterFirstPass, Delete, 1)
    ensures LastFills(AssignedTo(4, TempDir), AfterFirstPass, Mkdir, 2)
  {
    var stmts := AfterFirstPass;
    var c := AssignedTo(4, TempDir);
    assert stmts[0].id == 0;
    assert Fills(c, stmts[4], Create);
    assert Fills(c, stmts[1], Delete);
    assert Fills(c, stmts[2], Mkdir);
    assert stmts[0].VariableDeclarations?;
    PrintPlaysNoRole(c, 3, TempDir);
    PrintPlaysNoRole(c, 7, TempDir);
    assert RoleOf(c, stmts[0]) == None;
  }

  const TwoIdiomsResult := [SecureStatement(FirstCreate), PrintPath(3, TempDir), SecureStatement(SecondCreate), PrintPath(7, TempDir)]

  /** The test "useFilesCreateTempDirectory2": both idioms on `tempDir` are rewritten, the prints stay in order. */
  lemma TwoIdiomsExample()
    ensures VisitBlock(TwoIdioms) == TwoIdiomsResult
  {
    var c1 := Declared(10, TempDir);
    var c2 := AssignedTo(4, TempDir);
    TwoIdiomsCandidates();
    VisitBlockTwo(TwoIdioms, c1, c2);
    TwoIdiomsAfterFirstPass();
    TwoIdiomsSecondPass();
    var e := TwoIdiomsResult;
    forall p | 0 <= p < |AfterFirstPass| && p != 4 && p != 1 && p != 2
      ensures 0 <= Shift(p, 1, 2) < |e| && e[Shift(p, 1, 2)] == AfterFirstPass[p]
    {
      assert p in {0, 3, 5};
    }
    ApplyCandidateIs(AfterFirstPass, c2, 4, 1, 2, e);
  }
}
