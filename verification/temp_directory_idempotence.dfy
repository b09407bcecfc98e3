/**
 * Re-running the temp-directory rewrite on its own output changes nothing.
 *
 * This holds for blocks as the Java compiler produces them: every node has its own
 * id, and a call resolved to `File.createTempFile` has the two or three arguments of
 * one of its two overloads. A fired candidate's create statement is then replaced by
 * a `Files.createTempDirectory` call, which records nothing on the next run, and a
 * candidate that did not fire still misses a role, because the rewrite only removes
 * statements or replaces them by secure forms that play the same roles.
 */
module TempDirectoryIdempotence {
  import opened Wrappers
  import opened JTree
  import opened TempDirectory

  // ---------------------------------------------------------------------------
  // Well-formed blocks
  // ---------------------------------------------------------------------------

  /** `File.createTempFile` is declared with two or three parameters, so a call resolved to it has that many arguments. */
  predicate DeclaredArity(inv: Invoke) {
    Matches(CreateTempFileMatcher, inv.methodType) ==> |inv.arguments| == 2 || |inv.arguments| == 3
  }

  /** Every call that a statement could record as a candidate has a declared arity. */
  predicate RecordingCallsHaveDeclaredArity(s: Statement) {
    match s
    case Assignment(_, _, a) => a.Call? ==> DeclaredArity(a.invocation)
    case VariableDeclarations(_, vars) =>
      forall i | 0 <= i < |vars| && vars[i].initializer.Some? && vars[i].initializer.value.Call? ::
        DeclaredArity(vars[i].initializer.value.invocation)
    case _ => true
  }

  /** Named variables of different statements have different ids. */
  predicate DistinctVariableIds(stmts: seq<Statement>) {
    forall a, b, x, y |
      && 0 <= a < |stmts| && 0 <= b < |stmts| && a != b
      && stmts[a].VariableDeclarations? && stmts[b].VariableDeclarations?
      && 0 <= x < |stmts[a].variables| && 0 <= y < |stmts[b].variables| ::
      stmts[a].variables[x].id != stmts[b].variables[y].id
  }

  /** A block of a compiled Java file: distinct node ids and `createTempFile` calls of a declared arity. */
  predicate WellFormedBlock(stmts: seq<Statement>) {
    && UniqueIds(stmts)
    && DistinctVariableIds(stmts)
    && forall q | 0 <= q < |stmts| :: RecordingCallsHaveDeclaredArity(stmts[q])
  }

  // ---------------------------------------------------------------------------
  // Secure forms record nothing and play the roles of their originals
  // ---------------------------------------------------------------------------

  lemma {:induction false} NoVariableRecords(vars: seq<NamedVariable>)
    requires forall i | 0 <= i < |vars| && vars[i].initializer.Some? && vars[i].initializer.value.Call? ::
               !Matches(CreateTempFileMatcher, vars[i].initializer.value.invocation.methodType)
    ensures VariableCandidates(vars) == []
    decreases |vars|
  {
    if |vars| > 0 {
      assert forall i | 0 <= i < |vars[1..]| :: vars[1..][i] == vars[i + 1];
      NoVariableRecords(vars[1..]);
    }
  }

  /** The secure form of a statement whose calls have a declared arity records no candidate. */
  lemma SecureStatementRecordsNothing(t: Statement)
    requires RecordingCallsHaveDeclaredArity(t)
    ensures StatementCandidates(SecureStatement(t)) == []
  {
    match t
    case Assignment(id, v, a) =>
      if a.Call? {
        assert SecureExpr(a) == Call(SecureInvoke(a.invocation));
      } else {
        assert !SecureExpr(a).Call?;
      }
    case VariableDeclarations(id, vars) =>
      var vs := SecureStatement(t).variables;
      forall i | 0 <= i < |vs| && vs[i].initializer.Some? && vs[i].initializer.value.Call?
        ensures !Matches(CreateTempFileMatcher, vs[i].initializer.value.invocation.methodType)
      {
        assert vs[i] == SecureVariable(vars[i]);
        var e := vars[i].initializer.value;
        if e.Call? {
          assert vs[i].initializer.value == Call(SecureInvoke(e.invocation));
        } else {
          assert !SecureExpr(e).Call?;
        }
      }
      NoVariableRecords(vs);
    case Invocation(_, _) =>
    case OtherStatement(_) =>
  }

  /** Securing a statement never changes the role it plays for any candidate. */
  lemma SecureStatementKeepsRole(c: Candidate, t: Statement)
    ensures RoleOf(c, SecureStatement(t)) == RoleOf(c, t)
  {
    if t.VariableDeclarations? && |t.variables| == 1 {
      assert SecureStatement(t).variables[0].id == t.variables[0].id;
    }
  }

  /** A statement derived from a well-formed block by securing records no candidate. */
  lemma SecuredRecordsNothing(stmts: seq<Statement>, b: seq<Statement>, t: Statement)
    requires forall q | 0 <= q < |stmts| :: RecordingCallsHaveDeclaredArity(stmts[q])
    requires SecuredFrom(b, stmts) && t in b
    ensures StatementCandidates(SecureStatement(t)) == []
  {
    if t in stmts {
      var q :| 0 <= q < |stmts| && stmts[q] == t;
      SecureStatementRecordsNothing(t);
    } else {
      var t0 :| t0 in stmts && t == SecureStatement(t0);
      var q :| 0 <= q < |stmts| && stmts[q] == t0;
      SecureStatementIdempotent(t0);
      SecureStatementRecordsNothing(t0);
    }
  }

  /** A statement that records a candidate after some rewrites was already in the block before them. */
  lemma RecorderIsOriginal(stmts: seq<Statement>, b: seq<Statement>, x: seq<Statement>, u: Statement)
    requires forall q | 0 <= q < |stmts| :: RecordingCallsHaveDeclaredArity(stmts[q])
    requires SecuredFrom(b, stmts) && SecuredFrom(x, b)
    requires u in x && StatementCandidates(u) != []
    ensures u in b
  {
    if u !in b {
      var t :| t in b && u == SecureStatement(t);
      SecuredRecordsNothing(stmts, b, t);
    }
  }

  /** A role no statement fills stays unfilled once statements are removed or secured. */
  lemma NoFillSurvives(c: Candidate, before: seq<Statement>, after: seq<Statement>, role: Role)
    requires SecuredFrom(after, before) && !AnyFills(c, before, role)
    ensures !AnyFills(c, after, role)
  {
    forall q | 0 <= q < |after| ensures !Fills(c, after[q], role) {
      var s := after[q];
      if s in before {
        var p :| 0 <= p < |before| && before[p] == s;
      } else {
        var t :| t in before && s == SecureStatement(t);
        var p :| 0 <= p < |before| && before[p] == t;
        SecureStatementKeepsRole(c, t);
      }
    }
  }

  // ---------------------------------------------------------------------------
  // Firing, candidates and the block rewrite
  // ---------------------------------------------------------------------------

  /** A candidate fires exactly when some statement fills each of create, delete and mkdir. */
  lemma FiresIffAllRolesFilled(stmts: seq<Statement>, c: Candidate)
    ensures Fires(stmts, c) <==> AnyFills(c, stmts, Create) && AnyFills(c, stmts, Delete) && AnyFills(c, stmts, Mkdir)
  {
    ScanKeepsLastOfEachRole(c, stmts, Create);
    ScanKeepsLastOfEachRole(c, stmts, Delete);
    ScanKeepsLastOfEachRole(c, stmts, Mkdir);
    FourRolesMeansAll(Scan(c, stmts));
  }

  /** Candidates none of which fire leave the block as it is. */
  lemma {:induction false} RewriteBlockNoneFire(b: seq<Statement>, cs: seq<Candidate>)
    requires forall c | c in cs :: !Fires(b, c)
    ensures RewriteBlock(b, cs) == b
    decreases |cs|
  {
    if |cs| > 0 {
      assert cs[0] in cs;
      assert ApplyCandidate(b, cs[0]) == b;
      assert forall c | c in cs[1..] :: c in cs;
      RewriteBlockNoneFire(b, cs[1..]);
    }
  }

  /** Every candidate of a block is recorded by one of its statements. */
  lemma {:induction false} CandidateRecordedBy(stmts: seq<Statement>, c: Candidate) returns (q: nat)
    requires c in TopLevelCandidates(stmts)
    ensures q < |stmts| && c in StatementCandidates(stmts[q])
    decreases |stmts|
  {
    assert |stmts| > 0;
    var here := StatementCandidates(stmts[0]);
    var rest := TopLevelCandidates(stmts[1..]);
    assert TopLevelCandidates(stmts) == here + rest;
    if c in here {
      q := 0;
    } else {
      assert c in rest;
      var q' := CandidateRecordedBy(stmts[1..], c);
      q := q' + 1;
      assert stmts[1..][q'] == stmts[q];
    }
  }

  /** What a statement of the block records is among the block's candidates. */
  lemma {:induction false} RecordedIsCandidate(stmts: seq<Statement>, q: nat, c: Candidate)
    requires q < |stmts| && c in StatementCandidates(stmts[q])
    ensures c in TopLevelCandidates(stmts)
    decreases |stmts|
  {
    if q > 0 {
      assert stmts[1..][q - 1] == stmts[q];
      RecordedIsCandidate(stmts[1..], q - 1, c);
    }
  }

  /** The candidates recorded from a declaration are its named variables. */
  lemma {:induction false} VariableCandidatesAreVariables(vars: seq<NamedVariable>, c: Candidate) returns (x: nat)
    requires c in VariableCandidates(vars)
    ensures x < |vars| && c == Declared(vars[x].id, vars[x].name)
    decreases |vars|
  {
    var v := vars[0];
    var here := if v.initializer.Some? && v.initializer.value.Call?
                then OptionToSeq(RecordCandidate(v.initializer.value.invocation, true, NamedVariableParent(v)))
                else [];
    assert VariableCandidates(vars) == here + VariableCandidates(vars[1..]);
    if c in here {
      x := 0;
    } else {
      var x' := VariableCandidatesAreVariables(vars[1..], c);
      x := x' + 1;
    }
  }

  /** Applying a candidate list is applying a prefix of it, then the rest to the result. */
  lemma {:induction false} RewriteBlockSplit(stmts: seq<Statement>, cs: seq<Candidate>, k: nat)
    requires k <= |cs|
    ensures RewriteBlock(stmts, cs) == RewriteBlock(RewriteBlock(stmts, cs[..k]), cs[k..])
    decreases k
  {
    if k == 0 {
      assert cs[..0] == [] && cs[0..] == cs;
    } else {
      var next := ApplyCandidate(stmts, cs[0]);
      assert RewriteBlock(stmts, cs) == RewriteBlock(next, cs[1..]);
      assert RewriteBlock(stmts, cs[..k]) == RewriteBlock(next, cs[..k][1..]);
      RewriteBlockSplit(next, cs[1..], k - 1);
      assert cs[1..][..k - 1] == cs[..k][1..];
      assert cs[1..][k - 1..] == cs[k..];
    }
  }

  /** The block after the first `k` candidates, just before candidate `k` is applied. */
  lemma RewriteBlockAt(stmts: seq<Statement>, cs: seq<Candidate>, k: nat) returns (before: seq<Statement>)
    requires UniqueIds(stmts) && k < |cs|
    ensures UniqueIds(before) && SecuredFrom(before, stmts)
    ensures RewriteBlock(stmts, cs) == RewriteBlock(ApplyCandidate(before, cs[k]), cs[k + 1..])
  {
    before := RewriteBlock(stmts, cs[..k]);
    RewriteBlockShape(stmts, cs[..k]);
    RewriteBlockSplit(stmts, cs, k);
    assert cs[k..][0] == cs[k] && cs[k..][1..] == cs[k + 1..];
  }

  // ---------------------------------------------------------------------------
  // No candidate of the output fires on it
  // ---------------------------------------------------------------------------

  /** A single-variable declaration derived from the block and sharing a variable id with one of its declarations is that declaration or its secure form. */
  lemma DeclarationOfVariable(stmts: seq<Statement>, b: seq<Statement>, u: Statement, x: nat, s: Statement)
    requires DistinctVariableIds(stmts) && SecuredFrom(b, stmts)
    requires u in stmts && u.VariableDeclarations? && x < |u.variables|
    requires s in b && s.VariableDeclarations? && |s.variables| == 1 && s.variables[0].id == u.variables[x].id
    ensures s == u || s == SecureStatement(u)
    ensures s.id == u.id
  {
    var t: Statement;
    if s in stmts {
      t := s;
    } else {
      t :| t in stmts && s == SecureStatement(t);
    }
    assert t.id == s.id && t.VariableDeclarations? && t.variables[0].id == s.variables[0].id;
    var a :| 0 <= a < |stmts| && stmts[a] == t;
    var a' :| 0 <= a' < |stmts| && stmts[a'] == u;
    assert stmts[a].variables[0].id == stmts[a'].variables[x].id;
  }

  /** The create statement a candidate finds carries the id of the statement that recorded the candidate. */
  lemma CreateIsRecorder(stmts: seq<Statement>, b: seq<Statement>, c: Candidate, u: Statement, s: Statement)
    requires DistinctVariableIds(stmts) && SecuredFrom(b, stmts)
    requires u in stmts && c in StatementCandidates(u)
    requires s in b && Fills(c, s, Create)
    ensures s.id == u.id
  {
    if u.VariableDeclarations? {
      var x := VariableCandidatesAreVariables(u.variables, c);
      DeclarationOfVariable(stmts, b, u, x, s);
    }
  }

  /** Two statements of a block with distinct ids that share an id are the same statement. */
  lemma SameIdSameStatement(b: seq<Statement>, x: Statement, y: Statement)
    requires UniqueIds(b) && x in b && y in b && x.id == y.id
    ensures x == y
  {
    var p :| 0 <= p < |b| && b[p] == x;
    var q :| 0 <= q < |b| && b[q] == y;
  }

  /** When a recorded candidate fires, the statement it secures carries the id of the statement that recorded it. */
  lemma FiredCreate(stmts: seq<Statement>, before: seq<Statement>, c: Candidate, u: Statement) returns (s: Statement)
    requires DistinctVariableIds(stmts)
    requires UniqueIds(before) && SecuredFrom(before, stmts) && Fires(before, c)
    requires u in stmts && c in StatementCandidates(u)
    ensures s in before && s.id == u.id && SecureStatement(s) in ApplyCandidate(before, c)
  {
    var i, j, k := FiringPositions(before, c);
    ApplyCandidateRewrites(before, c, i, j, k);
    s := before[i];
    CreateIsRecorder(stmts, before, c, u, s);
  }

  /** A candidate that fired has its recording statement replaced by the secure form, so no surviving statement records it. */
  lemma FiredCandidateNotRecorded(stmts: seq<Statement>, before: seq<Statement>, c: Candidate,
                                  rest: seq<Statement>, u: Statement)
    requires WellFormedBlock(stmts)
    requires UniqueIds(before) && SecuredFrom(before, stmts) && Fires(before, c)
    requires SecuredFrom(rest, ApplyCandidate(before, c)) && u in rest && u in stmts
    ensures c !in StatementCandidates(u)
  {
    if c in StatementCandidates(u) {
      var after := ApplyCandidate(before, c);
      var s := FiredCreate(stmts, before, c, u);
      ApplyCandidateKeepsIdsUnique(before, c);
      SecuredFromTransitive(stmts, before, after);
      RecorderIsOriginal(stmts, after, rest, u);
      SameIdSameStatement(after, u, SecureStatement(s));
      SecuredRecordsNothing(stmts, before, s);
      assert false;
    }
  }

  /** A candidate recorded by a statement of the rewritten block does not fire on it. */
  lemma RecordedCandidateDoesNotFire(stmts: seq<Statement>, u: Statement, c: Candidate)
    requires WellFormedBlock(stmts)
    requires u in VisitBlock(stmts) && c in StatementCandidates(u)
    ensures !Fires(VisitBlock(stmts), c)
  {
    var cs := TopLevelCandidates(stmts);
    var v := VisitBlock(stmts);
    RewriteBlockShape(stmts, cs);
    RecorderIsOriginal(stmts, stmts, v, u);
    var p :| 0 <= p < |stmts| && stmts[p] == u;
    RecordedIsCandidate(stmts, p, c);
    var k :| 0 <= k < |cs| && cs[k] == c;
    var before := RewriteBlockAt(stmts, cs, k);
    var after := ApplyCandidate(before, c);
    ApplyCandidateKeepsIdsUnique(before, c);
    RewriteBlockShape(after, cs[k + 1..]);
    if Fires(before, c) {
      FiredCandidateNotRecorded(stmts, before, c, v, u);
      assert false;
    }
    assert after == before;
    FiresIffAllRolesFilled(before, c);
    FiresIffAllRolesFilled(v, c);
    if !AnyFills(c, before, Create) {
      NoFillSurvives(c, before, v, Create);
    } else if !AnyFills(c, before, Delete) {
      NoFillSurvives(c, before, v, Delete);
    } else {
      NoFillSurvives(c, before, v, Mkdir);
    }
  }

  /** Rewriting a block a second time changes nothing. */
  lemma VisitBlockIdempotent(stmts: seq<Statement>)
    requires WellFormedBlock(stmts)
    ensures VisitBlock(VisitBlock(stmts)) == VisitBlock(stmts)
  {
    var v := VisitBlock(stmts);
    var cs := TopLevelCandidates(v);
    forall c | c in cs ensures !Fires(v, c) {
      var q := CandidateRecordedBy(v, c);
      RecordedCandidateDoesNotFire(stmts, v[q], c);
    }
    RewriteBlockNoneFire(v, cs);
  }

  /** Running the recipe a second time over a file of well-formed blocks changes nothing. */
  lemma VisitJavaSourceFileIdempotent(cu: CompilationUnit)
    requires forall i | 0 <= i < |cu.blocks| :: WellFormedBlock(cu.blocks[i])
    ensures VisitJavaSourceFile(VisitJavaSourceFile(cu)) == VisitJavaSourceFile(cu)
  {
    var r := VisitJavaSourceFile(cu);
    if !(cu.javaVersion.Some? && cu.javaVersion.value < 7) {
      forall i | 0 <= i < |cu.blocks| ensures VisitBlock(r.blocks[i]) == r.blocks[i] {
        VisitBlockIdempotent(cu.blocks[i]);
      }
    }
  }
}
