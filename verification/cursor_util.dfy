/**
 * Ancestor-path queries over a cursor.
 *
 * A cursor's path is given as a sequence of nodes: `path[0]` is the node the cursor
 * points at and `path[|path| - 1]` is the root, so walking the sequence forwards
 * walks the tree upwards. A query answer that names a cursor is the index of that
 * cursor's node in the path.
 */
module CursorUtil {
  import opened Wrappers
  import opened JTree

  /** The parameter list of one catch clause, as the types of its declared variables. */
  datatype CatchClause = CatchClause(parameterTypes: seq<JType>)

  /**
   * The node kinds the queries distinguish. Whether a block is a static or
   * instance initializer depends on its parent and is decided by the tree library;
   * here it is recorded on the block.
   */
  datatype Node =
    | MethodDeclaration(throwsTypes: Option<seq<JType>>)
    | Block(staticOrInit: bool)
    | Try(catches: seq<CatchClause>)
    | OtherNode

  /** isStaticOrInitBlockSafe: the library's initializer test, asked only of blocks. */
  predicate IsStaticOrInitBlockSafe(n: Node)
    ensures IsStaticOrInitBlockSafe(n) ==> n.Block?
  {
    n.Block? && n.staticOrInit
  }

  /** Nodes at which the search for an executable block stops. */
  predicate StopsSearch(n: Node) {
    n.MethodDeclaration? || IsStaticOrInitBlockSafe(n)
  }

  /** `j` is the first ancestor above the start (index 0) at which the search stops. */
  ghost predicate FirstStop(path: seq<Node>, j: int) {
    && 1 <= j < |path|
    && StopsSearch(path[j])
    && forall k | 1 <= k < j :: !StopsSearch(path[k])
  }

  /** The cursor the search reports for the stop at `j`: the child on the path for a method, the block itself otherwise. */
  function Reported(path: seq<Node>, j: nat): nat
    requires 1 <= j < |path|
  {
    if path[j].MethodDeclaration? then j - 1 else j
  }

  /**
   * The loop of findOuterExecutableBlock from position `i` on, with `parent`
   * the position visited just before `i`.
   */
  function FindFrom(path: seq<Node>, i: nat): (r: Option<nat>)
    requires 1 <= i <= |path|
    ensures r.None? <==> forall k | i <= k < |path| :: !StopsSearch(path[k])
    ensures forall j | i <= j < |path| && StopsSearch(path[j]) && (forall k | i <= k < j :: !StopsSearch(path[k])) ::
              r == Some(Reported(path, j))
    ensures r.Some? ==> i - 1 <= r.value < |path|
    decreases |path| - i
  {
    if i == |path| then None
    else if path[i].MethodDeclaration? then Some(i - 1)
    else if IsStaticOrInitBlockSafe(path[i]) then Some(i)
    else FindFrom(path, i + 1)
  }

  /**
   * findOuterExecutableBlock: the innermost ancestor that is a method body or a
   * static/instance initializer. The start node itself is never examined.
   */
  function FindOuterExecutableBlock(path: seq<Node>): (r: Option<nat>)
    requires |path| > 0
    ensures r.None? <==> forall k | 1 <= k < |path| :: !StopsSearch(path[k])
    ensures forall j | FirstStop(path, j) :: r == Some(Reported(path, j))
    ensures r.Some? ==> r.value < |path|
  {
    var r := FindFrom(path, 1);
    assert forall j | FirstStop(path, j) :: r == Some(Reported(path, j));
    r
  }

  /** Every method declaration on the path is entered from a block (its body). */
  ghost predicate MethodsEnteredFromBodies(path: seq<Node>) {
    forall j | 1 <= j < |path| && path[j].MethodDeclaration? :: path[j - 1].Block?
  }

  /** Walking upwards, the answer is the first stop, even when an outer one exists. */
  lemma InnermostStopWins(path: seq<Node>, inner: nat, outer: nat)
    requires 1 <= inner < outer < |path|
    requires StopsSearch(path[inner]) && StopsSearch(path[outer])
    requires forall k | 1 <= k < inner :: !StopsSearch(path[k])
    ensures FindOuterExecutableBlock(path) == Some(Reported(path, inner))
    ensures Reported(path, inner) < outer
  {
    assert FirstStop(path, inner);
  }

  /** Replacing the start node never changes the answer. */
  lemma StartNodeNotExamined(path: seq<Node>, n: Node)
    requires |path| > 0
    ensures FindOuterExecutableBlock(path[0 := n]) == FindOuterExecutableBlock(path)
  {
    var p' := path[0 := n];
    if forall k | 1 <= k < |path| :: !StopsSearch(path[k]) {
    } else {
      var j :| 1 <= j < |path| && StopsSearch(path[j]);
      var f := FirstStopOf(path, j);
      assert FirstStop(p', f);
    }
  }

  /** Some stop exists at or below `j`; return the first one. */
  lemma FirstStopOf(path: seq<Node>, j: nat) returns (f: nat)
    requires 1 <= j < |path| && StopsSearch(path[j])
    ensures FirstStop(path, f) && f <= j
    decreases j
  {
    if exists k | 1 <= k < j :: StopsSearch(path[k]) {
      var k :| 1 <= k < j && StopsSearch(path[k]);
      f := FirstStopOf(path, k);
    } else {
      f := j;
    }
  }

  /** When method declarations are entered from their bodies, the answer is always a block, as the source asserts. */
  lemma {:induction false} AnswerIsBlock(path: seq<Node>)
    requires |path| > 0
    requires MethodsEnteredFromBodies(path)
    ensures FindOuterExecutableBlock(path).Some? ==> path[FindOuterExecutableBlock(path).value].Block?
  {
    var r := FindOuterExecutableBlock(path);
    if r.Some? {
      var j :| 1 <= j < |path| && StopsSearch(path[j]);
      var f := FirstStopOf(path, j);
      assert r == Some(Reported(path, f));
    }
  }

  // ---------------------------------------------------------------------------
  // canSupportScopeSupportExceptionOfType
  // ---------------------------------------------------------------------------

  /** The ancestors the scope check looks at. */
  predicate IsScopeBoundary(n: Node) {
    IsStaticOrInitBlockSafe(n) || n.MethodDeclaration? || n.Try?
  }

  /** getPathAsCursors with a filter: the path from the start upwards, keeping only matching nodes. */
  function ScopeBoundaries(path: seq<Node>): (r: seq<Node>)
    ensures forall n | n in r :: IsScopeBoundary(n) && n in path
    ensures forall n | n in path && IsScopeBoundary(n) :: n in r
    ensures |r| <= |path|
  {
    if |path| == 0 then []
    else if IsScopeBoundary(path[0]) then [path[0]] + ScopeBoundaries(path[1..])
    else ScopeBoundaries(path[1..])
  }

  /** Some variable of some catch clause of `t` has a type the exception is assignable to. */
  predicate CatchesException(t: Node, exceptionType: JType, isAssignableTo: (JType, JType) -> bool)
    requires t.Try?
  {
    exists c, v | c in t.catches && v in c.parameterTypes :: isAssignableTo(v, exceptionType)
  }

  /** The method has a throws clause and the exception is assignable to one of its types. */
  predicate DeclaresException(m: Node, exceptionType: JType, isAssignableTo: (JType, JType) -> bool)
    requires m.MethodDeclaration?
  {
    m.throwsTypes.Some? && exists t | t in m.throwsTypes.value :: isAssignableTo(t, exceptionType)
  }

  /** The node by itself would let an exception of the type escape safely. */
  predicate Accepts(n: Node, exceptionType: JType, isAssignableTo: (JType, JType) -> bool) {
    || (n.Try? && CatchesException(n, exceptionType, isAssignableTo))
    || (n.MethodDeclaration? && DeclaresException(n, exceptionType, isAssignableTo))
  }

  /** The while loop of canSupportScopeSupportExceptionOfType over the filtered cursors. */
  function WalkBoundaries(cursors: seq<Node>, exceptionType: JType, isAssignableTo: (JType, JType) -> bool): bool
  {
    if |cursors| == 0 then false
    else if IsStaticOrInitBlockSafe(cursors[0]) then false
    else if cursors[0].Try? && CatchesException(cursors[0], exceptionType, isAssignableTo) then true
    else if cursors[0].MethodDeclaration? && DeclaresException(cursors[0], exceptionType, isAssignableTo) then true
    else WalkBoundaries(cursors[1..], exceptionType, isAssignableTo)
  }

  /**
   * Whether an exception of `exceptionType` raised at the start node could be handled:
   * some enclosing try catches it or some enclosing method declares it, and no static
   * or instance initializer lies between the start node and that ancestor.
   */
  function CanSupportScopeSupportExceptionOfType(path: seq<Node>, exceptionType: JType,
                                                 isAssignableTo: (JType, JType) -> bool): (r: bool)
    ensures r <==> exists i | 0 <= i < |path| ::
                     && Accepts(path[i], exceptionType, isAssignableTo)
                     && forall k | 0 <= k <= i :: !IsStaticOrInitBlockSafe(path[k])
  {
    WalkFilteredIsScopeRule(path, exceptionType, isAssignableTo);
    WalkBoundaries(ScopeBoundaries(path), exceptionType, isAssignableTo)
  }

  ghost predicate AcceptedBeforeInitializer(path: seq<Node>, exceptionType: JType, isAssignableTo: (JType, JType) -> bool) {
    exists i | 0 <= i < |path| ::
      && Accepts(path[i], exceptionType, isAssignableTo)
      && forall k | 0 <= k <= i :: !IsStaticOrInitBlockSafe(path[k])
  }

  /** An accepting ancestor of the parent is one of the node too, when the node is no initializer. */
  lemma AcceptedFromParent(path: seq<Node>, exceptionType: JType, isAssignableTo: (JType, JType) -> bool)
    requires |path| > 0 && !IsStaticOrInitBlockSafe(path[0])
    requires AcceptedBeforeInitializer(path[1..], exceptionType, isAssignableTo)
    ensures AcceptedBeforeInitializer(path, exceptionType, isAssignableTo)
  {
    var tail := path[1..];
    var i :| 0 <= i < |tail| && Accepts(tail[i], exceptionType, isAssignableTo)
             && forall k | 0 <= k <= i :: !IsStaticOrInitBlockSafe(tail[k]);
    assert Accepts(path[i + 1], exceptionType, isAssignableTo);
    forall k | 0 <= k <= i + 1 ensures !IsStaticOrInitBlockSafe(path[k]) {
      if k > 0 { assert path[k] == tail[k - 1]; }
    }
  }

  /** When the node itself does not accept, an accepting ancestor lies above its parent. */
  lemma AcceptedAboveNode(path: seq<Node>, exceptionType: JType, isAssignableTo: (JType, JType) -> bool)
    requires |path| > 0 && !Accepts(path[0], exceptionType, isAssignableTo)
    requires AcceptedBeforeInitializer(path, exceptionType, isAssignableTo)
    ensures AcceptedBeforeInitializer(path[1..], exceptionType, isAssignableTo)
  {
    var tail := path[1..];
    var i :| 0 <= i < |path| && Accepts(path[i], exceptionType, isAssignableTo)
             && forall k | 0 <= k <= i :: !IsStaticOrInitBlockSafe(path[k]);
    assert Accepts(tail[i - 1], exceptionType, isAssignableTo);
    forall k | 0 <= k <= i - 1 ensures !IsStaticOrInitBlockSafe(tail[k]) {
      assert tail[k] == path[k + 1];
    }
  }

  lemma {:induction false} WalkFilteredIsScopeRule(path: seq<Node>, exceptionType: JType,
                                                   isAssignableTo: (JType, JType) -> bool)
    ensures WalkBoundaries(ScopeBoundaries(path), exceptionType, isAssignableTo)
            <==> AcceptedBeforeInitializer(path, exceptionType, isAssignableTo)
    decreases |path|
  {
    if |path| > 0 {
      var tail := path[1..];
      WalkFilteredIsScopeRule(tail, exceptionType, isAssignableTo);
      var n := path[0];
      assert ScopeBoundaries(path) == if IsScopeBoundary(n) then [n] + ScopeBoundaries(tail) else ScopeBoundaries(tail);
      if AcceptedBeforeInitializer(tail, exceptionType, isAssignableTo) && !IsStaticOrInitBlockSafe(n) {
        AcceptedFromParent(path, exceptionType, isAssignableTo);
      }
      if AcceptedBeforeInitializer(path, exceptionType, isAssignableTo) && !Accepts(n, exceptionType, isAssignableTo) {
        AcceptedAboveNode(path, exceptionType, isAssignableTo);
      }
    }
  }

  /** A static or instance initializer met first decides "no", whatever lies further out. */
  lemma InitializerFirstRefuses(path: seq<Node>, b: nat, exceptionType: JType,
                                isAssignableTo: (JType, JType) -> bool)
    requires b < |path| && IsStaticOrInitBlockSafe(path[b])
    requires forall k | 0 <= k < b :: !Accepts(path[k], exceptionType, isAssignableTo)
    ensures !CanSupportScopeSupportExceptionOfType(path, exceptionType, isAssignableTo)
  {
  }

  /** A try or method that does not accept the exception does not end the walk. */
  lemma NonAcceptingBoundaryIsTransparent(path: seq<Node>, n: Node, exceptionType: JType,
                                          isAssignableTo: (JType, JType) -> bool)
    requires n.Try? || n.MethodDeclaration?
    requires !Accepts(n, exceptionType, isAssignableTo)
    ensures CanSupportScopeSupportExceptionOfType([n] + path, exceptionType, isAssignableTo)
            == CanSupportScopeSupportExceptionOfType(path, exceptionType, isAssignableTo)
  {
    var p := [n] + path;
    if CanSupportScopeSupportExceptionOfType(path, exceptionType, isAssignableTo) {
      var i :| 0 <= i < |path| && Accepts(path[i], exceptionType, isAssignableTo)
               && forall k | 0 <= k <= i :: !IsStaticOrInitBlockSafe(path[k]);
      assert Accepts(p[i + 1], exceptionType, isAssignableTo);
      assert forall k | 0 <= k <= i + 1 :: !IsStaticOrInitBlockSafe(p[k]) by {
        forall k | 0 <= k <= i + 1 ensures !IsStaticOrInitBlockSafe(p[k]) {
          if k > 0 { assert p[k] == path[k - 1]; }
        }
      }
    }
    if CanSupportScopeSupportExceptionOfType(p, exceptionType, isAssignableTo) {
      var i :| 0 <= i < |p| && Accepts(p[i], exceptionType, isAssignableTo)
               && forall k | 0 <= k <= i :: !IsStaticOrInitBlockSafe(p[k]);
      assert i > 0;
      assert Accepts(path[i - 1], exceptionType, isAssignableTo);
      assert forall k | 0 <= k <= i - 1 :: !IsStaticOrInitBlockSafe(path[k]) by {
        forall k | 0 <= k <= i - 1 ensures !IsStaticOrInitBlockSafe(path[k]) {
          assert path[k] == p[k + 1];
        }
      }
    }
  }

  /** With no try, method or initializer on the path, the answer is "no". */
  lemma NoBoundaryRefuses(path: seq<Node>, exceptionType: JType, isAssignableTo: (JType, JType) -> bool)
    requires forall k | 0 <= k < |path| :: !IsScopeBoundary(path[k])
    ensures !CanSupportScopeSupportExceptionOfType(path, exceptionType, isAssignableTo)
  {
  }
}
