/**
 * Rewrites `new File(a + SEP + b)` into the two-argument `new File(a, b)`.
 *
 * Two facts come from outside: whether an expression is a file-separator expression
 * (`File.separator`, `File.separatorChar`, a separator literal ...) and the caller's
 * "break before" override. Both are passed in as predicates.
 */
module FileConstructorFix {
  import opened Wrappers
  import opened JTree

  /** The two arguments of the `File(String parent, String child)` constructor. */
  datatype NewArguments = NewArguments(first: Expr, second: Expr)

  predicate EndsWithPathSeparator(v: string) {
    |v| > 0 && (v[|v| - 1] == '/' || v[|v| - 1] == '\\')
  }

  predicate IsAddition(e: Expr) {
    e.Binary? && e.op == Addition
  }

  /** The rule that recurses: the left operand is an addition not ending in a separator, over another binary. */
  predicate RecursesLeft(b: Expr, isSep: Expr -> bool)
    requires b.Binary?
  {
    IsAddition(b.left) && !isSep(b.left.right) && b.left.left.Binary?
  }

  /** `f` is reached from `b` by following left operands one or more times. */
  predicate OnLeftSpine(f: Expr, b: Expr)
    requires b.Binary?
  {
    f == b.left || (b.left.Binary? && OnLeftSpine(f, b.left))
  }

  /** The template `#{any()} + #{any(java.lang.String)}`. */
  function Concat(l: Expr, r: Expr): Expr {
    Binary(Addition, l, r)
  }

  /**
   * computeNewArguments: split the binary `b` into the parent and child arguments,
   * or None when no split point is found.
   */
  function ComputeNewArguments(b: Expr, isSep: Expr -> bool, breakBefore: Expr -> bool): (r: Option<NewArguments>)
    requires b.Binary?
    ensures r.Some? ==> OnLeftSpine(r.value.first, b)
    ensures r.Some? ==> r.value.second == b.right || (r.value.second.Binary? && r.value.second == Concat(r.value.second.left, b.right))
    ensures r.Some? && !RecursesLeft(b, isSep) ==> r.value.second == b.right
    decreases b
  {
    if RecursesLeft(b, isSep) then
      match ComputeNewArguments(b.left, isSep, breakBefore)
      case None => None
      case Some(a) => Some(a.(second := Concat(a.second, b.right)))
    else
      var first :=
        if IsAddition(b.left) && isSep(b.left.right) then Some(b.left.left)
        else if b.left.StringLiteral? && EndsWithPathSeparator(b.left.value) then Some(b.left)
        else if breakBefore(b.right) then Some(b.left)
        else None;
      match first
      case None => None
      case Some(f) => Some(NewArguments(f, b.right))
  }

  const FileTwoArgumentConstructor := MethodType("java.io.File", "<constructor>", ["java.lang.String", "java.lang.String"])

  /** The template `new File(#{any(java.lang.String)}, #{any(java.lang.String)})`. */
  function NewFile(a: NewArguments): Expr {
    NewClass(Some(FileTwoArgumentConstructor), [a.first, a.second])
  }

  /** The constructor calls the rewrite considers: `File(String)` whose argument is a binary expression. */
  predicate IsCandidate(n: Expr) {
    && n.NewClass?
    && Matches(FileConstructorMatcher, n.constructorType)
    && |n.arguments| > 0
    && n.arguments[0].Binary?
  }

  /** visitNewClass: the rewritten node, or the same node when the gate or the split fails. */
  function VisitNewClass(n: Expr, isSep: Expr -> bool, breakBefore: Expr -> bool): (r: Expr)
    ensures !IsCandidate(n) ==> r == n
    ensures IsCandidate(n) && ComputeNewArguments(n.arguments[0], isSep, breakBefore).None? ==> r == n
    ensures IsCandidate(n) && ComputeNewArguments(n.arguments[0], isSep, breakBefore).Some? ==>
              && r.NewClass? && r.constructorType == Some(FileTwoArgumentConstructor) && |r.arguments| == 2
              && Some(NewArguments(r.arguments[0], r.arguments[1])) == ComputeNewArguments(n.arguments[0], isSep, breakBefore)
  {
    if IsCandidate(n) then
      match ComputeNewArguments(n.arguments[0], isSep, breakBefore)
      case Some(a) => NewFile(a)
      case None => n
    else n
  }

  // ---------------------------------------------------------------------------
  // The individual split rules
  // ---------------------------------------------------------------------------

  /** A separator after the left operand's own left side splits there and is dropped, overriding break-before. */
  lemma SeparatorRule(l: Expr, sep: Expr, right: Expr, isSep: Expr -> bool, breakBefore: Expr -> bool)
    requires isSep(sep)
    ensures ComputeNewArguments(Binary(Addition, Binary(Addition, l, sep), right), isSep, breakBefore)
            == Some(NewArguments(l, right))
  {
  }

  /** A string literal ending in `/` or `\` is a parent on its own. */
  lemma TrailingSeparatorLiteralRule(v: string, op: BinaryType, right: Expr, isSep: Expr -> bool, breakBefore: Expr -> bool)
    requires EndsWithPathSeparator(v)
    ensures ComputeNewArguments(Binary(op, StringLiteral(v), right), isSep, breakBefore)
            == Some(NewArguments(StringLiteral(v), right))
  {
  }

  /** The recursive rule: split the left chain, then append the right operand to the child. */
  lemma RecursiveRule(b: Expr, isSep: Expr -> bool, breakBefore: Expr -> bool)
    requires b.Binary? && RecursesLeft(b, isSep)
    ensures ComputeNewArguments(b.left, isSep, breakBefore).None? ==>
              ComputeNewArguments(b, isSep, breakBefore).None?
    ensures ComputeNewArguments(b.left, isSep, breakBefore).Some? ==>
              var a := ComputeNewArguments(b.left, isSep, breakBefore).value;
              ComputeNewArguments(b, isSep, breakBefore) == Some(NewArguments(a.first, Concat(a.second, b.right)))
  {
  }

  /** Break-before splits just before the right operand, unless the recursive rule applies. */
  lemma BreakBeforeRule(b: Expr, isSep: Expr -> bool, breakBefore: Expr -> bool)
    requires b.Binary? && breakBefore(b.right) && !RecursesLeft(b, isSep)
    ensures ComputeNewArguments(b, isSep, breakBefore).Some?
    ensures ComputeNewArguments(b, isSep, breakBefore).value.second == b.right
    ensures !(IsAddition(b.left) && isSep(b.left.right)) ==>
              ComputeNewArguments(b, isSep, breakBefore).value.first == b.left
  {
  }

  /** With no separator, no trailing-separator literal and no break-before, a two-operand chain does not split. */
  lemma NoSplitPoint(b: Expr, isSep: Expr -> bool, breakBefore: Expr -> bool)
    requires b.Binary? && !breakBefore(b.right)
    requires !(IsAddition(b.left) && isSep(b.left.right))
    requires !(b.left.StringLiteral? && EndsWithPathSeparator(b.left.value))
    requires !RecursesLeft(b, isSep)
    ensures ComputeNewArguments(b, isSep, breakBefore).None?
  {
  }

  // ---------------------------------------------------------------------------
  // Operand order and string value
  // ---------------------------------------------------------------------------

  /** The operands of a `+` chain, left to right. */
  function Operands(e: Expr): (r: seq<Expr>)
    ensures |r| >= 1
  {
    if IsAddition(e) then Operands(e.left) + Operands(e.right) else [e]
  }

  /**
   * The split keeps the operands in order: those of the parent, then at most one
   * dropped separator, then those of the child are the operands of the chain.
   */
  lemma {:induction false} SplitPreservesOperandOrder(b: Expr, isSep: Expr -> bool, breakBefore: Expr -> bool)
    requires IsAddition(b)
    requires ComputeNewArguments(b, isSep, breakBefore).Some?
    ensures var a := ComputeNewArguments(b, isSep, breakBefore).value;
            || Operands(b) == Operands(a.first) + Operands(a.second)
            || exists sep :: isSep(sep) && Operands(b) == Operands(a.first) + Operands(sep) + Operands(a.second)
    decreases b
  {
    var a := ComputeNewArguments(b, isSep, breakBefore).value;
    if RecursesLeft(b, isSep) {
      SplitPreservesOperandOrder(b.left, isSep, breakBefore);
      var a' := ComputeNewArguments(b.left, isSep, breakBefore).value;
      assert a == NewArguments(a'.first, Concat(a'.second, b.right));
      assert Operands(a.second) == Operands(a'.second) + Operands(b.right);
      if Operands(b.left) == Operands(a'.first) + Operands(a'.second) {
        assert Operands(b) == Operands(a.first) + Operands(a.second);
      } else {
        var sep :| isSep(sep) && Operands(b.left) == Operands(a'.first) + Operands(sep) + Operands(a'.second);
        assert Operands(b) == Operands(a.first) + Operands(sep) + Operands(a.second);
      }
    } else if IsAddition(b.left) && isSep(b.left.right) {
      assert a == NewArguments(b.left.left, b.right);
      assert Operands(b) == Operands(a.first) + Operands(b.left.right) + Operands(a.second);
    } else {
      assert a == NewArguments(b.left, b.right);
    }
  }

  /** The string value of a leaf operand: a string literal's own text, otherwise whatever `val` says it evaluates to. */
  function LeafValue(e: Expr, val: Expr -> string): string {
    if e.StringLiteral? then e.value else val(e)
  }

  /** The runtime string value of a `+` chain whose operands have no side effects. */
  function Eval(e: Expr, val: Expr -> string): string {
    if IsAddition(e) then Eval(e.left, val) + Eval(e.right, val) else LeafValue(e, val)
  }

  function JoinValues(es: seq<Expr>, val: Expr -> string): string {
    if |es| == 0 then "" else LeafValue(es[0], val) + JoinValues(es[1..], val)
  }

  lemma {:induction false} JoinValuesAppend(xs: seq<Expr>, ys: seq<Expr>, val: Expr -> string)
    ensures JoinValues(xs + ys, val) == JoinValues(xs, val) + JoinValues(ys, val)
  {
    if |xs| == 0 {
      assert xs + ys == ys;
    } else {
      assert (xs + ys)[1..] == xs[1..] + ys;
      JoinValuesAppend(xs[1..], ys, val);
    }
  }

  lemma {:induction false} EvalIsJoinOfOperands(e: Expr, val: Expr -> string)
    ensures Eval(e, val) == JoinValues(Operands(e), val)
  {
    if IsAddition(e) {
      EvalIsJoinOfOperands(e.left, val);
      EvalIsJoinOfOperands(e.right, val);
      JoinValuesAppend(Operands(e.left), Operands(e.right), val);
    } else {
      assert Operands(e) == [e];
      assert JoinValues([e], val) == LeafValue(e, val) + JoinValues([], val);
    }
  }

  /**
   * Decomposition round trip: parent, then the dropped separator's value (if one was
   * dropped), then child, spell the same string as the original chain.
   */
  lemma SplitPreservesValue(b: Expr, isSep: Expr -> bool, breakBefore: Expr -> bool, val: Expr -> string)
    requires IsAddition(b)
    requires ComputeNewArguments(b, isSep, breakBefore).Some?
    ensures var a := ComputeNewArguments(b, isSep, breakBefore).value;
            || Eval(b, val) == Eval(a.first, val) + Eval(a.second, val)
            || exists sep :: isSep(sep) && Eval(b, val) == Eval(a.first, val) + Eval(sep, val) + Eval(a.second, val)
  {
    var a := ComputeNewArguments(b, isSep, breakBefore).value;
    SplitPreservesOperandOrder(b, isSep, breakBefore);
    EvalIsJoinOfOperands(b, val);
    EvalIsJoinOfOperands(a.first, val);
    EvalIsJoinOfOperands(a.second, val);
    if Operands(b) == Operands(a.first) + Operands(a.second) {
      JoinValuesAppend(Operands(a.first), Operands(a.second), val);
    } else {
      var sep :| isSep(sep) && Operands(b) == Operands(a.first) + Operands(sep) + Operands(a.second);
      EvalIsJoinOfOperands(sep, val);
      JoinValuesAppend(Operands(a.first) + Operands(sep), Operands(a.second), val);
      JoinValuesAppend(Operands(a.first), Operands(sep), val);
    }
  }

  /**
   * Whenever visitNewClass rewrites the constructor, the parent and child arguments,
   * with the dropped separator (if any) between them, spell the original path string.
   */
  lemma VisitNewClassPreservesValue(n: Expr, isSep: Expr -> bool, breakBefore: Expr -> bool, val: Expr -> string)
    requires IsCandidate(n) && IsAddition(n.arguments[0])
    ensures var r := VisitNewClass(n, isSep, breakBefore);
            r != n ==>
              && r.NewClass? && r.constructorType == Some(FileTwoArgumentConstructor) && |r.arguments| == 2
              && (|| Eval(n.arguments[0], val) == Eval(r.arguments[0], val) + Eval(r.arguments[1], val)
                  || exists sep :: isSep(sep) && Eval(n.arguments[0], val)
                                                 == Eval(r.arguments[0], val) + Eval(sep, val) + Eval(r.arguments[1], val))
  {
    if ComputeNewArguments(n.arguments[0], isSep, breakBefore).Some? {
      SplitPreservesValue(n.arguments[0], isSep, breakBefore, val);
    }
  }

  // ---------------------------------------------------------------------------
  // Documented examples
  // ---------------------------------------------------------------------------

  const FileSeparator := FieldAccess(Ident(Identifier("File", Class("java.io.File"))), "separator")
  const StringOnly := MethodType("java.io.File", "<constructor>", ["java.lang.String"])

  /** `new File("base" + File.separator + "test.txt")` becomes `new File("base", "test.txt")`. */
  lemma SeparatorExample(isSep: Expr -> bool, breakBefore: Expr -> bool)
    requires isSep(FileSeparator)
    ensures VisitNewClass(
              NewClass(Some(StringOnly), [Concat(Concat(StringLiteral("base"), FileSeparator), StringLiteral("test.txt"))]),
              isSep, breakBefore)
            == NewClass(Some(FileTwoArgumentConstructor), [StringLiteral("base"), StringLiteral("test.txt")])
  {
  }

  /** `new File("base/" + "test.txt")` becomes `new File("base/", "test.txt")`. */
  lemma TrailingSlashExample(isSep: Expr -> bool, breakBefore: Expr -> bool)
    ensures VisitNewClass(
              NewClass(Some(StringOnly), [Concat(StringLiteral("base/"), StringLiteral("test.txt"))]),
              isSep, breakBefore)
            == NewClass(Some(FileTwoArgumentConstructor), [StringLiteral("base/"), StringLiteral("test.txt")])
  {
    assert EndsWithPathSeparator("base/");
  }

  /** `new File(a + b + c)` with no separator, no trailing-separator literal and no break point stays as it is. */
  lemma NoSeparatorExample(a: Expr, b: Expr, c: Expr, isSep: Expr -> bool, breakBefore: Expr -> bool)
    requires !isSep(b) && !isSep(c)
    requires !breakBefore(b) && !breakBefore(c)
    requires !(a.StringLiteral? && EndsWithPathSeparator(a.value))
    requires !a.Binary?
    ensures var n := NewClass(Some(StringOnly), [Concat(Concat(a, b), c)]);
            VisitNewClass(n, isSep, breakBefore) == n
  {
  }
}
