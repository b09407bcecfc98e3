/**
 * The fragment of a resolved Java syntax tree that the security rewrites look at,
 * and the signature matcher that classifies calls and constructor invocations.
 *
 * Node identity (the `J.equals` of the tree, which compares node ids) matters only
 * for statements and named variables, so only those carry a `NodeId`.
 */
module JTree {
  import opened Wrappers

  type NodeId = nat

  /** A resolved static type: a class by fully qualified name, a primitive, or unknown. */
  datatype JType = Class(fqn: string) | Primitive(keyword: string) | Unknown

  /** The resolved target of a call: declaring type, member name and parameter types. */
  datatype MethodType = MethodType(declaringType: string, name: string, parameterTypes: seq<string>)

  datatype Identifier = Identifier(simpleName: string, ty: JType)

  datatype BinaryType = Addition | OtherBinary

  datatype Expr =
    | Ident(ident: Identifier)
    | StringLiteral(value: string)
      /** a literal whose value is not a `String` (number, character, boolean, null) */
    | OtherLiteral(text: string)
    | Binary(op: BinaryType, left: Expr, right: Expr)
    | FieldAccess(target: Expr, name: string)
    | Call(invocation: Invoke)
    | NewClass(constructorType: Option<MethodType>, arguments: seq<Expr>)
      /** any other expression; its contents are never inspected */
    | OtherExpr(tag: nat)

  /** A method invocation `select.name(arguments)`; `methodType` is None when unresolved. */
  datatype Invoke = Invoke(select: Option<Expr>, name: string, methodType: Option<MethodType>, arguments: seq<Expr>)

  /** One variable of a declaration statement, `name = initializer`. */
  datatype NamedVariable = NamedVariable(id: NodeId, name: Identifier, initializer: Option<Expr>)

  datatype Statement =
    | Assignment(id: NodeId, variable: Expr, assignment: Expr)
    | VariableDeclarations(id: NodeId, variables: seq<NamedVariable>)
    | Invocation(id: NodeId, call: Invoke)
      /** any other statement (a nested block, a print, a return, ...) */
    | OtherStatement(id: NodeId)

  /** Distinct statements of one block have distinct ids. */
  predicate UniqueIds(stmts: seq<Statement>) {
    forall a, b | 0 <= a < b < |stmts| :: stmts[a].id != stmts[b].id
  }

  // ---------------------------------------------------------------------------
  // Signature matching
  // ---------------------------------------------------------------------------

  /** `(..)` matches any parameter list; `Exactly(ts)` the listed parameter types in order. */
  datatype ParameterPattern = AnyParameters | Exactly(types: seq<string>)

  /** A pattern such as `java.io.File createTempFile(..)`; constructors are named `<constructor>`. */
  datatype MethodPattern = MethodPattern(owner: string, name: string, parameters: ParameterPattern)

  /** A call whose target is unresolved never matches: partial type information is not an error. */
  predicate Matches(pattern: MethodPattern, target: Option<MethodType>)
  {
    && target.Some?
    && target.value.declaringType == pattern.owner
    && target.value.name == pattern.name
    && (pattern.parameters.Exactly? ==> target.value.parameterTypes == pattern.parameters.types)
  }

  const CreateTempFileMatcher := MethodPattern("java.io.File", "createTempFile", AnyParameters)
  const DeleteMatcher := MethodPattern("java.io.File", "delete", Exactly([]))
  const MkdirMatcher := MethodPattern("java.io.File", "mkdir", Exactly([]))
  const FileConstructorMatcher := MethodPattern("java.io.File", "<constructor>", Exactly(["java.lang.String"]))
}
