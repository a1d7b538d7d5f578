/** The tagged, typed IR that the C generator consumes. Every node carries
    the ID the tagger gave it and the type the checker gave it. */
module Ir {

  datatype Option<T> = None | Some(value: T)

  datatype Type = Int | Bool | Invalid

  /** Result of `Scope.Lookup` for the names visible in one declaration. */
  type Scope = map<string, Object>

  /** `con.String()` and the operators' `String()` are rendered by code that
      is not part of this model; a node holds the text they produce. */
  datatype Object =
    | Constant(id: nat, typ: Type, text: string)
    | Binary(id: nat, typ: Type, op: string, lhs: Object, rhs: Object)
    | Unary(id: nat, typ: Type, op: string, rhs: Object)
    | Call(id: nat, typ: Type, name: string, args: seq<Object>)
    | Block(id: nat, typ: Type, exprs: seq<Object>)
    | If(id: nat, typ: Type, cond: Object, thenExpr: Object, elseExpr: Option<Object>)
    | Var(id: nat, typ: Type, name: string)
    | Variable(id: nat, typ: Type, name: string, assign: Option<Object>)
    | Assignment(id: nat, typ: Type, target: string, rhs: Object)
    | Declaration(id: nat, typ: Type, name: string, params: seq<string>, body: Object, scope: Scope)
    | Param(id: nat, typ: Type, name: string)

  /** The kinds whose `ID()` the generator reads: those that satisfy the
      `ir.IDer` assertion of compVar and compIdent. */
  predicate IsIDer(o: Object) {
    o.Binary? || o.If? || o.Param? || o.Variable?
  }

  /** A package: its top-level scope and the order in which
      `Scope().Names()` lists the declared names. */
  datatype Package = Package(scope: Scope, names: seq<string>)
}
