/** The parts of comp.go that only compute text: the C type of an IR type,
    temporary names, references to constants and variables, function
    signatures, and the fixed shape of every line the generator emits. */
module Render {
  import opened Ir
  import opened Text

  /** cType: the C spelling of an IR type; every type has one. */
  function CType(t: Type): (r: string)
    ensures r == "int32_t" <==> t == Int
    ensures r == "bool" <==> t == Bool
    ensures r == "int" <==> t != Int && t != Bool
  {
    match t
    case Int => "int32_t"
    case Bool => "bool"
    case _ => "int"
  }

  /** `_v%d`: the C name of the temporary, parameter or local with this ID. */
  function TempName(id: nat): (r: string)
    ensures |r| >= 3 && r[..2] == "_v" && AllDigits(r[2..])
    ensures r[2..] == NatToString(id)
  {
    "_v" + NatToString(id)
  }

  /** Two IDs share a C name only when they are the same ID. */
  lemma TempNameInjective(i: nat, j: nat)
    ensures TempName(i) == TempName(j) <==> i == j
  {
    if TempName(i) == TempName(j) {
      assert TempName(i)[2..] == TempName(j)[2..];
      NatToStringInjective(i, j);
    }
  }

  /** compConstant: a constant is referred to by its own rendering. */
  function CompConstant(c: Object): (r: string)
    requires c.Constant?
    ensures r == c.text
  {
    c.text
  }

  /** What compVar and compIdent demand of a name: it resolves, and to a
      node that carries an ID. */
  predicate Resolves(name: string, scope: Scope) {
    name in scope && IsIDer(scope[name])
  }

  /** compVar: a read of a name is the temporary of the object it resolves to. */
  function CompVar(v: Object, scope: Scope): (r: string)
    requires v.Var? && Resolves(v.name, scope)
    ensures r == TempName(scope[v.name].id)
  {
    TempName(scope[v.name].id)
  }

  /** compIdent: the same rendering as compVar; nothing in comp.go calls it. */
  function CompIdent(i: Object, scope: Scope): (r: string)
    requires i.Var? && Resolves(i.name, scope)
    ensures r == CompVar(i, scope)
  {
    TempName(scope[i.name].id)
  }

  /** Two reads render the same exactly when their names resolve to objects
      with the same ID. */
  lemma VarRefsAgree(v: Object, w: Object, scope: Scope)
    requires v.Var? && Resolves(v.name, scope)
    requires w.Var? && Resolves(w.name, scope)
    ensures CompVar(v, scope) == CompVar(w, scope) <==> scope[v.name].id == scope[w.name].id
  {
    TempNameInjective(scope[v.name].id, scope[w.name].id);
  }

  /** What compSignature demands: every parameter name resolves, in the
      declaration's own scope, to a Param. */
  predicate ParamsResolve(d: Object)
    requires d.Declaration?
  {
    forall i :: 0 <= i < |d.params| ==> d.params[i] in d.scope && d.scope[d.params[i]].Param?
  }

  /** One parameter of a signature: `<cType> _v<ID>`. */
  function ParamEntry(p: Object): (r: string) {
    CType(p.typ) + " " + TempName(p.id)
  }

  function ParamEntries(d: Object): (r: seq<string>)
    requires d.Declaration? && ParamsResolve(d)
    ensures |r| == |d.params|
    ensures forall i :: 0 <= i < |d.params| ==> r[i] == ParamEntry(d.scope[d.params[i]])
  {
    seq(|d.params|, i requires 0 <= i < |d.params| => ParamEntry(d.scope[d.params[i]]))
  }

  lemma ParamEntryHasNoComma(p: Object)
    ensures ',' !in ParamEntry(p)
  {
    var t, v := CType(p.typ), TempName(p.id);
    assert ParamEntry(p) == t + " " + v;
    assert forall k :: 2 <= k < |v| ==> v[k] == v[2..][k - 2];
  }

  /** `<cType(ret)> _<name>(`: the part of a signature before the parameters. */
  function SignatureHead(d: Object): (r: string)
    requires d.Declaration?
  {
    CType(d.typ) + " _" + d.name + "("
  }

  /** compSignature: `<cType(ret)> _<name>(<entries joined by ",">)`. */
  function CompSignature(d: Object): (r: string)
    requires d.Declaration? && ParamsResolve(d)
  {
    SignatureHead(d) + Join(ParamEntries(d), ",") + ")"
  }

  /** A signature is its head, then the parameter list, then `)`. The list
      is empty when there are no parameters; otherwise splitting it at ','
      gives back one entry per parameter, in order. */
  lemma SignatureShape(d: Object)
    requires d.Declaration? && ParamsResolve(d)
    ensures var r, h := CompSignature(d), SignatureHead(d);
      && |r| > |h| && r[..|h|] == h && r[|r| - 1] == ')'
      && (|d.params| == 0 ==> r == h + ")")
      && (|d.params| > 0 ==> Split(r[|h|..|r| - 1], ',') == ParamEntries(d))
  {
    var entries := ParamEntries(d);
    var r := CompSignature(d);
    assert r[|SignatureHead(d)|..|r| - 1] == Join(entries, ",");
    if |entries| > 0 {
      forall i | 0 <= i < |entries| ensures ',' !in entries[i] {
        ParamEntryHasNoComma(d.scope[d.params[i]]);
      }
      SplitJoin(entries, ',');
    }
  }

  // The fixed shape of each string comp.go hands to emit or emitln.

  /** `<cType> _v<ID> = `: the start of every line that declares a temporary. */
  function TempDecl(t: Type, id: nat): (r: string) {
    CType(t) + " " + TempName(id) + " = "
  }

  /** `<cType> _v<ID> = 0;`, which compIf and compVariable emit first. */
  function ZeroDecl(t: Type, id: nat): (r: string) {
    TempDecl(t, id) + "0;\n"
  }

  /** `<cType> _v<ID> = <lhs> <op> <rhs>;`, the line of compBinary. */
  function BinaryLine(t: Type, id: nat, lhs: string, op: string, rhs: string): (r: string) {
    TempDecl(t, id) + (lhs + " " + op + " " + rhs + ";\n")
  }

  /** `<target> = <value>;`, the line of compAssignment and of each branch of compIf. */
  function AssignLine(target: string, value: string): (r: string) {
    target + " = " + value + ";\n"
  }

  function IfHead(cond: string): (r: string) {
    "if (" + cond + ") {\n"
  }

  const ElseLine: string := "} else {\n"

  const CloseLine: string := "}\n"

  /** `_<name>(a1,...,an)`, the reference compCall returns. */
  function CallText(name: string, args: seq<string>): (r: string) {
    "_" + name + "(" + Join(args, ",") + ")"
  }

  function DeclOpen(d: Object): (r: string)
    requires d.Declaration? && ParamsResolve(d)
  {
    CompSignature(d) + " {\n"
  }

  function ReturnLine(ref: string): (r: string) {
    "return " + ref + ";\n}\n"
  }

  /** The forward declaration compPackage emits for a declaration. */
  function SignatureLine(d: Object): (r: string)
    requires d.Declaration? && ParamsResolve(d)
  {
    CompSignature(d) + ";\n"
  }

  /** What emitHeaders writes. */
  const HeaderLines: seq<string> :=
    ["#include <stdio.h>\n", "#include <stdint.h>\n", "#include <stdbool.h>\n"]

  /** What emitMain writes: a C entry point printing the result of `_main`. */
  const MainLines: seq<string> :=
    ["int main(void) {\n", "printf(\"%d\\n\", _main());\n", "return 0;\n", "}\n"]
}
