/** The emitting half of comp.go: a compiler whose output file is the list
    of strings handed to emit and emitln, one per call, in call order. */
module Comp {
  import opened Ir
  import Text
  import opened Render
  import opened Emission

  class Compiler {
    var out: seq<string>

    constructor ()
      ensures out == []
    {
      out := [];
    }

    /** emit and emitln: one more string at the end of the file. */
    method Emit(s: string)
      modifies this
      ensures out == old(out) + [s]
    {
      out := out + [s];
    }

    method EmitHeaders()
      modifies this
      ensures out == old(out) + HeaderLines
    {
      Emit("#include <stdio.h>\n");
      Emit("#include <stdint.h>\n");
      Emit("#include <stdbool.h>\n");
    }

    method EmitMain()
      modifies this
      ensures out == old(out) + MainLines
    {
      Emit("int main(void) {\n");
      Emit("printf(\"%d\\n\", _main());\n");
      Emit("return 0;\n");
      Emit("}\n");
    }

    /** compObject: dispatch on the node kind. Kinds that produce no value
        yield ""; a Block yields its last element's reference after compiling
        every element in order. */
    method CompObject(o: Object, scope: Scope, ghost n: nat) returns (s: string)
      requires Compilable(o, scope, n)
      modifies this
      ensures s == Gen(o, scope, n).ref
      ensures out == old(out) + Gen(o, scope, n).lines
      decreases n, o, 1
    {
      match o
      case Assignment(_, _, _, _) =>
        CompAssignment(o, scope, n);
        s := "";
      case Constant(_, _, _) =>
        s := CompConstant(o);
      case Binary(_, _, _, _, _) =>
        s := CompBinary(o, scope, n);
      case Call(_, _, _, _) =>
        s := CompCall(o, scope, n);
      case Declaration(_, _, _, _, _, _) =>
        CompDeclaration(o, n);
        s := "";
      case Block(_, _, _) =>
        s := CompBlock(o, scope, n);
      case If(_, _, _, _, _) =>
        s := CompIf(o, scope, n);
      case Unary(_, _, _, _) =>
        s := CompUnary(o, scope, n);
      case Var(_, _, _) =>
        s := CompVar(o, scope);
      case Variable(_, _, _, _) =>
        CompVariable(o, scope, n);
        s := "";
      case Param(_, _, _) =>
        s := "";
    }

    /** The Block case of compObject: every element in order; the value is
        the last element's reference, or "" for an empty block. */
    method CompBlock(b: Object, scope: Scope, ghost n: nat) returns (s: string)
      requires b.Block? && Compilable(b, scope, n)
      modifies this
      ensures var gs := GenAll(b.exprs, scope, n);
        && s == (if |b.exprs| == 0 then "" else gs[|b.exprs| - 1].ref)
        && out == old(out) + AllLines(gs)
      ensures s == Gen(b, scope, n).ref && out == old(out) + Gen(b, scope, n).lines
      decreases n, b, 0
    {
      ghost var gs := GenAll(b.exprs, scope, n);
      s := "";
      var i := 0;
      while i < |b.exprs|
        invariant 0 <= i <= |b.exprs|
        invariant out == old(out) + AllLines(gs[..i])
        invariant s == if i == 0 then "" else gs[i - 1].ref
      {
        s := CompElement(b.exprs, i, scope, n);
        AllLinesExtend(old(out), gs, i);
        i := i + 1;
      }
      assert gs[..|b.exprs|] == gs;
    }

    /** The compObject call on element `i` of a Block's or a Call's
        children, stated against the compilation of the whole sequence. */
    method CompElement(es: seq<Object>, i: nat, scope: Scope, ghost n: nat) returns (r: string)
      requires i < |es| && forall k :: 0 <= k < |es| ==> Compilable(es[k], scope, n)
      modifies this
      ensures r == GenAll(es, scope, n)[i].ref
      ensures out == old(out) + GenAll(es, scope, n)[i].lines
      decreases n, es, 0
    {
      r := CompObject(es[i], scope, n);
    }

    /** compAssignment: compiles the object the target resolves to, then the
        right-hand side, then emits `<target ref> = <rhs ref>;`. */
    method CompAssignment(a: Object, scope: Scope, ghost n: nat)
      requires a.Assignment? && Compilable(a, scope, n)
      modifies this
      ensures a.target in scope && n > 0
      ensures
        var gx := Gen(scope[a.target], scope, n - 1);
        var gr := Gen(a.rhs, scope, n);
        out == old(out) + gx.lines + gr.lines + [AssignLine(gx.ref, gr.ref)]
      ensures out == old(out) + Gen(a, scope, n).lines
      decreases n, a, 0
    {
      var o := scope[a.target];
      var target := CompObject(o, scope, n - 1);
      var value := CompObject(a.rhs, scope, n);
      Emit(AssignLine(target, value));
      Append3Assoc(old(out), Gen(o, scope, n - 1).lines, Gen(a.rhs, scope, n).lines, [AssignLine(target, value)]);
    }

    /** compBinary: everything the left operand emits, then everything the
        right operand emits, then the one statement declaring `_v<ID>`. */
    method CompBinary(b: Object, scope: Scope, ghost n: nat) returns (s: string)
      requires b.Binary? && Compilable(b, scope, n)
      modifies this
      ensures s == TempName(b.id)
      ensures
        var gl := Gen(b.lhs, scope, n);
        var gr := Gen(b.rhs, scope, n);
        out == old(out) + gl.lines + gr.lines + [BinaryLine(b.typ, b.id, gl.ref, b.op, gr.ref)]
      ensures s == Gen(b, scope, n).ref && out == old(out) + Gen(b, scope, n).lines
      decreases n, b, 0
    {
      var l := CompObject(b.lhs, scope, n);
      var r := CompObject(b.rhs, scope, n);
      Emit(BinaryLine(b.typ, b.id, l, b.op, r));
      s := TempName(b.id);
      Append3Assoc(old(out), Gen(b.lhs, scope, n).lines, Gen(b.rhs, scope, n).lines, [BinaryLine(b.typ, b.id, l, b.op, r)]);
    }

    /** compCall: emits only what its arguments emit, in order, and returns
        `_<name>(` with one reference per argument, in order, joined by ","
        and `)`. */
    method CompCall(call: Object, scope: Scope, ghost n: nat) returns (s: string)
      requires call.Call? && Compilable(call, scope, n)
      modifies this
      ensures var gs := GenAll(call.args, scope, n);
        && s == CallText(call.name, Refs(gs))
        && out == old(out) + AllLines(gs)
      decreases n, call, 0
    {
      ghost var gs := GenAll(call.args, scope, n);
      var args: seq<string> := [];
      var i := 0;
      while i < |call.args|
        invariant 0 <= i <= |call.args|
        invariant args == Refs(gs[..i])
        invariant out == old(out) + AllLines(gs[..i])
      {
        var r := CompElement(call.args, i, scope, n);
        AllLinesExtend(old(out), gs, i);
        args := args + [r];
        i := i + 1;
      }
      assert gs[..|call.args|] == gs;
      assert args == Refs(gs);
      s := CallText(call.name, args);
    }

    /** compDeclaration: the signature and `{`, the body's statements, then
        `return <body ref>;` and `}`. */
    method CompDeclaration(d: Object, ghost n: nat)
      requires DeclarationCompilable(d, n)
      modifies this
      ensures
        var gb := Gen(d.body, d.scope, n);
        out == old(out) + [DeclOpen(d)] + gb.lines + [ReturnLine(gb.ref)]
      ensures out == old(out) + DeclarationLines(d, n)
      decreases n, d, 0
    {
      var sig := CompSignature(d);
      Emit(sig + " {\n");
      var r := CompObject(d.body, d.scope, n);
      Emit(ReturnLine(r));
      Append3Assoc(old(out), [DeclOpen(d)], Gen(d.body, d.scope, n).lines, [ReturnLine(r)]);
    }

    /** compIf: declares `_v<ID>` as 0, emits the condition's statements and
        `if (<cond>) {`, assigns the then-branch to `_v<ID>`, and only when
        there is an else-branch emits `} else {` and its assignment; closes
        with `}` and returns `_v<ID>`. */
    method CompIf(i: Object, scope: Scope, ghost n: nat) returns (s: string)
      requires i.If? && Compilable(i, scope, n)
      modifies this
      ensures s == TempName(i.id)
      ensures
        var gc := Gen(i.cond, scope, n);
        var gt := Gen(i.thenExpr, scope, n);
        var elseLines :=
          if i.elseExpr.Some? then
            var ge := Gen(i.elseExpr.value, scope, n);
            [ElseLine] + ge.lines + [AssignLine(TempName(i.id), ge.ref)]
          else [];
        out == old(out) + [ZeroDecl(i.typ, i.id)] + gc.lines + [IfHead(gc.ref)] + gt.lines
               + [AssignLine(TempName(i.id), gt.ref)] + elseLines + [CloseLine]
      ensures s == Gen(i, scope, n).ref && out == old(out) + Gen(i, scope, n).lines
      decreases n, i, 0
    {
      Emit(ZeroDecl(i.typ, i.id));
      var c := CompObject(i.cond, scope, n);
      Emit(IfHead(c));
      var t := CompObject(i.thenExpr, scope, n);
      Emit(AssignLine(TempName(i.id), t));
      if i.elseExpr.Some? {
        ghost var body := out;
        Emit(ElseLine);
        var e := CompObject(i.elseExpr.value, scope, n);
        Emit(AssignLine(TempName(i.id), e));
        Append3Assoc(body, [ElseLine], Gen(i.elseExpr.value, scope, n).lines, [AssignLine(TempName(i.id), e)]);
      } else {
        assert out + [] == out;
      }
      Emit(CloseLine);
      s := TempName(i.id);
      ghost var gc, gt := Gen(i.cond, scope, n), Gen(i.thenExpr, scope, n);
      ghost var head := [ZeroDecl(i.typ, i.id)] + gc.lines + [IfHead(gc.ref)];
      ghost var elseLines :=
        if i.elseExpr.Some? then
          var ge := Gen(i.elseExpr.value, scope, n);
          [ElseLine] + ge.lines + [AssignLine(TempName(i.id), ge.ref)]
        else [];
      Append3Assoc(old(out), [ZeroDecl(i.typ, i.id)], gc.lines, [IfHead(gc.ref)]);
      Append3Assoc(old(out), head, gt.lines, [AssignLine(TempName(i.id), gt.ref)]);
      Append3Assoc(old(out), head + gt.lines + [AssignLine(TempName(i.id), gt.ref)], elseLines, [CloseLine]);
    }

    /** compUnary: the operator's text followed by the operand's reference;
        only the operand emits. */
    method CompUnary(u: Object, scope: Scope, ghost n: nat) returns (s: string)
      requires u.Unary? && Compilable(u, scope, n)
      modifies this
      ensures s == u.op + Gen(u.rhs, scope, n).ref
      ensures out == old(out) + Gen(u.rhs, scope, n).lines
      ensures s == Gen(u, scope, n).ref && out == old(out) + Gen(u, scope, n).lines
      decreases n, u, 0
    {
      var r := CompObject(u.rhs, scope, n);
      s := u.op + r;
    }

    /** compVariable: declares `_v<ID>` as 0, then compiles the initializer
        only when there is one, discarding its reference. */
    method CompVariable(v: Object, scope: Scope, ghost n: nat)
      requires v.Variable? && Compilable(v, scope, n)
      modifies this
      ensures v.assign.None? ==> out == old(out) + [ZeroDecl(v.typ, v.id)]
      ensures v.assign.Some? ==> out == old(out) + [ZeroDecl(v.typ, v.id)] + Gen(v.assign.value, scope, n).lines
      ensures out == old(out) + Gen(v, scope, n).lines
      decreases n, v, 0
    {
      Emit(ZeroDecl(v.typ, v.id));
      if v.assign.Some? {
        var _ := CompObject(v.assign.value, scope, n);
        AppendAssoc(old(out), [ZeroDecl(v.typ, v.id)], Gen(v.assign.value, scope, n).lines);
      } else {
        assert [ZeroDecl(v.typ, v.id)] + [] == [ZeroDecl(v.typ, v.id)];
      }
    }

    /** compPackage: a forward declaration per name in `Names()` order, each
        definition deferred; the deferred calls run last-in first-out when
        the loop is done. */
    method CompPackage(p: Package, ghost n: nat)
      requires PackageCompilable(p, n)
      modifies this
      ensures out == old(out) + PackageLines(p, n)
    {
      PackageDecls(p, n);
      var deferred := EmitSignatures(p);
      RunDeferred(deferred, n);
      AppendAssoc(old(out), SignatureLines(Decls(p)), Flatten(Definitions(deferred, n)));
    }

    /** The loop of compPackage: the forward declaration of each name in
        `Names()` order, each definition pushed on the defer stack, so the
        stack ends up in the reverse of that order. */
    method EmitSignatures(p: Package) returns (deferred: seq<Object>)
      requires NamesDeclared(p) && Signable(Decls(p))
      modifies this
      ensures deferred == Reverse(Decls(p))
      ensures out == old(out) + SignatureLines(Decls(p))
    {
      ghost var ds := Decls(p);
      deferred := [];
      var i := 0;
      while i < |p.names|
        invariant 0 <= i <= |p.names|
        invariant deferred == Reverse(ds[..i])
        invariant out == old(out) + SignatureLines(ds[..i])
      {
        var d := p.scope[p.names[i]];
        SignatureLinesStep(old(out), ds, i);
        ReverseStep(ds, i);
        var sig := CompSignature(d);
        Emit(sig + ";\n");
        deferred := [d] + deferred;
        i := i + 1;
      }
      assert ds[..|p.names|] == ds;
    }

    /** compSignature: one `<cType> _v<ID>` entry per parameter, in order,
        joined by "," between `<cType(ret)> _<name>(` and `)`. */
    method CompSignature(d: Object) returns (s: string)
      requires d.Declaration? && ParamsResolve(d)
      ensures s == Render.CompSignature(d)
    {
      var params: seq<string> := [];
      var i := 0;
      while i < |d.params|
        invariant 0 <= i <= |d.params|
        invariant params == ParamEntries(d)[..i]
      {
        var param := d.scope[d.params[i]];
        params := params + [ParamEntry(param)];
        i := i + 1;
      }
      assert params == ParamEntries(d);
      s := SignatureHead(d) + Text.Join(params, ",") + ")";
    }

    /** The calls compPackage defers, run in the order given: each
        declaration's definition, one after the other. */
    method RunDeferred(deferred: seq<Object>, ghost n: nat)
      requires forall i :: 0 <= i < |deferred| ==> DeclarationCompilable(deferred[i], n)
      modifies this
      ensures out == old(out) + Flatten(Definitions(deferred, n))
    {
      ghost var defs := Definitions(deferred, n);
      var j := 0;
      while j < |deferred|
        invariant 0 <= j <= |deferred|
        invariant out == old(out) + Flatten(defs[..j])
      {
        CompDeclaration(deferred[j], n);
        FlattenStep(defs, j);
        AppendAssoc(old(out), Flatten(defs[..j]), defs[j]);
        j := j + 1;
      }
      assert defs[..|deferred|] == defs;
    }
  }
}
