/** A reference definition of what compiling an IR node produces: the
    reference the caller embeds and the lines emitted on the way, in order.
    The Compiler class is proved to produce exactly this. */
module Emission {
  import opened Ir
  import opened Text
  import opened Render

  datatype Code = Code(ref: string, lines: seq<string>)

  /** Compiling `o` in `scope` passes every type assertion of comp.go and
      finishes within `n` nested assignment-target lookups. compAssignment
      compiles the object its target resolves to, which is not a part of the
      assignment, so `n` is what bounds that recursion. */
  ghost predicate Compilable(o: Object, scope: Scope, n: nat)
    decreases n, o
  {
    match o
    case Constant(_, _, _) => true
    case Binary(_, _, _, l, r) => Compilable(l, scope, n) && Compilable(r, scope, n)
    case Unary(_, _, _, r) => Compilable(r, scope, n)
    case Call(_, _, _, args) => forall i :: 0 <= i < |args| ==> Compilable(args[i], scope, n)
    case Block(_, _, es) => forall i :: 0 <= i < |es| ==> Compilable(es[i], scope, n)
    case If(_, _, c, t, e) =>
      Compilable(c, scope, n) && Compilable(t, scope, n) && (e.Some? ==> Compilable(e.value, scope, n))
    case Var(_, _, name) => Resolves(name, scope)
    case Variable(_, _, _, a) => a.Some? ==> Compilable(a.value, scope, n)
    case Assignment(_, _, x, r) =>
      x in scope && n > 0 && Compilable(scope[x], scope, n - 1) && Compilable(r, scope, n)
    case Declaration(_, _, _, _, body, ds) => ParamsResolve(o) && Compilable(body, ds, n)
    case Param(_, _, _) => true
  }

  /** A declaration whose signature and body compile; it is compiled in its
      own scope wherever it is reached from. */
  ghost predicate DeclarationCompilable(d: Object, n: nat) {
    d.Declaration? && ParamsResolve(d) && Compilable(d.body, d.scope, n)
  }

  /** compObject as a function; for a Declaration, compDeclaration. */
  ghost function Gen(o: Object, scope: Scope, n: nat): (c: Code)
    requires Compilable(o, scope, n)
    decreases n, o, 1
  {
    match o
    case Constant(_, _, _) => Code(CompConstant(o), [])
    case Binary(id, t, op, l, r) =>
      var gl := Gen(l, scope, n);
      var gr := Gen(r, scope, n);
      Code(TempName(id), gl.lines + gr.lines + [BinaryLine(t, id, gl.ref, op, gr.ref)])
    case Unary(_, _, op, r) =>
      var g := Gen(r, scope, n);
      Code(op + g.ref, g.lines)
    case Call(_, _, name, args) =>
      var gs := GenAll(args, scope, n);
      Code(CallText(name, Refs(gs)), AllLines(gs))
    case Block(_, _, es) =>
      var gs := GenAll(es, scope, n);
      Code(if |es| == 0 then "" else gs[|es| - 1].ref, AllLines(gs))
    case If(id, t, c, th, el) =>
      var gc := Gen(c, scope, n);
      var gt := Gen(th, scope, n);
      var elseLines :=
        if el.Some? then
          var ge := Gen(el.value, scope, n);
          [ElseLine] + ge.lines + [AssignLine(TempName(id), ge.ref)]
        else [];
      Code(TempName(id),
           [ZeroDecl(t, id)] + gc.lines + [IfHead(gc.ref)] + gt.lines
           + [AssignLine(TempName(id), gt.ref)] + elseLines + [CloseLine])
    case Var(_, _, _) => Code(CompVar(o, scope), [])
    case Variable(id, t, _, a) =>
      Code("", [ZeroDecl(t, id)] + if a.Some? then Gen(a.value, scope, n).lines else [])
    case Assignment(_, _, x, r) =>
      var gx := Gen(scope[x], scope, n - 1);
      var gr := Gen(r, scope, n);
      Code("", gx.lines + gr.lines + [AssignLine(gx.ref, gr.ref)])
    case Declaration(_, _, _, _, _, _) => Code("", DeclarationLines(o, n))
    case Param(_, _, _) => Code("", [])
  }

  /** compDeclaration: the signature and `{`, the body's lines, then
      `return <ref>;` and `}`. */
  ghost function DeclarationLines(d: Object, n: nat): (r: seq<string>)
    requires DeclarationCompilable(d, n)
    decreases n, d, 0
  {
    var gb := Gen(d.body, d.scope, n);
    [DeclOpen(d)] + gb.lines + [ReturnLine(gb.ref)]
  }

  /** The nodes of a sequence compiled one after the other. */
  ghost function GenAll(es: seq<Object>, scope: Scope, n: nat): (r: seq<Code>)
    requires forall i :: 0 <= i < |es| ==> Compilable(es[i], scope, n)
    ensures |r| == |es|
    decreases n, es, 0
  {
    seq(|es|, i requires 0 <= i < |es| => Gen(es[i], scope, n))
  }

  function Refs(cs: seq<Code>): (r: seq<string>)
    ensures |r| == |cs|
    ensures forall i :: 0 <= i < |cs| ==> r[i] == cs[i].ref
  {
    if cs == [] then [] else Refs(cs[..|cs| - 1]) + [cs[|cs| - 1].ref]
  }

  /** The lines of several compilations, in order. */
  function AllLines(cs: seq<Code>): (r: seq<string>) {
    if cs == [] then [] else AllLines(cs[..|cs| - 1]) + cs[|cs| - 1].lines
  }

  lemma AllLinesStep(cs: seq<Code>, i: nat)
    requires i < |cs|
    ensures AllLines(cs[..i + 1]) == AllLines(cs[..i]) + cs[i].lines
    ensures Refs(cs[..i + 1]) == Refs(cs[..i]) + [cs[i].ref]
  {
    assert cs[..i + 1][..i] == cs[..i];
  }

  lemma AppendAssoc<T>(a: seq<T>, b: seq<T>, c: seq<T>)
    ensures a + b + c == a + (b + c)
  {
  }

  /** One more compilation appended to output `w`. */
  lemma AllLinesExtend(w: seq<string>, cs: seq<Code>, i: nat)
    requires i < |cs|
    ensures w + AllLines(cs[..i]) + cs[i].lines == w + AllLines(cs[..i + 1])
    ensures Refs(cs[..i + 1]) == Refs(cs[..i]) + [cs[i].ref]
  {
    AllLinesStep(cs, i);
    AppendAssoc(w, AllLines(cs[..i]), cs[i].lines);
  }

  lemma Append3Assoc<T>(w: seq<T>, a: seq<T>, b: seq<T>, c: seq<T>)
    ensures w + a + b + c == w + (a + b + c)
  {
    AppendAssoc(w, a, b);
    AppendAssoc(w, a + b, c);
  }

  /** The reference compObject hands back, by node kind: "" for the kinds
      that produce no value, the node's own temporary for Binary and If, and
      for a Block the reference of its last element ("" when it is empty). */
  lemma RefOfKind(o: Object, scope: Scope, n: nat)
    requires Compilable(o, scope, n)
    ensures (o.Assignment? || o.Declaration? || o.Variable? || o.Param?) ==> Gen(o, scope, n).ref == ""
    ensures (o.Binary? || o.If?) ==> Gen(o, scope, n).ref == TempName(o.id)
    ensures o.Constant? ==> Gen(o, scope, n).ref == o.text
    ensures o.Var? ==> Gen(o, scope, n).ref == TempName(scope[o.name].id)
    ensures o.Block? && |o.exprs| == 0 ==> Gen(o, scope, n).ref == "" && Gen(o, scope, n).lines == []
    ensures o.Block? && |o.exprs| > 0 ==>
      Gen(o, scope, n).ref == Gen(o.exprs[|o.exprs| - 1], scope, n).ref
  {
  }

  /** The reference compCall builds has one entry per argument, each the
      reference of that argument, in argument order. */
  lemma CallArgRefs(call: Object, scope: Scope, n: nat)
    requires call.Call? && Compilable(call, scope, n)
    ensures var rs := Refs(GenAll(call.args, scope, n));
      && |rs| == |call.args|
      && forall i :: 0 <= i < |call.args| ==> rs[i] == Gen(call.args[i], scope, n).ref
  {
  }

  /** `line` starts by declaring temporary `_v<id>` of C type `cType(t)`. */
  predicate DeclaresTemp(line: string, t: Type, id: nat) {
    |TempDecl(t, id)| <= |line| && line[..|TempDecl(t, id)|] == TempDecl(t, id)
  }

  /** The temporary a Binary hands back is declared by the last line it
      emits, after its operands' lines. */
  lemma BinaryDeclaresTemp(o: Object, scope: Scope, n: nat)
    requires o.Binary? && Compilable(o, scope, n)
    ensures var ls := Gen(o, scope, n).lines;
      |ls| > 0 && DeclaresTemp(ls[|ls| - 1], o.typ, o.id)
  {
    var p := TempDecl(o.typ, o.id);
    var ls := Gen(o, scope, n).lines;
    var g1, g2 := Gen(o.lhs, scope, n), Gen(o.rhs, scope, n);
    var rest := g1.ref + " " + o.op + " " + g2.ref + ";\n";
    assert ls[|ls| - 1] == p + rest;
    assert (p + rest)[..|p|] == p;
  }

  /** The temporary an If hands back is declared by the first line it
      emits, before the condition is compiled. */
  lemma IfDeclaresTemp(o: Object, scope: Scope, n: nat)
    requires o.If? && Compilable(o, scope, n)
    ensures var ls := Gen(o, scope, n).lines;
      |ls| > 0 && DeclaresTemp(ls[0], o.typ, o.id)
  {
    var p := TempDecl(o.typ, o.id);
    var ls := Gen(o, scope, n).lines;
    assert ls[0] == p + "0;\n";
    assert (p + "0;\n")[..|p|] == p;
  }

  /** Allowing more nested lookups never makes a compilable node
      uncompilable. */
  lemma {:induction false} CompilableMonotone(o: Object, scope: Scope, n: nat, m: nat)
    requires n <= m && Compilable(o, scope, n)
    ensures Compilable(o, scope, m)
    decreases n, o
  {
    match o
    case Constant(_, _, _) =>
    case Binary(_, _, _, l, r) =>
      CompilableMonotone(l, scope, n, m);
      CompilableMonotone(r, scope, n, m);
    case Unary(_, _, _, r) => CompilableMonotone(r, scope, n, m);
    case Call(_, _, _, args) =>
      forall i | 0 <= i < |args| ensures Compilable(args[i], scope, m) {
        CompilableMonotone(args[i], scope, n, m);
      }
    case Block(_, _, es) =>
      forall i | 0 <= i < |es| ensures Compilable(es[i], scope, m) {
        CompilableMonotone(es[i], scope, n, m);
      }
    case If(_, _, c, t, e) =>
      CompilableMonotone(c, scope, n, m);
      CompilableMonotone(t, scope, n, m);
      if e.Some? { CompilableMonotone(e.value, scope, n, m); }
    case Var(_, _, _) =>
    case Variable(_, _, _, a) =>
      if a.Some? { CompilableMonotone(a.value, scope, n, m); }
    case Assignment(_, _, x, r) =>
      CompilableMonotone(scope[x], scope, n - 1, m - 1);
      CompilableMonotone(r, scope, n, m);
    case Declaration(_, _, _, _, body, ds) => CompilableMonotone(body, ds, n, m);
    case Param(_, _, _) =>
  }

  /** The output is determined by the node and its scope: the lookup bound
      only decides whether compilation finishes, never what it produces. */
  lemma {:induction false} GenDeterministic(o: Object, scope: Scope, n: nat, m: nat)
    requires Compilable(o, scope, n) && Compilable(o, scope, m)
    ensures Gen(o, scope, n) == Gen(o, scope, m)
    decreases n, o
  {
    match o
    case Constant(_, _, _) =>
    case Binary(_, _, _, l, r) =>
      GenDeterministic(l, scope, n, m);
      GenDeterministic(r, scope, n, m);
    case Unary(_, _, _, r) => GenDeterministic(r, scope, n, m);
    case Call(_, _, _, args) => GenAllDeterministic(args, scope, n, m);
    case Block(_, _, es) => GenAllDeterministic(es, scope, n, m);
    case If(_, _, c, t, e) =>
      GenDeterministic(c, scope, n, m);
      GenDeterministic(t, scope, n, m);
      if e.Some? { GenDeterministic(e.value, scope, n, m); }
    case Var(_, _, _) =>
    case Variable(_, _, _, a) =>
      if a.Some? { GenDeterministic(a.value, scope, n, m); }
    case Assignment(_, _, x, r) =>
      GenDeterministic(scope[x], scope, n - 1, m - 1);
      GenDeterministic(r, scope, n, m);
    case Declaration(_, _, _, _, body, ds) => GenDeterministic(body, ds, n, m);
    case Param(_, _, _) =>
  }

  lemma {:induction false} GenAllDeterministic(es: seq<Object>, scope: Scope, n: nat, m: nat)
    requires forall i :: 0 <= i < |es| ==> Compilable(es[i], scope, n)
    requires forall i :: 0 <= i < |es| ==> Compilable(es[i], scope, m)
    ensures GenAll(es, scope, n) == GenAll(es, scope, m)
    decreases n, es
  {
    forall i | 0 <= i < |es| ensures GenAll(es, scope, n)[i] == GenAll(es, scope, m)[i] {
      GenDeterministic(es[i], scope, n, m);
    }
  }

  /** A Variable whose initializer is an assignment to the name that
      resolves to that same Variable is never compilable: compVariable
      compiles the assignment, whose compAssignment compiles the looked-up
      Variable again, and so on without end. */
  lemma {:induction false} SelfAssigningVariableDiverges(v: Object, scope: Scope, n: nat)
    requires v.Variable? && v.assign.Some? && v.assign.value.Assignment?
    requires v.assign.value.target in scope && scope[v.assign.value.target] == v
    ensures !Compilable(v, scope, n)
    decreases n
  {
    if n > 0 {
      SelfAssigningVariableDiverges(v, scope, n - 1);
    }
  }

  /** What compPackage demands of a package: every listed name resolves, in
      the package scope, to a compilable Declaration. */
  ghost predicate PackageCompilable(p: Package, n: nat) {
    forall i :: 0 <= i < |p.names| ==>
      p.names[i] in p.scope && DeclarationCompilable(p.scope[p.names[i]], n)
  }

  /** Every listed name of the package is declared in its scope. */
  predicate NamesDeclared(p: Package) {
    forall i :: 0 <= i < |p.names| ==> p.names[i] in p.scope
  }

  /** The objects the package's names resolve to, in `Names()` order. */
  function Decls(p: Package): (ds: seq<Object>)
    requires NamesDeclared(p)
    ensures |ds| == |p.names|
    ensures forall i :: 0 <= i < |ds| ==> ds[i] == p.scope[p.names[i]]
  {
    seq(|p.names|, i requires 0 <= i < |p.names| => p.scope[p.names[i]])
  }

  /** What the signature loop of compPackage demands: each object is a
      Declaration whose parameters resolve. */
  predicate Signable(ds: seq<Object>) {
    forall i :: 0 <= i < |ds| ==> ds[i].Declaration? && ParamsResolve(ds[i])
  }

  lemma PackageDecls(p: Package, n: nat)
    requires PackageCompilable(p, n)
    ensures NamesDeclared(p) && Signable(Decls(p))
    ensures forall i :: 0 <= i < |p.names| ==> DeclarationCompilable(Decls(p)[i], n)
  {
  }

  /** One forward declaration per declaration, in order. */
  function SignatureLines(ds: seq<Object>): (r: seq<string>)
    requires Signable(ds)
    ensures |r| == |ds|
    ensures forall i :: 0 <= i < |ds| ==> r[i] == SignatureLine(ds[i])
  {
    seq(|ds|, i requires 0 <= i < |ds| => SignatureLine(ds[i]))
  }

  lemma SignatureLinesStep(w: seq<string>, ds: seq<Object>, i: nat)
    requires Signable(ds) && i < |ds|
    ensures Signable(ds[..i]) && Signable(ds[..i + 1])
    ensures w + SignatureLines(ds[..i]) + [SignatureLine(ds[i])] == w + SignatureLines(ds[..i + 1])
  {
    SignableSlice(ds, i);
    SignableSlice(ds, i + 1);
    assert ds[..i + 1][..i] == ds[..i];
    assert SignatureLines(ds[..i + 1]) == SignatureLines(ds[..i]) + [SignatureLine(ds[i])];
    AppendAssoc(w, SignatureLines(ds[..i]), [SignatureLine(ds[i])]);
  }

  lemma SignableSlice(ds: seq<Object>, j: nat)
    requires Signable(ds) && j <= |ds|
    ensures Signable(ds[..j])
  {
    forall k | 0 <= k < j ensures ds[..j][k].Declaration? && ParamsResolve(ds[..j][k]) {
      assert ds[..j][k] == ds[k];
    }
  }

  /** The definitions of `ds`, one per declaration, in the order of `ds`. */
  ghost function Definitions(ds: seq<Object>, n: nat): (r: seq<seq<string>>)
    requires forall i :: 0 <= i < |ds| ==> DeclarationCompilable(ds[i], n)
    ensures |r| == |ds|
    ensures forall i :: 0 <= i < |ds| ==> r[i] == DeclarationLines(ds[i], n)
  {
    seq(|ds|, i requires 0 <= i < |ds| => DeclarationLines(ds[i], n))
  }

  function Flatten(ss: seq<seq<string>>): (r: seq<string>) {
    if ss == [] then [] else Flatten(ss[..|ss| - 1]) + ss[|ss| - 1]
  }

  lemma FlattenStep(ss: seq<seq<string>>, j: nat)
    requires j < |ss|
    ensures Flatten(ss[..j + 1]) == Flatten(ss[..j]) + ss[j]
  {
    assert ss[..j + 1][..j] == ss[..j];
  }

  lemma {:induction false} FlattenPrepend(x: seq<string>, ss: seq<seq<string>>)
    ensures Flatten([x] + ss) == x + Flatten(ss)
    decreases |ss|
  {
    var s := [x] + ss;
    if ss == [] {
      assert s[..0] == [];
    } else {
      assert s[..|s| - 1] == [x] + ss[..|ss| - 1];
      FlattenPrepend(x, ss[..|ss| - 1]);
    }
  }

  function Reverse<T>(s: seq<T>): (r: seq<T>)
    ensures |r| == |s|
    ensures forall i :: 0 <= i < |s| ==> r[i] == s[|s| - 1 - i]
  {
    if s == [] then [] else [s[|s| - 1]] + Reverse(s[..|s| - 1])
  }

  lemma ReverseStep<T>(s: seq<T>, i: nat)
    requires i < |s|
    ensures Reverse(s[..i + 1]) == [s[i]] + Reverse(s[..i])
  {
    assert s[..i + 1][..i] == s[..i];
  }

  /** compPackage: every forward declaration, then the deferred definitions,
      last name first. */
  ghost function PackageLines(p: Package, n: nat): (r: seq<string>)
    requires PackageCompilable(p, n)
  {
    PackageDecls(p, n);
    var ds := Decls(p);
    SignatureLines(ds) + Flatten(Definitions(Reverse(ds), n))
  }

  /** Deferring a further definition puts it before all the earlier ones:
      the definitions appear in the reverse of `Names()` order. */
  lemma DefinitionsReversed(ds: seq<Object>, d: Object, n: nat)
    requires DeclarationCompilable(d, n)
    requires forall i :: 0 <= i < |ds| ==> DeclarationCompilable(ds[i], n)
    ensures Flatten(Definitions(Reverse(ds + [d]), n))
         == DeclarationLines(d, n) + Flatten(Definitions(Reverse(ds), n))
  {
    var r := Reverse(ds + [d]);
    assert (ds + [d])[..|ds|] == ds;
    assert r == [d] + Reverse(ds);
    assert Definitions(r, n) == [DeclarationLines(d, n)] + Definitions(Reverse(ds), n);
    FlattenPrepend(DeclarationLines(d, n), Definitions(Reverse(ds), n));
  }

  /** The package's first |names| lines are the forward declarations, in
      `Names()` order, so each precedes every function body; the definition
      of the last name comes first among the rest. */
  lemma PackageLayout(p: Package, n: nat)
    requires PackageCompilable(p, n) && |p.names| > 0
    ensures var ds := Decls(p);
      && |PackageLines(p, n)| >= |ds|
      && (forall i :: 0 <= i < |ds| ==> PackageLines(p, n)[i] == SignatureLine(ds[i]))
      && PackageLines(p, n)[|ds|..]
         == DeclarationLines(ds[|ds| - 1], n) + Flatten(Definitions(Reverse(ds[..|ds| - 1]), n))
  {
    PackageDecls(p, n);
    var ds := Decls(p);
    var init := ds[..|ds| - 1];
    assert init + [ds[|ds| - 1]] == ds;
    DefinitionsReversed(init, ds[|ds| - 1], n);
  }
}
