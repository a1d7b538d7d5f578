# A model of calc's C code generator

Calc is a small Lisp-like language. Its compiler lowers a parsed program to a
typed and tagged IR, and then the package `comp` writes that IR out as C
source. This project models that last step: the generator in `comp/comp.go`.

The model has five modules.

- `Ir` holds the IR the generator consumes. It has eleven node kinds. Every
  node carries its tagger ID and its checker type. A declaration carries the
  scope its body is compiled in, and a package carries its scope and the
  order of its names.
- `Text` holds the pieces of Go's standard library the generator relies on:
  the `%d` rendering of an ID and `strings.Join`. It also defines `Split`,
  which the generator never calls. `Split` serves only as the inverse with
  which `SplitJoin` pins down what `Join` produces.
- `Render` holds the code that only builds text:
  - `cType`
  - the `_v<ID>` temporaries
  - `compConstant`, `compVar`, `compIdent` and `compSignature`
  - the exact shape of every line handed to `emit` and `emitln`
- `Emission` holds a reference definition, `Gen`. It gives, for each node, the
  reference that `compObject` returns and the lines it emits, in order. It
  also has `PackageLines`, the whole output of `compPackage`, and the lemmas
  about both.
- `Comp` holds the class `Compiler`. Its field `out` is the output file as a
  sequence of strings, one per `emit` or `emitln` call. Its methods model
  the compiler's methods that emit or recurse:
  - `emit`, `emitHeaders`, `emitMain`
  - `compObject`, `compAssignment`, `compBinary`, `compCall`
  - `compDeclaration`, `compIf`, `compUnary`, `compVariable`
  - `compPackage`
  - `compSignature`, which has a loop but emits nothing

  `EmitHeaders` and `EmitMain` append the fixed `HeaderLines` and
  `MainLines`. The compiling methods are proved to append exactly what `Gen`,
  `DeclarationLines` or `PackageLines` prescribes. `CompSignature` is proved
  to return `Render.CompSignature` and has no `modifies` clause.

  Four methods have no Go method of their own. They split large Go methods
  into parts:
  - `CompBlock` is the Block loop of `compObject`, a method of its own so
    that its invariants stand on their own.
  - `CompElement` is one iteration of that loop or of `compCall`'s loop.
  - `EmitSignatures` is the signature loop of `compPackage`.
  - `RunDeferred` is the calls `compPackage` defers.

  `CompCall`'s contract is stated through `GenAll` and `Refs`, not as
  `Gen(call)`. It equals `Gen`'s Call case, and `CompObject` connects the two.

  `compConstant`, `compVar` and `compIdent` neither emit nor recurse, so they
  are `Render` functions.

A ghost bound `n` limits how deep `compAssignment` may go. That method
compiles the object its target resolves to, which is not part of the
assignment, so without a bound the recursion need not end (see
`SelfAssigningVariableDiverges`). The predicate `Compilable(o, scope, n)`
states that the bound suffices. It also states that these Go type assertions
succeed:
- `.(ir.IDer)` in `compVar` and `compIdent`
- `.(*ir.Param)` in `compSignature`

`PackageCompilable(p, n)` adds the assertion `.(*ir.Declaration)` in
`compPackage`. It also requires every declaration to be `Compilable`.

Those assertions panic in Go. Here they are preconditions.

The IR tests build a package from `(decl main int ((var (= a 42)) a))`
(ir/ir_test.go:20). That input is a variable initialised by an assignment to
its own name. Suppose the IR builder, which is not part of this model, stores
it as a Variable whose initializer assigns to that same Variable. Then it is
the input of `SelfAssigningVariableDiverges`, and the generator as written
would not terminate on it. This is a consequence of the lemma; it was not
executed.

## Model

| member | source | states |
|---|---|---|
| Render.CType | comp/comp.go:111-120 | `int32_t` exactly for Int, `bool` exactly for Bool, `int` for every other type |
| Render.TempName | comp/comp.go:186-188 | `_v<ID>` is `_v` followed by the decimal digits of the ID, at least three characters |
| Render.TempNameInjective | comp/comp.go:186-188 | two IDs give the same temporary name if and only if they are equal |
| Text.NatToString | comp/comp.go:188 | `%d` of a non-negative ID: at least one digit, all digits, no leading zero unless the ID is 0 |
| Text.DecimalRoundTrip | comp/comp.go:188 | reading the `%d` digits back as a decimal number gives the ID |
| Text.NatToStringInjective | comp/comp.go:188 | two IDs render to the same digits if and only if they are equal |
| Text.Join | comp/comp.go:196 | `strings.Join` of a single element is that element |
| Text.SplitJoin | comp/comp.go:196 | joining comma-free pieces with "," and splitting at ',' gives back the same pieces in order |
| Render.CompConstant | comp/comp.go:199-201 | a constant is referred to by its own rendering and emits nothing |
| Render.CompVar | comp/comp.go:247-249 | a read of a name is `_v<ID>` of the object the name resolves to |
| Render.CompIdent | comp/comp.go:208-210 | renders exactly as `CompVar` does |
| Render.VarRefsAgree | comp/comp.go:247-249 | two reads render alike if and only if their names resolve to objects with the same ID |
| Render.ParamEntries | comp/comp.go:234-238 | one entry per parameter, in order, each `<cType> _v<ID>` of the Param the name resolves to |
| Render.ParamEntryHasNoComma | comp/comp.go:237 | a parameter entry never contains ',' |
| Comp.Compiler.CompSignature | comp/comp.go:233-241 | builds one entry per parameter in a loop and returns exactly the signature `Render.CompSignature` defines; it emits nothing |
| Render.SignatureShape | comp/comp.go:233-241 | a signature is `<cType(ret)> _<name>(` then the list then `)`; the list is empty with no parameters, otherwise splitting it at ',' gives the parameter entries in order |
| Comp.Compiler.constructor | comp/comp.go:24-30 | a new compiler has written nothing |
| Comp.Compiler.Emit | comp/comp.go:128-134 | every `emit` or `emitln` appends its one string to the file and changes nothing before it |
| Comp.Compiler.EmitHeaders | comp/comp.go:136-140 | appends the three `#include` lines for stdio, stdint and stdbool, in that order |
| Comp.Compiler.EmitMain | comp/comp.go:142-147 | appends a C `main` that prints `_main()` with `%d` and returns 0 |
| Comp.Compiler.CompObject | comp/comp.go:151-178 | for every kind of node, returns `Gen`'s reference and appends exactly `Gen`'s lines |
| Comp.Compiler.CompBlock | comp/comp.go:165-168 | compiles the elements in order, appending each element's lines; returns the last element's reference, or "" for an empty block |
| Comp.Compiler.CompElement | comp/comp.go:165-168 | compiling the i-th element of a block or argument list appends that element's lines and returns its reference |
| Comp.Compiler.CompAssignment | comp/comp.go:180-183 | the target name resolves; appends the resolved object's lines, then the right-hand side's lines, then `<target ref> = <rhs ref>;` |
| Comp.Compiler.CompBinary | comp/comp.go:185-189 | appends the left operand's lines, then the right operand's, then `<cType> _v<ID> = <lhs> <op> <rhs>;`, and returns `_v<ID>` |
| Comp.Compiler.CompCall | comp/comp.go:191-197 | appends the arguments' lines in argument order and returns `_<name>(` with the argument references joined by "," and then `)` |
| Emission.CallArgRefs | comp/comp.go:193-195 | a call's reference list has one entry per argument, the i-th being the reference of the i-th argument |
| Comp.Compiler.CompDeclaration | comp/comp.go:203-206 | appends `<signature> {`, then the body's lines, then `return <body ref>;` and `}` |
| Comp.Compiler.CompIf | comp/comp.go:212-222 | appends `<cType> _v<ID> = 0;`, the condition's lines, `if (<cond>) {`, the then-branch's lines and its assignment to `_v<ID>`; only with an else-branch `} else {`, its lines and its assignment; then `}`. Returns `_v<ID>` |
| Comp.Compiler.CompUnary | comp/comp.go:243-245 | appends the operand's lines and returns the operator text followed by the operand's reference |
| Comp.Compiler.CompVariable | comp/comp.go:251-256 | appends `<cType> _v<ID> = 0;`, followed by the initializer's lines only when there is an initializer |
| Comp.Compiler.CompPackage | comp/comp.go:224-231 | appends exactly `PackageLines`: the forward declarations in `Names()` order, then the deferred definitions |
| Comp.Compiler.EmitSignatures | comp/comp.go:225-229 | appends `<signature>;` for each name in `Names()` order; the deferred declarations end up last-deferred first |
| Comp.Compiler.RunDeferred | comp/comp.go:229-231 | running the deferred calls appends each declaration's definition, in the order they are run |
| Emission.DefinitionsReversed | comp/comp.go:228-230 | a declaration deferred later has its definition emitted before all the earlier ones |
| Emission.PackageLayout | comp/comp.go:224-231 | the package's first lines are one forward declaration per name, in `Names()` order, so every signature precedes every body; the definition of the last name follows them directly |
| Emission.Decls | comp/comp.go:226-227 | the objects the package's names resolve to, one per name, in `Names()` order |
| Emission.PackageDecls | comp/comp.go:227 | in a compilable package each name resolves to a Declaration whose signature and body compile |
| Emission.SignatureLines | comp/comp.go:228 | one `<signature>;` line per declaration, in order |
| Emission.RefOfKind | comp/comp.go:151-178 | the reference by kind: "" for Assignment, Declaration, Variable and Param; `_v<ID>` for Binary and If; a constant's text; a read's resolved temporary; a block's last reference, or "" with no lines for an empty block |
| Emission.BinaryDeclaresTemp | comp/comp.go:185-189 | the `_v<ID>` a Binary returns is declared by the last line it emits, `<cType> _v<ID> = ...`, after its operands' lines |
| Emission.IfDeclaresTemp | comp/comp.go:212-214 | the `_v<ID>` an If returns is declared by the first line it emits, `<cType> _v<ID> = 0;`, before the condition's lines |
| Emission.CompilableMonotone | comp/comp.go:180-183 | a node that compiles within n nested target lookups also compiles within any larger bound |
| Emission.GenDeterministic | comp/comp.go:150-256 | the output does not depend on the lookup bound, once the bound suffices |
| Emission.GenAllDeterministic | comp/comp.go:165-168 | the same holds for a sequence of nodes compiled one after another |
| Emission.SelfAssigningVariableDiverges | comp/comp.go:180-183 | a Variable initialized by an assignment to the name that resolves to that same Variable compiles within no bound: compVariable and compAssignment would call each other forever |

## Left out

- CompileFile and CompileDir (comp/comp.go:35-107) are left out. They parse files, run the IR passes, create the output file and print errors. This is I/O, and it goes through packages that are not part of this model.
- The IR passes (tagging, type checking, folding) that run before generation are not part of this model. Their results are inputs: each node's ID and type.
- `Error` and the `fset`, `errors`, `nextID` and `curScope` fields of the compiler are left out. The generator never uses them.
- `Constant.String()` and the operators' `String()` come from the IR package, which is not part of this model. Each node holds the text they produce.
- The order of `Scope().Names()` comes from the IR package. It is an input (`Package.names`).
- Go's panics on a failed type assertion are not modelled as behaviour. The conditions that avoid them are preconditions (`Compilable`, `PackageCompilable`).
- compAssignment looks up its target (comp/comp.go:181) with no type assertion. If the name is missing, Go would compile whatever the lookup returns. For a nil result, compObject matches no case and gives "", so Go would emit ` = <rhs>;` without panicking. The model does not cover this input: `Compilable` requires the target name to be in scope.
- `emit` and `emitln` discard the error of `fmt.Fprintf`/`fmt.Fprintln` (comp/comp.go:128-134). `Emit` always appends, so failed or partial writes are not modelled.
- Unbounded recursion through `compAssignment` is not modelled as behaviour. The ghost bound `n` excludes it, and `SelfAssigningVariableDiverges` shows one input that has it.
- Scopes are flattened to one map per declaration. It holds every name visible in that body, as the parent-chain lookup of `Scope().Lookup` would find it, except a declaration whose own scope would have to contain this one. Shadowing inside a body is therefore not modelled.
- IR nodes are finite values, so no scope can contain the declaration that owns it, and no two declarations can each be in the other's scope. In Go both are possible. An assignment to the enclosing function's name then goes through compAssignment (comp/comp.go:181-182), compObject's Declaration case (comp/comp.go:162-163) and compDeclaration (comp/comp.go:203-205), which compiles the enclosing declaration again without end. Two functions that assign to each other's names do the same. The model cannot represent these inputs, so this endless recursion is not modelled.
- IR types are limited to Int, Bool and one invalid type. The default branch of `cType` covers the last.
- `fmt.Fprintf` formatting is modelled only for the verbs the generator uses: `%s` and `%d` on a non-negative ID.
