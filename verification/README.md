# A verified model of nscheme

nscheme runs Scheme on one stack machine with two engines. A tree walker runs a closure's first calls; the
third call compiles the closure to threaded code, which every later call runs. This project models that machine,
its compiler, the mark phase of its collector, its macro expander, its reader and writer, its environments and its
symbol table, and proves what they promise.

`dafny verify dfyconfig.toml` checks everything.

## How it is laid out

Code that the source runs by changing things in place is modelled twice: as functions on values, which the theorems
are about, and as methods on classes with the source's fields and loops, each proved to do what the function says.

| files | what they hold |
|---|---|
| `Values`, `EnvStore` | Scheme values; environments as numbered frames |
| `Compiler`, `CodeLayout`, `CompilerState` | scope analysis and code generation, with the static depth at each instruction; the compiler state with its appended, backpatched instruction list |
| `Machine`, `VmState`, `Tagged` | the step function of the virtual machine; the machine as arrays and counters; tagged words |
| `FrameDiscipline`, `CodeShape`, `ActivationBounds` | what every step keeps, for any program in either mode |
| `Depths`, `DepthProof` | the compiler's depths agree along every edge of the code, and are the machine's |
| `Semantics`, `WellFormed`, `Peaks` | a fuel-indexed big-step meaning, independent of both engines, and the fragment it is compared on |
| `ScopeProof`, `Layout`, `Activations`, `InterpreterProof`, `CompiledProof`, `Transparency` | both engines give every application its meaning; so they agree |
| `Evaluation` | whole runs: an expression, and a file of them |
| `Counting` | which call compiles a closure, and to what |
| `Contexts`, `Macros` | an activation runs the same whatever lies below it; so a macro use runs as a `begin` of its expansion |
| `Forms`, `Lexical` | what each special form does, and what the body of a closure sees |
| `Builtins` | what applying each built-in gives |
| `Restrictions`, `Disagreements` | what the engines do just outside the fragment; inputs on which they differ |
| `Gc`, `GcTraversal`, `GcAlloc`, `GcState` | the heap as words: headers and the grey queue, the traversal, the bump allocator, and the collector that updates memory in place |
| `SyntaxRules`, `SyntaxRulesProof`, `MacroExpander` | `syntax-rules` matching, binding and expansion |
| `Parser`, `ParseState`, `Writer`, `RoundTripProof`, `Lexemes` | lexer, parser and printer, how they undo each other, and what the round trips do not reach: comments, blanks, long names, unfinished text, the printer's spaces |
| `EnvTree`, `EnvStack`, `Symbols` | search trees of linked nodes: environments and interned symbols |

## What is proved

*Both engines agree.* `Transparency.JitTransparency`: take any two machines of one well-formed program that are
about to apply the same function to the same arguments. The closure may be compiled in one and interpreted in the
other, or compiled by this very call, and so may every closure it calls. One returns a value if and only if the
other returns it, one fails if and only if the other fails, and one runs for ever if and only if the other does.
Behind it are two forward simulations of one meaning, which also fix the result slot, the callers' frames, every
slot below, and the number of slots in use. `Evaluation.EvaluationMeans` says the same of whole runs, and
`Evaluation.SessionMeans` of a file of expressions. The fragment (`WellFormed`) is: constants, symbols, calls,
three-armed `if`, `begin` with several expressions in tail position and one elsewhere, and leading one-value
`(define x e)` forms. For four of its borders `Disagreements` has a closure on which the engines differ: a wrong
number of arguments, a `begin` of two expressions as an operand, a parameter named like a form, and an `if` without
a second branch. `Restrictions` has conditions: when a call fails for its count, when the depth of a `begin` is
right, when a local hides a form, when a bare constant is returned, and which bodies the third call refuses.

*The third call compiles.* `Counting.CompiledAfterThree`: in any run of any program a closure is compiled if and only
if three calls of it have been counted; none is counted after that, and its code is the compiler's at one of the three.

*Any program, not only the fragment.* `Lexical.LambdaInScope` and `FunctionInScope`: make a closure in any state and
call it at any later time from anywhere; its body sees its arguments, and every other symbol as the environment it was
made in binds it then. `Macros.MacroUse`: a macro use returns what the elements of its expansion, evaluated in order in
the same environment, return, fails if they fail, and runs for ever if they do. The expansion may be anything. The
expander leaves four slots and a frame below it, so behind this is `Contexts.ContextFree`: an activation gives the same
values, and fails and lasts alike, whatever frames and slots lie below. `Forms` has the special forms: what `quote`,
`lambda`, `syntax-rules` and the binding forms return, and that `set!` and `define` change the chain of environments
as `EnvStack` says, a captured node included (`OperandBinds` for any expression, `BindingSim` against its meaning).
`Builtins` says what each built-in gives in terms of the values, division's odd quotients included.

*The static depth is the dynamic depth.* `DepthProof.StaticDepthIsDynamic`: in every reachable state of an activation
of compiled code that was entered with the right number of arguments, the number of slots it holds is the number the
compiler counted for that instruction (jumps and returns, which do not read it, aside), whatever its callees do; at a
call it is the instruction's operand plus the call's operands. So chains of tail calls run in
constant space, provided each passes as many arguments as its callee takes; `Restrictions.WrongCountsGrow` has a loop
that does not, and grows.

*Every step of every program, in both modes*, keeps the frame protocol, returns what a frame saved and exactly one
slot more, and keeps control inside the code. Tail calls run in place, and an activation takes fewer steps of its own
than its closure has instructions.

*The mark traversal is exact, and exactly when.* On the words of the heap, with sharing and cycles, its queue of grey
blocks is threaded through the block headers. `gc_alloc` does not write the link word, and the traversal follows the
root's link without having written it if the root has no unmarked child. `GcTraversal.TraversalExactIff` is the
condition on the initial memory: the traversal ends having marked exactly what the root reaches if and only if that
link is zero, or will be written, or leads over marked blocks to zero. Otherwise it may mark an unreachable block
(`StaleLinkMarks`, with a concrete heap in `StaleLinkExample`) or never end (`SelfLinkNeverEnds`). In memory that was
zero to begin with all is well, and stays so however much is allocated and marked (`VmAlloc`, `MarkBlankStack`).

*Printing then reading is the identity* on every tree of null, fixnums, booleans, byte characters and symbols if and
only if each symbol is spelled as the lexer spells symbols and no list element is the symbol spelled `.`; the
reader uses up the printed datum and not one character more. `RoundTripProof.NotationReads` is the same for text with
quotation marks at any depth, before lists, inside them, in tails, and before each other.

*Macro expansion inverts matching*, and *environments refine a stack of maps* in which captured nodes stay live.

## Model

Paths are relative to the repository. Each theorem comes first, then what it is built from. The last two groups, from
`CompilerState.CompileClosure` and from `VmState.Vm.RunFor` on, are one theorem each: the imperative compiler and the
imperative machine compute what the functions say; their other rows are its cases, one operation each.

| member | source | states |
|---|---|---|
| `Transparency.JitTransparency` | src/vm_ops.c:98-122 | Two machines that differ in what is compiled return the same values, fail alike and diverge alike |
| `Evaluation.EvaluationMeans` | src/vm.c:332-344 | Evaluating a well-formed expression in an environment of the program returns a value if and only if it means that value, is an error if and only if it means one, and runs for ever if and only if no fuel suffices |
| `Evaluation.SessionMeans` | src/main.c:31-43 | The expressions of a file, evaluated one after the other by the machine the ones before them left, return exactly the values each means by itself |
| `Evaluation.SessionTransparency` | src/main.c:31-43 | A file runs alike on two idle machines of the program, whichever closures each has compiled |
| `Evaluation.IdleAgain` | src/vm.c:332-344 | When an expression has returned, the stacks are empty and the tables are still the program's, as the next one needs |
| `Transparency.ReturnsIffMeans` | src/vm.c:278-293 | An application returns a value if and only if it means that value |
| `Transparency.ErrorIffMeans` | src/vm.c:278-300 | It stops in an error if and only if it means one |
| `Transparency.NeverEndsIffMeans` | src/vm.c:278-293 | It runs for ever if and only if no fuel suffices |
| `Transparency.ApplyCorrect` | src/vm_ops.c:87-142 | Every application, in any mix of modes and at every depth of nesting, ends as it means |
| `CompiledProof.CompiledApply` | src/vm_ops.c:98-103 | Applying a compiled closure to matching arguments ends as its body means |
| `InterpreterProof.InterpretedApply` | src/vm_ops.c:104-122 | Applying an interpreted closure ends as its body means, the counting and compiling third call included |
| `Counting.CompiledAfterThree` | src/vm_ops.c:104-122 | In any run of any program, a closure not called before is compiled if and only if three calls of it have been counted; no further call is counted; its code and captured nodes are what the compiler made of it at one of them |
| `Counting.CallCounts` | src/vm_ops.c:104-122 | A call of an interpreted closure that goes through leaves its count one higher in the table; it is compiled now if and only if two calls had been counted before, with exactly the compiler's code and nodes; either way this call walks the body |
| `Counting.StepCounts` | src/vm.c:278-293 | Any step of any program changes a closure in the table only if it is a counted call of that closure, and then as `CallCounts` says |
| `Lexical.LambdaInScope` | src/vm.c:14-54 | Lexical scope: evaluate `(lambda params . body)` in any state; whenever and wherever its value is called in the tree walker, `body` is walked, each parameter is its argument, and every other symbol is what the environment of the `lambda` binds it to then |
| `Lexical.FunctionInScope` | src/vm.c:56-86 | The same of `(define (f . params) . body)`, and `f` is bound to that closure |
| `Lexical.BodySees` | src/vm_ops.c:68-122 | The frame a call makes binds parameter i to argument i, the last of equal names winning, in front of the closure's own environment |
| `Macros.MacroUse` | src/vm.c:218-230 | For every program and every expansion, a macro use returns a value, fails or runs for ever if and only if evaluating the elements of the expansion in order, in the same environment, does; the caller's frames and slots stay |
| `Macros.MacroMeans` | src/vm.c:218-230 | If the expansion is in the fragment, these are the value, the error or the divergence of the sequence it means |
| `Macros.UseRefused` | src/syntax-rules.c:283-285 | A macro use is an error at once if and only if no rule accepts it |
| `Contexts.ContextFree` | include/nscheme/vm_ops.h:8-61 | Put any activation above other frames and slots: it gives the same values, and fails and runs for ever alike |
| `Contexts.StepMoves` | src/vm.c:278-293 | Every step of every program, in either mode, does the same there, its return included |
| `Forms.LambdaReturns` | src/vm.c:14-54 | A `lambda` returns a new, uncounted closure with its parameters and body over the current environment |
| `Forms.FunctionDefined` | src/vm.c:56-86 | `(define (f . params) . body)` binds `f` to such a closure and returns |
| `Forms.BindingSim` | src/vm_ops.c:442-482 | When e means v, `(set! x e)`, `(define x e)` and `(define-syntax x e)` end with the chain of environments changed as the stack of maps says, no other frame changed, callers untouched, and the node that `set!` found, wherever it is captured, holding v; when e is an error or runs for ever, so do they |
| `Forms.OperandBinds` | src/vm_ops.c:442-482 | For any program and any list e: when e gives v, the form binds x to v in the environments as e leaves them, and returns |
| `Forms.BoundOnStack` | src/env.c:12-50 | In terms of the environments: one frame changes, lookup then finds the value, and `set!` keeps the node it found |
| `Forms.BindingRefused` | src/vm_ops.c:442-482 | Binding is an error if and only if there are not two operands or the first is no symbol |
| `Forms.NamelessBinding` | src/vm.c:56-86 | A binding form that names neither a symbol nor a function becomes a call of the binder with all its parts |
| `Forms.MacroDefined` | src/vm.c:56-86 | `(define-syntax m (syntax-rules keywords . rules))` binds m to the macro with those keywords and rules |
| `Forms.SyntaxRulesReturns` | src/vm.c:143-160 | A `syntax-rules` form returns the macro with the keywords and rules that stand in it |
| `Forms.QuoteReturns` | src/vm.c:135-141 | `(quote v)` returns v unevaluated, whatever it is, and changes no binding |
| `Forms.QuotedDatum` | src/parse.c:124-134 | A quotation mark before a printed datum reads as an expression whose value is the datum |
| `Forms.FormKinds` | include/nscheme/values.h:229-247 | Exactly eight kinds are special forms at the head of a list; any other value there that is no macro, and everything behind the head, is pushed |
| `Forms.OperandSymbol` | src/vm.c:232-250 | Behind the head, a symbol bound to a form or a macro is only its value; an unbound symbol is an error |
| `Forms.LambdaRefused` | src/vm.c:28-54 | A `lambda` without a body, or whose parameters are no list, goes on as a call of its parts |
| `Forms.NotApplicable` | src/vm_ops.c:124-142 | Applying anything but a closure, or the internal set-ptr to other than one operand, is an error |
| `Builtins.LessThan` | src/vm_ops.c:364-378 | `(< a b)` on fixnums returns whether a is less than b |
| `Builtins.GreaterThan` | src/vm_ops.c:396-410 | `(> a b)` likewise |
| `Builtins.IsEq` | src/vm_ops.c:380-394 | `eq?` is equality on values that are not both pairs or both macros |
| `Builtins.ConsCarCdr` | src/vm_ops.c:304-362 | `car` and `cdr` take back the two operands of `cons` |
| `Builtins.NoPair` | src/vm_ops.c:320-362 | `car` and `cdr` of anything but a pair are errors |
| `Builtins.Tests` | src/vm_ops.c:412-440 | `null?` and `pair?` answer for exactly the empty list and the pairs |
| `Builtins.WrongCounts` | src/vm_ops.c:304-440 | A wrong number of operands is an error, but for the two tests, which then return themselves |
| `Builtins.AddMultiply` | src/vm_ops.c:236-279 | `+` and `*` are the sum and the product of any number of fixnums, modulo 2^62 |
| `Builtins.Subtract` | src/vm_ops.c:254-266 | `-` takes all later fixnums from the first, modulo 2^62 |
| `Builtins.Divide` | src/vm_ops.c:281-302 | `/` of two or more fixnums is an error if and only if a later one is zero; otherwise it is the first divided by the product of the others, and once more by four for each one after the second |
| `Builtins.DividesRight` | src/vm_ops.c:281-302 | That is the quotient if and only if there are two arguments or the quotient is zero |
| `Builtins.DivideAlone` | src/vm_ops.c:281-302 | `(/ n)` is 4n modulo 2^62 |
| `Transparency.BuiltinApply` | src/vm_ops.c:236-440 | On operands the built-in defines (fixnums for arithmetic and comparison, no two pairs for `eq?`) it replaces its call's slots by its one result, or fails; the rows of `Builtins` say what the result is |
| `CompiledProof.AtomSim` | src/compiler.c:101-139 | The code of a symbol or constant pushes its meaning: the argument, the local's value, or the captured node's value |
| `CompiledProof.ElemSim` | src/compiler.c:194-260 | Outside tail position the code of any well-formed expression, from depth d, pushes its value and ends behind itself at depth d + 1, with all lower slots and frames unchanged; or fails, or runs on, as the meaning does |
| `CompiledProof.IfSim` | src/compiler.c:149-192 | Both arms of an `if` end at the same instruction and depth |
| `CompiledProof.ListSim` | src/compiler.c:194-260 | The code of operands pushes their values left to right |
| `CompiledProof.CallOperands` | src/vm_ops.c:199-216 | A call instruction with the static depth as operand applies exactly the operands pushed, in a frame of their own |
| `CompiledProof.TailCallOperands` | src/vm_ops.c:218-234 | A tail call applies them in the caller's place, so the callee's result is the caller's |
| `CompiledProof.TailElemSim` | src/compiler.c:202-250 | In tail position the activation ends with the expression's value in the frame's result slot |
| `CompiledProof.TailSequenceSim` | src/compiler.c:223-237 | In a tail sequence values pile up, and the last one is returned |
| `CompiledProof.BodySim` | src/compiler.c:215-252 | A leading define leaves its value in the slot scope analysis gave the name, and later code reads it there |
| `InterpreterProof.ExprSim` | src/vm.c:198-276 | The tree walker, started on any well-formed expression, returns its value, fails, or runs on, as the meaning does |
| `InterpreterProof.ChooseBranch` | src/vm_ops.c:484-504 | The intern-if and set-ptr protocol continues with the chosen branch in the frame of the `if` |
| `InterpreterProof.AfterTest` | src/vm.c:88-125 | Once the test has returned, the `if` activation evaluates the branch the test selects |
| `InterpreterProof.BeginSim` | src/vm.c:127-133 | A `begin` returns its last value |
| `InterpreterProof.ListSim` | src/vm.c:198-250 | The elements of a list are pushed left to right |
| `InterpreterProof.ApplyOperands` | src/vm_ops.c:87-142 | Reaching the end of a list applies the values pushed |
| `InterpreterProof.DefineSim` | src/vm_ops.c:442-461 | An internal define binds its value in the activation's own environment frame and no other |
| `InterpreterProof.BodySim` | src/vm_ops.c:104-122 | An interpreted body returns what it means |
| `ScopeProof.GenTopScopeCorrect` | src/scope.c:128-177 | For every well-formed closure analysis succeeds; every reference is resolved to the slot of its parameter, its local, or the captured node |
| `ScopeProof.HandleSymbolCorrect` | src/scope.c:55-87 | Analysing a symbol keeps the scope invariant: locals at stack slots, each captured symbol at its own closure slot, which holds the node the environment search finds |
| `ScopeProof.GenSubScopeCorrect` | src/scope.c:95-126 | Analysing a tree covers all its symbols and keeps every earlier entry |
| `ScopeProof.AddParamsCorrect` | src/scope.c:140-144 | After the parameters the table holds exactly the parameter names, all at stack slots |
| `ScopeProof.AddDefinesCorrect` | src/scope.c:146-158 | After the defines it holds exactly the parameters and locals |
| `ScopeProof.GenBodyScopeCorrect` | src/scope.c:160-176 | Analysing a well-formed body succeeds and covers it |
| `Disagreements.ArityDisagrees` | src/vm_ops.c:68-122 | `((lambda (x) 7))` is an error before the closure is compiled and returns 7 after |
| `Restrictions.OnlyInterpretedCallsCount` | src/vm_ops.c:68-122 | A call fails for its number of arguments if and only if the closure was interpreted and the number is wrong |
| `Disagreements.SplicedBeginDisagrees` | src/compiler.c:223-252 | `((lambda () (cons (begin 1 2))))` is an error interpreted, one argument being too few, and returns `(1 . 2)` compiled |
| `Restrictions.BeginPushesAll` | src/compiler.c:223-252 | Outside tail position a compiled `begin` pushes the value of every expression, none included; the static depth is right if and only if there is exactly one |
| `Restrictions.BeginSplices` | src/compiler.c:223-252 | Among operands, for any expressions a b ... and symbols or constants c ..., `(begin a b ...) c ...` and `a b ... c ...` are compiled to the same code, so a `begin` there passes extra arguments |
| `Disagreements.HiddenFormDisagrees` | include/nscheme/compiler.h:95-131 | `((lambda (if) (if 1 2 3)) 7)` is an error interpreted, since 7 cannot be applied, and returns 2 compiled |
| `Restrictions.HiddenForms` | include/nscheme/compiler.h:95-131 | Compiler and tree walker agree on whether a list is a special form if and only if no local hides the form's name |
| `Restrictions.HiddenFormIsApplied` | src/vm.c:198-250 | At a list that the compiler takes for a form, the tree walker runs the form if no local hides the name and starts an application of the local's value otherwise |
| `Disagreements.OneArmDisagrees` | src/compiler.c:149-192 | `((lambda () (if #t 1)))` is an error interpreted and returns 1 compiled |
| `Disagreements.ShortIfFails` | src/vm.c:88-125 | The tree walker refuses an `if` that has a test if and only if it has fewer than three parts, whatever they are |
| `Restrictions.ThirdCallRefuses` | src/scope.c:95-177 | Counting a call is an error if and only if it is the third or later and the body, past the names of its leading defines, holds a `define` or a symbol bound nowhere; the first two calls run |
| `Restrictions.NestedFunctionRefused` | src/scope.c:150-173 | A body that begins with `(define (h . params) . inner)` runs twice, and is refused at the third call as soon as `inner` mentions a parameter whose name nothing outside binds |
| `Restrictions.HiddenIf` | src/scope.c:95-126 | The code of `(lambda params s)`, s a parameter, returns the argument if and only if s names neither `if` nor `define` outside; in the first case it returns the symbol, in the second the compiler refuses |
| `Restrictions.EmptyListIsNoConstant` | src/vm.c:252-275 | The tree walker returns a constant standing alone if and only if it is not the empty list |
| `DepthProof.StaticDepthIsDynamic` | src/compiler.c:138-252 | In every state of every run in which an activation of a well-formed compiled closure, entered with the right number of slots, is on top, `argnum` is the depth the compiler recorded for the instruction, except at `Jump` and `ReturnLast`, which do not read it; at a call instruction `argnum` is its operand plus the number of the call's operands. Callees may be anything and may diverge or have wrong counts inside |
| `Depths.ClosureConsistent` | src/compiler.c:138-252 | In the code of every well-formed closure the depths that `stack_ptr` had agree along every edge: both arms of an `if` meet at one depth, a call leaves one slot more than before its operands, and from a tail `begin` only jumps and the return, which ignore the depth, follow |
| `Depths.ElemFlows` | src/compiler.c:149-252 | The same for one element wherever it is placed, by induction over its form |
| `Depths.ElemCounts` | src/compiler.c:238-248 | At every call instruction the recorded depth is the instruction's operand plus the number of operands of that call |
| `DepthProof.StepKeepsCode` | src/vm_ops.c:87-122 | No step of any program, in either mode, changes the code of a compiled closure |
| `DepthProof.ConstantSpace` | src/vm_ops.c:218-234 | A chain of tail calls of any length, between compiled closures called with as many arguments as they take, runs in the slots of its first activation: at most the largest static depth, callers' frames and slots untouched |
| `DepthProof.WellFormedFits` | src/compiler.c:375-418 | Every well-formed closure, entered with the right count, is such a link of a chain |
| `Restrictions.WrongCountsGrow` | src/vm_ops.c:218-234 | With wrong counts tail calls do not run in constant space: each turn of `(define (f) (f f))`, compiled, leaves one slot more |
| `Restrictions.LoopIsCompiled` | src/compiler.c:375-418 | The code of that closure is what the compiler makes of it |
| `ActivationBounds.ApplicationSpace` | src/vm_ops.c:218-234 | From either engine: however long an application that means something runs, and however many tail calls it makes, callers' frames and slots stay, and its activation never holds more slots than the largest static depth of the bodies |
| `ActivationBounds.TailCallInPlace` | src/vm_ops.c:218-234 | The overlapping move brings the callee and all arguments intact to the base; no frame is pushed and nothing below the base changes |
| `FrameDiscipline.CallsBalance` | include/nscheme/vm_ops.h:26-61 | From a call to its matching return, whatever ran between and in whichever mode: closure, mode and continuation are restored, `argnum` has grown by one, and every slot below is unchanged |
| `FrameDiscipline.RunsNest` | src/vm.c:278-293 | Frames nest in every running state of every run |
| `FrameDiscipline.StepSeenFromBelow` | include/nscheme/vm_ops.h:26-61 | A step never touches a suspended activation: its frame and all slots below it stay, or it is resumed exactly as saved |
| `FrameDiscipline.StepDiscipline` | include/nscheme/vm_ops.h:8-61 | After every running step of any program, in either mode, `sp - argnum` is the top frame's `sp` and every frame's `sp - argnum` is the `sp` of the frame below; and the step either leaves the running activation's base and frames alone or is its return |
| `FrameDiscipline.ApplyDiscipline` | src/vm_ops.c:87-142 | Applying whatever lies at the base keeps the frame nesting, set-ptr and errors included |
| `FrameDiscipline.CallDiscipline` | src/vm_ops.c:199-216 | A compiled call keeps the frame nesting and leaves the caller's slots below the callee alone |
| `FrameDiscipline.TailCallDiscipline` | src/vm_ops.c:218-234 | A tail call keeps the frame nesting, every frame below, and every slot below the base |
| `FrameDiscipline.IfDiscipline` | src/vm.c:88-125 | The two nested evaluations an interpreted `if` sets up keep the frame nesting |
| `FrameDiscipline.MacroDiscipline` | src/vm.c:218-230 | A macro use keeps the frame nesting, whatever it expands to |
| `FrameDiscipline.InterpretedStepDiscipline` | src/vm.c:198-276 | So does every other step of the tree walker |
| `CodeShape.ControlStaysInside` | src/vm.c:278-293 | So does every step of every program, in both modes, closures compiled on the way included |
| `CodeShape.CompiledStepInside` | src/vm.c:8-12 | A compiled step keeps the running and every suspended instruction pointer inside its closure's code |
| `CodeShape.CompiledCodeShaped` | src/compiler.c:149-192 | In the code of any closure every jump goes strictly forward to an index inside the code, and every instruction but the returns and tail calls has a successor |
| `CodeShape.OwnStepForward` | src/vm_ops.c:144-197 | An instruction that neither calls nor leaves moves `ip` strictly forward, inside the code |
| `ActivationBounds.StraightLine` | src/compiler.c:149-192 | Between entry and its return or tail call, an activation takes fewer steps of its own than its code has instructions |
| `ActivationBounds.PositionMoves` | src/compiler.c:172-189 | Seen from one activation, each own step moves its position in the code forward and steps of callees leave it alone |
| `GcTraversal.TraversalExactIff` | src/gc.c:164-200 | From an unmarked root the loop ends, having followed only references to blocks and marked exactly what the root reaches, if and only if the root's link word is harmless: it is zero, or the root has a child to queue, or the link leads over blocks already marked, or the root itself, to zero |
| `GcState.Collector.MarkTraverse` | src/gc.c:164-200 | From any root whose link word is harmless the loop ends; the marked blocks are the old ones and exactly those the root reaches, cycles and sharing included; unmarked headers and all payloads are untouched, and marks are again closed under car and cdr |
| `GcState.Collector.Turn` | src/gc.c:174-198 | One turn of the imperative loop, try_link and all, is the turn the traversal lemmas speak of |
| `GcTraversal.SearchStep` | src/gc.c:174-198 | That turn marks the queue's head, queues its unmarked children behind the last, keeps every header in step with whether its block is done, queued or untouched, and strictly decreases the number of blocks with clear flags plus the queue's length |
| `Gc.Finished` | src/gc.c:164-200 | When the queue is empty the blocks done are exactly those reachable |
| `Gc.LinkStep` | src/gc.c:111-162 | Linking keeps the queue a zero-terminated list of distinct blocks and every block's header in step with whether it is done, queued or untouched |
| `Gc.LinkEndEffect` | src/gc.c:111-120 | Linking writes one link, and the next block's flags and link, and nothing else |
| `Gc.TaggedAddress` | src/gc.c:79-88 | A tagged address is followed if and only if it lies in the allocated part of the heap and is no integer |
| `Gc.ImmediateIsRef` | src/gc.c:79-88 | The test of the low byte keeps out no immediate: characters, truth values, the empty list and run types are taken for references if and only if their payload lies in the heap |
| `GcState.Collector.TryLink` | src/gc.c:157-162 | Links exactly the unmarked, unqueued heap references |
| `GcTraversal.OverOnce` | src/gc.c:171-199 | A traversal that is over is over with the same memory, whatever number of turns it is given |
| `GcTraversal.FirstHop` | src/gc.c:171-199 | The first turn leads to a queued child or out of the loop if and only if the root's link word was zero or the root has a child to queue |
| `GcTraversal.StaleLinkMarks` | src/gc.c:164-200 | The failing side: a childless root whose link names another unmarked block; if the loop ends, that block is marked though the root does not reach it |
| `GcTraversal.SelfLinkNeverEnds` | src/gc.c:164-200 | A childless root whose link names itself never leaves the loop |
| `GcTraversal.StaleLinkExample` | src/gc.c:164-200 | A heap of two blocks, given word by word, on which two turns mark the unreachable one |
| `GcState.Collector.MarkStack` | src/gc.c:228-233 | After the loop over the stack, marked means marked before or reached from a live slot, if each root's link word is harmless when its turn comes; marks are clean again, and if no unmarked block had a link word none has |
| `GcState.Collector.MarkBlankStack` | src/gc.c:228-233 | In memory that was zero to begin with the loop over the stack may be run for any roots: marked means marked before or reached from a live slot, and the heap is as fit for allocating and marking as before |
| `GcTraversal.UnlinkedRootsOk` | src/gc.c:228-233 | If no unmarked block has a link word, every root's link is harmless when its turn comes, whatever the roots before it marked |
| `GcAlloc.MarkBlank` | src/gc.c:164-200 | A traversal leaves such a heap such, and every root's link is harmless |
| `GcAlloc.MarkedTidy` | src/gc.c:111-162 | Whatever changes only links and flags and leaves marks clean leaves every block, its size, its payload and all unallocated memory as the allocator knows them |
| `GcState.Collector.constructor` | src/gc.c:54-60 | An empty heap in memory of arbitrary content; in memory of zeros every link word still is zero |
| `GcState.Collector.Alloc` | src/gc.c:62-77 | Null if and only if the block would not end before `end`; otherwise a 16-byte aligned payload behind its header that overlaps nothing; flags and size are written, the link word is not; memory that was blank outside what is allocated stays so |
| `GcAlloc.AllocKeeps` | src/gc.c:62-77 | Every header and payload allocated before keeps its place, apart from the new one |
| `GcAlloc.AllocTidy` | src/gc.c:62-77 | An allocation leaves no dangling reference and none to the new block |
| `GcAlloc.AllocBlank` | src/gc.c:62-77 | If memory beyond the allocated blocks is zero and no unmarked block has a link word, the same holds after an allocation |
| `GcState.Collector.VmAlloc` | src/gc.c:23-42 | Try, collect from the stack, try again: panics, here null, if and only if the block did not fit in the first place; then the collection has marked what the stack reaches |
| `GcState.Collector.ConstructPair` | include/nscheme/vm.h:168-175 | A fresh unmarked pair that holds the two values, with nothing else in memory changed; or, if and only if it does not fit, the panic after a collection |
| `GcAlloc.NewPairBlank` | include/nscheme/vm.h:168-175 | So constructing a pair keeps it |
| `GcAlloc.PairBlank` | include/nscheme/vm.h:168-175 | Writing the words of a pair does not disturb that |
| `RoundTripProof.PrintThenRead` | src/write.c:28-73 | Printing a tree of null, fixnums, booleans, byte characters and symbols and reading it returns that tree, all text used up, if and only if its symbols are spelled legally and no list element is the symbol `.` |
| `RoundTripProof.ReaderStopsAtEnd` | src/parse.c:141-209 | The reader uses up the printed datum exactly, whatever follows it that cannot extend it |
| `RoundTripProof.DatumReads` | src/parse.c:141-200 | The same for `parse_token` from any state with an empty cache |
| `RoundTripProof.NotationReads` | src/parse.c:124-200 | And for text with quotation marks at any depth: `'` before anything reads as a list of `quote` and that thing, with exactly the rest left |
| `RoundTripProof.NotationStops` | src/parse.c:124-209 | The same for `parse_expression` |
| `RoundTripProof.QuotedReads` | src/parse.c:124-134 | `'` and a printed datum d read as `(quote d)` |
| `RoundTripProof.MarkReads` | src/parse.c:124-158 | A quotation mark before any text at all reads as `quote` and whatever that text reads as, and never returns if it does not |
| `RoundTripProof.AtomReads` | src/lex.c:30-125 | The lexer turns the printed form of an atom back into the atom |
| `RoundTripProof.DecimalReads` | src/lex.c:95-109 | Reading digits inverts printing them |
| `RoundTripProof.TailReads` | src/parse.c:160-183 | A dotted tail reads back, quotation marks included |
| `RoundTripProof.PeekHarmless` | src/parse.c:36-55 | A cached token changes nothing but when it is read; `parse_expression` is `parse_token` |
| `RoundTripProof.ParseTokenLegal` | src/lex.c:111-125 | Every symbol the parser returns, at any depth, is spelled legally, with 1 to 31 characters |
| `RoundTripProof.ParseTokenPeriodless` | src/parse.c:171-183 | Without a quotation mark ahead, no list the parser builds has the symbol `.` as an element |
| `RoundTripProof.EndRepeats` | src/parse.c:171-183 | Where the end of the file is read inside a list it is read again from the same state, so an unclosed list never returns |
| `Lexemes.UnclosedList` | src/parse.c:171-200 | A list written without its closing parenthesis, whatever is in it, is never returned |
| `Lexemes.NothingBehindPeriod` | src/parse.c:160-169 | A period with nothing behind it ends the list in the empty list |
| `Lexemes.CommentSkipped` | src/lex.c:44-49 | A comment and its newline are as if they were not there, but for the line count |
| `Lexemes.CommentAtEnd` | src/lex.c:44-49 | A comment that runs to the end of the text leaves nothing |
| `Lexemes.Skipped` | src/lex.c:60-89 | A blank, or a character that starts no token, changes neither the next token nor what is left |
| `Lexemes.BlankSkipped` | src/lex.c:60-61 | Spaces, tabs and vertical tabs are skipped and counted |
| `Lexemes.LinesCounted` | src/lex.c:40-42 | The line count grows by the newlines used up, whichever token is read |
| `Lexemes.NumberToken` | src/lex.c:95-109 | Digits read as the number they are in decimal, modulo 2^62, by place values |
| `Lexemes.LongName` | src/lex.c:111-125 | Of a longer name the first 31 characters are one symbol, and the next token starts behind them |
| `Lexemes.InitialNames` | src/lex.c:8-11 | The names of all forms and built-ins can be read |
| `Lexemes.HashAtEnd` | src/lex.c:77-79 | `#\` at the end of the text is a character of 24 set bits |
| `Lexemes.HashStays` | src/lex.c:81-84 | After a hash a character that means nothing there is lost, and the hash is read again |
| `Lexemes.ListPrinted` | src/write.c:5-26 | A list prints as its elements in order between parentheses, one space apart, with any other tail than the empty list behind a period |
| `ParseState.State.ParseExpression` | src/parse.c:202-209 | The specified expression, from the specified text |
| `ParseState.State.Fgetc` | src/lex.c:34-37 | The next byte, or the end |
| `ParseState.State.Ungetc` | src/lex.c:49 | Pushes a byte back and clears the end-of-file indicator; pushing back the end does nothing |
| `ParseState.State.ReadNumber` | src/lex.c:95-109 | The accumulating loop reads all digits in front and pushes back what follows |
| `ParseState.State.ReadSymbol` | src/lex.c:111-125 | At most 31 symbol characters; what follows is pushed back |
| `ParseState.State.ReadHash` | src/lex.c:71-84 | Booleans, characters, and a hash that is pushed back while what followed it is lost |
| `ParseState.State.ReadNextToken` | src/lex.c:30-93 | The token loop computes the specified token and leaves the specified text and positions |
| `ParseState.State.GetNextToken` | src/parse.c:20-33 | The cached token first |
| `ParseState.State.PeekNextToken` | src/parse.c:36-49 | Reading without using up |
| `ParseState.State.ParseAccept` | src/parse.c:59-68 | A token that fails the test stays for the next reader |
| `ParseState.State.ParseExpect` | src/parse.c:72-84 | A token that fails the test is lost |
| `ParseState.State.ParseToken` | src/parse.c:141-158 | The sequence of tests computes the specified expression, which `RoundTripProof.NotationReads` and `MarkReads` pin down |
| `ParseState.State.ParseListTokens` | src/parse.c:171-183 | The elements, the dotted tail, or no return |
| `ParseState.State.ParseList` | src/parse.c:185-200 | A list and its closing parenthesis |
| `Writer.Printer.WriteValue` | src/write.c:28-73 | Appends the printed form and leaves earlier output alone |
| `Writer.Printer.WriteList` | src/write.c:5-26 | The loop along the spine prints the list, dotted tail included |
| `SyntaxRulesProof.RoundTrip` | src/syntax-rules.c:144-245 | For a pattern with distinct variables that accepts an expression, expanding the pattern under the bindings rebuilds the expression if and only if its lists are proper where the pattern has lists |
| `SyntaxRulesProof.MatchesInstance` | src/syntax-rules.c:38-91 | A substitution instance of a pattern is accepted if and only if every nested list instance is non-empty |
| `SyntaxRulesProof.AcceptsInstances` | src/syntax-rules.c:38-91 | A pattern accepts exactly its instances among lists that end in the empty list: not one element more or less |
| `SyntaxRulesProof.EllipsisTakesRest` | src/syntax-rules.c:46-49 | An ellipsis accepts whatever is left, nothing included, and binds its symbol to it |
| `SyntaxRulesProof.MatchingInverts` | src/syntax-rules.c:38-194 | Matching an expanded pattern gives every variable its value back |
| `SyntaxRulesProof.BuildIsBindingsOf` | src/syntax-rules.c:144-194 | The list built is the bindings in reverse order of the pattern |
| `SyntaxRulesProof.FirstMatchWins` | src/syntax-rules.c:254-281 | The expansion is that of the first rule whose pattern accepts |
| `SyntaxRulesProof.NoMatchIffNone` | src/syntax-rules.c:283-285 | The error is reported if and only if no rule accepts |
| `MacroExpander.ExpandSyntaxRules` | src/syntax-rules.c:247-291 | The rule loop, on rules of the expected shape |
| `MacroExpander.SymbolInList` | src/syntax-rules.c:20-36 | Membership, by a loop over the list |
| `MacroExpander.MatchList` | src/syntax-rules.c:38-91 | The cursor loop decides the matching relation |
| `MacroExpander.BindingList.Build` | src/syntax-rules.c:144-194 | The loop prepends exactly the bindings of the match |
| `MacroExpander.BindingList.Find` | src/syntax-rules.c:133-142 | The newest binding of the name |
| `MacroExpander.BindingList.ExpandTemplate` | src/syntax-rules.c:196-245 | Substitution under the list's bindings |
| `EnvTree.Perform` | src/env.c:12-71 | Any run of the two operations does to the chain's maps what the model says, and every node stays the node of its key |
| `EnvStack.CapturedStaysLive` | src/vm_ops.c:174-180 | After any run a captured binding is still the one lookup finds if and only if no operation bound the symbol nearer; it then holds the last value written |
| `EnvStack.StoreFinds` | src/env.c:62-71 | The environments of the machine model are such a stack, for lookup |
| `EnvStack.StoreSets` | src/env.c:12-50 | And for both kinds of binding |
| `EnvTree.Environment.EnvFind` | src/env.c:52-60 | The node of the key if the frame binds it, null otherwise |
| `EnvTree.Environment.Walk` | src/env.c:18-24 | The walk ends at the key's node, or at the last node on the way to its place, which has null there |
| `EnvTree.Environment.EnvSet` | src/env.c:12-38 | Exactly one binding is added or overwritten, order is kept, and every node stays the node of its key |
| `EnvTree.SearchFinds` | src/env.c:52-60 | In an ordered tree a search succeeds if and only if the key is there |
| `EnvTree.WayEnds` | src/env.c:26-33 | Where the walk ends no child is overwritten |
| `EnvTree.InsertFields` | src/env.c:26-33 | Inserting changes one link of one node |
| `EnvTree.EnvFindRecurse` | src/env.c:62-71 | The node of the innermost binding along the chain |
| `EnvTree.EnvSetRecurse` | src/env.c:40-50 | The innermost binding is overwritten, or one is added to the first frame |
| `EnvStore.FlattenIsFind` | src/env.c:62-71 | Searching frame by frame and looking in the chain flattened to one map find the same node and value |
| `EnvStore.FlattenExtends` | src/env.c:4-10 | Frames created later change no binding of an earlier environment |
| `Symbols.SymbolTable.Intern` | src/symbols.c:60-94 | However many symbols are read, two are the same pointer if and only if they are spelled alike |
| `Symbols.SymbolTable.TryStoreSymbol` | src/symbols.c:80-94 | The stored address of the spelling, or that of a new copy; no other address changes |
| `Symbols.SymbolTable.TreeInsert` | src/symbols.c:35-55 | The recursive rewriting of links inserts one node and keeps the tree |
| `Symbols.CompareIsEquality` | src/symbols.c:19-21 | The comparison is zero if and only if the strings are equal |
| `Symbols.FindsTheOne` | src/symbols.c:15-33 | A lookup finds the stored string with that spelling, if there is one |
| `Symbols.InsertFind` | src/symbols.c:35-55 | An insertion adds its spelling and disturbs no other |
| `CompilerState.CompileClosure` | src/compiler.c:375-418 | The imperative compiler computes the specified code, failures included, and the `stack_ptr` it carries at each instruction is the specified static depth |
| `CompilerState.CompState.AddClosureNode` | src/compiler.c:41-75 | A symbol that has a closure slot keeps it; a new one gets the next slot, and no other slot changes |
| `CompilerState.CompState.ScopeHandleSymbol` | src/scope.c:55-87 | The scope and the captured nodes become what scope analysis of one symbol says, and an unbound symbol is refused |
| `CompilerState.CompState.GenSubScope` | src/scope.c:95-126 | The in-place walk over a tree analyses every symbol in order and refuses an inner `define` |
| `CompilerState.CompState.AddParamNodes` | src/scope.c:140-144 | Parameters get the slots from 1 on, in order |
| `CompilerState.CompState.AddDefineNodes` | src/scope.c:150-158 | Leading defines get the slots behind the parameters, in order |
| `CompilerState.CompState.GenTopScope` | src/scope.c:128-177 | The whole analysis, in two passes over the leading defines, computes the specified scope |
| `CompilerState.CompState.AddInstr` | src/compiler.c:77-99 | One instruction is appended and its index returned; `stack_ptr` at that moment is recorded |
| `CompilerState.CompState.CompileValue` | src/compiler.c:101-139 | One push, of the kind the scope says, and the static depth grows by one |
| `CompilerState.CompState.CompileIf` | src/compiler.c:149-192 | Appending both arms with placeholder jumps and patching them afterwards gives the code whose jumps were known in advance |
| `CompilerState.CompState.PatchIf` | src/compiler.c:186-189 | The two patches change the two jumps and nothing else |
| `CompilerState.CompState.CompileExpressionList` | src/compiler.c:194-260 | The loop appends the specified code, with each element compiled at the depth the state carries |
| `CompilerState.CompState.StoreClosedVars` | src/compiler.c:262-284 | Filling the array backwards from the prepended list puts node k at index k |
| `CompilerState.CompState.StoreInstructions` | src/compiler.c:286-332 | The final array holds the instruction list in order |
| `VmState.Vm.RunFor` | src/vm.c:278-293 | Any number of turns is that many steps |
| `VmState.Vm.Step` | src/vm.c:278-293 | One turn of the loop is one step of the step function |
| `VmState.ProductGrows` | src/vm_ops.c:268-279 | One turn of the product loop on untagged words |
| `VmState.Vm.StackPush` | include/nscheme/vm_ops.h:8-11 | One slot more, in place |
| `VmState.Vm.StackPop` | include/nscheme/vm_ops.h:13-16 | The last slot is returned and gone |
| `VmState.Vm.CallEval` | include/nscheme/vm_ops.h:26-38 | The frame array gains exactly the frame the step function says |
| `VmState.Vm.CallReturn` | include/nscheme/vm_ops.h:40-61 | A return restores the top frame, in either mode, or ends the run |
| `VmState.Vm.LoadLambdaArgs` | src/vm_ops.c:68-85 | The loop binds parameter i to the i-th stacked argument |
| `VmState.Vm.CountAndCompile` | src/vm_ops.c:112-118 | Counts and compiles as the function does that `Counting.CallCounts` is about |
| `VmState.Vm.CallApply` | src/vm_ops.c:87-142 | Agrees with the step function on every callee |
| `VmState.Vm.HandleDefine` | src/vm.c:56-86 | Agrees with the step function, for `define`, `set!` and `define-syntax`; `Forms` says what that comes to |
| `VmState.Vm.HandleIf` | src/vm.c:88-125 | Agrees with the step function |
| `VmState.Vm.HandleSpecialForm` | src/vm.c:162-196 | Agrees with the step function on every special form; `Forms` and `Lexical` say what that comes to |
| `VmState.Vm.HandleMacro` | src/vm.c:218-230 | Agrees with the step function, the expansion done by the imperative expander; `Macros.MacroUse` says what that comes to |
| `VmState.Vm.StepInterpreter` | src/vm.c:198-276 | One step of the tree walker |
| `VmState.Vm.OpReturnLast` | src/vm_ops.c:150-155 | The top value becomes the result |
| `VmState.Vm.OpJumpIfFalse` | src/vm_ops.c:163-172 | Only `#f` jumps |
| `VmState.Vm.OpClosureRef` | src/vm_ops.c:174-180 | Pushes the value the captured node holds now |
| `VmState.Vm.OpStackRef` | src/vm_ops.c:182-192 | Pushes the slot counted from the base |
| `VmState.Vm.OpDoCall` | src/vm_ops.c:199-216 | The frame starts at the callee's slot |
| `VmState.Vm.MoveOperands` | src/vm_ops.c:218-225 | The upward loop over overlapping ranges moves every operand unchanged |
| `VmState.Vm.OpDoTailCall` | src/vm_ops.c:218-234 | Agrees with the step function |
| `VmState.Vm.AddWords` | src/vm_ops.c:236-243 | Popping and adding tagged words from the top yields the tagged sum modulo 2^62 |
| `VmState.Vm.OpAdd` | src/vm_ops.c:236-252 | The call's slots become one slot holding the sum modulo 2^62 |
| `VmState.Vm.SubtractWords` | src/vm_ops.c:254-259 | Popping from the top subtracts every later argument from the first |
| `VmState.Vm.OpSub` | src/vm_ops.c:254-266 | The call's slots become the left-to-right difference modulo 2^62 |
| `VmState.Vm.MultiplyWords` | src/vm_ops.c:268-273 | Multiplying untagged words modulo 2^64 |
| `VmState.Vm.OpMul` | src/vm_ops.c:268-279 | The call's slots become the product modulo 2^62 |
| `VmState.Vm.DivideWords` | src/vm_ops.c:281-297 | Popping from the top, each later argument's word divides the first one's; a zero is reported |
| `VmState.Vm.OpDiv` | src/vm_ops.c:281-302 | The call's slots become the quotient of words, tagged again, or the run is an error |
| `VmState.WordsOrder` | src/vm_ops.c:364-410 | Comparing tagged words compares the fixnums |
| `VmState.Vm.OpInternSet` | src/vm_ops.c:442-482 | `define` binds in the current frame, `set!` overwrites the innermost binding |
| `VmState.Vm.OpInternIf` | src/vm_ops.c:484-504 | Leaves the chosen branch |
| `Tagged.TagIsPayload` | include/nscheme/values.h:101-103 | A tagged integer keeps its value modulo 2^62, and untagging returns it |
| `Tagged.AddTagged` | src/vm_ops.c:236-266 | Adding and subtracting tagged words adds and subtracts the integers |
| `Tagged.MulWord` | src/vm_ops.c:268-279 | Multiplying may reduce modulo 2^64 at every step |

## Worth knowing about the code

- `src/parse.c:9-16` lists vectors among the tokens; the code reads none.
- `src/lex.c:82` pushes back the hash, not the character after it: that character is lost and the hash is read
  again. The model does the same.
- `src/vm.c:11` adds an instruction's result to `vm->ip` while the instruction itself may set `vm->ip`; C leaves open
  which value is added to. The model adds to the new one, as returns and calls need.
- `src/vm_ops.c:281-302` divides tagged words and does not tag the quotient before it divides again, so `(/ 100 5 2)`
  is 2, where `(/ 100 5)` is 20; `Builtins.Divide` has the rule.
- `src/gc.c:79-81` means to keep immediates out, but no immediate has the low byte 0xff it tests for
  (`Gc.ImmediateIsRef`); only the heap's address does.
- `src/gc.c:55` takes the heap from `malloc`, so its words, link words included, are not known to be zero.
- `src/vm_ops.c:114-121` compiles on the third call but still runs that call in the tree walker.

## Left out

- Printing of traces and errors, files, the command line, `display`, `newline`, `read`: a run ends in an error state, input is a sequence of bytes, output a sequence of characters.
- The handle table, which is unfinished.
- `mark_environment`, `mark_env_node` and `mark_closure`: they read block headers in front of objects that have none. The model marks from the value stack.
- GcState.Collector.VmAlloc: the collection marks from the value stack only, which stands for the whole of `mark_vm`; on a full heap the roots' link words must be harmless, as for `MarkStack`.
- GcState.Collector.ConstructPair: on a full heap the roots' link words must be harmless, as for `MarkStack`.
- `cons` in the machine model never runs out of heap, where `vm_alloc` panics.
- GcState.Collector.MarkStack: needs each root's link word harmless when its turn comes; `GcTraversal.TraversalExactIff` shows that an exact traversal needs it, and `GcState.Collector.MarkBlankStack` derives it on zeroed memory.
- Transparency.BuiltinApply: says nothing of operands a built-in does not define (below).
- Writer.Printer.WriteValue: how a closure prints depends on its address; the printer takes that text as a parameter.
- Restrictions.HiddenForms: compares two lookups only; `Restrictions.HiddenFormIsApplied` says what the tree walker then does and `Disagreements.HiddenFormDisagrees` is a run.
- Pairs in the machine model are trees: no operation there changes a pair, so sharing cannot be seen except by `eq?` on two pairs, which is left undefined.
- Closures and environments of the machine model are numbered tables; environment trees, their nodes and the interned symbols are linked objects in `EnvTree` and `Symbols`, connected to the tables by `EnvStack`.
- Outside the simulated fragment, though part of the machine model: `quote`, `lambda`, `set!`, `define` of a function and macro uses inside compiled closures, which the compiler does not handle; and global bindings changed during a run.
- Excluded from the fragment with no run shown on which the engines differ: a `begin` without expressions, leading defines that repeat a name, initialisers that mention a later local, the value a `define` itself has, and bare `()` as a part of an `if` (`Restrictions.EmptyListIsNoConstant` has the walker's side).
- Calls with the wrong number of arguments, and built-ins on operands they do not define, are not compared by `Transparency`; `Restrictions.OnlyInterpretedCallsCount` and `Disagreements.ArityDisagrees` show what happens to the former.
- Arithmetic, `<` and `>` on words that are not fixnums, and `-` and `/` without operands: they work on whatever words, or slots, they find.
- Stack and frame capacity: preconditions of the methods, unbounded sequences in the step function. The counters `num_calls`, `linenum` and `charpos` do not wrap around.
- Annotations on the compiler's copy of the tree are modelled by looking the symbol up in the scope table, which gives the same node because a scope is never left during analysis.
- Overflow of `long` in `read_number`, which C leaves undefined, is modelled as wrapping around.
- `malloc`, `calloc` and `free` of compiler temporaries, bindings and strings.
