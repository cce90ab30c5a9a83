# escope in Dafny

A model of escope, the ECMAScript scope analyser. It reads an abstract syntax
tree, builds the tree of lexical scopes, and links every identifier occurrence
(a Reference) to the Variable it binds to. References that cannot be resolved
pass `through` their scopes. They are tainted when a `with` statement or a direct
`eval` is involved. The model covers three parts:

- The scope engine of `lib/scope.js`:
  - the Scope constructor, including the directive-prologue strictness rule of
    ECMAScript 2015 section 10.2.1 ("Strict Mode Code");
  - define, referencing, and the close/resolve algorithm in its static,
    `with`, dynamic and global regimes;
  - eval and `this` detection, and the materialisation queries.
- The per-node rules of `lib/referencer.js`:
  - the destructuring-pattern walk;
  - the Importer;
  - every Referencer handler that defines, references, nests or closes scopes.
- The earlier single-file engine `escope.js`:
  - the explicit-stack `traverse` walker;
  - the older Scope and its `analyze` enter/leave rules;
  - the ScopeManager lookups `__get`, `acquire` and `release`.

## How it is modelled

- Scopes, Variables and References live in arenas. These are sequences in a
  value `State`, and they point at each other by index. `upper` is an
  `Option<ScopeId>`.
- An invariant `Valid` keeps every index in range and every table consistent.
  The classes `Manager.ScopeManager` and `Visitor.Referencer` hold that state
  and update it in place. Each state-changing method ensures that its new
  `Snap()` equals a pure specification function of the old one. The lemmas
  are proved about those functions.
- AST nodes form one datatype, `Ast.Node`, and every node carries a unique
  `nid`. A record refers to a node by a `Handle`, which holds the `nid` and,
  for an Identifier, its name. Node identity (`scope.block === node`) is
  therefore `nid` equality.
- A thrown error, a failed `assert`, or a TypeError on a null current scope is
  a `Failure` of a `Result`, and it propagates. Preconditions rule out only
  states no call site produces. For example, `Scopes.Referencing` requires an
  open scope, where `__referencing` on a closed scope is a TypeError; every
  caller passes the current scope, which is open.
- `Map` becomes a Dafny `map`. A `taints` map, whose values are always `true`,
  becomes a `set`.
- The legacy `traverse` is the method `Traversal.Traverse`. It runs over an
  explicit worklist and leave list, and it is proved equal to the recursive
  walk `Traversal.WalkNode`. The enter and leave callbacks of `analyze` are
  pure functions on a legacy `State`.
- Quirks of the source are kept as written:
  - `UpdateExpression` tests `isPattern` on the update node itself
    (lib/referencer.js:416). So `x++` yields a plain READ reference.
  - `CatchClause` records `node.param`, not the visited pattern, in its
    Definition (lib/referencer.js:388).
  - The handler for labelled statements is keyed `LabelledStatement`, so a
    `LabeledStatement` falls back to the generic visit.
  - A function-expression name scope gets the type 'function'.

Definitions, Variables and References are records built from their
constructor calls: Reference at lib/scope.js:427, with READ=1, WRITE=2, RW=3;
Definition at lib/referencer.js:116-123; Variable at escope.js:251-258, plus
`defs`. The ScopeManager of the `lib` version appears only through its call
sites. Its options (`__isES6`, `__isOptimistic`, `__ignoreEval`) are fields of
`Scopes.Options`, and `__nestScope` is `Manager.ScopeManager.NestScope`.

## Model

| member | source | states |
|---|---|---|
| Scopes.DefineGeneric | lib/scope.js:373-389 | the Variable bound to the name (or a new one, added to the table and the scope's list) gains the definition and the node; the arena invariant is kept and no other scope changes |
| Scopes.AddToVariable | lib/scope.js:376-388 | the merge case: the existing Variable alone gains the definition and the identifier |
| Scopes.AddVariable | lib/scope.js:376-381 | the fresh-name case: a new Variable owned by the scope is appended to the variables, bound in the table and pushed on the list; other scopes unchanged |
| Scopes.DefineArguments | lib/scope.js:391-399 | `arguments` becomes bound in `set`, without definition or identifier, and `taints` gains exactly `arguments` |
| Scopes.DefineImplicit | lib/scope.js:401-410 | an Identifier is bound in the global scope's `implicit` table; a missing or non-Identifier node changes nothing |
| Scopes.Define | lib/scope.js:412-421 | an Identifier is bound in `set` (merging with an existing binding, with the definition); a missing or non-Identifier node changes nothing |
| Scopes.Taint | lib/scope.js:354-357 | the scope's `taints` gains the name and nothing else changes |
| Scopes.NewReference | lib/scope.js:427 | a new Reference is unresolved and untainted, READ unless a mode is given, and keeps `writeExpr`/`partial` only for a writing mode |
| Scopes.Referencing | lib/scope.js:423-431 | an Identifier gets exactly one new Reference from the scope, appended to `references` and to `__left`; any other node changes nothing |
| Closing.StaticStep | lib/scope.js:291-295 | one iteration of the static loop keeps every scope's fixed fields |
| Closing.CloseStatic | lib/scope.js:289-296 | the static loop over the pending references keeps every scope's fixed fields |
| Closing.CloseStaticValid | lib/scope.js:289-296 | the static loop keeps the arena invariant and only grows the records |
| Closing.UnresolvedMembers | lib/scope.js:293-294 | a reference is delegated exactly when its name is not in `set` |
| Closing.CloseStaticThrough | lib/scope.js:289-371 | the unresolvable references, and only those, are appended to `through`, in order |
| Closing.CloseStaticLeft | lib/scope.js:366-369 | the same references, in the same order, are appended to the upper scope's `__left` |
| Closing.StaticStepDelegates | lib/scope.js:293-294 | one step delegates the reference exactly when it is not resolvable |
| Closing.CloseStaticResolves | lib/scope.js:349-364 | the references whose name is in `set`, and only those, resolve to the Variable bound to that name; nothing else about any reference changes |
| Closing.StaticStepResolves | lib/scope.js:349-364 | one step resolves the reference to its Variable when it can and changes no other reference |
| Closing.ResolvedTo | lib/scope.js:349-364 | the references the static close resolves to one Variable, in order, stay inside the arena |
| Closing.StaticStepVariable | lib/scope.js:352-361 | one step changes only the target Variable of a resolvable reference |
| Closing.CloseStaticVariable | lib/scope.js:352-361 | each Variable records, in order, the references resolved to it; `stack` survives only if all come from the same variable scope; it turns tainted if one of them is |
| Closing.StaticStepScopes | lib/scope.js:356-371 | one step taints a name only for a resolvable tainted reference and touches only the scope and its upper scope |
| Closing.CloseStaticTaints | lib/scope.js:356-359 | `taints` gains exactly the names of the Variables that tainted references resolve to |
| Closing.CloseStaticOthers | lib/scope.js:289-296 | no scope other than the closing scope and its upper scope changes |
| Closing.WithStep | lib/scope.js:300-304 | one iteration of the `with` loop keeps every scope's fixed fields |
| Closing.CloseWith | lib/scope.js:299-304 | the `with` loop keeps every scope's fixed fields |
| Closing.CloseWithValid | lib/scope.js:299-304 | the `with` loop keeps the arena invariant |
| Closing.WithStepThrough | lib/scope.js:302-303 | one step appends the reference to `through` and to the upper `__left` |
| Closing.CloseWithThrough | lib/scope.js:299-304 | every pending reference is delegated, in order, even one whose name is bound here |
| Closing.WithStepTaints | lib/scope.js:302 | one step taints the reference and changes no other reference and no Variable |
| Closing.CloseWithTaints | lib/scope.js:299-304 | a `with` close resolves nothing, leaves the Variables alone and taints exactly the pending references |
| Closing.PushThrough | lib/scope.js:311 | one `through.push` keeps every scope's fixed fields |
| Closing.ThroughChain | lib/scope.js:309-313 | the reference is pushed onto `through` of the scope and of every scope above it |
| Closing.CloseDynamic | lib/scope.js:305-314 | the dynamic loop keeps every scope's fixed fields |
| Closing.CloseDynamicValid | lib/scope.js:305-314 | the dynamic loop keeps the arena invariant |
| Closing.ThroughChainAdds | lib/scope.js:309-313 | exactly the scopes on the chain gain the reference in `through` |
| Closing.CloseDynamicThrough | lib/scope.js:305-314 | a dynamic non-`with` close resolves nothing and appends the pending references, in order, to `through` of every scope up the chain |
| Closing.DefineImplicits | lib/scope.js:327-338 | the implicit globals are defined in order and the invariant is kept |
| Closing.DefineImplicitStep | lib/scope.js:328 | one `__defineImplicit` touches only the implicit table, which gains the pattern's name |
| Closing.DefineImplicitsFrame | lib/scope.js:327-338 | implicit globals go only into `implicit`; `set`, `variables` and the other scopes stay |
| Closing.DefineImplicitsNames | lib/scope.js:327-338 | the implicit table gains exactly the names the patterns bind |
| Closing.ImplicitTargetsMembers | lib/scope.js:318-324 | an entry is collected exactly when a pending reference carries it and its name is not in `set` |
| Closing.Regime | lib/scope.js:289-315 | the loop the scope's regime selects keeps every scope's fixed fields |
| Closing.RegimeValid | lib/scope.js:289-315 | every regime keeps the arena invariant |
| Closing.CloseValid | lib/scope.js:285-347 | `__close` leaves the scope closed, makes its upper scope current and keeps the invariant |
| Closing.DefineImplicitUse | lib/scope.js:328 | defining an implicit global keeps the references, `stack` and taint of every existing Variable |
| Closing.CloseAfterRegime | lib/scope.js:317-346 | after the loop, `__close` changes no reference, no `through` and no other scope |
| Closing.GlobalCloseFrame | lib/scope.js:317-341 | the global phase changes no reference, no `through` or `taints` and no other scope |
| Closing.Pending | lib/scope.js:290 | the pending list is the current scope's `__left` and lies inside the arena |
| Closing.CloseStaticEffect | lib/scope.js:289-296 | each pending reference is either resolved to the local Variable or passed to `through` and to the upper `__left`, never both, in order |
| Closing.CloseStaticVariables | lib/scope.js:349-364 | the Variables record their references in order, `stack` and taint follow them, `taints` gains exactly their names |
| Closing.CloseWithEffect | lib/scope.js:299-304 | a `with` close taints and delegates every pending reference and resolves none |
| Closing.WithTaintsKept | lib/scope.js:299-304 | the `with` loop leaves `taints` alone |
| Closing.CloseDynamicEffect | lib/scope.js:305-314 | any other dynamic close resolves and taints nothing and pushes every pending reference through the whole chain |
| Closing.CloseGlobalEffect | lib/scope.js:317-341 | the global close defines, into `implicit` only, the pending references with implicit-global information whose name is not in `set`, and sets `implicit.left` |
| Closing.RegimeImplicit | lib/scope.js:289-315 | the resolution loops leave `variables` and the implicit table alone |
| Closing.CloseStaticShape | lib/scope.js:289-296 | the static loop changes only `through` and `taints` of the closing scope |
| Closing.CloseWithShape | lib/scope.js:299-304 | the `with` loop changes only `through` of the closing scope |
| Nesting.IdHandle | lib/scope.js:224-232 | the name scope's handle is an Identifier exactly when the block's `id` is one, with that name |
| Nesting.OpeningOf | lib/scope.js:222-241 | the Opening carries the constructor's `type`, the block, the name-scope flag exactly for the name kind and the `arguments` binding exactly for non-arrow function scopes |
| Nesting.ValidCurrent | lib/scope.js:249 | the current scope of a valid state exists and is still open |
| Nesting.AttachValid | lib/scope.js:249-269 | attaching a scope below the current one keeps the arena invariant |
| Nesting.AttachOpen | lib/scope.js:249-268 | the attached scope is open and so is every scope on its chain |
| Nesting.AttachGrows | lib/scope.js:249-282 | attaching only lets the analysis grow |
| Nesting.Open | lib/scope.js:249-269 | the new scope's strictness is decided with the current scope as `upper`; opening succeeds exactly when that rule does and attaches the fresh scope |
| Nesting.DefineTables | lib/scope.js:224-232 | defining a name in the new scope touches only that scope's tables |
| Nesting.ArgumentsTables | lib/scope.js:236-238 | defining `arguments` touches only the new scope's tables |
| Nesting.Populate | lib/scope.js:224-238 | the new scope's names gain exactly what the opening binds (the function's name, or `arguments`) and its taints exactly `arguments` for a function scope |
| Nesting.PopulatedAs | lib/scope.js:132-270 | a fresh scope, attached and populated, is built as the constructor says |
| Nesting.AttachAt | lib/scope.js:249-268 | the new scope goes last in `scopes`, below the current scope, which gains it as its last child |
| Nesting.Nest | lib/scope.js:132-270 | one scope opens exactly when the strictness rule succeeds, keeping the invariant |
| Nesting.NestShape | lib/scope.js:249-268 | the scope opened is built for the opening, below the current scope, and becomes current |
| Nesting.Construct | lib/scope.js:132-270 | the constructor keeps the invariant and only lets the analysis grow |
| Nesting.VariableScope | lib/scope.js:203-204 | a scope that owns variables is its own variable scope; any other takes the current scope's |
| Nesting.Named | lib/scope.js:239-241 | a name scope, then the function's scope inside it, keeping the invariant |
| Nesting.NestScope | lib/scope.js:132-270 | `new Scope` preceded by the name scope of a named FunctionExpression keeps the invariant |
| Nesting.NestCount | lib/scope.js:249-282 | `Nest` adds exactly one scope and makes it current |
| Nesting.ConstructCases | lib/scope.js:132-270 | once the variable scope is found, the constructor is `Nest`, or `Named` for a named function |
| Nesting.NamedSteps | lib/scope.js:239-241 | the name scope opens; then the function's scope opens inside it |
| Nesting.ConstructOpens | lib/scope.js:249-268 | the last scope opened is current, built for the opening, below the name scope or the old current scope, and strict exactly when its upper scope is strict or its own rule says so |
| Nesting.NamedOpens | lib/scope.js:239-249 | after `Named`, the function's scope sits below the name scope |
| Nesting.LastScope | lib/scope.js:255 | the scope `Nest` opened is strict exactly when its upper scope is, or its own rule says so |
| Nesting.ConstructNameScope | lib/scope.js:224-241 | the name scope comes first, below the old current scope, strict by the same rule, with the function's scope as its only child |
| Nesting.NameScopeKept | lib/scope.js:261-263 | the name scope survives the next scope unchanged but for its child |
| Nesting.ConstructParent | lib/scope.js:261-263 | no old scope changes but the current one, which gains the first new scope as its last child |
| Nesting.ConstructNoCurrent | lib/scope.js:203-204 | a scope that does not own variables, opened with no current scope, fails |
| Nesting.ConstructErrors | lib/scope.js:255 | any other failure is the strictness rule's |
| Nesting.ConstructSucceeds | lib/scope.js:132-270 | the constructor succeeds when the variable scope exists and the strictness rule succeeds for each scope it opens |
| Nesting.NestSucceeds | lib/scope.js:255 | `Nest` fails only by the strictness rule |
| Nesting.ConstructThenClose | lib/scope.js:345-346 | closing the scope the constructor made current makes the previous current scope current again |
| Nesting.CloseRestores | lib/scope.js:346 | closing the current scope makes its upper scope current |
| Nesting.CloseTwice | lib/scope.js:346 | two closes make the upper scope's upper current |
| Nesting.ConstructNamedThenClose | lib/scope.js:239-249 | with a name scope, the first close makes the name scope current and the second the scope that was current before |
| Nesting.NamedLinks | lib/scope.js:239-249 | the function's scope's upper is the name scope, whose upper is the old current scope |
| Strictness.Prologue | lib/scope.js:75-104 | the prologue is a prefix of directives that stops at the first non-directive |
| Strictness.PrologueStrictAt | lib/scope.js:75-104 | the prologue rule is strict exactly when some statement declares `use strict` and every statement before it is a directive |
| Strictness.IsStrictScope | lib/scope.js:42-108 | the scanning method returns the strictness rule: strict upper, arrow, method, class or module are strict; block and switch are not; otherwise the prologue decides |
| Strictness.SearchBody | lib/scope.js:62-107 | after the unconditional cases, the body's prologue decides |
| Strictness.SearchDirective | lib/scope.js:67-73 | the list searched is `body.body` of a function or `block.body` of a program |
| Strictness.ScanPrologue | lib/scope.js:75-105 | the two scan loops compute the prologue rule, for DirectiveStatements and for string Literal statements |
| Strictness.FoundInPrologue | lib/scope.js:75-105 | a `use strict` directive preceded only by directives makes the scope strict |
| Strictness.NotInPrologue | lib/scope.js:75-105 | a list that starts with a non-directive is not strict |
| Strictness.StrictRuleFailure | lib/scope.js:67-73 | the rule fails only on a malformed block: a function without a body, or a body or program that is not a statement list; this includes a 'global' scope on a block that is not a Program, where the source scans `block.body` and answers false when that is not a list |
| Queries.FlagsValid | lib/scope.js:433-445 | raising flags keeps the invariant and only lets the analysis grow |
| Queries.MarkDynamic | lib/scope.js:436-440 | the loop changes nothing but flags |
| Queries.FlagsAncestors | lib/scope.js:436-440 | raising flags keeps the chain above every scope |
| Queries.MarkDynamicEffect | lib/scope.js:436-440 | exactly the scopes on the chain from the scope to the root become dynamic |
| Queries.DetectEval | lib/scope.js:433-441 | `__detectEval` keeps the invariant |
| Queries.DetectEvalEffect | lib/scope.js:433-441 | the scope calls eval directly, no scope on its chain is static and every other scope is as it was |
| Queries.DetectThis | lib/scope.js:443-445 | `thisFound` is set on that scope alone |
| Queries.ArgumentsMaterialized | lib/scope.js:474-499 | true outside static function scopes; otherwise a missing `arguments` variable fails the assertion, and the answer is whether it is tainted or referenced |
| Queries.EvalMaterializes | lib/scope.js:433-510 | after `__detectEval`, every scope on the chain reports `arguments` and `this` as materialised |
| Queries.ArrowOpening | lib/scope.js:235-238 | an arrow function's scope has type 'function' but no `arguments` binding and no name scope |
| Queries.OpenedWithoutArguments | lib/scope.js:474-499 | a static function scope opened without the `arguments` binding and not as a name scope (an arrow function's, by Queries.ArrowOpening) makes `isArgumentsMaterialized` fail, where the intended query answers false |
| Queries.NoArgumentsScope | lib/scope.js:494-497 | a static function scope with no names fails the assertion |
| Queries.ArgumentsMaterializedIntended | lib/scope.js:474-499 | wherever the source answers, the same answer; where its assertion fails, true exactly on a name scope, so false on an arrow function's scope; it never fails |
| Queries.NameScopeWithoutArguments | lib/scope.js:474-499 | the name scope of a named function expression not itself called `arguments` is a static scope of type 'function' without `arguments`, so `isArgumentsMaterialized` fails on it, where the intended query answers true |
| Queries.ThisMaterializedAfterDetect | lib/scope.js:443-510 | after `__detectThis` the scope reports `this` as materialised |
| Queries.UsedNameGrows | lib/scope.js:512-522 | a name once used in a scope stays used as the analysis grows |
| Queries.DefinedIsUsed | lib/scope.js:512-515 | a name defined in a scope is used there |
| Queries.FirstRefUnique | lib/scope.js:453-465 | the reference `resolve` finds is unique |
| Queries.ResolveCheck | lib/scope.js:455-456 | `resolve` fails on an open scope or a non-Identifier, and only then |
| Manager.ScopeManager.constructor | lib/scope.js:110-121 | a new manager holds no scopes, variables or references and no current scope, with the given options |
| Manager.ScopeManager.ResolveRef | lib/scope.js:349-364 | the object afterwards is the resolve step of the value model |
| Manager.ScopeManager.DelegateRef | lib/scope.js:366-371 | the object afterwards is the delegate step: the upper `__left` and `through` gain the reference |
| Manager.ScopeManager.CloseStaticLoop | lib/scope.js:289-296 | the loop leaves the state of the static close over the pending references |
| Manager.ScopeManager.CloseWithLoop | lib/scope.js:299-304 | the loop leaves the state of the `with` close |
| Manager.ScopeManager.ThroughLoop | lib/scope.js:309-313 | the `do … while` loop pushes the reference onto `through` of every scope up the chain |
| Manager.ScopeManager.CloseDynamicLoop | lib/scope.js:305-314 | the loop leaves the state of the dynamic close |
| Manager.ScopeManager.ImplicitCandidates | lib/scope.js:318-324 | the first loop of the global phase returns exactly the implicit-global candidates, in order |
| Manager.ScopeManager.DefineImplicitLoop | lib/scope.js:327-338 | the second loop defines each candidate in `implicit` |
| Manager.ScopeManager.GlobalPhase | lib/scope.js:317-341 | the global phase leaves the state of the global close |
| Manager.ScopeManager.RegimeLoop | lib/scope.js:289-315 | the loop the regime selects leaves the state of that regime |
| Manager.ScopeManager.Close | lib/scope.js:285-347 | `__close` leaves the state of the value model's close; the invariant holds and the upper scope is current |
| Manager.ScopeManager.NestScope | lib/scope.js:132-270 | the new scope (after the name scope of a named function expression) is registered and current, exactly as the constructor's value model says; a failure stops the analysis |
| Manager.ScopeManager.Define | lib/scope.js:412-421 | the object afterwards is `__define` of the value model |
| Manager.ScopeManager.Referencing | lib/scope.js:423-431 | the object afterwards is `__referencing` of the value model |
| Manager.ScopeManager.DetectEval | lib/scope.js:433-441 | the loop up the chain leaves the state of `__detectEval` |
| Manager.ScopeManager.DetectThis | lib/scope.js:443-445 | the object afterwards is `__detectThis` of the value model |
| Manager.ScopeManager.IsUsedName | lib/scope.js:512-522 | the linear search answers whether the name is in `set` or named by a reference in `through` |
| Manager.ScopeManager.Resolve | lib/scope.js:453-465 | after the two assertions, the position of the first reference whose identifier is the node, or null when there is none |
| Bindings.DefineStep | lib/referencer.js:384-393 | defining on a scope keeps the invariant; a null scope is the TypeError |
| Bindings.WriteStep | lib/referencer.js:360-368 | writing from the current scope keeps the invariant; a null current scope is the TypeError |
| Bindings.DeclareStep | lib/referencer.js:339-353 | the declaring callback defines on the target scope, then writes when there is an initialiser |
| Bindings.DefineAll | lib/referencer.js:217-229 | defining every target keeps the invariant |
| Bindings.WriteAll | lib/referencer.js:360-368 | writing every target keeps the invariant |
| Bindings.DeclareAll | lib/referencer.js:339-353 | declaring every target keeps the invariant |
| Bindings.DefineHasDef | lib/scope.js:412-421 | one `__define` of an Identifier leaves the definition on the name's Variable |
| Bindings.DefineNames | lib/scope.js:412-421 | one `__define` adds the name to the scope's table and changes no other scope |
| Bindings.DefineAllLast | lib/referencer.js:217-229 | the last step of a defining fold |
| Bindings.DefineAllNext | lib/referencer.js:217-229 | step `i` of a defining loop |
| Bindings.DefineAllFails | lib/referencer.js:217-229 | defining fails exactly when there is something to define and no scope |
| Bindings.DefineAllDefines | lib/referencer.js:217-229 | every Identifier target is bound in the scope to a Variable holding its definition |
| Bindings.DefineAllTables | lib/referencer.js:217-229 | the scope gains exactly the targets' names and no other scope changes |
| Bindings.WriteStepEffect | lib/referencer.js:360-368 | one write gives an Identifier exactly one new WRITE reference from the current scope |
| Bindings.WriteAllLast | lib/referencer.js:360-368 | the last step of a writing fold |
| Bindings.WriteAllNext | lib/referencer.js:360-368 | step `i` of a writing loop |
| Bindings.WriteAllFails | lib/referencer.js:360-368 | writing fails exactly when there is something to write and no current scope |
| Bindings.WriteAllWrites | lib/referencer.js:360-368 | each Identifier target gets a write from the current scope, `partial` when nested, with implicit-global information outside strict mode |
| Bindings.WriteAllOnly | lib/referencer.js:360-368 | writing adds no reference but those writes and keeps the existing ones |
| Bindings.DeclareAllLast | lib/referencer.js:339-353 | the last step of a declaring fold |
| Bindings.DeclareAllNext | lib/referencer.js:339-353 | step `i` of a declaring loop |
| Bindings.DeclareWithoutInit | lib/referencer.js:351 | without an initialiser, declaring is defining |
| Bindings.DeclareAllFails | lib/referencer.js:339-353 | declaring fails exactly when there is something to declare and no target scope or, with an initialiser, no current scope |
| Bindings.DeclareStepEffect | lib/referencer.js:340-352 | one declaring step with an initialiser defines, then writes the Identifier once |
| Bindings.DeclareAllDefines | lib/referencer.js:339-353 | every Identifier target is bound in the target scope with its definition |
| Bindings.DeclareAllWrites | lib/referencer.js:351-353 | with an initialiser, every Identifier target is written from the current scope, `partial` when nested |
| Bindings.DeclareAllOnly | lib/referencer.js:351-353 | with an initialiser, declaring adds no reference but those writes |
| Steps.ReadStep | lib/referencer.js:411-413 | a read from the current scope keeps the invariant |
| Steps.ReadStepReads | lib/referencer.js:411-413 | an Identifier read adds exactly one reference at the end of the arena: a READ from the current scope, unresolved, untainted, listed in `references` and `__left`; a null current scope is the TypeError |
| Steps.CurrentVariableScope | lib/scope.js:203-204 | the variable scope of the current scope exists and owns variables |
| Steps.ThisStep | lib/referencer.js:486-488 | reporting `this` keeps the invariant |
| Steps.ThisStepMarks | lib/referencer.js:486-488 | after `this`, the current variable scope has seen `this` and nothing else changed; a null current scope is the TypeError |
| Steps.EvalStep | lib/referencer.js:466-474 | reporting a direct eval keeps the invariant |
| Steps.EvalStepMarks | lib/referencer.js:466-474 | after `eval(...)`, the current variable scope is marked as calling eval and every scope up its chain is dynamic; a block scope inside it is left alone |
| Steps.Declarator | lib/referencer.js:332-337 | a success names a declarator that exists at `index` and gives the Definition template of lib/referencer.js:339-346 for it |
| Steps.DeclaratorIdentifier | lib/referencer.js:332-354 | `var x = e` binds exactly `x`, top-level, with initialiser `e` |
| Steps.DeclaratorMissing | lib/referencer.js:335-336 | an index past the end fails, as reading `init` of an undefined declarator does |
| Steps.DeclaratorWithoutId | lib/referencer.js:335-341 | a declarator without `id` succeeds and binds nothing, since the pattern walk enters nothing; its initialiser is kept |
| Steps.CloseFrom | lib/referencer.js:162-166 | `close(node)` closes the current scope while its block is the node, and keeps the invariant; afterwards the current scope's block is another node |
| Steps.CloseFromPops | lib/referencer.js:162-166 | `close(node)` leaves the current scope where walking up past the node's scopes says |
| Steps.CloseFromCloses | lib/referencer.js:162-166 | every scope `close(node)` leaves is closed |
| Steps.OutsidePop | lib/referencer.js:162-166 | under a chain outside a subtree, closing any of its nodes does nothing |
| Steps.PushedPop | lib/referencer.js:162-166 | leaving the new scopes of a node returns to where the chain stood before |
| Steps.NestScopePushed | lib/scope.js:132-270 | `__nestScope(block)` pushes exactly the scopes it opens for the block |
| Steps.InChildren | lib/referencer.js:198-200 | a node held by a visited field is one of the children walked |
| Steps.ClearFresh | lib/referencer.js:162-166 | entering a fresh node finds no scope of it on the chain |
| Steps.ReadyChild | lib/referencer.js:162-166 | a child of a fresh subtree finds the chain clear of all its nodes |
| Steps.ReadyPushed | lib/referencer.js:162-166 | opening the scopes of a node keeps the handler ready: closing it later leaves them all |
| Steps.ReadyClose | lib/referencer.js:162-166 | closing a ready node returns to the goal scope |
| Steps.TdzFresh | lib/referencer.js:178-183 | the visit of `right` inside its TDZ scope finds no other scope of its own open |
| Steps.TdzReturns | lib/referencer.js:299-301 | `close(right)` after it returns to the scope current before the TDZ scope |
| Steps.DeclarationTarget | lib/referencer.js:500-502 | a `var` declaration targets the current variable scope; `let` and `const` target the current scope (none if there is none) |
| Steps.PushedKept | lib/scope.js:110-121 | growth that keeps the current scope keeps the pushed scopes as opened |
| Steps.MemberChildren | lib/referencer.js:423-428 | the object and the property are children of a MemberExpression |
| Steps.KeyValueChildren | lib/referencer.js:280-294 | the key and the value are children of a property |
| Steps.WithChildren | lib/referencer.js:490-498 | the object and the body are children of a WithStatement |
| Steps.SwitchChildren | lib/referencer.js:513-527 | the discriminant and every case are children of a SwitchStatement |
| Steps.CatchChildren | lib/referencer.js:380-398 | the parameter and the body are children of a CatchClause |
| Steps.ForInChildren | lib/referencer.js:296-330 | the left side, the right side and the body are children of a for-in or for-of |
| Steps.FunctionChildren | lib/referencer.js:232-237 | the body is a child of a function |
| Steps.ClassChildren | lib/referencer.js:261-273 | the superclass and the body are children of a class |
| Steps.AssignmentChildren | lib/referencer.js:357-377 | the left and right sides are children of an assignment |
| Steps.DeclarationChildren | lib/referencer.js:500-511 | each declarator, and its initialiser, are children of a declaration |
| Steps.ExportChildren | lib/referencer.js:558-568 | the declaration is a child of an ExportDeclaration |
| Steps.ExportSpecifierChildren | lib/referencer.js:570-572 | the `id` is a child of an ExportSpecifier |
| Patterns.ElementHits | lib/referencer.js:80-87 | the ArrayPattern case reports exactly its Identifier elements, not top-level, holes skipped |
| Patterns.PropertyHits | lib/referencer.js:66-78 | a shorthand property reports its key, any other property its Identifier value; an entry that is not a Property fails |
| Patterns.VisitPattern | lib/referencer.js:198-200 | a missing pattern reports nothing and does not fail; a top-level report is only ever the pattern itself, an Identifier |
| Patterns.IdentifierPattern | lib/referencer.js:53-58 | a plain Identifier pattern is reported once, top-level |
| Patterns.NoChildren | lib/referencer.js:53-58 | an Identifier has no children to walk |
| Patterns.OnlyRootTopLevel | lib/referencer.js:53-58 | only the root, when it is an Identifier, is reported as top-level |
| Patterns.ChildrenNotTopLevel | lib/referencer.js:53-58 | nothing reported below the root is top-level |
| Patterns.InnerIdentifierSilent | lib/referencer.js:53-58 | a nested Identifier reports nothing by itself; its enclosing pattern reports it |
| Patterns.FlatArrayPattern | lib/referencer.js:80-87 | `[a, , b]` reports exactly its Identifier elements, left to right, holes skipped |
| Patterns.ArrayChildren | lib/referencer.js:80-87 | an ArrayPattern's children are its present elements |
| Patterns.FlatElementsSilent | lib/referencer.js:53-58 | Identifier elements report nothing further when walked |
| Patterns.HitsInside | lib/referencer.js:48-92 | every reported node lies inside the pattern |
| Patterns.ChildrenHitsInside | lib/referencer.js:48-92 | every node reported below a parent lies inside it |
| Imports.VisitImport | lib/referencer.js:112-125 | one group carrying the specifier's ImportBinding definition; a missing `id` walks nothing, so the group binds no identifier |
| Imports.WalkTemplates | lib/referencer.js:112-125 | every group the walk yields is an ImportBinding of the declaration, named by its identifier |
| Imports.SimpleSpecifier | lib/referencer.js:127-143 | a specifier whose local name is an Identifier yields one group binding that name, top-level |
| Imports.DefaultWithoutId | lib/referencer.js:133-135 | a default specifier without `id`, which has no guard, still succeeds: its one group binds nothing |
| Imports.NamespaceWithoutId | lib/referencer.js:127-131 | a namespace specifier without `id` defines nothing |
| Imports.FlatImport | lib/referencer.js:127-143 | with Identifier local names and a Literal source, one group per specifier, in order |
| Imports.LiteralSilent | lib/referencer.js:104-144 | the source Literal defines nothing |
| Imports.SpecifiersThenSource | lib/referencer.js:104-144 | the walk of the specifiers then the other children is their groups in that order |
| Handlers.NestScopeOpens | lib/referencer.js:401-404 | a successful `__nestScope` makes current a new last scope, opened on the block with the type its kind selects, and without a name scope it is the one new scope |
| Handlers.DeclareAllDeclares | lib/referencer.js:332-354 | once a declarator has been declared on a scope, each Identifier it binds is bound there to a Variable holding its definition |
| Handlers.DeclareHereBinds | lib/referencer.js:182 | declaring one declarator on the current scope never fails and binds each of its names there with its definition |
| Handlers.DefineParams | lib/referencer.js:225-237 | the parameter loop from index `i` keeps the invariant, only grows the state, adds no scope and keeps the current scope |
| Handlers.DefineParamsDefines | lib/referencer.js:225-237 | on a scope, the loop succeeds exactly when every parameter's pattern walks, and then each parameter's names are bound there with a Parameter definition carrying the parameter's index and the function |
| Handlers.ParamsStepBinds | lib/referencer.js:223-237 | after the loop on the function scope, that scope is still the function scope on the node and binds every parameter's names |
| Handlers.ReadWriteStep | lib/referencer.js:372 | `__referencing(left, RW, right)` on the current scope keeps the invariant and grows the state; without a current scope it fails |
| Handlers.ReadWriteStepRefs | lib/referencer.js:372 | a compound assignment adds exactly one reference, a read-write of `left` from the current scope writing `right`, not partial, with no implicit-global record, and no Variable changes |
| Handlers.AssignStep | lib/referencer.js:359-373 | an assignment to a pattern keeps the invariant and only grows the state |
| Handlers.AssignStepAssigns | lib/referencer.js:359-373 | with a current scope it fails only when `=` meets a pattern that does not walk; `=` writes every identifier of the pattern from the current scope with `right`, the assignment as implicit-global site outside strict code and partial below the root, and adds no other reference; a compound operator makes the one read-write reference |
| Handlers.HeadStep | lib/referencer.js:307-326 | the writes of a loop head keep the invariant and only grow the state |
| Handlers.HeadStepWrites | lib/referencer.js:307-326 | with a current scope the head's writes fail exactly when the head does not walk; otherwise every identifier of the head (the first declarator's, or the pattern's) is written from the current scope with `right`, partially, and with the loop recorded as implicit-global site exactly for a pattern head in sloppy code |
| Handlers.TdzStep | lib/referencer.js:178-183 | `materializeTDZScope` keeps the invariant and only grows the state |
| Handlers.TdzStepIs | lib/referencer.js:178-183 | it is the TDZ scope on `right`, then the head's first declarator declared on it with TDZ definitions, failing as the first of them fails |
| Handlers.TdzStepBinds | lib/referencer.js:178-183 | afterwards a new TDZ scope on `right` is current and binds the head's names as TDZ definitions |
| Handlers.DeclareThenWrite | lib/referencer.js:192-195 | declaring a declarator on the current scope and then writing its names keeps the invariant, only grows the state, adds no scope and keeps the current scope |
| Handlers.DeclareThenWriteBinds | lib/referencer.js:192-195 | it never fails; the names are bound on the current scope and each is written from it under the given rule |
| Handlers.IterationStep | lib/referencer.js:185-196 | `materializeIterationScope` keeps the invariant and only grows the state |
| Handlers.IterationStepIs | lib/referencer.js:185-196 | it is the loop's scope, then the head's first declarator declared on it as variables and each name written with `right`, partially, failing as the first of them fails |
| Handlers.IterationStepBinds | lib/referencer.js:185-196 | afterwards the loop's 'for' scope is the one new scope, current, binds the head's names as variables and has a partial write of `right` to each of them from that scope |
| Handlers.LexicalForInSteps | lib/referencer.js:298-305 | a TDZ scope opened on `right` and then the iteration scope leave, whatever follows, both scopes above the old scope count, each binding the head's names, the iteration scope also writing them |
| Handlers.DefineOnCurrentBinds | lib/referencer.js:267-274 | a definition of an Identifier on the current scope binds its name there with that definition |
| Handlers.ClassScopeStep | lib/referencer.js:265-274 | the class scope and the class name on it keep the invariant and only grow the state |
| Handlers.ClassScopeStepIs | lib/referencer.js:265-274 | it is `__nestScope(node)`, then the name defined on the new scope when there is one |
| Handlers.ClassScopeStepBinds | lib/referencer.js:265-274 | afterwards the class scope is the one new scope, current, on the node, and binds the class name with a ClassName definition |
| Handlers.NormalTypeOf | lib/referencer.js:400-527 | the scope type `__nestScope` gives a Program, a for, a block, a with, a switch and a function, and that only a function expression can need a name scope |
| Handlers.CatchStep | lib/referencer.js:382-394 | the catch scope and the parameter's definitions on it keep the invariant and only grow the state |
| Handlers.CatchStepIs | lib/referencer.js:382-394 | it is `__nestScope(node)`, then the parameter's names defined on the new scope, failing as the first of them fails |
| Handlers.CatchStepBinds | lib/referencer.js:382-394 | once the scope opens, only a parameter that does not walk fails; afterwards the catch scope is the one new scope, current, on the clause, binding every name of the parameter with a CatchClause definition named by the whole parameter |
| Handlers.DefineGroups | lib/referencer.js:104-144 | the import groups' definitions on a scope keep the invariant, only grow the state, add no scope and keep the current scope |
| Handlers.DefineGroupsDefines | lib/referencer.js:104-144 | on a scope, defining the groups never fails and binds every group's names there with the group's definition |
| Visitor.Referencer.constructor | lib/referencer.js:148-153 | a new Referencer drives the given manager and is not inside a method definition |
| Visitor.Referencer.DefineTargets | lib/referencer.js:217-229 | the defining callback leaves the state of the defining fold over the pattern's identifiers |
| Visitor.Referencer.WriteTargets | lib/referencer.js:360-368 | the writing callback leaves the state of the writing fold |
| Visitor.Referencer.WriteOne | lib/referencer.js:368 | one call of a writing callback is one write step |
| Visitor.Referencer.DeclareOne | lib/referencer.js:339-353 | one call of the declaring callback is one declaring step |
| Visitor.Referencer.DeclareTargets | lib/referencer.js:339-353 | the declaring callback leaves the state of the declaring fold |
| Visitor.Referencer.Close | lib/referencer.js:162-166 | `close(node)` leaves the state the value model of it says, and returns to the goal scope when the handler was ready |
| Visitor.Referencer.Nest | lib/scope.js:132-270 | `__nestScope` pushes the node's scopes, or changes nothing when it throws |
| Visitor.Referencer.DefineHere | lib/referencer.js:529-535 | a definition on the current scope, which stays current |
| Visitor.Referencer.Visit | lib/referencer.js:157-575 | any visit keeps the invariant and the method-definition flag, and leaves the scope that was current when it began current again |
| Visitor.Referencer.VisitOpening | lib/referencer.js:380-547 | the handlers that may open scopes leave the scope that was current again current |
| Visitor.Referencer.VisitDeclaring | lib/referencer.js:529-547 | the handlers of functions, classes and for-in/of loops leave the scope that was current again current |
| Visitor.Referencer.VisitPlain | lib/referencer.js:411-575 | the other handlers, and `visitChildren`, keep the invariant and the current scope |
| Visitor.Referencer.VisitReading | lib/referencer.js:411-442 | the handlers that read, skip or walk part of a node keep the current scope |
| Visitor.Referencer.VisitBinding | lib/referencer.js:357-572 | the handlers that bind names, write or detect eval keep the current scope |
| Visitor.Referencer.VisitChild | lib/referencer.js:198-200 | visiting a child inside a handler keeps the handler ready |
| Visitor.Referencer.VisitChildren | lib/referencer.js:198-200 | after the children the invariant and the flag hold and the scope current before is current again |
| Visitor.Referencer.OnIdentifier | lib/referencer.js:411-413 | an Identifier is one READ step from the current scope |
| Visitor.Referencer.OnThisExpression | lib/referencer.js:486-488 | `this` marks the current variable scope |
| Visitor.Referencer.OnUpdateExpression | lib/referencer.js:415-421 | the `isPattern` test is on the UpdateExpression itself, so the children are always visited: `x++` leaves a plain READ |
| Visitor.Referencer.OnMemberExpression | lib/referencer.js:423-428 | for a non-computed member on an Identifier object the new state is exactly one READ step of the object from the current scope, so the property adds nothing; with an Identifier object and no current scope it fails |
| Visitor.Referencer.VisitProperty | lib/referencer.js:280-294 | after the key and the value the method-definition flag is restored and the current scope is back |
| Visitor.Referencer.OnCallExpression | lib/referencer.js:466-474 | a direct call to `eval` (unless eval is ignored) is reported to the variable scope, then the children are visited |
| Visitor.Referencer.OnVariableDeclaration | lib/referencer.js:500-511 | without a target scope (no current scope) it fails; on success every declarator walked and its names are bound on the target scope, the variable scope for `var` and the current scope otherwise, with their Variable definitions |
| Visitor.Referencer.VisitVariableDeclaration | lib/referencer.js:332-354 | the declarator's names are defined on the target scope and written from the current scope when there is an initialiser |
| Visitor.Referencer.OnAssignmentExpression | lib/referencer.js:357-377 | a pattern on the left fails exactly as the pattern step fails; on success with a current scope, `=` leaves a write of every identifier of the pattern from that scope with `right` (implicit-global site outside strict code, partial below the root) and `op=` leaves the read-write reference at the first new index |
| Visitor.Referencer.OnImportDeclaration | lib/referencer.js:549-556 | outside an ES6 module the assertion fails and nothing changes; a walk failure changes nothing; otherwise the new state is exactly the groups defined in order on the current scope, and on success every imported name is bound there with its definition |
| Visitor.Referencer.OnExportDeclaration | lib/referencer.js:558-568 | nothing for a re-export, the declaration when there is one, else the children |
| Visitor.Referencer.OnExportSpecifier | lib/referencer.js:570-572 | without an `id` nothing changes; an Identifier `id` is exactly one READ step from the current scope |
| Visitor.Referencer.OnProgram | lib/referencer.js:400-409 | the global scope is opened on the Program at the first new index and, for an ES6 module, the module scope right after it; the current scope is back afterwards |
| Visitor.Referencer.FinishChildren | lib/referencer.js:406-407 | the children of the node, then `close(node)`, returning to the goal scope |
| Visitor.Referencer.FinishChild | lib/referencer.js:394-396 | one child, then `close(node)` |
| Visitor.Referencer.OnForStatement | lib/referencer.js:444-456 | a `let`/`const` head opens a 'for' scope on the loop at the first new index; the current scope is back afterwards |
| Visitor.Referencer.OnBlockStatement | lib/referencer.js:476-484 | in ES6 a 'block' scope is opened on the block at the first new index; the current scope is back afterwards |
| Visitor.Referencer.OnWithStatement | lib/referencer.js:490-498 | a 'with' scope is opened on the statement above the old scope count; the current scope is back afterwards |
| Visitor.Referencer.OnSwitchStatement | lib/referencer.js:513-527 | in ES6 a 'switch' scope is opened on the statement above the old scope count; the current scope is back afterwards |
| Visitor.Referencer.OnCatchClause | lib/referencer.js:380-398 | once the catch scope opens, a parameter that does not walk fails with the walk's error; on success the catch scope on the clause is at the first new index and binds every name of the parameter with a CatchClause definition |
| Visitor.Referencer.VisitFunction | lib/referencer.js:202-247 | a FunctionDeclaration's Identifier name gets its FunctionName definition on the enclosing scope; a function scope on the node is opened above the old scope count and binds each parameter's names with their index; the current scope is back afterwards |
| Visitor.Referencer.DefineParameters | lib/referencer.js:225-237 | the new state is exactly the parameter loop over the walked parameters on the current scope, or its failure |
| Visitor.Referencer.FinishFunction | lib/referencer.js:239-246 | a block body's children or the expression body, then close, returning to the goal scope |
| Visitor.Referencer.VisitClass | lib/referencer.js:249-278 | a ClassDeclaration's Identifier name gets its ClassName definition on the enclosing scope; a class scope on the node is opened above the old scope count and binds the name again |
| Visitor.Referencer.OpenClassScope | lib/referencer.js:265-274 | the new state is exactly the class scope with the name on it, or the failure of `__nestScope` with nothing changed |
| Visitor.Referencer.VisitForIn | lib/referencer.js:296-330 | a `let`/`const` head leaves the TDZ scope and the iteration scope binding the head's names, the latter writing them; any other head fails when it does not walk and otherwise is written from the current scope with `right`, partially, with the loop as implicit-global site for a pattern in sloppy code |
| Visitor.Referencer.VisitLexicalForIn | lib/referencer.js:298-305 | a TDZ scope on `right` binding the head's names as TDZ definitions, and the loop's scope binding them as variables and writing each with `right` |
| Visitor.Referencer.WriteForInHead | lib/referencer.js:307-327 | a head that does not walk fails; otherwise every identifier of the head is written from the current scope with `right`, partially, with the loop as implicit-global site exactly for a pattern head in sloppy code |
| Visitor.Referencer.VisitInTDZScope | lib/referencer.js:299-301 | the TDZ scope it opens above the old scope count binds the head's names as TDZ definitions; the handler stays ready |
| Visitor.Referencer.MaterializeTDZScope | lib/referencer.js:178-183 | the new state is exactly `materializeTDZScope`: the TDZ scope on `right` with the head's TDZ definitions, or its failure |
| Visitor.Referencer.MaterializeIterationScope | lib/referencer.js:185-196 | the new state is exactly `materializeIterationScope`: the loop's scope, the head's names defined on it and each written with `right`, partially, or its failure |
| Visitor.Referencer.DeclareAndVisit | lib/referencer.js:504-508 | one turn of the loop: the declarator's names are bound on the target scope, then its initialiser is visited |
| Visitor.Referencer.VisitInitializer | lib/referencer.js:506-508 | visiting the initialiser keeps the handler ready and the current scope |
| Visitor.Referencer.AssignPattern | lib/referencer.js:359-373 | the new state is exactly the pattern step: the writes of `=`, or the one read-write of `op=`, or its failure with nothing changed |
| Visitor.Referencer.DefineImports | lib/referencer.js:104-144 | the importer's loop leaves exactly the state of the groups defined in order on the current scope |
| Visitor.Referencer.OpenProgramScopes | lib/referencer.js:401-405 | the global scope at the first new index, then for an ES6 module the module scope after it, both on the Program |
| Visitor.Referencer.SwitchInside | lib/referencer.js:518-526 | the switch scope (ES6) and the cases: the switch scope is opened on the statement above the old scope count and the goal scope is current afterwards |
| Visitor.Referencer.VisitCases | lib/referencer.js:522-526 | the cases in order, then `close(node)`, returning to the goal scope |
| Visitor.Referencer.OpenCatchScope | lib/referencer.js:382-394 | the new state is exactly the catch scope with the parameter's definitions, or its failure |
| Visitor.Referencer.NestedFunction | lib/referencer.js:223-246 | the function scope it opens, above the old scope count, binds every parameter's names when the body is done |
| Visitor.Referencer.ParametersAndBody | lib/referencer.js:225-246 | with the function scope current, the parameters' names are bound on it and stay bound through the body and close |
| Visitor.Referencer.DefineParameter | lib/referencer.js:226-236 | one turn of the loop: the rest of the loop from `i` gives the same result as the loop from `i + 1` on the new state |
| Visitor.Referencer.ClassOutside | lib/referencer.js:250-263 | a ClassDeclaration's name is defined on the current scope, which stays current through the superclass |
| Visitor.Referencer.ClassInside | lib/referencer.js:265-277 | the class scope, holding the name, stays bound through the body and close |
| Visitor.Referencer.WriteHead | lib/referencer.js:309-326 | the new state is exactly the head's writes, or their failure with nothing changed; the writes are the ones above |
| Visitor.Referencer.VisitThenClose | lib/referencer.js:300-305 | a child visited in a scope pushed for it, then closed, returns to the scope current before |
| Visitor.Referencer.CloseTDZScope | lib/referencer.js:301 | `close(right)` after the TDZ scope returns to the scope current before it |
| Traversal.Keys | escope.js:129-170 | `VisitorKeys[node.type]` exists exactly for the ES5 node types of the table, and names the node's child slots in order |
| Traversal.ChildrenUnder | escope.js:220-234 | every child pushed for a node ranks below it, so the walk is well founded |
| Traversal.EnterLessWork | escope.js:213-235 | entering a node replaces its work-list entry by a marker and its children, which is less work left |
| Traversal.RunNode | escope.js:184-238 | an entry for a node on the work list runs the recursive walk of that node, then the rest |
| Traversal.RunSeq | escope.js:220-234 | entries for a node's children run their walks in order, first child first |
| Traversal.RunRoot | escope.js:187-188 | the loop started on `[top]` with the leave list `[null]` is the recursive walk of the root |
| Traversal.RunMarker | escope.js:193-203 | a marker pops the leave list and calls `leave` with the node below it as parent; Break stops the walk |
| Traversal.RunVisit | escope.js:203-235 | a node entry calls `enter`; Break stops, Skip pushes no children, otherwise the children are pushed |
| Traversal.PushArray | escope.js:225-230 | the elements of an array slot are pushed last to first |
| Traversal.PushSparse | escope.js:225-230 | the holes of an array are not pushed |
| Traversal.PushField | escope.js:222-232 | one slot: a non-null single child is pushed, an array's elements last to first |
| Traversal.PushCandidates | escope.js:219-234 | the keys are read last to first, so the children lie on the work list first child on top |
| Traversal.Traverse | escope.js:184-238 | the iterative walk ends in exactly the state and the way the recursive walk of `top` does |
| Traversal.WalkOrder | escope.js:184-238 | on a tree of keyed nodes each node is entered before everything below it and left after it, children left to right |
| Traversal.WalkSeqOrder | escope.js:219-234 | the walk of a node's children is their events in order |
| Traversal.SkipLeaves | escope.js:216-219 | a node whose `enter` says Skip is left straight after it is entered |
| Traversal.BreakStops | escope.js:210-212 | Break from `enter` stops the walk with the state `enter` returned |
| Traversal.HaltPropagates | escope.js:184-238 | a child that halts the walk halts its siblings' walk too |
| Legacy.HandleOpt | escope.js:365-381 | the handle of an optional node is an Identifier exactly when the node is one, with its name |
| Legacy.Define | escope.js:362-376 | an Identifier is added to the Variable of its name, created static, untainted and owned by the scope when the name is new; no other binding changes; anything else changes nothing |
| Legacy.Referencing | escope.js:378-386 | an Identifier gets one new Reference from the scope, appended to `references` and `left`; a closed scope raises; anything else changes nothing |
| Legacy.MarkDynamic | escope.js:392-395 | exactly the scopes on the chain from the scope become dynamic; nothing else changes |
| Legacy.DetectEval | escope.js:388-396 | the scope calls eval directly and it and every ancestor are dynamic; every other scope keeps its flags |
| Legacy.ChainBelow | escope.js:394 | a chain of `upper` links only goes to earlier scopes |
| Legacy.Resolve | escope.js:339-354 | none exactly when `set` lacks the name; otherwise the Variable gains the reference, stays stack only for the same variable scope, is tainted by a tainted reference, the reference resolves to it, and no scope but this one changes, and in it only `taints` |
| Legacy.Delegate | escope.js:356-360 | a scope without upper fails the assertion; otherwise the reference joins the upper scope's `left` and this scope's `through` |
| Legacy.StaticClose | escope.js:306-314 | the static loop keeps the invariant, the fixed fields and the current scope; what it does to each reference is in Legacy.StaticCloseEffect |
| Legacy.WithClose | escope.js:317-322 | the `with` loop keeps the invariant, the fixed fields and the current scope; what it does to each reference is in Legacy.WithCloseEffect |
| Legacy.PushThrough | escope.js:324-330 | the reference is pushed onto `through` of exactly the scopes on the chain |
| Legacy.DynamicClose | escope.js:323-333 | the dynamic loop keeps the invariant and the current scope and changes no Variable and no reference |
| Legacy.Settle | escope.js:305-333 | the selected regime keeps the invariant and the current scope |
| Legacy.Finish | escope.js:335-336 | `left` becomes null and the upper scope becomes current; nothing else changes |
| Legacy.Close | escope.js:303-336 | a closed scope raises; otherwise the scope ends closed with its upper scope current, keeping the invariant |
| Legacy.StaticStep | escope.js:307-313 | a reference whose name the scope binds is resolved and changes only `taints` among the scopes; any other is delegated |
| Legacy.Unbound | escope.js:307-313 | the references the static regime delegates, in order, drawn from the pending ones |
| Legacy.StaticCloseFails | escope.js:306-314 | the static regime fails exactly when a pending name is unbound and there is no open upper scope |
| Legacy.StaticCloseRefs | escope.js:306-314 | each pending reference whose name is in `set` resolves to the Variable of that name; every other reference is unchanged |
| Legacy.StaticCloseScopes | escope.js:306-314 | the unbound pending references are appended, in order, to `through` and to the upper scope's `left` |
| Legacy.StaticCloseFrame | escope.js:306-314 | no scope but the closing scope and its upper scope changes |
| Legacy.StaticCloseEffect | escope.js:306-314 | the static regime: success exactly when nothing unbound meets a missing upper scope; bound references resolve by name, the unbound ones join `through` and the upper `left` in order, and no other scope changes |
| Legacy.WithCloseFails | escope.js:317-322 | the `with` regime fails exactly when something is pending and there is no open upper scope |
| Legacy.WithCloseRefs | escope.js:317-322 | every pending reference is tainted, none resolves, and no Variable changes |
| Legacy.WithCloseScopes | escope.js:317-322 | the pending references are appended, in order, to `through` and to the upper scope's `left`; nothing else of the scope changes |
| Legacy.WithCloseFrame | escope.js:317-322 | no scope but the closing scope and its upper scope changes |
| Legacy.WithCloseEffect | escope.js:317-322 | the `with` regime: success exactly when nothing pending meets a missing upper scope; every pending reference is tainted and delegated in order, none resolves, and no Variable or other scope changes |
| Legacy.DynamicCloseEffect | escope.js:323-333 | the dynamic regime: no reference or Variable changes, and the pending references are appended, in order, to `through` of the scope and of every scope up its chain, and of no other scope |
| Legacy.CloseStaticRegime | escope.js:303-336 | `__close` of an open static scope: the static regime's success condition and effect, then the scope closed and its upper scope current |
| Legacy.CloseWithRegime | escope.js:303-336 | `__close` of an open `with` scope: the `with` regime's success condition and effect, then the scope closed and its upper scope current |
| Legacy.CloseDynamicRegime | escope.js:303-336 | `__close` of any other open dynamic scope never fails; the references go up the chain's `through`, nothing else of the references or Variables changes, the scope is closed and its upper scope current |
| Legacy.OpenName | escope.js:277-279 | the name scope is a 'function' scope on the same block, its own variable scope, that defines the function's name |
| Legacy.NewScope | escope.js:260-301 | catch and with with no current scope raise, and only they; the new scope (after the name scope of a named function expression) is last and current, on the block |
| LegacyAnalysis.RefEach | escope.js:547-549 | each `__referencing` in turn, adding exactly the references of the Identifiers, in order; an open scope never fails |
| LegacyAnalysis.RefAll | escope.js:538-719 | with nothing to reference nothing happens; with a null current scope the first call raises |
| LegacyAnalysis.DefineEach | escope.js:615-617 | each `__define` in turn; every Identifier ends up bound in the scope |
| LegacyAnalysis.DefineAll | escope.js:577-623 | a define on the current scope; a null current scope raises |
| LegacyAnalysis.CurrentVariableScope | escope.js:567-569 | the current scope's variable scope, raising on a null current scope |
| LegacyAnalysis.Rule | escope.js:538-626 | the node type's calls keep the invariant, the scope count and the current scope |
| LegacyAnalysis.Rule2 | escope.js:628-718 | the remaining node types' calls keep the invariant and the current scope |
| LegacyAnalysis.CallRule | escope.js:561-570 | a null current scope raises; an open one never fails; the new references are exactly one per Identifier among the callee and then the arguments, in order, from the current scope, and no Variable changes (the `eval` mark is LegacyAnalysis.DirectEvalMarks) |
| LegacyAnalysis.FunctionDeclarationRule | escope.js:611-618 | the name is defined on the upper scope and the parameters on the function's scope; a null scope or upper raises |
| LegacyAnalysis.VariableDeclaratorRule | escope.js:708-711 | the name is defined on the variable scope, then the initialiser is referenced |
| LegacyAnalysis.Enter | escope.js:532-720 | a node that needs a scope leaves a scope on that node current; any other node keeps the current scope |
| LegacyAnalysis.Leave | escope.js:722-726 | scopes on the node are closed until the current scope belongs to another node or there is none |
| LegacyAnalysis.Conclude | escope.js:530-733 | the analysis succeeds only when no scope is left current |
| LegacyAnalysis.Analyze | escope.js:526-736 | `analyze` returns the scope manager over exactly the state of the walk with the analysis visitor, or the fault it raised |
| LegacyAnalysis.AnalysisOrdered | escope.js:722-733 | after a successful analysis every chain is finite and no scope is current |
| LegacyAnalysis.FirstOwner | escope.js:475-483 | the first scope from a position on that is not a name scope and was opened on the node |
| LegacyAnalysis.Lookup | escope.js:470-486 | the scope found is the first non-name scope opened on the node, and only for node types that need a scope |
| LegacyAnalysis.Unnamed | escope.js:492-504 | the nearest scope up the chain that is not a name scope; everything skipped is a name scope |
| LegacyAnalysis.ScopeManager.constructor | escope.js:464-467 | the manager holds the scopes of the analysis |
| LegacyAnalysis.ScopeManager.Get | escope.js:470-486 | the loop returns the first non-name scope opened on the node |
| LegacyAnalysis.ScopeManager.Acquire | escope.js:488-490 | `acquire` is `__get` and never returns a name scope |
| LegacyAnalysis.ScopeManager.Release | escope.js:492-504 | the nearest scope above the node's own scope that is not a name scope, or null |
| LegacyAnalysis.ResolveIdent | escope.js:404-415 | an open scope or a non-Identifier fails the assertions; otherwise the first reference made for the node, and `unreachable` exactly when there is none |
| LegacyAnalysis.ArgumentsMaterialized | escope.js:425-448 | true outside static 'function' scopes; a missing `arguments` variable fails the assertion; otherwise whether it is tainted or referenced |
| LegacyAnalysis.ArgumentsMaterializedIntended | escope.js:425-448 | wherever the source answers, the same answer; where its assertion fails, true exactly on a name scope; it never fails |
| LegacyAnalysis.RefIsStatic | escope.js:247-249 | a static reference is untainted and resolved |
| LegacyAnalysis.NamedFunctionScopes | escope.js:260-301 | a named function expression gets the name scope below the current scope, binding only the name, and the function's scope below it with `arguments`, both on the node |
| LegacyAnalysis.NameScopeArguments | escope.js:425-448 | `isArgumentsMaterialized` on a name scope fails the assertion, where the intended query answers true |
| LegacyAnalysis.FreshFunctionArguments | escope.js:425-448 | a function scope just opened does not materialise `arguments` |
| LegacyAnalysis.FunctionDeclarationDefines | escope.js:611-618 | the function's name is bound in the upper scope and each Identifier parameter in the function's scope |
| LegacyAnalysis.VariableDeclaratorDefines | escope.js:708-711 | the name is bound in the variable scope and the initialiser referenced from the current scope |
| LegacyAnalysis.CatchClauseDefines | escope.js:572-574 | the parameter is bound in the catch scope |
| LegacyAnalysis.DirectEvalMarks | escope.js:566-569 | a direct `eval` call marks the variable scope as calling eval and makes every scope up its chain dynamic |
| LegacyAnalysis.LeaveCloses | escope.js:722-726 | leaving a node that owns the current scope closes it and goes on |

## Left out

- The UMD wrapper and the `namespace` helper (escope.js:27-53) are left out. They are module-loader glue that writes to the host's global object.
- `estraverse`, `esrecurse`, `es6-map`, `util.inherits` and `object-assign` are external libraries. Visitor dispatch becomes recursion over `Ast.Node`, and `Map` becomes a Dafny `map`.
- `attach`/`detach` and the `attached` path of `__get` (escope.js:452-462, 472-474, 506-520) are left out. They write properties onto the caller's AST objects. Only the linear search over `scopes` is modelled.
- lib/scope-manager.js, lib/reference.js, lib/variable.js and lib/definition.js are not part of this model. Their records and options are rebuilt from the call sites named above.
- Source positions and raw text are left out. The only exception is the `raw` comparison of the directive-prologue scan.
- AST nodes are values, so two distinct nodes cannot share an id. The model assumes the parser's objects are a tree and compares them by `nid`.
- The legacy engine's scopes are additionally modelled as values, not as objects updated in place. `analyze` hands callbacks to `traverse`, and a Dafny method cannot be passed as a callback. So the enter and leave rules are pure functions that return the new legacy `State`. The model keeps the module-level `scope`/`scopes` variables and every list update, but not the aliasing of Scope objects.
- The name scope of a FunctionExpression takes its variable slot after the function's own `arguments` Variable in the source. In the model it takes the slot before. Only the order inside the variable arena differs, and nothing reads that order.
- Ast.IsPattern (lib/referencer.js:94-97) is a plain predicate with no contract of its own. The pattern walk's lemmas use it.
- Visitor.Referencer.Visit and the other recursive handlers do not state their whole new state as a function of the old one. For an arbitrary subtree they state the arena invariant, monotone growth of the arenas, the restored current scope and the restored method-definition flag. Each handler's own definitions, references and scopes are stated only where its row in "## Model" says so.
- Visitor.Referencer.VisitChildren: the order of the children (the visitor keys of each node type) is fixed by its body and `Ast.Children`, not stated in its contract.
- Visitor.Referencer.VisitProperty: that the key is visited before the value, and that the flag is set while a method definition's value is visited, are in its body only.
- Visitor.Referencer.OnMemberExpression: for a computed property or a non-Identifier object only the invariant and the restored current scope are stated.
- Visitor.Referencer.OnExportSpecifier: for an `id` that is not an Identifier only the invariant is stated.
- Visitor.Referencer.OnVariableDeclaration: the writes of the initialisers, and the visit of each initialiser, are not in this handler's contract; Visitor.Referencer.VisitVariableDeclaration states the writes for one declarator.
- Visitor.Referencer.OnAssignmentExpression: the visit of `right` that follows the write, and the visit of a non-pattern left side, are stated only through the invariant.
- Visitor.Referencer.OnProgram: the definitions and references made by the program's statements are stated only through the invariant.
- Visitor.Referencer.OnForStatement: that a head without `let`/`const` opens no scope is not stated.
- Visitor.Referencer.OnBlockStatement: that no scope is opened before ES6 is not stated.
- Visitor.Referencer.OnWithStatement: that the object is visited from the outer scope, before the 'with' scope opens, is in its body only.
- Visitor.Referencer.OnSwitchStatement: that the discriminant is visited from the outer scope, before the 'switch' scope opens, is in its body only.
- Visitor.Referencer.OnCatchClause: the visit of the body inside the catch scope is stated only through the invariant.
- Visitor.Referencer.VisitFunction: the references made by default values and by the body are stated only through the invariant.
- Visitor.Referencer.DefineParameters: its contract ties the new state to Handlers.DefineParams; what that loop binds is Handlers.DefineParamsDefines.
- Visitor.Referencer.FinishFunction: that a block body opens no scope of its own (lib/referencer.js:240-241) is in its body only.
- Visitor.Referencer.VisitClass: the visits of the super class and the body are stated only through the invariant.
- Visitor.Referencer.OpenClassScope: what the class scope binds is stated by Handlers.ClassScopeStepBinds.
- Visitor.Referencer.VisitForIn: the visit of `right` and of the loop body is stated only through the invariant.
- Visitor.Referencer.VisitLexicalForIn: the visit of `right` inside the TDZ scope is stated only through the invariant.
- Visitor.Referencer.WriteForInHead: the visits of default values inside a pattern head are stated only through the invariant.
- Visitor.Referencer.MaterializeTDZScope: what the TDZ scope binds is stated by Handlers.TdzStepBinds.
- Visitor.Referencer.MaterializeIterationScope: what the iteration scope binds and writes is stated by Handlers.IterationStepBinds.
- Legacy.StaticClose: its contract states the invariant, the fixed fields and the current scope; what it does to each reference is in Legacy.StaticCloseEffect and the other Legacy.StaticClose lemmas.
- Legacy.WithClose: its contract states the invariant, the fixed fields and the current scope; what it does to each reference is in Legacy.WithCloseEffect and the other Legacy.WithClose lemmas.
- Legacy.DynamicClose: its contract does not say where each reference goes; that is Legacy.DynamicCloseEffect.
- Legacy.Settle: its contract states only the invariant and the current scope; the regime it selects is stated by Legacy.CloseStaticRegime, Legacy.CloseWithRegime and Legacy.CloseDynamicRegime.
- Legacy.Close: what happens to the references of the closed scope is stated by Legacy.CloseStaticRegime, Legacy.CloseWithRegime and Legacy.CloseDynamicRegime, not by its own contract.
- Legacy.StaticCloseEffect: it does not restate the Variables' references, the `stack` flag or the taints; Legacy.Resolve states those for each step.
- Legacy.Define: `set` is a plain object in escope.js (lines 267 and 366-369), and `set['__proto__'] = variable` replaces the object's prototype instead of adding an own key. So each definition of an identifier named `__proto__` creates a new Variable in `variables`, where the model's `map` adds the second identifier to the first Variable.
- Legacy.Resolve: `hasOwnProperty` (escope.js:342) never finds a `__proto__` Variable in the source, since it is not an own key of `set`, so a reference to it goes to the upper scope; the model resolves it like any other name. `taints` (escope.js:274, 348) has the same flaw but is only written for names that resolved.
- Steps.Declarator: an entry of `declarations` that is not a VariableDeclarator fails with `MalformedNode`. The source reads whatever `id` and `init` that node has; a parser never produces such an entry.

## Findings

| source | as written | input that shows it | evidently intended | confidence | as-written member | corrected member |
|---|---|---|---|---|---|---|
| lib/scope.js:474-499 | `isArgumentsMaterialized` asserts that every static scope of type 'function' has an `arguments` variable | the scope of the arrow function `() => 1`: it has type 'function', it is static, and the constructor binds no `arguments` in it; the name scope of `(function f() {})` also fails it (lib/scope.js:142 gives it type 'function', and the constructor's name-scope branch defines only `f`; Queries.NameScopeWithoutArguments) | an arrow function has no `arguments` object, so the answer is false; a name scope is no function body, so the answer is true; elsewhere the source's answer | medium, not executed | Queries.OpenedWithoutArguments | Queries.ArgumentsMaterializedIntended |
| escope.js:425-448 | the same assertion in the legacy Scope | the name scope of `(function f() {})`: it has type 'function', it is static, and it binds only `f` | a function-expression name scope is not a function body, so the answer is true, as for other non-function scopes | medium, not executed | LegacyAnalysis.NameScopeArguments | LegacyAnalysis.ArgumentsMaterializedIntended |
