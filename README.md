# nanotemplates compiler, modelled in Dafny

This project models the compilation pipeline of nanotemplates (`lib/compiler.js`).
A `Job` turns a template file into a renderer. Compiling a file does the following:

- It resolves the file's path against the file that refers to it (`localPath`).
- It loads and parses each template once per job and caches the parsed nodes.
- It walks the nodes in order, appending every compiled expression to one table.
- It resolves `block`s against the nearest `def` of the same name (`findDefinition`), in the modes override, append and prepend.
- It compiles each `include` in a new context, whose own `def`s are seen by the included file's blocks. The include's code is wrapped in a scope whose local writes are dropped when it ends (`scoped`).

The generated JavaScript text is replaced by a small statement language (`Templates.Stmt`). `Runtime` gives that language a meaning, so the model can state what a compiled template renders.

Modules:

- `Templates`: nodes, errors, the statement language, and the collaborators the compiler calls. These are the loader, the parser and the expression compiler, passed in as `Hooks`.
- `JsLiteral`: `escapeJsString` (a JSON string literal) and the value of such a literal.
- `Paths`: Node's posix `path.normalize`, `path.dirname` and `path.join` as far as `localPath` uses them, and `localPath` itself.
- `Overrides`: compilation contexts as values (`Scope`), `findDefinition`, and the merge of a block with a definition.
- `Runtime`: an interpreter for the emitted statements, including the frame that `Object.create(locals)` gives an include.
- `Compilation`: the job's walk as pure functions. This is the specification the imperative `Jobs` code is proved against.
- `Jobs`: the `Context` and `Job` objects as classes. `Job` holds the expression table and node cache it updates in place, and has one method per `_process*` function.
- `Scenarios`: end-to-end properties of compiled templates, up to the layout-with-override example.

`_processFile` (line 58) and `_process_include` (line 125) call `localPath` with the same arguments for an included file. The model resolves the path once: `ProcessFile` and `CompileFile` receive the resolved path, and the include's caller computes it.

A resolved key is meant to stay inside the base directory. The code removes only one leading `./` or `../` (line 181), so `../../x` resolves to `../x`. The model follows the code (`Paths.OneParentPrefixRemoved`).

## Model

| member | source | states |
|---|---|---|
| Jobs.CompileTemplate | lib/compiler.js:20-22 | a new job compiling `file` yields exactly the renderer `Compilation.Compile` specifies |
| Jobs.Job.constructor | lib/compiler.js:24-29 | a new job has an empty expression table, an empty cache and has loaded nothing |
| Jobs.Context.constructor | lib/compiler.js:37-39 | a new context has the given file and parent, no definitions, and is linked to its parent's value; the same constructor builds the root context here and each include's context at lines 123-127 |
| Jobs.Job.Compile | lib/compiler.js:35-53 | compiling the job's file in a root context gives `Compilation.Compile`: the program paired with the job's expression table, or the first error |
| Jobs.Job.ProcessFile | lib/compiler.js:55-74 | the result, the context's new definitions and the job's new table/cache equal `Compilation.CompileFile`; the context's file and parent are unchanged |
| Jobs.Job.ProcessNodes | lib/compiler.js:76-86 | the while loop over the nodes computes `Compilation.CompileWalk` (stops at the first error, joins fragments in order) |
| Jobs.Job.ProcessNode | lib/compiler.js:78-81 | the dispatch on the node's kind computes `Compilation.CompileNode` |
| Jobs.Job.ProcessPlain | lib/compiler.js:88-90 | one push of a literal that evaluates back to the text |
| Jobs.Job.ProcessDef | lib/compiler.js:92-102 | equals `Compilation.CompileNode` for the def: the body is compiled and stored under the name in the context with its mode, and nothing is emitted |
| Jobs.Job.ProcessBlock | lib/compiler.js:104-120 | equals `Compilation.CompileNode` for the block: the definition is looked up before the body is compiled, and the result is the body merged with it by `ResolveBlock` |
| Jobs.Job.ProcessInclude | lib/compiler.js:122-142 | equals `Compilation.CompileInclude`; the including context's definitions are left as they were |
| Jobs.Job.ProcessOverrides | lib/compiler.js:129-132 | the loop over an include's own nodes in the new context computes the walk in override mode |
| Jobs.Job.ProcessExpr | lib/compiler.js:144-163 | on success the table grows by exactly the compiled expression and the code refers to its index, buffered with or without escaping, or evaluated only; on failure the table is unchanged and the expression engine's error is returned |
| Jobs.Job.ProcessVar | lib/compiler.js:165-174 | on success the table grows by the compiled expression and the code assigns its value to the name; on failure the table is unchanged and the error is returned |
| Compilation.CompileFile | lib/compiler.js:59-73 | the table only grows, cached templates are never replaced, and the loader log only grows |
| Compilation.CompileWalk | lib/compiler.js:76-86 | same growth of the job state over a node list |
| Compilation.CompileNode | lib/compiler.js:78-81 | same growth; plain text, includes, expressions and vars leave the definitions unchanged |
| Compilation.CompileInclude | lib/compiler.js:122-142 | the including scope's definitions are unchanged and a success is a single scoped statement |
| Compilation.Compile | lib/compiler.js:35-53 | `Job.compile`; `Compilation.CompiledProgramWellFormed` and `Scenarios.CompiledTemplateRenders` state what a successful result guarantees |
| Compilation.Combine | lib/compiler.js:82-84 | joining fragments keeps the later outcome's definitions and state and succeeds exactly when it does |
| Compilation.WalkStopsAtError | lib/compiler.js:82-83 | once a prefix of the nodes fails, the rest of the nodes changes nothing |
| Compilation.WalkAppend | lib/compiler.js:76-86 | walking `a + b` is walking `a`, then `b` with `a`'s definitions and state, fragments joined in order |
| Compilation.FileLoadsOnce | lib/compiler.js:59-69 | starting from a log that matches the cache, no path is handed to the loader twice, and a success leaves log and cache matching |
| Compilation.WalkLoadsOnce | lib/compiler.js:76-86 | the same over a node list |
| Compilation.NodeLoadsOnce | lib/compiler.js:78-81 | the same over one node |
| Compilation.IncludeLoadsOnce | lib/compiler.js:122-142 | the same over an include |
| Compilation.ParsedTemplateCached | lib/compiler.js:64-69 | an uncached template that loads and parses is cached under its path with exactly the parsed nodes, after one load of that path |
| Compilation.UncachedFileLoaded | lib/compiler.js:58-65 | a template not yet cached is handed to the loader under its resolved path, whether or not loading and parsing then succeed |
| Compilation.CachedTemplateNotReloaded | lib/compiler.js:60-62 | a cached template is compiled from the cached nodes and its path is not loaded again |
| Compilation.FoundDefinitionOk | lib/compiler.js:184-189 | a definition found in well-formed scopes refers only to existing table entries |
| Compilation.FileWellFormed | lib/compiler.js:55-74 | compiled code refers only to table entries that exist, and the definitions made stay well-formed |
| Compilation.WalkWellFormed | lib/compiler.js:76-86 | the same over a node list |
| Compilation.NodeWellFormed | lib/compiler.js:78-81 | the same over one node |
| Compilation.BlockWellFormed | lib/compiler.js:104-120 | the same for a block, whichever of body and definition it emits |
| Compilation.IncludeWellFormed | lib/compiler.js:122-142 | the same for an include |
| Compilation.CompiledProgramWellFormed | lib/compiler.js:35-53 | a compiled renderer's program refers only to entries of its own table |
| Compilation.DefThenBlock | lib/compiler.js:92-119 | a `def` followed by a block of the same name yields that block merged with the definition |
| Compilation.WalkKeepsDefs | lib/compiler.js:76-86 | nodes that are neither defs nor blocks leave the definitions unchanged |
| Compilation.DefStoresOnlyItsName | lib/compiler.js:92-102 | a `def` whose body holds no `def` or `block` of its own stores one entry under its name, with its mode and compiled body, and leaves every other entry untouched |
| Overrides.FindDefinition | lib/compiler.js:184-189 | `findDefinition`; what it finds is stated by `Overrides.FindDefinitionNearest` and `Overrides.InnermostWins` |
| Overrides.FindDefinitionNearest | lib/compiler.js:184-189 | nothing is found exactly when no scope in the chain defines the name; otherwise the result is the definition of the innermost scope that does |
| Overrides.InnermostWins | lib/compiler.js:184-187 | a definition in the innermost scope shadows every enclosing one |
| Overrides.ResolveBlock | lib/compiler.js:109-118 | no definition: the block's body; append: the body followed by the definition; override and prepend: the definition alone |
| Overrides.PrependActsAsOverride | lib/compiler.js:114-117 | prepend discards the block's own body exactly as override does |
| JsLiteral.EscapeJsString | lib/compiler.js:191-193 | the literal is enclosed in double quotes |
| JsLiteral.EscapeJsStringRoundTrip | lib/compiler.js:191-193 | the literal written for a string evaluates back to that string |
| Paths.Normalize | lib/compiler.js:177 | a normalized path is never empty; `Paths.NormalizedShape` and `Paths.FormIsNormal` state its shape (canonical segments, leading and trailing `/` kept) and that such a shape is left unchanged |
| Paths.NormalizeIdempotent | lib/compiler.js:177 | normalizing twice is normalizing once |
| Paths.TrimLeadingSlashes | lib/compiler.js:179 | the result has no leading `/` and is a suffix of the input after only `/` characters |
| Paths.StripRelativePrefix | lib/compiler.js:180-181 | the result has no leading `/` unless nothing was stripped; `Paths.StripSlash`, `Paths.StripParentPrefix` and `Paths.NameNotStripped` state that one leading `/` or `../` is removed and a path starting with a name is left alone |
| Paths.LocalPath | lib/compiler.js:176-182 | `localPath`; its results are described by `Paths.LocalPathRelative`, `Paths.LocalPathIsNormal`, `Paths.AbsoluteReference`, `Paths.RelativeReference`, `Paths.TopLevelReference`, `Paths.RootReference`, `Paths.ParentReference`, `Paths.TopLevelParentReference` and `Paths.OneParentPrefixRemoved` |
| Paths.LocalPathRelative | lib/compiler.js:176-182 | a resolved key never starts with `/` |
| Paths.LocalPathIsNormal | lib/compiler.js:176-182 | a resolved key is empty or already normalized |
| Paths.AbsoluteReference | lib/compiler.js:178-179 | a reference `/` + p, with p made of names only (no `.`, `..` or empty segments), resolves to p whatever file refers to it |
| Paths.RelativeReference | lib/compiler.js:180-181 | a relative reference made of names only (no `.`, `..` or empty segments), from the file `dir/name` with `dir` also made of names only, resolves to `dir` joined with the reference |
| Paths.ParentReference | lib/compiler.js:176-182 | `../` + `ref` from the file `dir/name` resolves to `ref` joined to `dir` without its last name, with `dir` and `ref` made of names only |
| Paths.TopLevelReference | lib/compiler.js:180-181 | a reference made of names only, from a file at the top of the base directory (whose `dirname` is `.`), is its own key |
| Paths.RootReference | lib/compiler.js:56-58 | the top file, resolved from no file (`localPath('', file)`, with `localPath` at lines 176-182), is its own key when it is made of names only |
| Paths.DotJoinNames | lib/compiler.js:180 | `path.join('.', ref)` for a reference made of names only is the reference itself |
| Paths.TopLevelParentReference | lib/compiler.js:180-181 | `../` + `ref` from a file at the top of the base directory resolves to `ref`: the one `../` above the base is stripped |
| Paths.OneParentPrefixRemoved | lib/compiler.js:180-181 | `../../x` from a file at the top resolves to `../x`: only one parent prefix is removed |
| Runtime.Run | lib/compiler.js:42-51 | a successful run leaves the frames around the innermost one as they were and only appends to the output; `Runtime.RunAppend` states that statements run in order |
| Runtime.Exec | lib/compiler.js:42-51 | one statement keeps the frames around the innermost one and only appends output; a scoped statement leaves all frames as they were |
| Runtime.Render | lib/compiler.js:42-47 | the renderer runs the program on the caller's locals, or on empty locals when none are given; `Scenarios.CompiledTemplateRenders` and `Scenarios.LayoutOverride` state its results |
| Runtime.VisibleLookup | lib/compiler.js:196 | a name is visible when some frame binds it, and reads the innermost binding |
| Runtime.RunAppend | lib/compiler.js:84 | running joined statement lists runs them one after the other |
| Runtime.PushTextOutputsText | lib/compiler.js:88-90 | the statement emitted for plain text outputs exactly that text |
| Runtime.ScopedIsolation | lib/compiler.js:195-197 | a scoped body sees every binding around it, and afterwards the frames are as before with only the output added |
| Runtime.RunWellFormed | lib/compiler.js:42-51 | a well-formed program whose expressions never fail always renders |
| Runtime.ProgramOkAppend | lib/compiler.js:84 | a joined program is well-formed exactly when both parts are |
| Scenarios.PlainRenders | lib/compiler.js:88-90 | plain text compiles without touching the job and renders as itself |
| Scenarios.ExprRenders | lib/compiler.js:144-163 | an expression goes to the next table index and renders as its (escaped) value, or only runs when unbuffered |
| Scenarios.VarRenders | lib/compiler.js:165-174 | a `var` assigns its expression's value to the name in the innermost frame |
| Scenarios.IncludeRendersInOwnFrame | lib/compiler.js:137-139 | an include's code runs in a fresh frame and leaves the caller's bindings as they were |
| Scenarios.BlockRenderOrder | lib/compiler.js:111-118 | with an append definition the block's body renders first and the definition after; otherwise only the definition renders |
| Scenarios.CompiledTemplateRenders | lib/compiler.js:35-53 | a compiled template whose expressions never fail renders for any locals |
| Scenarios.IncludeLoadsKey | lib/compiler.js:122-142 | once an include's own nodes compile, the include hands its resolved path to the loader next, unless that path is cached by then |
| Scenarios.IncludeLoadsRelativePath | lib/compiler.js:122-134 | an include of the relative reference `ref` from the file `dir/name` hands `dir` joined with `ref` to the loader, with `dir` and `ref` made of names only (no `.`, `..` or empty segments) |
| Scenarios.IncludeFileFails | lib/compiler.js:134-135 | an include whose own nodes compile fails with the included file's error |
| Scenarios.LayoutLoadFails | lib/compiler.js:35-74 | a page whose layout cannot be loaded compiles to the loader's error, and no renderer is made: the error passes from `_processFile` (line 65) through `_process_include` (line 135) to `compile` (line 41) |
| Scenarios.RootLoadFails | lib/compiler.js:64-71 | a file that cannot be loaded or parsed compiles to the loader's or the parser's error |
| Scenarios.LayoutOverride | lib/compiler.js:104-142 | a page that includes a layout and defines its block renders the definition's text, after the layout's own text in append mode |

## Left out

- File I/O, the default `FileLoader`, `process.cwd()` and the runtime file read at load time are not modelled. The loader is a `Hooks.load` parameter, called with the resolved path.
- The template parser is not part of this model. It is the `Hooks.parse` parameter, and nodes arrive already parsed.
- AngularExpressions is not modelled. `Hooks.compileExpr` returns an evaluator, which maps bindings to a value and the writes it made.
- Of the exceptions caught by `_processFile`'s `try`, the model has the parser's error, passed on unchanged, and the stack overflow of unbounded include nesting, as `IncludeTooDeep`.
- `new Function` and the generated JavaScript text are replaced by the `Stmt` language and its interpreter. The exact text of `JSON.stringify` (which characters it escapes with `\u`) is modelled only as far as the literal evaluates back to the string.
- `escapeHtml` is a parameter of rendering, so its definition is not modelled.
- The async callbacks (`async.mapSeries`, `done`) are modelled as sequential calls returning a `Result`.
- The dispatch by string (`'_process_' + node.type`) is modelled for the node kinds only. An unknown type is not modelled.
- A bare string among an include's own nodes becomes `NotAnOverride`. In the source it is a call to a missing `_process_undefined` method, which throws.
- Compilation.CompileInclude: include nesting is bounded by a `fuel` argument and reports `IncludeTooDeep` when it runs out. The source has no bound. A template that includes itself is taken from the cache (lines 60-62) and reprocessed synchronously until the JavaScript stack overflows; the `try` at lines 66-71 then reports that error. `IncludeTooDeep` stands in for it, at a depth set by the fuel rather than by the stack.
- The mode of a definition is one of three values. Any string other than `append` or `prepend` acts as override, as in the source's `default` branch.
- Values are strings. JavaScript's `undefined`, `null` and non-string values of expressions are not modelled.
- Writes a render makes to the caller's own `locals` object are not returned.
- `var` names are assumed to be plain JavaScript identifiers, as the parser presumably produces. The source pastes the name into program text (line 170), so a name such as `a-b` makes `new Function` throw and no renderer is made, and a name such as `a.b` writes a property of another object. Such names are not modelled: `Assign` binds any name as a key of the innermost frame.
- Runtime.Render: every render starts from an empty output. The returned function (lines 43-47) does not create the output array itself; it comes from the runtime code, which runs once per compilation (line 42) and is not part of this model, so a fresh array per render is assumed.
- JavaScript object-key quirks are not modelled. These are names such as `__proto__`, and a cached entry or definition that is falsy.
- Path resolution covers posix paths only, not Windows separators.
