/**
 * The compiler's job object and its contexts, as the source runs them: a
 * `Job` owns the expression table and the parsed-template cache and updates
 * them in place as it visits nodes; a `Context` holds the definitions of one
 * scope, updated in place by `def` nodes, and points to its enclosing context.
 * Every method is proved to compute what `Compilation` specifies.
 */
module Jobs {
  import opened Templates
  import JsLiteral
  import Paths
  import opened Overrides
  import opened Compilation

  /** A compilation context (`ctx`). */
  class Context {
    const file: string
    const parent: Context?
    var defs: Defs
    ghost const depth: nat
    ghost const ancestors: set<Context>

    /** The chain of enclosing contexts is finite and never loops back. */
    ghost predicate Linked()
      decreases depth
    {
      (forall a :: a in ancestors ==> a.depth < depth) &&
      if parent == null then ancestors == {}
      else parent.depth < depth && ancestors == {parent} + parent.ancestors && parent.Linked()
    }

    /** The context as a value: its file, its definitions now, and the value
        of its enclosing context. */
    function View(): Scope
      reads this, ancestors
      requires Linked()
      decreases depth
    {
      Scope(file, defs, if parent == null then None else Some(parent.View()))
    }

    /** A context with no definitions yet (`{file, defs: {}}`, or with
        `parent` for an include). */
    constructor (file: string, parent: Context?)
      requires parent != null ==> parent.Linked()
      ensures Linked() && this.file == file && this.parent == parent
      ensures View() == Scope(file, map[], if parent == null then None else Some(parent.View()))
    {
      this.file := file;
      this.parent := parent;
      defs := map[];
      if parent == null {
        depth := 0;
        ancestors := {};
      } else {
        depth := parent.depth + 1;
        ancestors := {parent} + parent.ancestors;
      }
    }
  }

  /** A compilation job (`Job`). `loaded` records, for the proofs only, the
      paths handed to the loader. */
  class Job {
    const hooks: Hooks
    const file: string
    var expressions: seq<Evaluator>
    var cachedNodes: map<string, seq<Node>>
    ghost var loaded: seq<string>

    ghost function State(): JobState
      reads this
    {
      JobState(expressions, cachedNodes, loaded)
    }

    constructor (hooks: Hooks, file: string)
      ensures this.hooks == hooks && this.file == file
      ensures State() == JobState([], map[], [])
    {
      this.hooks := hooks;
      this.file := file;
      expressions := [];
      cachedNodes := map[];
      loaded := [];
    }

    /** `compile`: processes the job's file in a root context and pairs the
        code with the expression table. */
    method Compile(fuel: nat) returns (r: Result<Renderer>)
      requires State() == JobState([], map[], [])
      modifies this
      ensures r == Compilation.Compile(hooks, fuel, file)
    {
      var root := new Context(file, null);
      var code := ProcessFile(fuel, Paths.LocalPath("", file), root);
      if code.Err? {
        return Err(code.error);
      }
      r := Ok(Renderer(code.value, expressions));
    }

    /** `_processFile`, given the file already resolved against the file of
        the enclosing context (`path`): the cached template, or the loaded
        and parsed one, which is cached; then its nodes. */
    method ProcessFile(fuel: nat, path: string, ctx: Context) returns (r: Result<Program>)
      requires ctx.Linked()
      modifies this, ctx
      ensures Outcome(r, ctx.defs, State()) == CompileFile(hooks, fuel, path, old(ctx.View()), old(State()))
      ensures ctx.View() == old(ctx.View()).(defs := ctx.defs)
      decreases fuel
    {
      if path in cachedNodes {
        r := ProcessNodes(fuel, cachedNodes[path], ctx);
        return;
      }
      loaded := loaded + [path];
      var content := hooks.load(path);
      if content.Err? {
        return Err(content.error);
      }
      var nodes := hooks.parse(content.value);
      if nodes.Err? {
        return Err(nodes.error);
      }
      cachedNodes := cachedNodes[path := nodes.value];
      r := ProcessNodes(fuel, nodes.value, ctx);
    }

    /** `_processNodes`: the nodes in order, stopping at the first error. */
    method ProcessNodes(fuel: nat, nodes: seq<Node>, ctx: Context) returns (r: Result<Program>)
      requires ctx.Linked()
      modifies this, ctx
      ensures Outcome(r, ctx.defs, State()) == CompileWalk(hooks, fuel, nodes, old(ctx.View()), old(State()), false)
      ensures ctx.View() == old(ctx.View()).(defs := ctx.defs)
      decreases fuel, nodes
    {
      var code: Program := [];
      var i := 0;
      while i < |nodes|
        invariant 0 <= i <= |nodes|
        invariant ctx.View() == old(ctx.View()).(defs := ctx.defs)
        invariant Outcome(Ok(code), ctx.defs, State()) ==
          CompileWalk(hooks, fuel, nodes[..i], old(ctx.View()), old(State()), false)
      {
        assert nodes[..i + 1][..i] == nodes[..i];
        var c := ProcessNode(fuel, nodes[i], ctx);
        if c.Err? {
          WalkStopsAtError(hooks, fuel, nodes, i + 1, old(ctx.View()), old(State()), false);
          return c;
        }
        code := code + c.value;
        i := i + 1;
      }
      assert nodes[..i] == nodes;
      r := Ok(code);
    }

    /** The `_process_<type>` dispatch. */
    method ProcessNode(fuel: nat, node: Node, ctx: Context) returns (r: Result<Program>)
      requires ctx.Linked()
      modifies this, ctx
      ensures Outcome(r, ctx.defs, State()) == CompileNode(hooks, fuel, node, old(ctx.View()), old(State()))
      ensures ctx.View() == old(ctx.View()).(defs := ctx.defs)
      decreases fuel, node, 1
    {
      match node
      case Plain(text) => r := ProcessPlain(text);
      case Def(_, _, _) => r := ProcessDef(fuel, node, ctx);
      case Block(_, _) => r := ProcessBlock(fuel, node, ctx);
      case Include(_, _) => r := ProcessInclude(fuel, Paths.LocalPath(ctx.file, node.file), node, ctx);
      case Expr(_, _, _) => r := ProcessExpr(node);
      case Var(_, _) => r := ProcessVar(node);
    }

    /** `_process_plain`: one push of a literal that evaluates to the text. */
    method ProcessPlain(text: string) returns (r: Result<Program>)
      ensures r == Ok([Push(JsLiteral.EscapeJsString(text))])
      ensures JsLiteral.LiteralValue(r.value[0].literal) == Some(text)
    {
      JsLiteral.EscapeJsStringRoundTrip(text);
      r := Ok([Push(JsLiteral.EscapeJsString(text))]);
    }

    /** `_process_def`: compiles the body and stores it under the name in
        the current context; emits nothing. */
    method ProcessDef(fuel: nat, node: Node, ctx: Context) returns (r: Result<Program>)
      requires node.Def? && ctx.Linked()
      modifies this, ctx
      ensures Outcome(r, ctx.defs, State()) == CompileNode(hooks, fuel, node, old(ctx.View()), old(State()))
      ensures ctx.View() == old(ctx.View()).(defs := ctx.defs)
      decreases fuel, node, 0
    {
      var code := ProcessNodes(fuel, node.nodes, ctx);
      if code.Err? {
        return code;
      }
      ctx.defs := ctx.defs[node.name := Definition(node.mode, code.value)];
      r := Ok([]);
    }

    /** `_process_block`: looks the name up before compiling the body, then
        merges the two by the definition's mode. */
    method ProcessBlock(fuel: nat, node: Node, ctx: Context) returns (r: Result<Program>)
      requires node.Block? && ctx.Linked()
      modifies this, ctx
      ensures Outcome(r, ctx.defs, State()) == CompileNode(hooks, fuel, node, old(ctx.View()), old(State()))
      ensures ctx.View() == old(ctx.View()).(defs := ctx.defs)
      decreases fuel, node, 0
    {
      var found := FindDefinition(node.name, ctx.View());
      var code := ProcessNodes(fuel, node.nodes, ctx);
      if code.Err? {
        return code;
      }
      r := Ok(ResolveBlock(found, code.value));
    }

    /** `_process_include`, given the included file resolved against the
        current one (`key`): a fresh context for that path under the current
        one, the include's own nodes in it, then the included file in it,
        all wrapped in one scoped statement. The current context is left
        unchanged. */
    method ProcessInclude(fuel: nat, key: string, node: Node, ctx: Context) returns (r: Result<Program>)
      requires node.Include? && ctx.Linked()
      modifies this, ctx
      ensures Outcome(r, ctx.defs, State()) == CompileInclude(hooks, fuel, key, node.file, node.nodes, old(ctx.View()), old(State()))
      ensures ctx.View() == old(ctx.View())
      decreases fuel, node, 0
    {
      ghost var sc := ctx.View();
      var inner := new Context(key, ctx);
      assert inner.View() == Scope(key, map[], Some(sc));
      var code := ProcessOverrides(fuel, node.nodes, inner);
      assert ctx.View() == sc;
      if code.Err? {
        return code;
      }
      if fuel == 0 {
        return Err(IncludeTooDeep(node.file));
      }
      var body := ProcessFile(fuel - 1, key, inner);
      assert ctx.View() == sc;
      if body.Err? {
        return body;
      }
      r := Ok([Scoped(code.value + body.value)]);
    }

    /** The loop of `_process_include` over the include's own nodes: each is
        compiled in the include's context; plain text is refused. */
    method ProcessOverrides(fuel: nat, nodes: seq<Node>, inner: Context) returns (r: Result<Program>)
      requires inner.Linked()
      modifies this, inner
      ensures Outcome(r, inner.defs, State()) == CompileWalk(hooks, fuel, nodes, old(inner.View()), old(State()), true)
      ensures inner.View() == old(inner.View()).(defs := inner.defs)
      decreases fuel, nodes
    {
      var code: Program := [];
      var i := 0;
      while i < |nodes|
        invariant 0 <= i <= |nodes|
        invariant inner.View() == old(inner.View()).(defs := inner.defs)
        invariant Outcome(Ok(code), inner.defs, State()) ==
          CompileWalk(hooks, fuel, nodes[..i], old(inner.View()), old(State()), true)
      {
        assert nodes[..i + 1][..i] == nodes[..i];
        var n := nodes[i];
        if n.Plain? {
          WalkStopsAtError(hooks, fuel, nodes, i + 1, old(inner.View()), old(State()), true);
          return Err(NotAnOverride(n.text));
        }
        var c := ProcessNode(fuel, n, inner);
        if c.Err? {
          WalkStopsAtError(hooks, fuel, nodes, i + 1, old(inner.View()), old(State()), true);
          return c;
        }
        code := code + c.value;
        i := i + 1;
      }
      assert nodes[..i] == nodes;
      r := Ok(code);
    }

    /** `_process_expr`: appends the compiled expression to the table and
        refers to it by its index. */
    method ProcessExpr(node: Node) returns (r: Result<Program>)
      requires node.Expr?
      modifies this
      ensures r.Ok? <==> hooks.compileExpr(node.expr).Ok?
      ensures r.Ok? ==> expressions == old(expressions) + [hooks.compileExpr(node.expr).value]
      ensures r.Err? ==> expressions == old(expressions)
      ensures r.Ok? && node.buffer ==> r.value == [PushExpr(|old(expressions)|, node.escape)]
      ensures r.Ok? && !node.buffer ==> r.value == [Eval(|old(expressions)|)]
      ensures r.Err? ==> r.error == hooks.compileExpr(node.expr).error
      ensures cachedNodes == old(cachedNodes) && loaded == old(loaded)
    {
      var ev := hooks.compileExpr(node.expr);
      if ev.Err? {
        return Err(ev.error);
      }
      expressions := expressions + [ev.value];
      var index := |expressions| - 1;
      if node.buffer {
        r := Ok([PushExpr(index, node.escape)]);
      } else {
        r := Ok([Eval(index)]);
      }
    }

    /** `_process_var`: appends the compiled expression to the table and
        assigns its value to the name. */
    method ProcessVar(node: Node) returns (r: Result<Program>)
      requires node.Var?
      modifies this
      ensures r.Ok? <==> hooks.compileExpr(node.expr).Ok?
      ensures r.Ok? ==> expressions == old(expressions) + [hooks.compileExpr(node.expr).value]
      ensures r.Err? ==> expressions == old(expressions)
      ensures r.Ok? ==> r.value == [Assign(node.name, |old(expressions)|)]
      ensures r.Err? ==> r.error == hooks.compileExpr(node.expr).error
      ensures cachedNodes == old(cachedNodes) && loaded == old(loaded)
    {
      var ev := hooks.compileExpr(node.expr);
      if ev.Err? {
        return Err(ev.error);
      }
      expressions := expressions + [ev.value];
      var index := |expressions| - 1;
      r := Ok([Assign(node.name, index)]);
    }
  }

  /** `Compiler.prototype.compile`: a new job for the file, compiled. */
  method CompileTemplate(hooks: Hooks, fuel: nat, file: string) returns (r: Result<Renderer>)
    ensures r == Compilation.Compile(hooks, fuel, file)
  {
    var job := new Job(hooks, file);
    r := job.Compile(fuel);
  }
}
