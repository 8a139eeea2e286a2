/**
 * The compilation of a template as a function of its inputs: what each kind
 * of node emits, how a node list is walked in order, how a file is found in
 * the parsed-template cache or loaded and parsed, and how an include nests a
 * scope. The methods of `Jobs.Job` are proved to compute exactly this.
 */
module Compilation {
  import opened Templates
  import JsLiteral
  import Paths
  import opened Overrides
  import Runtime

  /** What a job carries from one node to the next: the expression table,
      the parsed templates by resolved path, and the paths handed to the
      loader, in order. */
  datatype JobState = JobState(exprs: seq<Evaluator>, cache: map<string, seq<Node>>, loads: seq<string>)

  /** The outcome of compiling a node or a node list: the code (or the first
      error), the definitions of the current scope afterwards, and the job
      state afterwards. */
  datatype Outcome = Outcome(code: Result<Program>, defs: Defs, st: JobState)

  /** The table is only appended to, a cached template is never replaced and
      the load log only grows. */
  ghost predicate Grows(a: JobState, b: JobState)
  {
    a.exprs <= b.exprs && a.loads <= b.loads &&
    forall p :: p in a.cache ==> p in b.cache && b.cache[p] == a.cache[p]
  }

  /** `_processFile`, from the resolved `path` on: takes the parsed template
      from the cache or loads, parses and caches it, then walks its nodes in
      `sc`. A failed load or parse leaves the path logged but not cached. */
  function CompileFile(h: Hooks, fuel: nat, path: string, sc: Scope, st: JobState): (o: Outcome)
    ensures Grows(st, o.st)
    decreases fuel
  {
    if path in st.cache then CompileWalk(h, fuel, st.cache[path], sc, st, false)
    else
      var logged := st.(loads := st.loads + [path]);
      match h.load(path)
      case Err(e) => Outcome(Err(e), sc.defs, logged)
      case Ok(content) =>
        match h.parse(content)
        case Err(e) => Outcome(Err(e), sc.defs, logged)
        case Ok(nodes) => CompileWalk(h, fuel, nodes, sc, logged.(cache := logged.cache[path := nodes]), false)
  }

  /** `_processNodes` (and, with `overrides`, the loop of `_process_include`
      over an include's own nodes): the nodes one after the other, each
      seeing the definitions of the ones before, their code joined in order;
      the first error ends the walk. Plain text is not an override. */
  function CompileWalk(h: Hooks, fuel: nat, nodes: seq<Node>, sc: Scope, st: JobState, overrides: bool): (o: Outcome)
    ensures Grows(st, o.st)
    decreases fuel, nodes, 0
  {
    if nodes == [] then Outcome(Ok([]), sc.defs, st)
    else
      var o := CompileWalk(h, fuel, nodes[..|nodes| - 1], sc, st, overrides);
      if o.code.Err? then o
      else
        var last := nodes[|nodes| - 1];
        if overrides && last.Plain? then Outcome(Err(NotAnOverride(last.text)), o.defs, o.st)
        else Combine(o, CompileNode(h, fuel, last, sc.(defs := o.defs), o.st))
  }

  /** Code compiled so far followed by the outcome of what comes next: the
      next error, or both fragments joined in order. */
  function Combine(o: Outcome, next: Outcome): (r: Outcome)
    requires o.code.Ok?
    ensures r.defs == next.defs && r.st == next.st
    ensures r.code.Ok? <==> next.code.Ok?
  {
    if next.code.Err? then next else Outcome(Ok(o.code.value + next.code.value), next.defs, next.st)
  }

  /** One node (`_process_plain`, `_process_def`, `_process_block`,
      `_process_include`, `_process_expr`, `_process_var`). */
  function CompileNode(h: Hooks, fuel: nat, node: Node, sc: Scope, st: JobState): (o: Outcome)
    ensures Grows(st, o.st)
    ensures node.Plain? || node.Include? || node.Expr? || node.Var? ==> o.defs == sc.defs
    decreases fuel, node
  {
    match node
    case Plain(text) => Outcome(Ok([Push(JsLiteral.EscapeJsString(text))]), sc.defs, st)
    case Def(name, mode, nodes) =>
      var o := CompileWalk(h, fuel, nodes, sc, st, false);
      if o.code.Err? then o
      else Outcome(Ok([]), o.defs[name := Definition(mode, o.code.value)], o.st)
    case Block(name, nodes) =>
      var found := FindDefinition(name, sc);
      var o := CompileWalk(h, fuel, nodes, sc, st, false);
      if o.code.Err? then o
      else Outcome(Ok(ResolveBlock(found, o.code.value)), o.defs, o.st)
    case Include(file, nodes) => CompileInclude(h, fuel, Paths.LocalPath(sc.file, file), file, nodes, sc, st)
    case Expr(expr, buffer, escape) =>
      (match h.compileExpr(expr)
       case Err(e) => Outcome(Err(e), sc.defs, st)
       case Ok(ev) =>
         var i := |st.exprs|;
         Outcome(Ok([if buffer then PushExpr(i, escape) else Eval(i)]), sc.defs, st.(exprs := st.exprs + [ev])))
    case Var(expr, name) =>
      match h.compileExpr(expr)
      case Err(e) => Outcome(Err(e), sc.defs, st)
      case Ok(ev) => Outcome(Ok([Assign(name, |st.exprs|)]), sc.defs, st.(exprs := st.exprs + [ev]))
  }

  /** `_process_include` of `file`, whose resolved path is `key`: a new scope
      under `sc` for that path, with no definitions yet; the include's own
      nodes are compiled in it first, then the included file; the code of
      both is wrapped in one scoped statement, and the definitions of `sc`
      are left as they were. The included file is looked up under `key`
      too, since it is resolved against the file of `sc`. */
  function CompileInclude(h: Hooks, fuel: nat, key: string, file: string, nodes: seq<Node>, sc: Scope, st: JobState): (o: Outcome)
    ensures Grows(st, o.st)
    ensures o.defs == sc.defs
    ensures o.code.Ok? ==> |o.code.value| == 1 && o.code.value[0].Scoped?
    decreases fuel, nodes, 1
  {
    var inner := Scope(key, map[], Some(sc));
    var o := CompileWalk(h, fuel, nodes, inner, st, true);
    if o.code.Err? then Outcome(o.code, sc.defs, o.st)
    else if fuel == 0 then Outcome(Err(IncludeTooDeep(file)), sc.defs, o.st)
    else
      var f := CompileFile(h, fuel - 1, key, inner.(defs := o.defs), o.st);
      if f.code.Err? then Outcome(f.code, sc.defs, f.st)
      else Outcome(Ok([Scoped(o.code.value + f.code.value)]), sc.defs, f.st)
  }

  /** `Job.compile`: the file compiled in a root scope by a fresh job; the
      renderer pairs the program with the table the job built. */
  function Compile(h: Hooks, fuel: nat, file: string): Result<Renderer>
  {
    var o := CompileFile(h, fuel, Paths.LocalPath("", file), Scope(file, map[], None), JobState([], map[], []));
    match o.code
    case Err(e) => Err(e)
    case Ok(p) => Ok(Renderer(p, o.st.exprs))
  }

  /** Once a prefix of a node list fails, the rest is never compiled: the
      walk of the whole list ends with that error and that state. */
  lemma {:induction false} WalkStopsAtError(h: Hooks, fuel: nat, nodes: seq<Node>, k: nat, sc: Scope, st: JobState, overrides: bool)
    requires k <= |nodes| && CompileWalk(h, fuel, nodes[..k], sc, st, overrides).code.Err?
    ensures CompileWalk(h, fuel, nodes, sc, st, overrides) == CompileWalk(h, fuel, nodes[..k], sc, st, overrides)
    decreases |nodes|
  {
    if k < |nodes| {
      var front := nodes[..|nodes| - 1];
      assert front[..k] == nodes[..k];
      WalkStopsAtError(h, fuel, front, k, sc, st, overrides);
    } else {
      assert nodes[..k] == nodes;
    }
  }

  /** Walking two node lists one after the other is walking their
      concatenation: fragments are joined in source order, and the second
      list sees the definitions the first one made. */
  lemma {:induction false} WalkAppend(h: Hooks, fuel: nat, a: seq<Node>, b: seq<Node>, sc: Scope, st: JobState, overrides: bool)
    ensures var o := CompileWalk(h, fuel, a, sc, st, overrides);
      CompileWalk(h, fuel, a + b, sc, st, overrides) ==
        if o.code.Err? then o else Combine(o, CompileWalk(h, fuel, b, sc.(defs := o.defs), o.st, overrides))
    decreases |b|
  {
    var o := CompileWalk(h, fuel, a, sc, st, overrides);
    if b == [] {
      assert a + b == a;
      if o.code.Ok? {
        assert o.code.value + [] == o.code.value;
      }
    } else {
      var front := b[..|b| - 1];
      assert b == front + [b[|b| - 1]];
      WalkAppend(h, fuel, a, front, sc, st, overrides);
      if o.code.Ok? {
        WalkAppendStep(h, fuel, a, front, b[|b| - 1], sc, st, overrides);
      } else {
        assert (a + b)[..|a + b| - 1] == a + front;
      }
    }
  }

  /** The step of `WalkAppend` that adds one node to a successful prefix. */
  lemma WalkAppendStep(h: Hooks, fuel: nat, a: seq<Node>, front: seq<Node>, last: Node, sc: Scope, st: JobState, overrides: bool)
    requires CompileWalk(h, fuel, a, sc, st, overrides).code.Ok?
    requires var o := CompileWalk(h, fuel, a, sc, st, overrides);
      CompileWalk(h, fuel, a + front, sc, st, overrides) ==
        Combine(o, CompileWalk(h, fuel, front, sc.(defs := o.defs), o.st, overrides))
    ensures var o := CompileWalk(h, fuel, a, sc, st, overrides);
      CompileWalk(h, fuel, a + (front + [last]), sc, st, overrides) ==
        Combine(o, CompileWalk(h, fuel, front + [last], sc.(defs := o.defs), o.st, overrides))
  {
    var o := CompileWalk(h, fuel, a, sc, st, overrides);
    var b := front + [last];
    assert a + b == (a + front) + [last];
    var sc' := sc.(defs := o.defs);
    var f := CompileWalk(h, fuel, front, sc', o.st, overrides);
    if f.code.Ok? && !(overrides && last.Plain?) {
      assert sc'.(defs := f.defs) == sc.(defs := f.defs);
      var n := CompileNode(h, fuel, last, sc.(defs := f.defs), f.st);
      CombineAssoc(o, f, n);
      WalkLast(h, fuel, b, front, last, sc', o.st, overrides);
      WalkLast(h, fuel, a + b, a + front, last, sc, st, overrides);
    }
  }

  /** The one-step unfolding of a walk past a successful prefix. */
  lemma WalkLast(h: Hooks, fuel: nat, nodes: seq<Node>, front: seq<Node>, last: Node, sc: Scope, st: JobState, overrides: bool)
    requires nodes == front + [last]
    requires CompileWalk(h, fuel, front, sc, st, overrides).code.Ok?
    requires !(overrides && last.Plain?)
    ensures var o := CompileWalk(h, fuel, front, sc, st, overrides);
      CompileWalk(h, fuel, nodes, sc, st, overrides) == Combine(o, CompileNode(h, fuel, last, sc.(defs := o.defs), o.st))
  {
    assert nodes[..|nodes| - 1] == front;
  }

  lemma CombineAssoc(o: Outcome, f: Outcome, n: Outcome)
    requires o.code.Ok? && f.code.Ok?
    ensures Combine(o, f).code.Ok?
    ensures Combine(o, Combine(f, n)) == Combine(Combine(o, f), n)
  {
    if n.code.Ok? {
      assert o.code.value + f.code.value + n.code.value == o.code.value + (f.code.value + n.code.value);
    }
  }

  /** No path is handed to the loader twice. */
  ghost predicate NoDup(s: seq<string>)
  {
    forall i, j :: 0 <= i < j < |s| ==> s[i] != s[j]
  }

  /** The loader was asked for exactly the cached paths, each once. */
  ghost predicate LogMatchesCache(st: JobState)
  {
    NoDup(st.loads) && forall p :: p in st.loads <==> p in st.cache
  }

  /** A job loads each path at most once: a cached template is reused, and
      after a successful compilation the cache holds every loaded path. */
  lemma {:induction false} FileLoadsOnce(h: Hooks, fuel: nat, path: string, sc: Scope, st: JobState)
    requires LogMatchesCache(st)
    ensures NoDup(CompileFile(h, fuel, path, sc, st).st.loads)
    ensures CompileFile(h, fuel, path, sc, st).code.Ok? ==> LogMatchesCache(CompileFile(h, fuel, path, sc, st).st)
    decreases fuel
  {
    if path in st.cache {
      WalkLoadsOnce(h, fuel, st.cache[path], sc, st, false);
    } else {
      var logged := st.(loads := st.loads + [path]);
      assert NoDup(logged.loads);
      match h.load(path)
      case Err(_) =>
      case Ok(content) =>
        match h.parse(content)
        case Err(_) =>
        case Ok(nodes) =>
          WalkLoadsOnce(h, fuel, nodes, sc, logged.(cache := logged.cache[path := nodes]), false);
    }
  }

  lemma {:induction false} WalkLoadsOnce(h: Hooks, fuel: nat, nodes: seq<Node>, sc: Scope, st: JobState, overrides: bool)
    requires LogMatchesCache(st)
    ensures NoDup(CompileWalk(h, fuel, nodes, sc, st, overrides).st.loads)
    ensures CompileWalk(h, fuel, nodes, sc, st, overrides).code.Ok? ==>
      LogMatchesCache(CompileWalk(h, fuel, nodes, sc, st, overrides).st)
    decreases fuel, nodes, 0
  {
    if nodes != [] {
      var front := nodes[..|nodes| - 1];
      WalkLoadsOnce(h, fuel, front, sc, st, overrides);
      var o := CompileWalk(h, fuel, front, sc, st, overrides);
      if o.code.Ok? {
        NodeLoadsOnce(h, fuel, nodes[|nodes| - 1], sc.(defs := o.defs), o.st);
      }
    }
  }

  lemma {:induction false} NodeLoadsOnce(h: Hooks, fuel: nat, node: Node, sc: Scope, st: JobState)
    requires LogMatchesCache(st)
    ensures NoDup(CompileNode(h, fuel, node, sc, st).st.loads)
    ensures CompileNode(h, fuel, node, sc, st).code.Ok? ==> LogMatchesCache(CompileNode(h, fuel, node, sc, st).st)
    decreases fuel, node
  {
    match node
    case Plain(_) =>
    case Def(_, _, nodes) => WalkLoadsOnce(h, fuel, nodes, sc, st, false);
    case Block(_, nodes) => WalkLoadsOnce(h, fuel, nodes, sc, st, false);
    case Include(file, nodes) => IncludeLoadsOnce(h, fuel, Paths.LocalPath(sc.file, file), file, nodes, sc, st);
    case Expr(_, _, _) =>
    case Var(_, _) =>
  }

  lemma {:induction false} IncludeLoadsOnce(h: Hooks, fuel: nat, key: string, file: string, nodes: seq<Node>, sc: Scope, st: JobState)
    requires LogMatchesCache(st)
    ensures NoDup(CompileInclude(h, fuel, key, file, nodes, sc, st).st.loads)
    ensures CompileInclude(h, fuel, key, file, nodes, sc, st).code.Ok? ==>
      LogMatchesCache(CompileInclude(h, fuel, key, file, nodes, sc, st).st)
    decreases fuel, nodes, 1
  {
    var inner := Scope(key, map[], Some(sc));
    WalkLoadsOnce(h, fuel, nodes, inner, st, true);
    var o := CompileWalk(h, fuel, nodes, inner, st, true);
    if o.code.Ok? && fuel > 0 {
      FileLoadsOnce(h, fuel - 1, key, inner.(defs := o.defs), o.st);
    }
  }

  /** A template that was not cached yet is loaded, parsed and cached under
      its resolved path, and the cached nodes are exactly the parsed ones. */
  lemma ParsedTemplateCached(h: Hooks, fuel: nat, path: string, sc: Scope, st: JobState, content: string, nodes: seq<Node>)
    requires path !in st.cache
    requires h.load(path) == Ok(content) && h.parse(content) == Ok(nodes)
    ensures var o := CompileFile(h, fuel, path, sc, st);
      path in o.st.cache && o.st.cache[path] == nodes && st.loads + [path] <= o.st.loads
  {
  }

  /** A template that was not cached yet is handed to the loader under its
      resolved path, whether or not loading and parsing then succeed. */
  lemma UncachedFileLoaded(h: Hooks, fuel: nat, path: string, sc: Scope, st: JobState)
    requires path !in st.cache
    ensures st.loads + [path] <= CompileFile(h, fuel, path, sc, st).st.loads
  {
    var logged := st.(loads := st.loads + [path]);
    var o := CompileFile(h, fuel, path, sc, st);
    assert Grows(logged, o.st) by {
      if h.load(path).Ok? && h.parse(h.load(path).value).Ok? {
        var nodes := h.parse(h.load(path).value).value;
        assert o == CompileWalk(h, fuel, nodes, sc, logged.(cache := logged.cache[path := nodes]), false);
      }
    }
  }

  /** A template already in the cache is compiled from the cached nodes and
      its path is not handed to the loader again. */
  lemma CachedTemplateNotReloaded(h: Hooks, fuel: nat, path: string, sc: Scope, st: JobState)
    requires path in st.cache && LogMatchesCache(st)
    ensures var o := CompileFile(h, fuel, path, sc, st);
      o == CompileWalk(h, fuel, st.cache[path], sc, st, false) &&
      forall i :: |st.loads| <= i < |o.st.loads| ==> o.st.loads[i] != path
  {
    var o := CompileFile(h, fuel, path, sc, st);
    FileLoadsOnce(h, fuel, path, sc, st);
    var k :| 0 <= k < |st.loads| && st.loads[k] == path;
    assert o.st.loads[k] == path;
  }

  /** Every definition of a map compiles to code that only refers to the
      first `n` table entries. */
  ghost predicate DefsOk(defs: Defs, n: nat)
  {
    forall k :: k in defs ==> Runtime.ProgramOk(defs[k].code, n)
  }

  ghost predicate ScopeOk(sc: Scope, n: nat)
    decreases sc
  {
    DefsOk(sc.defs, n) && (sc.parent.Some? ==> ScopeOk(sc.parent.value, n))
  }

  lemma {:induction false} ScopeOkGrows(sc: Scope, n: nat, n': nat)
    requires ScopeOk(sc, n) && n <= n'
    ensures ScopeOk(sc, n')
    decreases sc
  {
    forall k | k in sc.defs ensures Runtime.ProgramOk(sc.defs[k].code, n') {
      Runtime.ProgramOkGrows(sc.defs[k].code, n, n');
    }
    if sc.parent.Some? {
      ScopeOkGrows(sc.parent.value, n, n');
    }
  }

  lemma {:induction false} FoundDefinitionOk(name: string, sc: Scope, n: nat)
    requires ScopeOk(sc, n) && FindDefinition(name, sc).Some?
    ensures Runtime.ProgramOk(FindDefinition(name, sc).value.code, n)
    decreases sc
  {
    if name !in sc.defs {
      FoundDefinitionOk(name, sc.parent.value, n);
    }
  }

  /** Compiled code only refers to table entries that exist when the job
      ends, and each literal it pushes is a valid string literal. */
  lemma {:induction false} FileWellFormed(h: Hooks, fuel: nat, path: string, sc: Scope, st: JobState)
    requires ScopeOk(sc, |st.exprs|)
    ensures var o := CompileFile(h, fuel, path, sc, st);
      DefsOk(o.defs, |o.st.exprs|) && (o.code.Ok? ==> Runtime.ProgramOk(o.code.value, |o.st.exprs|))
    decreases fuel
  {
    if path in st.cache {
      WalkWellFormed(h, fuel, st.cache[path], sc, st, false);
    } else {
      var logged := st.(loads := st.loads + [path]);
      match h.load(path)
      case Err(_) =>
      case Ok(content) =>
        match h.parse(content)
        case Err(_) =>
        case Ok(nodes) =>
          WalkWellFormed(h, fuel, nodes, sc, logged.(cache := logged.cache[path := nodes]), false);
    }
  }

  lemma {:induction false} WalkWellFormed(h: Hooks, fuel: nat, nodes: seq<Node>, sc: Scope, st: JobState, overrides: bool)
    requires ScopeOk(sc, |st.exprs|)
    ensures var o := CompileWalk(h, fuel, nodes, sc, st, overrides);
      DefsOk(o.defs, |o.st.exprs|) && (o.code.Ok? ==> Runtime.ProgramOk(o.code.value, |o.st.exprs|))
    decreases fuel, nodes, 0
  {
    if nodes != [] {
      var front := nodes[..|nodes| - 1];
      WalkWellFormed(h, fuel, front, sc, st, overrides);
      var o := CompileWalk(h, fuel, front, sc, st, overrides);
      var last := nodes[|nodes| - 1];
      if o.code.Ok? && !(overrides && last.Plain?) {
        if sc.parent.Some? {
          ScopeOkGrows(sc.parent.value, |st.exprs|, |o.st.exprs|);
        }
        var sc' := sc.(defs := o.defs);
        assert ScopeOk(sc', |o.st.exprs|);
        NodeWellFormed(h, fuel, last, sc', o.st);
        var o' := CompileNode(h, fuel, last, sc', o.st);
        if o'.code.Ok? {
          Runtime.ProgramOkGrows(o.code.value, |o.st.exprs|, |o'.st.exprs|);
          Runtime.ProgramOkAppend(o.code.value, o'.code.value, |o'.st.exprs|);
        }
      }
    }
  }

  lemma {:induction false} DefsOkGrows(defs: Defs, n: nat, n': nat)
    requires DefsOk(defs, n) && n <= n'
    ensures DefsOk(defs, n')
  {
    forall k | k in defs ensures Runtime.ProgramOk(defs[k].code, n') {
      Runtime.ProgramOkGrows(defs[k].code, n, n');
    }
  }

  lemma {:induction false} NodeWellFormed(h: Hooks, fuel: nat, node: Node, sc: Scope, st: JobState)
    requires ScopeOk(sc, |st.exprs|)
    ensures var o := CompileNode(h, fuel, node, sc, st);
      DefsOk(o.defs, |o.st.exprs|) && (o.code.Ok? ==> Runtime.ProgramOk(o.code.value, |o.st.exprs|))
    decreases fuel, node, 1
  {
    var o := CompileNode(h, fuel, node, sc, st);
    match node
    case Plain(text) =>
      JsLiteral.EscapeJsStringRoundTrip(text);
      assert Runtime.StmtOk(o.code.value[0], |o.st.exprs|);
    case Def(name, mode, nodes) =>
      WalkWellFormed(h, fuel, nodes, sc, st, false);
    case Block(name, nodes) =>
      BlockWellFormed(h, fuel, node, sc, st);
    case Include(file, nodes) =>
      IncludeWellFormed(h, fuel, Paths.LocalPath(sc.file, file), file, nodes, sc, st);
    case Expr(_, _, _) =>
      DefsOkGrows(sc.defs, |st.exprs|, |o.st.exprs|);
      if o.code.Ok? {
        assert Runtime.StmtOk(o.code.value[0], |o.st.exprs|);
      }
    case Var(_, _) =>
      DefsOkGrows(sc.defs, |st.exprs|, |o.st.exprs|);
      if o.code.Ok? {
        assert Runtime.StmtOk(o.code.value[0], |o.st.exprs|);
      }
  }

  lemma {:induction false} BlockWellFormed(h: Hooks, fuel: nat, node: Node, sc: Scope, st: JobState)
    requires node.Block? && ScopeOk(sc, |st.exprs|)
    ensures var o := CompileNode(h, fuel, node, sc, st);
      DefsOk(o.defs, |o.st.exprs|) && (o.code.Ok? ==> Runtime.ProgramOk(o.code.value, |o.st.exprs|))
    decreases fuel, node, 0
  {
    WalkWellFormed(h, fuel, node.nodes, sc, st, false);
    var w := CompileWalk(h, fuel, node.nodes, sc, st, false);
    var found := FindDefinition(node.name, sc);
    if w.code.Ok? && found.Some? {
      FoundDefinitionOk(node.name, sc, |st.exprs|);
      Runtime.ProgramOkGrows(found.value.code, |st.exprs|, |w.st.exprs|);
      Runtime.ProgramOkAppend(w.code.value, found.value.code, |w.st.exprs|);
    }
  }

  lemma {:induction false} IncludeWellFormed(h: Hooks, fuel: nat, key: string, file: string, nodes: seq<Node>, sc: Scope, st: JobState)
    requires ScopeOk(sc, |st.exprs|)
    ensures var o := CompileInclude(h, fuel, key, file, nodes, sc, st);
      DefsOk(o.defs, |o.st.exprs|) && (o.code.Ok? ==> Runtime.ProgramOk(o.code.value, |o.st.exprs|))
    decreases fuel, nodes, 1
  {
    var inner := Scope(key, map[], Some(sc));
    WalkWellFormed(h, fuel, nodes, inner, st, true);
    var w := CompileWalk(h, fuel, nodes, inner, st, true);
    DefsOkGrows(sc.defs, |st.exprs|, |w.st.exprs|);
    if w.code.Ok? && fuel > 0 {
      ScopeOkGrows(sc, |st.exprs|, |w.st.exprs|);
      var inner' := inner.(defs := w.defs);
      assert ScopeOk(inner', |w.st.exprs|);
      FileWellFormed(h, fuel - 1, key, inner', w.st);
      IncludedFileWellFormed(w, CompileFile(h, fuel - 1, key, inner', w.st), sc.defs);
    }
  }

  /** The last step of `IncludeWellFormed`: the overrides' code and the
      included file's code, both well formed, wrapped in one statement. */
  lemma IncludedFileWellFormed(w: Outcome, f: Outcome, defs: Defs)
    requires w.code.Ok? && Runtime.ProgramOk(w.code.value, |w.st.exprs|)
    requires DefsOk(defs, |w.st.exprs|) && w.st.exprs <= f.st.exprs
    requires f.code.Ok? ==> Runtime.ProgramOk(f.code.value, |f.st.exprs|)
    ensures DefsOk(defs, |f.st.exprs|)
    ensures f.code.Ok? ==> Runtime.ProgramOk([Scoped(w.code.value + f.code.value)], |f.st.exprs|)
  {
    DefsOkGrows(defs, |w.st.exprs|, |f.st.exprs|);
    if f.code.Ok? {
      Runtime.ProgramOkGrows(w.code.value, |w.st.exprs|, |f.st.exprs|);
      Runtime.ProgramOkAppend(w.code.value, f.code.value, |f.st.exprs|);
      assert Runtime.StmtOk(Scoped(w.code.value + f.code.value), |f.st.exprs|);
    }
  }

  /** A successful compilation hands back a program that fits its table. */
  lemma CompiledProgramWellFormed(h: Hooks, fuel: nat, file: string)
    requires Compile(h, fuel, file).Ok?
    ensures Runtime.ProgramOk(Compile(h, fuel, file).value.program, |Compile(h, fuel, file).value.table|)
  {
    FileWellFormed(h, fuel, Paths.LocalPath("", file), Scope(file, map[], None), JobState([], map[], []));
  }

  /** A definition is visible to the blocks after it: a `def` followed by a
      block of the same name yields the block merged with that definition. */
  lemma DefThenBlock(h: Hooks, fuel: nat, name: string, mode: Mode, defBody: seq<Node>, blockBody: seq<Node>, sc: Scope, st: JobState)
    requires CompileWalk(h, fuel, defBody, sc, st, false).code.Ok?
    ensures var d := CompileWalk(h, fuel, defBody, sc, st, false);
      var def := Definition(mode, d.code.value);
      var b := CompileWalk(h, fuel, blockBody, sc.(defs := d.defs[name := def]), d.st, false);
      var o := CompileWalk(h, fuel, [Def(name, mode, defBody), Block(name, blockBody)], sc, st, false);
      o.code == (if b.code.Ok? then Ok(ResolveBlock(Some(def), b.code.value)) else b.code)
  {
    var d := CompileWalk(h, fuel, defBody, sc, st, false);
    var def := Definition(mode, d.code.value);
    var nodes := [Def(name, mode, defBody), Block(name, blockBody)];
    var empty := CompileWalk(h, fuel, [], sc, st, false);
    assert empty == Outcome(Ok([]), sc.defs, st);
    assert sc.(defs := sc.defs) == sc;
    var first := CompileNode(h, fuel, Def(name, mode, defBody), sc, st);
    assert first == Outcome(Ok([]), d.defs[name := def], d.st);
    assert [Def(name, mode, defBody)][..0] == [];
    var o1 := CompileWalk(h, fuel, [Def(name, mode, defBody)], sc, st, false);
    assert o1 == Combine(empty, first);
    var none: Program := [];
    assert none + none == none;
    assert o1.code == Ok([]) && o1.defs == d.defs[name := def] && o1.st == d.st;
    var sc' := sc.(defs := d.defs[name := def]);
    InnermostWins(name, def, sc.(defs := d.defs));
    assert sc.(defs := d.defs).(defs := d.defs[name := def]) == sc';
    assert FindDefinition(name, sc') == Some(def);
    var second := CompileNode(h, fuel, Block(name, blockBody), sc', d.st);
    assert nodes[..|nodes| - 1] == [Def(name, mode, defBody)];
    assert CompileWalk(h, fuel, nodes, sc, st, false) == Combine(o1, second);
    var b := CompileWalk(h, fuel, blockBody, sc', d.st, false);
    if b.code.Ok? {
      assert [] + ResolveBlock(Some(def), b.code.value) == ResolveBlock(Some(def), b.code.value);
    }
  }

  /** Nodes that are neither definitions nor blocks leave the definitions
      of the scope they are compiled in as they were. */
  lemma {:induction false} WalkKeepsDefs(h: Hooks, fuel: nat, nodes: seq<Node>, sc: Scope, st: JobState, overrides: bool)
    requires forall i :: 0 <= i < |nodes| ==> !nodes[i].Def? && !nodes[i].Block?
    ensures CompileWalk(h, fuel, nodes, sc, st, overrides).defs == sc.defs
    decreases |nodes|
  {
    if nodes != [] {
      WalkKeepsDefs(h, fuel, nodes[..|nodes| - 1], sc, st, overrides);
    }
  }

  /** A `def` whose body makes no definitions of its own stores exactly one
      entry, under its name, and leaves every other entry untouched. */
  lemma DefStoresOnlyItsName(h: Hooks, fuel: nat, name: string, mode: Mode, body: seq<Node>, sc: Scope, st: JobState)
    requires forall i :: 0 <= i < |body| ==> !body[i].Def? && !body[i].Block?
    requires CompileNode(h, fuel, Def(name, mode, body), sc, st).code.Ok?
    ensures var o := CompileNode(h, fuel, Def(name, mode, body), sc, st);
      o.code == Ok([]) && name in o.defs && o.defs[name].mode == mode &&
      o.defs[name].code == CompileWalk(h, fuel, body, sc, st, false).code.value &&
      forall k :: k != name ==> (k in o.defs <==> k in sc.defs) && (k in sc.defs ==> o.defs[k] == sc.defs[k])
  {
    WalkKeepsDefs(h, fuel, body, sc, st, false);
  }
}
