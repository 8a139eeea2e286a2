/**
 * What compiled templates do when rendered: the code each kind of node
 * compiles to, run against the table the job builds, and a layout whose
 * block is overridden from the page that includes it.
 */
module Scenarios {
  import opened Templates
  import JsLiteral
  import Paths
  import opened Overrides
  import Compilation
  import Runtime

  /** Plain text renders as itself and touches no locals. */
  lemma PlainRenders(h: Hooks, fuel: nat, text: string, sc: Scope, st: Compilation.JobState,
                     table: seq<Evaluator>, escape: Value -> string, m: Runtime.Machine)
    requires |m.frames| >= 1
    ensures var o := Compilation.CompileNode(h, fuel, Plain(text), sc, st);
      o.code.Ok? && o.st == st && Runtime.Run(o.code.value, table, escape, m) == Ok(m.(out := m.out + text))
  {
    Runtime.PushTextOutputsText(text, table, escape, m);
  }

  /** An expression is stored at the next index of the table; rendered, a
      buffered one outputs its value (through `escape` when asked to) and an
      unbuffered one outputs nothing; either way its writes land in the
      innermost frame of locals. */
  lemma ExprRenders(h: Hooks, fuel: nat, expr: string, buffer: bool, escaped: bool, sc: Scope, st: Compilation.JobState,
                    table: seq<Evaluator>, escape: Value -> string, m: Runtime.Machine)
    requires |m.frames| >= 1 && h.compileExpr(expr).Ok?
    requires |st.exprs| < |table| && table[|st.exprs|] == h.compileExpr(expr).value
    ensures var o := Compilation.CompileNode(h, fuel, Expr(expr, buffer, escaped), sc, st);
      o.code.Ok? && o.st.exprs == st.exprs + [h.compileExpr(expr).value] &&
      Runtime.Run(o.code.value, table, escape, m) ==
        match h.compileExpr(expr).value(Runtime.Visible(m.frames))
        case Err(e) => Err(e)
        case Ok(eff) =>
          var shown := if !buffer then "" else if escaped then escape(eff.value) else eff.value;
          Ok(Runtime.Machine(m.out + shown, Runtime.WriteLocal(m.frames, eff.writes)))
  {
    var o := Compilation.CompileNode(h, fuel, Expr(expr, buffer, escaped), sc, st);
    var s := o.code.value[0];
    assert o.code.value == [s];
    match Runtime.Exec(s, table, escape, m)
    case Err(_) =>
    case Ok(m1) =>
      assert Runtime.Run([s], table, escape, m) == Runtime.Run([], table, escape, m1);
      if !buffer {
        assert m.out + "" == m.out;
      }
  }

  /** A `var` node assigns the value of its expression to the name in the
      innermost frame, where every later expression of that frame reads it. */
  lemma VarRenders(h: Hooks, fuel: nat, expr: string, name: string, sc: Scope, st: Compilation.JobState,
                   table: seq<Evaluator>, escape: Value -> string, m: Runtime.Machine)
    requires |m.frames| >= 1 && h.compileExpr(expr).Ok?
    requires |st.exprs| < |table| && table[|st.exprs|] == h.compileExpr(expr).value
    ensures var o := Compilation.CompileNode(h, fuel, Var(expr, name), sc, st);
      o.code.Ok? && o.st.exprs == st.exprs + [h.compileExpr(expr).value] &&
      var r := Runtime.Run(o.code.value, table, escape, m);
      var ev := h.compileExpr(expr).value(Runtime.Visible(m.frames));
      (r.Ok? <==> ev.Ok?) &&
      (r.Ok? ==> r.value.out == m.out &&
                 r.value.frames == Runtime.WriteLocal(m.frames, ev.value.writes[name := ev.value.value]) &&
                 name in Runtime.Visible(r.value.frames) &&
                 Runtime.Visible(r.value.frames)[name] == ev.value.value)
  {
    var o := Compilation.CompileNode(h, fuel, Var(expr, name), sc, st);
    var s := o.code.value[0];
    assert o.code.value == [s];
    match Runtime.Exec(s, table, escape, m)
    case Err(_) =>
    case Ok(m1) =>
      assert Runtime.Run([s], table, escape, m) == Runtime.Run([], table, escape, m1);
      var n := |m1.frames| - 1;
      assert m1.frames[..n] == m1.frames[..|m1.frames| - 1];
  }

  /** A compiled include runs in a fresh frame on top of the caller's: it
      reads every binding the caller sees, its output is kept and, whatever
      it assigns, the caller's locals are as they were afterwards. */
  lemma IncludeRendersInOwnFrame(h: Hooks, fuel: nat, key: string, file: string, nodes: seq<Node>, sc: Scope,
                                 st: Compilation.JobState, table: seq<Evaluator>, escape: Value -> string, m: Runtime.Machine)
    requires |m.frames| >= 1
    requires Compilation.CompileInclude(h, fuel, key, file, nodes, sc, st).code.Ok?
    ensures var code := Compilation.CompileInclude(h, fuel, key, file, nodes, sc, st).code.value;
      var inner := m.(frames := m.frames + [map[]]);
      |code| == 1 && code[0].Scoped? &&
      Runtime.Visible(inner.frames) == Runtime.Visible(m.frames) &&
      Runtime.Run(code, table, escape, m) ==
        match Runtime.Run(code[0].body, table, escape, inner)
        case Err(e) => Err(e)
        case Ok(m1) => Ok(Runtime.Machine(m1.out, m.frames))
  {
    var code := Compilation.CompileInclude(h, fuel, key, file, nodes, sc, st).code.value;
    assert code == [code[0]];
    Runtime.ScopedIsolation(code[0].body, table, escape, m);
    match Runtime.Exec(code[0], table, escape, m)
    case Err(_) =>
    case Ok(m1) =>
      assert Runtime.Run(code, table, escape, m) == Runtime.Run([], table, escape, m1);
  }

  /** A block with an `append` definition renders its own body first and the
      definition after it; with any other definition it renders the
      definition alone. */
  lemma BlockRenderOrder(h: Hooks, fuel: nat, name: string, nodes: seq<Node>, sc: Scope, st: Compilation.JobState,
                         table: seq<Evaluator>, escape: Value -> string, m: Runtime.Machine)
    requires |m.frames| >= 1 && FindDefinition(name, sc).Some?
    requires Compilation.CompileNode(h, fuel, Block(name, nodes), sc, st).code.Ok?
    ensures var def := FindDefinition(name, sc).value;
      var body := Compilation.CompileWalk(h, fuel, nodes, sc, st, false).code.value;
      var code := Compilation.CompileNode(h, fuel, Block(name, nodes), sc, st).code.value;
      Runtime.Run(code, table, escape, m) ==
        if def.mode == Append then
          match Runtime.Run(body, table, escape, m)
          case Err(e) => Err(e)
          case Ok(m1) => Runtime.Run(def.code, table, escape, m1)
        else Runtime.Run(def.code, table, escape, m)
  {
    var def := FindDefinition(name, sc).value;
    var body := Compilation.CompileWalk(h, fuel, nodes, sc, st, false).code.value;
    if def.mode == Append {
      Runtime.RunAppend(body, def.code, table, escape, m);
    }
  }

  /** When no expression of its table can fail, a successfully compiled
      template renders whatever locals it is given. */
  lemma CompiledTemplateRenders(h: Hooks, fuel: nat, file: string, escape: Value -> string, locals: Option<Bindings>)
    requires Compilation.Compile(h, fuel, file).Ok?
    requires forall i :: 0 <= i < |Compilation.Compile(h, fuel, file).value.table| ==>
      Runtime.Total(Compilation.Compile(h, fuel, file).value.table[i])
    ensures Runtime.Render(Compilation.Compile(h, fuel, file).value, escape, locals).Ok?
  {
    var r := Compilation.Compile(h, fuel, file).value;
    Compilation.CompiledProgramWellFormed(h, fuel, file);
    var init := match locals case None => map[] case Some(b) => b;
    Runtime.RunWellFormed(r.program, r.table, escape, Runtime.Machine("", [init]));
  }

  /** A one-node list compiles as that node alone. */
  lemma WalkSingle(h: Hooks, fuel: nat, n: Node, sc: Scope, st: Compilation.JobState, overrides: bool)
    requires !(overrides && n.Plain?)
    ensures Compilation.CompileWalk(h, fuel, [n], sc, st, overrides) == Compilation.CompileNode(h, fuel, n, sc, st)
  {
    assert [n][..0] == [];
    assert sc.(defs := sc.defs) == sc;
    var c := Compilation.CompileNode(h, fuel, n, sc, st);
    if c.code.Ok? {
      var none: Program := [];
      assert none + c.code.value == c.code.value;
    }
  }

  /** The page of the layout scenario: it includes the layout and defines
      the block `title` with the text `t`. */
  function PageNodes(layout: string, title: string, mode: Mode, t: string): seq<Node>
  {
    [Include(layout, [Def(title, mode, [Plain(t)])])]
  }

  /** The layout of the scenario: one block `title` whose own text is `d`. */
  function LayoutNodes(title: string, d: string): seq<Node>
  {
    [Block(title, [Plain(d)])]
  }

  /** The layout, loaded for the first time in a scope where `title` is
      defined, compiles to its block merged with that definition. */
  lemma LayoutCompiles(h: Hooks, fuel: nat, key: string, title: string, d: string, lc: string,
                       sc: Scope, st: Compilation.JobState, def: Definition)
    requires key !in st.cache && h.load(key) == Ok(lc) && h.parse(lc) == Ok(LayoutNodes(title, d))
    requires FindDefinition(title, sc) == Some(def)
    ensures Compilation.CompileFile(h, fuel, key, sc, st).code ==
      Ok(ResolveBlock(Some(def), [Push(JsLiteral.EscapeJsString(d))]))
  {
    var st' := st.(loads := st.loads + [key]).(cache := st.cache[key := LayoutNodes(title, d)]);
    WalkSingle(h, fuel, Block(title, [Plain(d)]), sc, st', false);
    WalkSingle(h, fuel, Plain(d), sc, st', false);
  }

  /** The include's own node: a definition of `title`, made in the
      include's fresh scope, emitting nothing. */
  lemma OverrideCompiles(h: Hooks, fuel: nat, title: string, mode: Mode, t: string, inner: Scope, st: Compilation.JobState)
    requires inner.defs == map[]
    ensures Compilation.CompileWalk(h, fuel, [Def(title, mode, [Plain(t)])], inner, st, true) ==
      Compilation.Outcome(Ok([]), map[title := Definition(mode, [Push(JsLiteral.EscapeJsString(t))])], st)
  {
    WalkSingle(h, fuel, Def(title, mode, [Plain(t)]), inner, st, true);
    WalkSingle(h, fuel, Plain(t), inner, st, false);
  }

  /** The page's include: the definition is made in the include's scope,
      then the layout is compiled there and wrapped in one scoped statement. */
  lemma IncludeCompiles(h: Hooks, fuel: nat, key: string, layout: string, title: string, mode: Mode, t: string, d: string,
                        lc: string, sc: Scope, st: Compilation.JobState)
    requires fuel >= 1
    requires key !in st.cache && h.load(key) == Ok(lc) && h.parse(lc) == Ok(LayoutNodes(title, d))
    ensures Compilation.CompileInclude(h, fuel, key, layout, [Def(title, mode, [Plain(t)])], sc, st).code ==
      Ok([Scoped(ResolveBlock(Some(Definition(mode, [Push(JsLiteral.EscapeJsString(t))])), [Push(JsLiteral.EscapeJsString(d))]))])
  {
    var def := Definition(mode, [Push(JsLiteral.EscapeJsString(t))]);
    var defs := map[title := def];
    OverrideCompiles(h, fuel, title, mode, t, Scope(key, map[], Some(sc)), st);
    LayoutCompiles(h, fuel - 1, key, title, d, lc, Scope(key, defs, Some(sc)), st, def);
    IncludeWraps(h, fuel, key, layout, [Def(title, mode, [Plain(t)])], sc, st, defs, st,
      ResolveBlock(Some(def), [Push(JsLiteral.EscapeJsString(d))]));
  }

  /** An include whose own nodes only make definitions wraps the code of
      the included file alone. */
  lemma IncludeWraps(h: Hooks, fuel: nat, key: string, file: string, nodes: seq<Node>, sc: Scope, st: Compilation.JobState,
                     defs: Defs, st1: Compilation.JobState, included: Program)
    requires fuel >= 1
    requires Compilation.CompileWalk(h, fuel, nodes, Scope(key, map[], Some(sc)), st, true) == Compilation.Outcome(Ok([]), defs, st1)
    requires Compilation.CompileFile(h, fuel - 1, key, Scope(key, defs, Some(sc)), st1).code == Ok(included)
    ensures Compilation.CompileInclude(h, fuel, key, file, nodes, sc, st).code == Ok([Scoped(included)])
  {
    var none: Program := [];
    assert none + included == included;
  }

  /** The whole page, loaded from an empty cache, compiles as its one
      include node, with the page cached. */
  lemma PageCompiles(h: Hooks, fuel: nat, page: string, layout: string, pageKey: string,
                     title: string, mode: Mode, t: string, pc: string)
    requires h.load(pageKey) == Ok(pc) && h.parse(pc) == Ok(PageNodes(layout, title, mode, t))
    ensures Compilation.CompileFile(h, fuel, pageKey, Scope(page, map[], None), Compilation.JobState([], map[], [])) ==
      Compilation.CompileNode(h, fuel, Include(layout, [Def(title, mode, [Plain(t)])]), Scope(page, map[], None),
        Compilation.JobState([], map[pageKey := PageNodes(layout, title, mode, t)], [pageKey]))
  {
    var root := Scope(page, map[], None);
    var st0 := Compilation.JobState([], map[], []);
    var st := Compilation.JobState([], map[pageKey := PageNodes(layout, title, mode, t)], [pageKey]);
    assert st0.(loads := st0.loads + [pageKey]).(cache := st0.cache[pageKey := PageNodes(layout, title, mode, t)]) == st;
    WalkSingle(h, fuel, Include(layout, [Def(title, mode, [Plain(t)])]), root, st, false);
  }

  /** An include node is compiled under the path of its file resolved
      against the current one. */
  lemma IncludeNodeResolves(h: Hooks, fuel: nat, file: string, nodes: seq<Node>, sc: Scope, st: Compilation.JobState)
    ensures Compilation.CompileNode(h, fuel, Include(file, nodes), sc, st) ==
      Compilation.CompileInclude(h, fuel, Paths.LocalPath(sc.file, file), file, nodes, sc, st)
  {
  }

  /** An include whose own nodes compile hands its resolved path to the
      loader right after them, unless that path was cached by then. */
  lemma IncludeLoadsKey(h: Hooks, fuel: nat, key: string, file: string, nodes: seq<Node>, sc: Scope, st: Compilation.JobState)
    requires fuel >= 1
    requires var w := Compilation.CompileWalk(h, fuel, nodes, Scope(key, map[], Some(sc)), st, true);
      w.code.Ok? && key !in w.st.cache
    ensures var w := Compilation.CompileWalk(h, fuel, nodes, Scope(key, map[], Some(sc)), st, true);
      w.st.loads + [key] <= Compilation.CompileInclude(h, fuel, key, file, nodes, sc, st).st.loads
  {
    var w := Compilation.CompileWalk(h, fuel, nodes, Scope(key, map[], Some(sc)), st, true);
    Compilation.UncachedFileLoaded(h, fuel - 1, key, Scope(key, w.defs, Some(sc)), w.st);
  }

  /** A relative reference `ref` from the file `dir/name` is loaded as
      `dir` joined with `ref`: the include hands exactly that path to the
      loader once its own nodes have compiled, unless it is cached by then. */
  lemma IncludeLoadsRelativePath(h: Hooks, fuel: nat, dir: seq<string>, name: string, ref: seq<string>,
                                 nodes: seq<Node>, sc: Scope, st: Compilation.JobState)
    requires |dir| >= 1 && Paths.Canonical(dir, false) && Paths.IsName(name)
    requires |ref| >= 1 && Paths.Canonical(ref, false)
    requires sc.file == Paths.Join(dir) + "/" + name && fuel >= 1
    requires var w := Compilation.CompileWalk(h, fuel, nodes, Scope(Paths.Join(dir + ref), map[], Some(sc)), st, true);
      w.code.Ok? && Paths.Join(dir + ref) !in w.st.cache
    ensures var w := Compilation.CompileWalk(h, fuel, nodes, Scope(Paths.Join(dir + ref), map[], Some(sc)), st, true);
      w.st.loads + [Paths.Join(dir + ref)] <= Compilation.CompileNode(h, fuel, Include(Paths.Join(ref), nodes), sc, st).st.loads
  {
    Paths.RelativeReference(dir, name, ref);
    IncludeNodeResolves(h, fuel, Paths.Join(ref), nodes, sc, st);
    IncludeLoadsKey(h, fuel, Paths.Join(dir + ref), Paths.Join(ref), nodes, sc, st);
  }

  /** A layout whose block `title` is defined by the page that includes it:
      the page renders the definition's text in place of the block's own
      text for an override (or a prepend), and the block's text followed by
      the definition's for an append. */
  lemma LayoutOverride(h: Hooks, fuel: nat, page: string, layout: string, title: string, mode: Mode,
                       t: string, d: string, pc: string, lc: string, escape: Value -> string, locals: Option<Bindings>)
    requires fuel >= 1 && Paths.LocalPath("", page) != Paths.LocalPath(page, layout)
    requires h.load(Paths.LocalPath("", page)) == Ok(pc) && h.parse(pc) == Ok(PageNodes(layout, title, mode, t))
    requires h.load(Paths.LocalPath(page, layout)) == Ok(lc) && h.parse(lc) == Ok(LayoutNodes(title, d))
    ensures Compilation.Compile(h, fuel, page).Ok?
    ensures Runtime.Render(Compilation.Compile(h, fuel, page).value, escape, locals) ==
      Ok(if mode == Append then d + t else t)
  {
    var pageKey := Paths.LocalPath("", page);
    var layoutKey := Paths.LocalPath(page, layout);
    var root := Scope(page, map[], None);
    var st := Compilation.JobState([], map[pageKey := PageNodes(layout, title, mode, t)], [pageKey]);
    PageCompiles(h, fuel, page, layout, pageKey, title, mode, t, pc);
    IncludeNodeResolves(h, fuel, layout, [Def(title, mode, [Plain(t)])], root, st);
    IncludeCompiles(h, fuel, layoutKey, layout, title, mode, t, d, lc, root, st);
    var r := Compilation.Compile(h, fuel, page).value;
    var init := match locals case None => map[] case Some(b) => b;
    RenderScopedTexts(r, mode, t, d, escape, Runtime.Machine("", [init]));
  }

  /** An include whose own nodes compile fails with the error of the
      included file. */
  lemma IncludeFileFails(h: Hooks, fuel: nat, key: string, file: string, nodes: seq<Node>, sc: Scope, st: Compilation.JobState,
                         defs: Defs, st1: Compilation.JobState, e: Error)
    requires fuel >= 1
    requires Compilation.CompileWalk(h, fuel, nodes, Scope(key, map[], Some(sc)), st, true) == Compilation.Outcome(Ok([]), defs, st1)
    requires Compilation.CompileFile(h, fuel - 1, key, Scope(key, defs, Some(sc)), st1).code == Err(e)
    ensures Compilation.CompileInclude(h, fuel, key, file, nodes, sc, st).code == Err(e)
  {
  }

  /** A page whose layout cannot be loaded does not compile: the loader's
      error comes out of the include, the page and the job unchanged, and
      no renderer is made. */
  lemma LayoutLoadFails(h: Hooks, fuel: nat, page: string, layout: string, title: string, mode: Mode,
                        t: string, pc: string, e: Error)
    requires fuel >= 1 && Paths.LocalPath("", page) != Paths.LocalPath(page, layout)
    requires h.load(Paths.LocalPath("", page)) == Ok(pc) && h.parse(pc) == Ok(PageNodes(layout, title, mode, t))
    requires h.load(Paths.LocalPath(page, layout)) == Err(e)
    ensures Compilation.Compile(h, fuel, page) == Err(e)
  {
    var pageKey := Paths.LocalPath("", page);
    var layoutKey := Paths.LocalPath(page, layout);
    var root := Scope(page, map[], None);
    var st := Compilation.JobState([], map[pageKey := PageNodes(layout, title, mode, t)], [pageKey]);
    var def := Definition(mode, [Push(JsLiteral.EscapeJsString(t))]);
    PageCompiles(h, fuel, page, layout, pageKey, title, mode, t, pc);
    IncludeNodeResolves(h, fuel, layout, [Def(title, mode, [Plain(t)])], root, st);
    OverrideCompiles(h, fuel, title, mode, t, Scope(layoutKey, map[], Some(root)), st);
    assert layoutKey !in st.cache;
    IncludeFileFails(h, fuel, layoutKey, layout, [Def(title, mode, [Plain(t)])], root, st, map[title := def], st, e);
  }

  /** A page that cannot be loaded or parsed does not compile, with the
      loader's or the parser's error. */
  lemma RootLoadFails(h: Hooks, fuel: nat, file: string)
    requires var key := Paths.LocalPath("", file);
      h.load(key).Err? || h.parse(h.load(key).value).Err?
    ensures var key := Paths.LocalPath("", file);
      Compilation.Compile(h, fuel, file) ==
        Err(if h.load(key).Err? then h.load(key).error else h.parse(h.load(key).value).error)
  {
  }

  /** The run of the scenario's program. */
  lemma RenderScopedTexts(r: Renderer, mode: Mode, t: string, d: string, escape: Value -> string, m: Runtime.Machine)
    requires |m.frames| >= 1 && m.out == ""
    requires r.program == [Scoped(ResolveBlock(Some(Definition(mode, [Push(JsLiteral.EscapeJsString(t))])), [Push(JsLiteral.EscapeJsString(d))]))]
    ensures Runtime.Run(r.program, r.table, escape, m).Ok?
    ensures Runtime.Run(r.program, r.table, escape, m).value.out == if mode == Append then d + t else t
  {
    var pt := [Push(JsLiteral.EscapeJsString(t))];
    var pd := [Push(JsLiteral.EscapeJsString(d))];
    var inner := m.(frames := m.frames + [map[]]);
    if mode == Append {
      assert r.program == [Scoped(pd + pt)];
      TwoTextsOutput(d, t, r.table, escape, inner);
      ScopedOutput(pd + pt, d + t, r.table, escape, m);
    } else {
      assert r.program == [Scoped(pt)];
      Runtime.PushTextOutputsText(t, r.table, escape, inner);
      ScopedOutput(pt, t, r.table, escape, m);
    }
  }

  /** Two pushed texts output one after the other. */
  lemma TwoTextsOutput(a: string, b: string, table: seq<Evaluator>, escape: Value -> string, m: Runtime.Machine)
    requires |m.frames| >= 1
    ensures Runtime.Run([Push(JsLiteral.EscapeJsString(a))] + [Push(JsLiteral.EscapeJsString(b))], table, escape, m) ==
      Ok(m.(out := m.out + (a + b)))
  {
    Runtime.PushTextOutputsText(a, table, escape, m);
    Runtime.PushTextOutputsText(b, table, escape, m.(out := m.out + a));
    Sequenced([Push(JsLiteral.EscapeJsString(a))], [Push(JsLiteral.EscapeJsString(b))], a, b, table, escape, m);
  }

  /** Two programs that each only output a text output both texts in order. */
  lemma Sequenced(p: Program, q: Program, a: string, b: string, table: seq<Evaluator>, escape: Value -> string, m: Runtime.Machine)
    requires |m.frames| >= 1
    requires Runtime.Run(p, table, escape, m) == Ok(m.(out := m.out + a))
    requires Runtime.Run(q, table, escape, m.(out := m.out + a)) == Ok(m.(out := m.out + a).(out := m.out + a + b))
    ensures Runtime.Run(p + q, table, escape, m) == Ok(m.(out := m.out + (a + b)))
  {
    Runtime.RunAppend(p, q, table, escape, m);
    assert m.out + a + b == m.out + (a + b);
  }

  /** A scoped body that only outputs `text` outputs it in the caller's
      frames too. */
  lemma ScopedOutput(body: Program, text: string, table: seq<Evaluator>, escape: Value -> string, m: Runtime.Machine)
    requires |m.frames| >= 1
    requires var inner := m.(frames := m.frames + [map[]]);
      Runtime.Run(body, table, escape, inner) == Ok(inner.(out := m.out + text))
    ensures Runtime.Run([Scoped(body)], table, escape, m) == Ok(m.(out := m.out + text))
  {
    var m1 := Runtime.Exec(Scoped(body), table, escape, m).value;
    assert (m.frames + [map[]])[..|m.frames|] == m.frames;
    assert Runtime.Run([Scoped(body)], table, escape, m) == Runtime.Run([], table, escape, m1);
  }
}
