/**
 * What the emitted program does when the renderer runs: statements push text
 * onto an output accumulator and call the expression table on the current
 * locals. Locals form a chain of frames, as `Object.create(locals)` builds
 * them for an include: reads fall through to enclosing frames, writes land in
 * the innermost one.
 */
module Runtime {
  import opened Templates
  import JsLiteral

  /** The state of a render: the text output so far and the frames of
      locals, outermost first. */
  datatype Machine = Machine(out: string, frames: seq<Bindings>)

  /** The bindings an expression sees: every frame's entries, an inner frame
      shadowing the frames around it. */
  function Visible(frames: seq<Bindings>): Bindings
  {
    if frames == [] then map[] else Visible(frames[..|frames| - 1]) + frames[|frames| - 1]
  }

  /** A name is visible when some frame binds it, and it reads the value of
      the innermost frame that does. */
  lemma {:induction false} VisibleLookup(frames: seq<Bindings>, k: string)
    ensures k in Visible(frames) <==> exists i :: 0 <= i < |frames| && k in frames[i]
    ensures forall i :: 0 <= i < |frames| && k in frames[i] && (forall j :: i < j < |frames| ==> k !in frames[j]) ==>
      k in Visible(frames) && Visible(frames)[k] == frames[i][k]
  {
    if frames != [] {
      var n := |frames| - 1;
      var outer := frames[..n];
      VisibleLookup(outer, k);
      assert forall i :: 0 <= i < n ==> outer[i] == frames[i];
      if k !in frames[n] && exists i :: 0 <= i < |frames| && k in frames[i] {
        var i :| 0 <= i < |frames| && k in frames[i];
        assert k in outer[i];
      }
    }
  }

  /** An empty innermost frame changes nothing an expression can read. */
  lemma EmptyFrameTransparent(frames: seq<Bindings>)
    ensures Visible(frames + [map[]]) == Visible(frames)
  {
    assert (frames + [map[]])[..|frames|] == frames;
  }

  /** The frames after assignments to the innermost frame. */
  function WriteLocal(frames: seq<Bindings>, writes: Bindings): (r: seq<Bindings>)
    requires |frames| >= 1
    ensures |r| == |frames| && r[..|r| - 1] == frames[..|frames| - 1]
    ensures r[|r| - 1] == frames[|frames| - 1] + writes
  {
    frames[..|frames| - 1] + [frames[|frames| - 1] + writes]
  }

  /** Runs a statement list in order; the first failure ends the render.
      Whatever happens inside, the frames around the innermost one are left
      as they were and output is only ever appended to. */
  function Run(prog: Program, table: seq<Evaluator>, escape: Value -> string, m: Machine): (r: Result<Machine>)
    requires |m.frames| >= 1
    ensures r.Ok? ==> |r.value.frames| == |m.frames|
    ensures r.Ok? ==> r.value.frames[..|m.frames| - 1] == m.frames[..|m.frames| - 1]
    ensures r.Ok? ==> m.out <= r.value.out
    decreases prog
  {
    if prog == [] then Ok(m)
    else
      match Exec(prog[0], table, escape, m)
      case Err(e) => Err(e)
      case Ok(m1) => Run(prog[1..], table, escape, m1)
  }

  /** One statement. `Push` evaluates its string literal, `PushExpr` pushes
      the (optionally escaped) value of a table entry, `Eval` calls an entry
      for its effect, `Assign` stores an entry's value under a name in the
      innermost frame, and `Scoped` runs its body in a fresh frame that is
      dropped afterwards. */
  function Exec(s: Stmt, table: seq<Evaluator>, escape: Value -> string, m: Machine): (r: Result<Machine>)
    requires |m.frames| >= 1
    ensures r.Ok? ==> |r.value.frames| == |m.frames|
    ensures r.Ok? ==> r.value.frames[..|m.frames| - 1] == m.frames[..|m.frames| - 1]
    ensures r.Ok? ==> m.out <= r.value.out
    ensures r.Ok? && s.Scoped? ==> r.value.frames == m.frames
    decreases s
  {
    match s
    case Push(lit) =>
      (match JsLiteral.LiteralValue(lit)
       case None => Err(MalformedProgram)
       case Some(text) => Ok(m.(out := m.out + text)))
    case PushExpr(i, escaped) =>
      if i >= |table| then Err(MalformedProgram)
      else (match table[i](Visible(m.frames))
        case Err(e) => Err(e)
        case Ok(eff) =>
          Ok(Machine(m.out + (if escaped then escape(eff.value) else eff.value), WriteLocal(m.frames, eff.writes))))
    case Eval(i) =>
      if i >= |table| then Err(MalformedProgram)
      else (match table[i](Visible(m.frames))
        case Err(e) => Err(e)
        case Ok(eff) => Ok(m.(frames := WriteLocal(m.frames, eff.writes))))
    case Assign(name, i) =>
      if i >= |table| then Err(MalformedProgram)
      else (match table[i](Visible(m.frames))
        case Err(e) => Err(e)
        case Ok(eff) => Ok(m.(frames := WriteLocal(m.frames, eff.writes[name := eff.value]))))
    case Scoped(body) =>
      match Run(body, table, escape, m.(frames := m.frames + [map[]]))
      case Err(e) => Err(e)
      case Ok(m1) => Ok(m1.(frames := m1.frames[..|m.frames|]))
  }

  /** The renderer the compiler hands back, called with the caller's locals
      (none stands for a missing argument and starts from empty locals). */
  function Render(r: Renderer, escape: Value -> string, locals: Option<Bindings>): Result<string>
  {
    var init := match locals case None => map[] case Some(b) => b;
    match Run(r.program, r.table, escape, Machine("", [init]))
    case Err(e) => Err(e)
    case Ok(m) => Ok(m.out)
  }

  /** Running two programs one after the other is running their
      concatenation: emitted fragments are joined in order. */
  lemma {:induction false} RunAppend(p: Program, q: Program, table: seq<Evaluator>, escape: Value -> string, m: Machine)
    requires |m.frames| >= 1
    ensures Run(p + q, table, escape, m) ==
      match Run(p, table, escape, m)
      case Err(e) => Err(e)
      case Ok(m1) => Run(q, table, escape, m1)
  {
    if p != [] {
      assert (p + q)[0] == p[0];
      assert (p + q)[1..] == p[1..] + q;
      match Exec(p[0], table, escape, m)
      case Err(e) =>
      case Ok(m1) => RunAppend(p[1..], q, table, escape, m1);
    } else {
      assert p + q == q;
    }
  }

  /** The literal the compiler writes for a piece of plain text outputs
      exactly that text and touches no locals. */
  lemma PushTextOutputsText(text: string, table: seq<Evaluator>, escape: Value -> string, m: Machine)
    requires |m.frames| >= 1
    ensures Run([Push(JsLiteral.EscapeJsString(text))], table, escape, m) == Ok(m.(out := m.out + text))
  {
    JsLiteral.EscapeJsStringRoundTrip(text);
  }

  /** A scoped body reads every binding of the frames around it, its writes
      are dropped when it ends, and its output is kept. */
  lemma ScopedIsolation(body: Program, table: seq<Evaluator>, escape: Value -> string, m: Machine)
    requires |m.frames| >= 1
    ensures Visible(m.frames + [map[]]) == Visible(m.frames)
    ensures Exec(Scoped(body), table, escape, m).Ok? <==> Run(body, table, escape, m.(frames := m.frames + [map[]])).Ok?
    ensures Exec(Scoped(body), table, escape, m).Ok? ==>
      Exec(Scoped(body), table, escape, m).value ==
      Machine(Run(body, table, escape, m.(frames := m.frames + [map[]])).value.out, m.frames)
  {
    EmptyFrameTransparent(m.frames);
  }

  /** Every table index a program refers to is below `n`, and every literal
      it pushes is a valid string literal. */
  predicate ProgramOk(prog: Program, n: nat)
    decreases prog
  {
    forall i :: 0 <= i < |prog| ==> StmtOk(prog[i], n)
  }

  predicate StmtOk(s: Stmt, n: nat)
    decreases s
  {
    match s
    case Push(lit) => JsLiteral.LiteralValue(lit).Some?
    case PushExpr(i, _) => i < n
    case Eval(i) => i < n
    case Assign(_, i) => i < n
    case Scoped(body) => ProgramOk(body, n)
  }

  /** An evaluator that never fails, whatever bindings it reads. */
  ghost predicate Total(ev: Evaluator)
  {
    forall b :: ev(b).Ok?
  }

  /** A well-formed program never fails on its own: with a table of the
      right length whose evaluators never fail, it always renders. */
  lemma {:induction false} RunWellFormed(prog: Program, table: seq<Evaluator>, escape: Value -> string, m: Machine)
    requires |m.frames| >= 1 && ProgramOk(prog, |table|)
    requires forall i :: 0 <= i < |table| ==> Total(table[i])
    ensures Run(prog, table, escape, m).Ok?
    decreases prog
  {
    if prog != [] {
      ExecWellFormed(prog[0], table, escape, m);
      RunWellFormed(prog[1..], table, escape, Exec(prog[0], table, escape, m).value);
    }
  }

  lemma {:induction false} ExecWellFormed(s: Stmt, table: seq<Evaluator>, escape: Value -> string, m: Machine)
    requires |m.frames| >= 1 && StmtOk(s, |table|)
    requires forall i :: 0 <= i < |table| ==> Total(table[i])
    ensures Exec(s, table, escape, m).Ok?
    decreases s
  {
    match s
    case Push(_) =>
    case PushExpr(i, _) => assert Total(table[i]);
    case Eval(i) => assert Total(table[i]);
    case Assign(_, i) => assert Total(table[i]);
    case Scoped(body) => RunWellFormed(body, table, escape, m.(frames := m.frames + [map[]]));
  }

  /** Well-formedness survives a longer table. */
  lemma {:induction false} ProgramOkGrows(prog: Program, n: nat, n': nat)
    requires ProgramOk(prog, n) && n <= n'
    ensures ProgramOk(prog, n')
    decreases prog
  {
    forall i | 0 <= i < |prog| ensures StmtOk(prog[i], n') {
      if prog[i].Scoped? {
        ProgramOkGrows(prog[i].body, n, n');
      }
    }
  }

  /** Well-formedness of a concatenation. */
  lemma ProgramOkAppend(p: Program, q: Program, n: nat)
    ensures ProgramOk(p + q, n) <==> ProgramOk(p, n) && ProgramOk(q, n)
  {
    if ProgramOk(p, n) && ProgramOk(q, n) {
      forall i | 0 <= i < |p + q| ensures StmtOk((p + q)[i], n) {
        if i >= |p| { assert (p + q)[i] == q[i - |p|]; }
      }
    }
    if ProgramOk(p + q, n) {
      forall i | 0 <= i < |p| ensures StmtOk(p[i], n) {
        assert (p + q)[i] == p[i];
      }
      forall i | 0 <= i < |q| ensures StmtOk(q[i], n) {
        assert (p + q)[i + |p|] == q[i];
      }
    }
  }
}
