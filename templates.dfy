/**
 * The values the template compiler works on: the parsed nodes of a template,
 * the errors that abort a compilation, the collaborators the compiler calls
 * (loader, parser, expression engine) and the small statement language the
 * compiler emits in place of generated JavaScript source.
 */
module Templates {

  /** Errors that abort a compilation or a render. The loader, the parser and
      the expression engine report their own errors; the compiler passes them
      on unchanged. */
  datatype Error =
    | LoadError(detail: string)
    | ParseError(detail: string)
    | ExpressionError(detail: string)
      /** plain text found among the override nodes of an include */
    | NotAnOverride(text: string)
      /** includes nested deeper than the fuel the compilation was given */
    | IncludeTooDeep(file: string)
      /** the error an evaluator reports when it fails while rendering;
          evaluators are parameters of the runtime, so no member here builds it */
    | RenderError(detail: string)
      /** a statement refers to a missing table entry or holds a bad literal */
    | MalformedProgram

  datatype Result<+T> = Ok(value: T) | Err(error: Error)

  datatype Option<+T> = None | Some(value: T)

  /** How a definition merges with the block it targets. `Override` stands for
      an absent mode and for every mode other than `append` and `prepend`. */
  datatype Mode = Override | Append | Prepend

  /** One parsed unit of a template. */
  datatype Node =
    | Plain(text: string)
    | Def(name: string, mode: Mode, nodes: seq<Node>)
    | Block(name: string, nodes: seq<Node>)
    | Include(file: string, nodes: seq<Node>)
    | Expr(expr: string, buffer: bool, escape: bool)
    | Var(expr: string, name: string)

  /** Values are kept in the string form that the output accumulator joins. */
  type Value = string

  type Bindings = map<string, Value>

  /** What one evaluator call produces: its value and the bindings it assigned
      in the environment it was called with. */
  datatype Effect = Effect(value: Value, writes: Bindings)

  /** A compiled expression: reads the visible bindings, may fail. */
  type Evaluator = Bindings -> Result<Effect>

  /** The emitted program. `Push` holds the source text of a string literal. */
  datatype Stmt =
    | Push(literal: string)
    | PushExpr(index: nat, escape: bool)
    | Eval(index: nat)
    | Assign(name: string, index: nat)
    | Scoped(body: seq<Stmt>)

  type Program = seq<Stmt>

  /** The compiled form of a `def` node. */
  datatype Definition = Definition(mode: Mode, code: Program)

  type Defs = map<string, Definition>

  /** The collaborators of a compilation. */
  datatype Hooks = Hooks(
    load: string -> Result<string>,
    parse: string -> Result<seq<Node>>,
    compileExpr: string -> Result<Evaluator>)

  /** What a successful compilation hands back: the program and the
      expression table it indexes. */
  datatype Renderer = Renderer(program: Program, table: seq<Evaluator>)
}
