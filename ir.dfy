/**
 * The parts of the compiler IR that the WebGL back end reads: stage programs,
 * the type table, syntax nodes, and the per-program glue (cross-stage transfer)
 * entries. These types are declared in src/compile/ir.ts, src/type.ts,
 * src/ast.ts and src/backends/gl.ts, which are not part of this model; only the
 * fields the back end uses are kept.
 */
module Ir {
  import opened Wrappers

  /** A type from the type table: a primitive (scalar, vector or matrix) type
      named by its `name`, or any other kind of type. */
  datatype Type = Primitive(name: string) | Other

  /** The 4x4 float matrix type (`FLOAT4X4` in gl.ts). */
  const Float4x4: Type := Primitive("Float4x4")

  /** The syntax nodes the back end inspects. Every node carries its id. */
  datatype Expr =
    | Quote(id: nat, annotation: string)
    | Call(id: nat, callee: Expr, args: seq<Expr>)
    | Binary(id: nat, op: string, lhs: Expr, rhs: Expr)
    | Leaf(id: nat, tag: string)

  /** A stage program produced by quote lifting. */
  datatype Prog = Prog(id: nat, annotation: string, quoteChildren: seq<nat>)

  /** `progs` is a sparse array indexed by program id; `typeTable` maps a node id
      to its type. */
  datatype CompilerIR = CompilerIR(progs: seq<Option<Prog>>, typeTable: map<nat, Type>)

  /** A cross-stage transfer entry. The bound value is either the host-side
      name `valueName` or the host expression `valueExpr`. */
  datatype Glue = Glue(
    id: nat,
    name: string,
    ty: Type,
    attribute: bool,
    valueName: Option<string>,
    valueExpr: Option<Expr>)

  /** The glue lists of the shader programs, keyed by program id (a sparse array
      in the source). */
  type GlueTable = map<nat, seq<Glue>>

  /** The state the back end's emitter carries: the IR and the glue table. */
  datatype GLEmitter = GLEmitter(ir: CompilerIR, glue: GlueTable)

  /** The exceptions the back end raises. The first six are the strings it
      throws; `RuntimeError` is a JavaScript error raised when the code reads a
      field of `undefined` (or recurses without end). */
  datatype Error =
    | UnsupportedUniformType(typeName: string)
    | UniformNotPrimitive
    | AttributeNotPrimitive
    | FragmentCount
    | DynamicVtx
    | SubprogramInShader
    | RuntimeError(what: string)

  datatype Result<+T> = Success(value: T) | Failure(error: Error)

  /** The text of the thrown exception. */
  function Message(e: Error): string
  {
    match e
    case UnsupportedUniformType(n) => "error: unsupported uniform type " + n
    case UniformNotPrimitive => "error: uniforms must be primitive types"
    case AttributeNotPrimitive => "error: attributes must be primitive types"
    case FragmentCount => "error: vertex quote must have exactly one fragment quote"
    case DynamicVtx => "dynamic `vtx` calls unimplemented"
    case SubprogramInShader => "error: subprograms not allowed in shaders"
    case RuntimeError(what) => what
  }

  /** `ir.progs[id]`, which is `undefined` past the end or at a hole. */
  function ProgAt(ir: CompilerIR, id: nat): Option<Prog>
  {
    if id < |ir.progs| then ir.progs[id] else None
  }

  /** The IR's own invariant: a program is stored at the index of its id. */
  predicate WellFormed(ir: CompilerIR)
  {
    forall i :: 0 <= i < |ir.progs| && ir.progs[i].Some? ==> ir.progs[i].value.id == i
  }
}
