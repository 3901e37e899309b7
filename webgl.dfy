/**
 * The WebGL back end (src/backends/webgl.ts): it turns the compiler IR and the
 * per-program glue table into JavaScript that compiles GLSL shader programs,
 * looks up their variable locations, and binds uniforms and attributes at each
 * shader invocation.
 *
 * The routines it calls but that are not part of this model (the JavaScript
 * back end, the GLSL back end, the shared GL helpers and the emitter driver)
 * are the fields of `Host`: the model assumes only that they are total
 * functions, that is, that they never throw.
 */
module WebGL {
  import opened Wrappers
  import opened Ir
  import opened Names

  /** The collaborators of the back end. `emitVar(name, value, local)` is
      `js.emit_var`; a call without the third argument passes `false`. */
  datatype Host = Host(
    emitVar: (string, string, bool) -> string,
    emitString: string -> string,
    paren: string -> string,
    progsym: nat -> string,
    emit: (GLEmitter, Expr) -> string,
    jsRules: (GLEmitter, Expr) -> string,
    compileGlsl: (CompilerIR, GlueTable, nat) -> string,
    isVertex: (CompilerIR, nat) -> bool,
    isVtxCall: Expr -> bool,
    isRenderCall: Expr -> bool,
    getGlue: (CompilerIR, Prog) -> seq<Glue>,
    jsEmitProg: (GLEmitter, Prog) -> string,
    emitMain: GLEmitter -> string,
    emitMainWrapper: (string, bool) -> string)

  // ---------------------------------------------------------------------------
  // String helpers

  /** `sub` occurs in `s` at index `i`. */
  predicate MatchesAt(s: string, sub: string, i: nat)
  {
    i + |sub| <= |s| && s[i..i + |sub|] == sub
  }

  /** JavaScript's `s.indexOf(sub)`: the first index at which `sub` occurs in
      `s`, or -1. */
  function IndexOf(s: string, sub: string): (r: int)
    ensures r == -1 || (0 <= r && MatchesAt(s, sub, r))
    ensures r == -1 <==> forall i: nat :: !MatchesAt(s, sub, i)
    ensures forall i: nat :: i < r ==> !MatchesAt(s, sub, i)
    decreases |s|
  {
    if |s| < |sub| then -1
    else if s[..|sub|] == sub then assert MatchesAt(s, sub, 0); 0
    else
      var k := IndexOf(s[1..], sub);
      assert !MatchesAt(s, sub, 0);
      assert forall i: nat :: MatchesAt(s[1..], sub, i) == MatchesAt(s, sub, i + 1) by {
        forall i: nat ensures MatchesAt(s[1..], sub, i) == MatchesAt(s, sub, i + 1) {
          if i + 1 + |sub| <= |s| {
            assert s[1..][i..i + |sub|] == s[i + 1..i + 1 + |sub|];
          }
        }
      }
      assert forall i: nat :: MatchesAt(s, sub, i) ==> i == 0 || MatchesAt(s[1..], sub, i - 1);
      if k == -1 then -1 else k + 1
  }

  /** The concatenation of `parts`, in order. */
  function Join(parts: seq<string>): string
  {
    if parts == [] then "" else Join(parts[..|parts| - 1]) + parts[|parts| - 1]
  }

  /** Joining one more part appends it. */
  lemma JoinSnoc(parts: seq<string>, i: nat)
    requires i < |parts|
    ensures Join(parts[..i + 1]) == Join(parts[..i]) + parts[i]
  {
    assert parts[..i + 1][..i] == parts[..i];
  }

  /** The concatenation of `parts`, each preceded by `sep`. */
  function JoinPrefixed(sep: string, parts: seq<string>): string
  {
    if parts == [] then "" else JoinPrefixed(sep, parts[..|parts| - 1]) + sep + parts[|parts| - 1]
  }

  // ---------------------------------------------------------------------------
  // Uniform dispatch

  /** `GL_UNIFORM_FUNCTIONS`: the `gl.uniform*` function that binds a uniform
      of each primitive type. */
  const UniformFunctions: map<string, string> := map[
    "Int" := "uniform1i",
    "Int3" := "uniform3iv",
    "Int4" := "uniform4iv",
    "Float" := "uniform1f",
    "Float3" := "uniform3fv",
    "Float4" := "uniform4fv",
    "Float3x3" := "uniformMatrix3fv",
    "Float4x4" := "uniformMatrix4fv"
  ]

  /** The matrix types, whose binding call takes a transpose argument. */
  const MatrixTypes: set<string> := {"Float3x3", "Float4x4"}

  lemma NoMatchWithoutFirstChar(s: string, sub: string)
    requires 0 < |sub| && sub[0] !in s
    ensures IndexOf(s, sub) == -1
  {
  }

  /** The table's function names contain "Matrix" for the two matrix types
      and for no other type. */
  lemma TransposeOnlyForMatrixTypes(typeName: string)
    requires typeName in UniformFunctions
    ensures IndexOf(UniformFunctions[typeName], "Matrix") != -1 <==> typeName in MatrixTypes
  {
    var f := UniformFunctions[typeName];
    if typeName in MatrixTypes {
      assert MatchesAt(f, "Matrix", 7);
    } else {
      assert 'M' !in f;
      NoMatchWithoutFirstChar(f, "Matrix");
    }
  }

  // ---------------------------------------------------------------------------
  // Shader pairs, location declarations and bindings

  /** A vertex program and its fragment program, which is `None` when the
      fragment child's id names no program. */
  datatype ProgPair = ProgPair(vertex: Prog, fragment: Option<Prog>)

  /** `get_prog_pair`: the vertex program `progid` and its one fragment child. */
  function GetProgPair(ir: CompilerIR, progid: nat): (r: Result<ProgPair>)
    ensures r.Success? <==> ProgAt(ir, progid).Some? && |ProgAt(ir, progid).value.quoteChildren| == 1
    ensures ProgAt(ir, progid).Some? && |ProgAt(ir, progid).value.quoteChildren| != 1 ==> r == Failure(FragmentCount)
    ensures r.Success? ==>
              && r.value.vertex == ProgAt(ir, progid).value
              && r.value.fragment == ProgAt(ir, r.value.vertex.quoteChildren[0])
  {
    match ProgAt(ir, progid)
    case None => Failure(RuntimeError("vertex_prog is undefined"))
    case Some(vertex) =>
      if |vertex.quoteChildren| > 1 || |vertex.quoteChildren| < 1 then Failure(FragmentCount)
      else Success(ProgPair(vertex, ProgAt(ir, vertex.quoteChildren[0])))
  }

  /** The JavaScript expression that looks up the location of the shader
      variable `varname` in the program of `scopeid`. */
  function LocationLookup(h: Host, scopeid: nat, attribute: bool, varname: string): string
  {
    var func := if attribute then "getAttribLocation" else "getUniformLocation";
    "gl." + func + "(" + ShaderSym(scopeid) + ", " + h.emitString(varname) + ")"
  }

  /** `emit_loc_var`: declares the location variable of one shader variable. */
  function EmitLocVar(h: Host, scopeid: nat, attribute: bool, varname: string, varid: nat): string
  {
    h.emitVar(LocSym(scopeid, varid), LocationLookup(h, scopeid, attribute, varname), false)
  }

  /** A string that starts with `pre` does not start with a string that
      differs from `pre` at some index of both. */
  lemma NotBothPrefixes(pre: string, other: string, s: string, i: nat)
    requires pre <= s && i < |pre| && i < |other| && pre[i] != other[i]
    ensures !(other <= s)
  {
    assert s[i] == pre[i];
  }

  /** The lookup of an attribute's location starts with the
      `getAttribLocation` call, and not with the `getUniformLocation` one. */
  lemma AttributeLookup(h: Host, scopeid: nat, varname: string)
    ensures "gl.getAttribLocation(" + ShaderSym(scopeid) + ", " <= LocationLookup(h, scopeid, true, varname)
    ensures !("gl.getUniformLocation(" + ShaderSym(scopeid) + ", " <= LocationLookup(h, scopeid, true, varname))
  {
    var attr := "gl.getAttribLocation(" + ShaderSym(scopeid) + ", ";
    var unif := "gl.getUniformLocation(" + ShaderSym(scopeid) + ", ";
    var lookup := LocationLookup(h, scopeid, true, varname);
    assert lookup == attr + (h.emitString(varname) + ")");
    assert attr[6] == 'A' && unif[6] == 'U';
    NotBothPrefixes(attr, unif, lookup, 6);
  }

  /** The lookup of a uniform's location starts with the
      `getUniformLocation` call, and not with the `getAttribLocation` one. */
  lemma UniformLookup(h: Host, scopeid: nat, varname: string)
    ensures "gl.getUniformLocation(" + ShaderSym(scopeid) + ", " <= LocationLookup(h, scopeid, false, varname)
    ensures !("gl.getAttribLocation(" + ShaderSym(scopeid) + ", " <= LocationLookup(h, scopeid, false, varname))
  {
    var attr := "gl.getAttribLocation(" + ShaderSym(scopeid) + ", ";
    var unif := "gl.getUniformLocation(" + ShaderSym(scopeid) + ", ";
    var lookup := LocationLookup(h, scopeid, false, varname);
    assert lookup == unif + (h.emitString(varname) + ")");
    assert attr[6] == 'A' && unif[6] == 'U';
    NotBothPrefixes(unif, attr, lookup, 6);
  }

  /** `emit_loc_var` declares the variable named after the scope and the
      variable id, and looks the location up with `getAttribLocation` exactly
      for an attribute and with `getUniformLocation` exactly for a uniform, in
      the shader program of its scope. */
  lemma EmitLocVarLookup(h: Host, scopeid: nat, attribute: bool, varname: string, varid: nat)
    ensures EmitLocVar(h, scopeid, attribute, varname, varid)
            == h.emitVar(LocSym(scopeid, varid), LocationLookup(h, scopeid, attribute, varname), false)
    ensures "gl.getAttribLocation(" + ShaderSym(scopeid) + ", " <= LocationLookup(h, scopeid, attribute, varname)
            <==> attribute
    ensures "gl.getUniformLocation(" + ShaderSym(scopeid) + ", " <= LocationLookup(h, scopeid, attribute, varname)
            <==> !attribute
  {
    if attribute {
      AttributeLookup(h, scopeid, varname);
    } else {
      UniformLookup(h, scopeid, varname);
    }
  }

  /** `emit_param_binding`: the call that binds `value` to the shader variable
      `varid` of the program of `scopeid`. */
  function EmitParamBinding(h: Host, scopeid: nat, ty: Type, varid: nat, value: string,
                            attribute: bool): (r: Result<string>)
    ensures r.Success? <==> ty.Primitive? && (attribute || ty.name in UniformFunctions)
    ensures !attribute && ty.Primitive? && ty.name !in UniformFunctions ==>
              r == Failure(UnsupportedUniformType(ty.name))
    ensures !attribute && ty.Other? ==> r == Failure(UniformNotPrimitive)
    ensures attribute && ty.Other? ==> r == Failure(AttributeNotPrimitive)
    ensures r.Success? && attribute ==>
              r.value == "bind_attribute(gl, " + LocSym(scopeid, varid) + ", " + h.paren(value) + ")"
    ensures r.Success? && !attribute ==>
              r.value == "gl." + UniformFunctions[ty.name] + "(" + LocSym(scopeid, varid)
                         + (if ty.name in MatrixTypes then ", false" else "")
                         + ", " + h.paren(value) + ")"
  {
    if !attribute then
      if ty.Primitive? then
        if ty.name !in UniformFunctions then Failure(UnsupportedUniformType(ty.name))
        else
          var fname := UniformFunctions[ty.name];
          TransposeOnlyForMatrixTypes(ty.name);
          var isMatrix := IndexOf(fname, "Matrix") != -1;
          // the transpose argument follows the location for matrix functions
          Success("gl." + fname + "(" + LocSym(scopeid, varid)
                  + (if isMatrix then ", false" else "")
                  + ", " + h.paren(value) + ")")
      else Failure(UniformNotPrimitive)
    else if ty.Primitive? then
      Success("bind_attribute(gl, " + LocSym(scopeid, varid) + ", " + h.paren(value) + ")")
    else Failure(AttributeNotPrimitive)
  }

  /** The location declarations of `gs`, one newline-terminated line per entry. */
  function LocVarLines(h: Host, scopeid: nat, gs: seq<Glue>): (lines: seq<string>)
    ensures |lines| == |gs|
    ensures forall k :: 0 <= k < |gs| ==>
              lines[k] == EmitLocVar(h, scopeid, gs[k].attribute, gs[k].name, gs[k].id) + "\n"
  {
    if gs == [] then []
    else
      var g := gs[|gs| - 1];
      LocVarLines(h, scopeid, gs[..|gs| - 1]) + [EmitLocVar(h, scopeid, g.attribute, g.name, g.id) + "\n"]
  }

  /** The declaration of the compiled shader program of a pair. */
  function ProgramDecl(h: Host, vertex: Prog, fragment: Prog): string
  {
    h.emitVar(ShaderSym(vertex.id),
              "get_shader(gl, " + h.progsym(vertex.id) + ", " + h.progsym(fragment.id) + ")", false)
    + "\n"
  }

  /** The lines `emit_shader_setup` emits for the vertex program `progid`:
      the program declaration, then one location declaration per glue entry
      of the vertex program, in glue order. */
  function ShaderSetupLines(h: Host, ir: CompilerIR, glue: GlueTable, progid: nat): (r: Result<seq<string>>)
    ensures r.Success? <==>
              GetProgPair(ir, progid).Success?
              && GetProgPair(ir, progid).value.fragment.Some?
              && GetProgPair(ir, progid).value.vertex.id in glue
    ensures GetProgPair(ir, progid).Failure? ==> r == Failure(GetProgPair(ir, progid).error)
    ensures r.Success? ==>
              var pair := GetProgPair(ir, progid).value;
              var gs := glue[pair.vertex.id];
              && |r.value| == |gs| + 1
              && r.value[0] == ProgramDecl(h, pair.vertex, pair.fragment.value)
              && forall k :: 0 <= k < |gs| ==>
                   r.value[k + 1] == EmitLocVar(h, pair.vertex.id, gs[k].attribute, gs[k].name, gs[k].id) + "\n"
  {
    match GetProgPair(ir, progid)
    case Failure(err) => Failure(err)
    case Success(pair) =>
      if pair.fragment.None? then Failure(RuntimeError("fragment_prog is undefined"))
      else if pair.vertex.id !in glue then Failure(RuntimeError("glue[vertex_prog.id] is undefined"))
      else
        var lines := [ProgramDecl(h, pair.vertex, pair.fragment.value)]
                     + LocVarLines(h, pair.vertex.id, glue[pair.vertex.id]);
        Success(lines)
  }

  /** The text of `emit_shader_setup`. */
  function ShaderSetup(h: Host, ir: CompilerIR, glue: GlueTable, progid: nat): Result<string>
  {
    match ShaderSetupLines(h, ir, glue, progid)
    case Failure(err) => Failure(err)
    case Success(lines) => Success(Join(lines))
  }

  /** The loop of `emit_shader_setup`: appends the location declarations of
      `gs` to the program declaration `decl`. */
  method EmitLocVars(h: Host, scopeid: nat, gs: seq<Glue>, decl: string) returns (out: string)
    ensures out == Join([decl] + LocVarLines(h, scopeid, gs))
  {
    ghost var lines := [decl] + LocVarLines(h, scopeid, gs);
    out := decl;
    assert lines[..1] == [out];
    var i := 0;
    while i < |gs|
      invariant 0 <= i <= |gs|
      invariant out == Join(lines[..i + 1])
    {
      var line := EmitLocVar(h, scopeid, gs[i].attribute, gs[i].name, gs[i].id) + "\n";
      assert lines[i + 1] == line;
      JoinSnoc(lines, i + 1);
      out := out + line;
      i := i + 1;
    }
    assert lines[..i + 1] == lines;
  }

  /** `emit_shader_setup`: declares the shader program, then one location
      variable per glue entry of the vertex program. */
  method EmitShaderSetup(h: Host, ir: CompilerIR, glue: GlueTable, progid: nat) returns (r: Result<string>)
    ensures r == ShaderSetup(h, ir, glue, progid)
  {
    var pr := GetProgPair(ir, progid);
    if pr.Failure? {
      return Failure(pr.error);
    }
    var vertex, fragment := pr.value.vertex, pr.value.fragment;
    if fragment.None? {
      return Failure(RuntimeError("fragment_prog is undefined"));
    }
    if vertex.id !in glue {
      return Failure(RuntimeError("glue[vertex_prog.id] is undefined"));
    }
    var out := EmitLocVars(h, vertex.id, glue[vertex.id], ProgramDecl(h, vertex, fragment.value));
    return Success(out);
  }

  /** The JavaScript value bound to a glue entry: its host-side name when that
      is a non-empty string, else its host expression, compiled. */
  function BindingValue(h: Host, e: GLEmitter, g: Glue): Result<string>
  {
    if g.valueName.Some? && g.valueName.value != "" then Success(g.valueName.value)
    else if g.valueExpr.Some? then Success(h.paren(h.emit(e, g.valueExpr.value)))
    else Failure(RuntimeError("value_expr is undefined"))
  }

  /** The binding call of one glue entry in the program of `scopeid`. */
  function BindEntry(h: Host, e: GLEmitter, scopeid: nat, g: Glue): Result<string>
  {
    match BindingValue(h, e, g)
    case Failure(err) => Failure(err)
    case Success(value) => EmitParamBinding(h, scopeid, g.ty, g.id, value, g.attribute)
  }

  /** Applies `f` to each of `xs` in order, stopping at the first failure. */
  function Traverse<T>(f: T -> Result<string>, xs: seq<T>): Result<seq<string>>
    decreases |xs|
  {
    if xs == [] then Success([])
    else
      match Traverse(f, xs[..|xs| - 1])
      case Failure(err) => Failure(err)
      case Success(ys) =>
        match f(xs[|xs| - 1])
        case Failure(err) => Failure(err)
        case Success(y) => Success(ys + [y])
  }

  /** `Traverse` succeeds exactly when `f` succeeds on every element; then it
      gives one result per element, in order; otherwise its error is that of
      the first element on which `f` fails. */
  lemma {:induction false} TraverseInOrder<T>(f: T -> Result<string>, xs: seq<T>)
    ensures Traverse(f, xs).Success? <==> forall k :: 0 <= k < |xs| ==> f(xs[k]).Success?
    ensures Traverse(f, xs).Success? ==>
              && |Traverse(f, xs).value| == |xs|
              && forall k :: 0 <= k < |xs| ==> Traverse(f, xs).value[k] == f(xs[k]).value
    ensures Traverse(f, xs).Failure? ==>
              exists k :: 0 <= k < |xs|
                && (forall j :: 0 <= j < k ==> f(xs[j]).Success?)
                && f(xs[k]) == Failure(Traverse(f, xs).error)
    decreases |xs|
  {
    if xs != [] {
      var n := |xs| - 1;
      var init := xs[..n];
      TraverseInOrder(f, init);
      assert forall k :: 0 <= k < n ==> init[k] == xs[k];
      var r := Traverse(f, xs);
      match Traverse(f, init)
      case Failure(err) =>
        var k :| 0 <= k < n && (forall j :: 0 <= j < k ==> f(init[j]).Success?) && f(init[k]) == Failure(err);
        assert f(xs[k]) == Failure(r.error);
      case Success(ys) =>
        match f(xs[n])
        case Failure(err) =>
          assert f(xs[n]) == Failure(r.error);
        case Success(y) =>
          assert r.value == ys + [y];
    }
  }

  /** When `f` succeeds on the first `i` elements and fails on the next, that
      failure is the one `Traverse` reports. */
  lemma FirstFailureAt<T>(f: T -> Result<string>, xs: seq<T>, i: nat)
    requires i < |xs| && f(xs[i]).Failure?
    requires forall k :: 0 <= k < i ==> f(xs[k]).Success?
    ensures Traverse(f, xs) == Failure(f(xs[i]).error)
  {
    TraverseInOrder(f, xs);
    var k :| 0 <= k < |xs| && (forall j :: 0 <= j < k ==> f(xs[j]).Success?) && f(xs[k]) == Failure(Traverse(f, xs).error);
    assert k == i;
  }

  /** A failure on a prefix is the failure of the whole sequence. */
  lemma {:induction false} TraversePrefixFailure<T>(f: T -> Result<string>, xs: seq<T>, i: nat)
    requires i <= |xs| && Traverse(f, xs[..i]).Failure?
    ensures Traverse(f, xs) == Traverse(f, xs[..i])
    decreases |xs| - i
  {
    if i < |xs| {
      assert xs[..i + 1][..i] == xs[..i];
      TraversePrefixFailure(f, xs, i + 1);
    } else {
      assert xs[..i] == xs;
    }
  }

  /** The binding calls of `gs`, in order, or the error of the first entry
      that cannot be bound. */
  function BindingCalls(h: Host, e: GLEmitter, scopeid: nat, gs: seq<Glue>): Result<seq<string>>
  {
    Traverse((g: Glue) => BindEntry(h, e, scopeid, g), gs)
  }

  /** The bindings of `gs` as `emit_shader_binding` appends them: each call
      preceded by ",\n". */
  function BindingsText(h: Host, e: GLEmitter, scopeid: nat, gs: seq<Glue>): Result<string>
  {
    match BindingCalls(h, e, scopeid, gs)
    case Failure(err) => Failure(err)
    case Success(calls) => Success(JoinPrefixed(",\n", calls))
  }

  /** The text of `emit_shader_binding` for the vertex program `progid`. */
  function ShaderBinding(h: Host, e: GLEmitter, progid: nat): Result<string>
  {
    match GetProgPair(e.ir, progid)
    case Failure(err) => Failure(err)
    case Success(pair) =>
      if progid !in e.glue then Failure(RuntimeError("glue[progid] is undefined"))
      else
        match BindingsText(h, e, pair.vertex.id, e.glue[progid])
        case Failure(err) => Failure(err)
        case Success(text) => Success("gl.useProgram(" + ShaderSym(pair.vertex.id) + ")" + text)
  }

  /** One iteration of `emit_shader_binding`'s loop: computes the value of a
      glue entry and its binding call. */
  method BindOne(h: Host, e: GLEmitter, scopeid: nat, g: Glue) returns (r: Result<string>)
    ensures r == BindEntry(h, e, scopeid, g)
  {
    var value: string;
    if g.valueName.Some? && g.valueName.value != "" {
      value := g.valueName.value;
    } else if g.valueExpr.Some? {
      value := h.paren(h.emit(e, g.valueExpr.value));
    } else {
      return Failure(RuntimeError("value_expr is undefined"));
    }
    r := EmitParamBinding(h, scopeid, g.ty, g.id, value, g.attribute);
  }

  /** `emit_shader_binding` succeeds exactly when the pair is found, the glue
      list exists and every entry can be bound. Its text is the `useProgram`
      call of the vertex program followed by one binding per glue entry, each
      preceded by ",\n", in table order; each entry binds its host-side name
      when that is non-empty, and its compiled host expression otherwise. */
  lemma ShaderBindingLayout(h: Host, e: GLEmitter, progid: nat)
    ensures ShaderBinding(h, e, progid).Success? <==>
              && GetProgPair(e.ir, progid).Success?
              && progid in e.glue
              && forall k :: 0 <= k < |e.glue[progid]| ==>
                   BindEntry(h, e, GetProgPair(e.ir, progid).value.vertex.id, e.glue[progid][k]).Success?
    ensures ShaderBinding(h, e, progid).Success? ==>
              var v := GetProgPair(e.ir, progid).value.vertex.id;
              var gs := e.glue[progid];
              var calls := BindingCalls(h, e, v, gs).value;
              && |calls| == |gs|
              && ShaderBinding(h, e, progid).value == "gl.useProgram(" + ShaderSym(v) + ")" + JoinPrefixed(",\n", calls)
              && forall k :: 0 <= k < |gs| ==>
                   if gs[k].valueName.Some? && gs[k].valueName.value != "" then
                     calls[k] == EmitParamBinding(h, v, gs[k].ty, gs[k].id, gs[k].valueName.value, gs[k].attribute).value
                   else
                     && gs[k].valueExpr.Some?
                     && calls[k] == EmitParamBinding(h, v, gs[k].ty, gs[k].id,
                                                     h.paren(h.emit(e, gs[k].valueExpr.value)), gs[k].attribute).value
  {
    if GetProgPair(e.ir, progid).Success? && progid in e.glue {
      var v := GetProgPair(e.ir, progid).value.vertex.id;
      TraverseInOrder((g: Glue) => BindEntry(h, e, v, g), e.glue[progid]);
    }
  }

  /** The loop of `emit_shader_binding`: binds each entry of `gs` in order. */
  method EmitBindings(h: Host, e: GLEmitter, scopeid: nat, gs: seq<Glue>) returns (r: Result<string>)
    ensures r == BindingsText(h, e, scopeid, gs)
  {
    ghost var bind := (g: Glue) => BindEntry(h, e, scopeid, g);
    ghost var calls: seq<string> := [];
    var out := "";
    var i := 0;
    while i < |gs|
      invariant 0 <= i <= |gs| && |calls| == i
      invariant Traverse(bind, gs[..i]) == Success(calls)
      invariant out == JoinPrefixed(",\n", calls)
    {
      var binding := BindOne(h, e, scopeid, gs[i]);
      assert binding == bind(gs[i]);
      assert gs[..i + 1][..i] == gs[..i];
      if binding.Failure? {
        TraversePrefixFailure(bind, gs, i + 1);
        return Failure(binding.error);
      }
      ghost var next := calls + [binding.value];
      assert next[..i] == calls;
      out := out + ",\n" + binding.value;
      calls := next;
      i := i + 1;
    }
    assert gs[..i] == gs;
    return Success(out);
  }

  /** `emit_shader_binding`: makes the shader program current, then binds each
      glue entry in table order. */
  method EmitShaderBinding(h: Host, e: GLEmitter, progid: nat) returns (r: Result<string>)
    ensures r == ShaderBinding(h, e, progid)
  {
    var pr := GetProgPair(e.ir, progid);
    if pr.Failure? {
      return Failure(pr.error);
    }
    var vertex := pr.value.vertex;
    var out := "gl.useProgram(" + ShaderSym(vertex.id) + ")";
    if progid !in e.glue {
      return Failure(RuntimeError("glue[progid] is undefined"));
    }
    var bindings := EmitBindings(h, e, vertex.id, e.glue[progid]);
    if bindings.Failure? {
      return Failure(bindings.error);
    }
    out := out + bindings.value;
    return Success(out);
  }

  /** The start of the call that binds `g` at the location `loc`. */
  predicate BindsAt(call: string, g: Glue, loc: string)
  {
    && g.ty.Primitive?
    && if g.attribute then "bind_attribute(gl, " + loc + ", " <= call
       else g.ty.name in UniformFunctions && "gl." + UniformFunctions[g.ty.name] + "(" + loc + ", " <= call
  }

  /** A string starts with any of its prefixes. */
  lemma PrefixOfConcat(pre: string, rest: string)
    ensures pre <= pre + rest
  {
    assert (pre + rest)[..|pre|] == pre;
  }

  /** The binding call of a matrix uniform starts with its `gl.uniform*`
      function applied to the location; the transpose flag follows. */
  lemma MatrixUniformCallBindsAt(h: Host, scopeid: nat, ty: Type, varid: nat, value: string)
    requires EmitParamBinding(h, scopeid, ty, varid, value, false).Success?
    requires ty.name in MatrixTypes
    ensures "gl." + UniformFunctions[ty.name] + "(" + LocSym(scopeid, varid) + ", "
            <= EmitParamBinding(h, scopeid, ty, varid, value, false).value
  {
    var pre := "gl." + UniformFunctions[ty.name] + "(" + LocSym(scopeid, varid) + ", ";
    var rest := "false, " + h.paren(value) + ")";
    assert EmitParamBinding(h, scopeid, ty, varid, value, false).value == pre + rest;
    PrefixOfConcat(pre, rest);
  }

  /** The binding call of a uniform starts with its `gl.uniform*` function
      applied to the location. */
  lemma UniformCallBindsAt(h: Host, scopeid: nat, ty: Type, varid: nat, value: string)
    requires EmitParamBinding(h, scopeid, ty, varid, value, false).Success?
    ensures "gl." + UniformFunctions[ty.name] + "(" + LocSym(scopeid, varid) + ", "
            <= EmitParamBinding(h, scopeid, ty, varid, value, false).value
  {
    if ty.name in MatrixTypes {
      MatrixUniformCallBindsAt(h, scopeid, ty, varid, value);
    } else {
      var pre := "gl." + UniformFunctions[ty.name] + "(" + LocSym(scopeid, varid) + ", ";
      var rest := h.paren(value) + ")";
      assert EmitParamBinding(h, scopeid, ty, varid, value, false).value == pre + rest;
      PrefixOfConcat(pre, rest);
    }
  }

  /** A glue entry's binding call addresses the location named after the
      scope and the entry's id, with the call its kind and type select. */
  lemma BindEntryBindsAt(h: Host, e: GLEmitter, scopeid: nat, g: Glue)
    requires BindEntry(h, e, scopeid, g).Success?
    ensures BindsAt(BindEntry(h, e, scopeid, g).value, g, LocSym(scopeid, g.id))
  {
    if g.attribute {
      var pre := "bind_attribute(gl, " + LocSym(scopeid, g.id) + ", ";
      var tail := h.paren(BindingValue(h, e, g).value) + ")";
      assert BindEntry(h, e, scopeid, g).value == pre + tail;
      PrefixOfConcat(pre, tail);
    } else {
      UniformCallBindsAt(h, scopeid, g.ty, g.id, BindingValue(h, e, g).value);
    }
  }

  // ---------------------------------------------------------------------------
  // The WebGL rules of the JavaScript compiler

  /** `visit_call`: a `vtx` call on a literal quote becomes the binding code of
      that shader program, a `render` call becomes its argument's code, and any
      other call is compiled by the JavaScript rules. */
  function VisitCall(h: Host, e: GLEmitter, tree: Expr): (r: Result<string>)
    requires tree.Call?
    ensures h.isVtxCall(tree) && 0 < |tree.args| && !tree.args[0].Quote? ==> r == Failure(DynamicVtx)
    ensures h.isVtxCall(tree) && 0 < |tree.args| && tree.args[0].Quote? ==>
              r == ShaderBinding(h, e, tree.args[0].id)
    ensures !h.isVtxCall(tree) && h.isRenderCall(tree) && 0 < |tree.args| ==>
              r == Success(h.emit(e, tree.args[0]))
    ensures !h.isVtxCall(tree) && !h.isRenderCall(tree) ==> r == Success(h.jsRules(e, tree))
    ensures r.Failure? ==> (h.isVtxCall(tree) || h.isRenderCall(tree))
  {
    if h.isVtxCall(tree) then
      if |tree.args| == 0 then Failure(RuntimeError("tree.args[0] is undefined"))
      else if tree.args[0].Quote? then ShaderBinding(h, e, tree.args[0].id)
      else Failure(DynamicVtx)
    else if h.isRenderCall(tree) then
      if |tree.args| == 0 then Failure(RuntimeError("tree.args[0] is undefined"))
      else Success(h.emit(e, tree.args[0]))
    else Success(h.jsRules(e, tree))
  }

  /** The node is a multiplication whose type is the 4x4 float matrix. */
  predicate IsMatrixProduct(ir: CompilerIR, tree: Expr)
    requires tree.Binary?
  {
    tree.op == "*" && tree.id in ir.typeTable && ir.typeTable[tree.id] == Float4x4
  }

  /** `visit_binary`: a 4x4 matrix product becomes a call of the runtime's
      `mat4mult`; every other binary node is compiled by the JavaScript rules. */
  function VisitBinary(h: Host, e: GLEmitter, tree: Expr): (r: Result<string>)
    requires tree.Binary?
    ensures r.Failure? <==> tree.op == "*" && tree.id !in e.ir.typeTable
    ensures IsMatrixProduct(e.ir, tree) ==>
              r == Success("mat4mult(" + h.paren(h.emit(e, tree.lhs)) + ", " + h.paren(h.emit(e, tree.rhs)) + ")")
    ensures r.Success? && !IsMatrixProduct(e.ir, tree) ==> r == Success(h.jsRules(e, tree))
  {
    if tree.op == "*" then
      if tree.id !in e.ir.typeTable then Failure(RuntimeError("type_table entry is undefined"))
      else if e.ir.typeTable[tree.id] == Float4x4 then
        var lhs := h.paren(h.emit(e, tree.lhs));
        var rhs := h.paren(h.emit(e, tree.rhs));
        Success("mat4mult(" + lhs + ", " + rhs + ")")
      else Success(h.jsRules(e, tree))
    else Success(h.jsRules(e, tree))
  }

  /** At a `vtx` call on a literal quote of a well-formed IR, the host code
      uses the names the quote's setup declares: the same shader program and,
      entry by entry in glue order, the same location, looked up as an
      attribute exactly when it is bound as one. */
  lemma VtxCallMatchesSetup(h: Host, e: GLEmitter, tree: Expr)
    requires WellFormed(e.ir)
    requires tree.Call? && h.isVtxCall(tree) && 0 < |tree.args| && tree.args[0].Quote?
    requires VisitCall(h, e, tree).Success?
    requires ShaderSetupLines(h, e.ir, e.glue, tree.args[0].id).Success?
    ensures tree.args[0].id in e.glue
    ensures BindingCalls(h, e, tree.args[0].id, e.glue[tree.args[0].id]).Success?
    ensures
      var p := tree.args[0].id;
      var gs := e.glue[p];
      var lines := ShaderSetupLines(h, e.ir, e.glue, p).value;
      var calls := BindingCalls(h, e, p, gs).value;
      && ProgAt(e.ir, p).Some?
      && lines[0] == h.emitVar(ShaderSym(p), "get_shader(gl, " + h.progsym(p) + ", "
                                 + h.progsym(ProgAt(e.ir, p).value.quoteChildren[0]) + ")", false) + "\n"
      && VisitCall(h, e, tree).value == "gl.useProgram(" + ShaderSym(p) + ")" + JoinPrefixed(",\n", calls)
      && |lines| == |calls| + 1
      && forall k :: 0 <= k < |calls| ==>
           && lines[k + 1] == h.emitVar(LocSym(p, gs[k].id), LocationLookup(h, p, gs[k].attribute, gs[k].name), false) + "\n"
           && BindsAt(calls[k], gs[k], LocSym(p, gs[k].id))
  {
    var p := tree.args[0].id;
    var pair := GetProgPair(e.ir, p).value;
    assert pair.vertex.id == p;
    var c0 := pair.vertex.quoteChildren[0];
    assert pair.fragment.value.id == c0;
    var gs := e.glue[p];
    TraverseInOrder((g: Glue) => BindEntry(h, e, p, g), gs);
    var calls := BindingCalls(h, e, p, gs).value;
    forall k | 0 <= k < |calls|
      ensures BindsAt(calls[k], gs[k], LocSym(p, gs[k].id))
    {
      BindEntryBindsAt(h, e, p, gs[k]);
    }
  }

  // ---------------------------------------------------------------------------
  // GLSL programs

  /** The program ids that are not on `path`, the ids the recursion of
      `emit_glsl_prog` has entered and not yet left. */
  function Unvisited(ir: CompilerIR, path: set<nat>): set<nat>
  {
    set i | 0 <= i < |ir.progs| && i !in path
  }

  /** The declaration of the string variable holding a program's GLSL code. */
  function GlslDecl(h: Host, e: GLEmitter, prog: Prog): string
  {
    h.emitVar(h.progsym(prog.id), h.emitString(h.compileGlsl(e.ir, e.glue, prog.id)), true) + "\n"
  }

  /** The text of `emit_glsl_prog` for `prog`, entered with the ids on `path`
      already being emitted. A child that is already on the path would make the
      source recurse without end, which JavaScript stops with a stack overflow. */
  function GlslProg(h: Host, e: GLEmitter, prog: Prog, path: set<nat>): Result<string>
    decreases Unvisited(e.ir, path), 1
  {
    match Traverse((subid: nat) => GlslChild(h, e, subid, path), prog.quoteChildren)
    case Failure(err) => Failure(err)
    case Success(texts) =>
      var own := Join(texts) + GlslDecl(h, e, prog);
      if h.isVertex(e.ir, prog.id) then
        match ShaderSetup(h, e.ir, e.glue, prog.id)
        case Failure(err) => Failure(err)
        case Success(setup) => Success(own + setup)
      else Success(own)
  }

  /** The text of one subprogram of a shader program. */
  function GlslChild(h: Host, e: GLEmitter, subid: nat, path: set<nat>): Result<string>
    decreases Unvisited(e.ir, path), 0
  {
    match ProgAt(e.ir, subid)
    case None => Failure(RuntimeError("subprog is undefined"))
    case Some(sub) =>
      if sub.annotation != "s" then Failure(SubprogramInShader)
      else if subid in path then Failure(RuntimeError("maximum call stack size exceeded"))
      else
        assert Unvisited(e.ir, path + {subid}) == Unvisited(e.ir, path) - {subid};
        GlslProg(h, e, sub, path + {subid})
  }

  /** `emit_glsl_prog`: emits the subprograms, then the program's own GLSL
      code, then, for a vertex program, its setup code. */
  method EmitGlslProg(h: Host, e: GLEmitter, prog: Prog, path: set<nat>) returns (r: Result<string>)
    ensures r == GlslProg(h, e, prog, path)
    decreases Unvisited(e.ir, path), 1
  {
    var children := prog.quoteChildren;
    ghost var child := (subid: nat) => GlslChild(h, e, subid, path);
    ghost var texts: seq<string> := [];
    var out := "";
    var i := 0;
    while i < |children|
      invariant 0 <= i <= |children| && |texts| == i
      invariant Traverse(child, children[..i]) == Success(texts)
      invariant out == Join(texts)
    {
      var subid := children[i];
      assert children[..i + 1][..i] == children[..i];
      var text := EmitGlslChild(h, e, subid, path);
      assert text == child(subid);
      if text.Failure? {
        TraversePrefixFailure(child, children, i + 1);
        return Failure(text.error);
      }
      ghost var next := texts + [text.value];
      assert next[..i] == texts;
      out := out + text.value;
      texts := next;
      i := i + 1;
    }
    assert children[..i] == children;
    out := out + GlslDecl(h, e, prog);
    if h.isVertex(e.ir, prog.id) {
      var setup := EmitShaderSetup(h, e.ir, e.glue, prog.id);
      if setup.Failure? {
        return Failure(setup.error);
      }
      out := out + setup.value;
    }
    return Success(out);
  }

  /** One iteration of `emit_glsl_prog`'s loop over the subprograms. */
  method EmitGlslChild(h: Host, e: GLEmitter, subid: nat, path: set<nat>) returns (r: Result<string>)
    ensures r == GlslChild(h, e, subid, path)
    decreases Unvisited(e.ir, path), 0
  {
    var sub := ProgAt(e.ir, subid);
    if sub.None? {
      return Failure(RuntimeError("subprog is undefined"));
    }
    if sub.value.annotation != "s" {
      return Failure(SubprogramInShader);
    }
    if subid in path {
      return Failure(RuntimeError("maximum call stack size exceeded"));
    }
    assert Unvisited(e.ir, path + {subid}) == Unvisited(e.ir, path) - {subid};
    r := EmitGlslProg(h, e, sub.value, path + {subid});
  }

  /** A shader program whose subprograms are not all defined shader programs
      is rejected; on success the subprograms' texts come first, in order,
      then the program's own GLSL declaration, then the setup code exactly
      when the program is a vertex program. */
  lemma GlslProgLayout(h: Host, e: GLEmitter, prog: Prog, path: set<nat>)
    ensures (exists k :: 0 <= k < |prog.quoteChildren|
               && (ProgAt(e.ir, prog.quoteChildren[k]).None?
                   || ProgAt(e.ir, prog.quoteChildren[k]).value.annotation != "s"))
            ==> GlslProg(h, e, prog, path).Failure?
    ensures GlslProg(h, e, prog, path).Success? ==>
              var cs := prog.quoteChildren;
              var texts := Traverse((subid: nat) => GlslChild(h, e, subid, path), cs).value;
              && |texts| == |cs|
              && (forall k :: 0 <= k < |cs| ==> GlslChild(h, e, cs[k], path) == Success(texts[k]))
              && (!h.isVertex(e.ir, prog.id) ==> GlslProg(h, e, prog, path).value == Join(texts) + GlslDecl(h, e, prog))
              && (h.isVertex(e.ir, prog.id) ==>
                    && ShaderSetup(h, e.ir, e.glue, prog.id).Success?
                    && GlslProg(h, e, prog, path).value
                       == Join(texts) + GlslDecl(h, e, prog) + ShaderSetup(h, e.ir, e.glue, prog.id).value)
  {
    TraverseInOrder((subid: nat) => GlslChild(h, e, subid, path), prog.quoteChildren);
  }

  /** When every subprogram before the `k`-th is emitted and the `k`-th is a
      program that is not a shader, `emit_glsl_prog` throws the
      subprogram-in-shader error. */
  lemma SubprogramRejected(h: Host, e: GLEmitter, prog: Prog, path: set<nat>, k: nat)
    requires k < |prog.quoteChildren|
    requires forall j :: 0 <= j < k ==> GlslChild(h, e, prog.quoteChildren[j], path).Success?
    requires ProgAt(e.ir, prog.quoteChildren[k]).Some?
    requires ProgAt(e.ir, prog.quoteChildren[k]).value.annotation != "s"
    ensures GlslProg(h, e, prog, path) == Failure(SubprogramInShader)
  {
    FirstFailureAt((subid: nat) => GlslChild(h, e, subid, path), prog.quoteChildren, k);
  }

  /** `emit_prog` of the WebGL emitter: shader programs go to the GLSL
      emitter, all others to the JavaScript one, which does not fail. A shader
      program with a subprogram that is missing or not a shader is rejected. */
  function EmitProg(h: Host, e: GLEmitter, prog: Prog): (r: Result<string>)
    ensures prog.annotation != "s" ==> r.Success?
    ensures prog.annotation != "s" ==> r == Success(h.jsEmitProg(e, prog))
    ensures prog.annotation == "s" ==> r == GlslProg(h, e, prog, {})
    ensures prog.annotation == "s"
            && (exists k :: 0 <= k < |prog.quoteChildren|
                  && (ProgAt(e.ir, prog.quoteChildren[k]).None?
                      || ProgAt(e.ir, prog.quoteChildren[k]).value.annotation != "s"))
            ==> r.Failure?
  {
    if prog.annotation == "s" then
      GlslProgLayout(h, e, prog, {});
      GlslProg(h, e, prog, {})
    else Success(h.jsEmitProg(e, prog))
  }

  /** `emit_prog` of a shader quote whose first non-emittable subprogram is
      an ordinary (non-shader) quote throws the subprogram-in-shader error. */
  lemma EmitProgRejectsSubprogram(h: Host, e: GLEmitter, prog: Prog, k: nat)
    requires prog.annotation == "s"
    requires k < |prog.quoteChildren|
    requires forall j :: 0 <= j < k ==> GlslChild(h, e, prog.quoteChildren[j], {}).Success?
    requires ProgAt(e.ir, prog.quoteChildren[k]).Some?
    requires ProgAt(e.ir, prog.quoteChildren[k]).value.annotation != "s"
    ensures EmitProg(h, e, prog) == Failure(SubprogramInShader)
  {
    SubprogramRejected(h, e, prog, {}, k);
  }

  // ---------------------------------------------------------------------------
  // Code generation

  /** The program at index `i` of `ir.progs` is defined and is a shader. */
  predicate ShaderAt(ir: CompilerIR, i: nat)
  {
    i < |ir.progs| && ir.progs[i].Some? && ir.progs[i].value.annotation == "s"
  }

  /** The glue table `codegen` has built after the first `n` programs. */
  function GlueFor(h: Host, ir: CompilerIR, n: nat): GlueTable
    requires n <= |ir.progs|
  {
    if n == 0 then map[]
    else
      var table := GlueFor(h, ir, n - 1);
      match ir.progs[n - 1]
      case None => table
      case Some(p) => if p.annotation == "s" then table[p.id := h.getGlue(ir, p)] else table
  }

  /** The glue table has an entry for the id of each defined shader program
      and for no other id. */
  lemma {:induction false} GlueForDomain(h: Host, ir: CompilerIR, n: nat)
    requires n <= |ir.progs|
    ensures forall id :: id in GlueFor(h, ir, n) <==>
              exists i :: 0 <= i < n && ShaderAt(ir, i) && ir.progs[i].value.id == id
  {
    if n > 0 {
      GlueForDomain(h, ir, n - 1);
      forall id | exists i :: 0 <= i < n && ShaderAt(ir, i) && ir.progs[i].value.id == id
        ensures id in GlueFor(h, ir, n)
      {
        var i :| 0 <= i < n && ShaderAt(ir, i) && ir.progs[i].value.id == id;
        if i < n - 1 {
          assert id in GlueFor(h, ir, n - 1);
        }
      }
      forall id | id in GlueFor(h, ir, n)
        ensures exists i :: 0 <= i < n && ShaderAt(ir, i) && ir.progs[i].value.id == id
      {
        if id !in GlueFor(h, ir, n - 1) {
          assert ShaderAt(ir, n - 1) && ir.progs[n - 1].value.id == id;
        }
      }
    }
  }

  /** The entry for an id is the glue of the last shader program with that id. */
  lemma {:induction false} GlueForValue(h: Host, ir: CompilerIR, n: nat, i: nat)
    requires i < n <= |ir.progs| && ShaderAt(ir, i)
    requires forall j :: i < j < n && ShaderAt(ir, j) ==> ir.progs[j].value.id != ir.progs[i].value.id
    ensures ir.progs[i].value.id in GlueFor(h, ir, n)
    ensures GlueFor(h, ir, n)[ir.progs[i].value.id] == h.getGlue(ir, ir.progs[i].value)
  {
    if i < n - 1 {
      GlueForValue(h, ir, n - 1, i);
    }
  }

  /** For a well-formed IR, `glue[id]` is defined exactly for the shader
      programs, and holds that program's glue. */
  lemma GlueTableOfWellFormed(h: Host, ir: CompilerIR)
    requires WellFormed(ir)
    ensures forall id :: id in GlueFor(h, ir, |ir.progs|) <==> ShaderAt(ir, id)
    ensures forall id :: id in GlueFor(h, ir, |ir.progs|) ==>
              ShaderAt(ir, id) && GlueFor(h, ir, |ir.progs|)[id] == h.getGlue(ir, ir.progs[id].value)
  {
    GlueForDomain(h, ir, |ir.progs|);
    forall id | id in GlueFor(h, ir, |ir.progs|)
      ensures ShaderAt(ir, id) && GlueFor(h, ir, |ir.progs|)[id] == h.getGlue(ir, ir.progs[id].value)
    {
      GlueForValue(h, ir, |ir.progs|, id);
    }
  }

  /** The loop of `codegen` that fills the glue table. */
  method BuildGlue(h: Host, ir: CompilerIR) returns (glue: GlueTable)
    ensures glue == GlueFor(h, ir, |ir.progs|)
  {
    glue := map[];
    var i := 0;
    while i < |ir.progs|
      invariant i <= |ir.progs|
      invariant glue == GlueFor(h, ir, i)
    {
      var prog := ir.progs[i];
      if prog.Some? && prog.value.annotation == "s" {
        glue := glue[prog.value.id := h.getGlue(ir, prog.value)];
      }
      i := i + 1;
    }
  }

  /** `codegen`: builds the glue table, then hands the emitter to the driver. */
  method Codegen(h: Host, ir: CompilerIR) returns (out: string)
    ensures out == h.emitMainWrapper(h.emitMain(GLEmitter(ir, GlueFor(h, ir, |ir.progs|))), false)
  {
    var glue := BuildGlue(h, ir);
    var emitter := GLEmitter(ir, glue);
    out := h.emitMainWrapper(h.emitMain(emitter), false);
  }
}
