# WebGL back end of a staged-programming compiler

This project models the WebGL back end of the compiler in `src/backends/webgl.ts`.
The back end takes the compiler IR, in which quote lifting has turned each
quoted stage into a program, and emits JavaScript. Shader programs marked with
the annotation `s` become GLSL source strings. Each top-level (vertex) shader
gets setup code: it compiles and links the vertex/fragment pair and looks up
the location of every uniform and attribute named in the program's glue list,
the list of values passed between stages. At each `vtx` call the host code
makes the shader current and binds every glue entry with the `gl.uniform*` or
`bind_attribute` call its type selects.

Files:

- `wrappers.dfy` holds `Option`.
- `ir.dfy` holds the IR fields the back end reads: programs, the type table, syntax nodes, glue entries and the exceptions it throws.
- `names.dfy` holds the generated JavaScript names `shadersym` and `locsym`, with parsers that invert them.
- `webgl.dfy` holds the back end itself.

The routines the back end calls from other files are the fields of a `Host`
value. The model assumes only that they never throw. These are the JavaScript and
GLSL emitters, `paren`, `progsym`, `get_glue`, `prog_kind`, `vtx_expr`,
`render_expr` and the `emit_main` driver.

Every thrown string is a `Failure` with its own `Error` constructor. A
JavaScript `TypeError` is a `Failure(RuntimeError(..))`; the source raises one
when it reads a field of `undefined`, for example a missing program, glue list
or argument.

## Model

| member | source | states |
|---|---|---|
| Names.Decimal | src/backends/webgl.ts:76 | the text JavaScript gives a non-negative integer concatenated to a string is a canonical decimal numeral, starting with '0' only for 0 |
| Names.ParseDecimalInverts | src/backends/webgl.ts:76 | reading the numeral back gives the number |
| Names.DecimalOfParse | src/backends/webgl.ts:76 | every canonical numeral is the numeral of the number it denotes |
| Names.DecimalInjective | src/backends/webgl.ts:76 | distinct numbers have distinct numerals |
| Names.Find | src/backends/webgl.ts:83 | the first index of a character in a string, or none exactly when it does not occur |
| Names.ShaderSym | src/backends/webgl.ts:75-77 | `shadersym`: "s" followed by the program id in decimal; its round trip, converse and injectivity are proved by `ShaderSymRoundTrip`, `ShaderSymOfParse` and `ShaderSymInjective` |
| Names.LocSym | src/backends/webgl.ts:82-84 | `locsym`: "s", the scope id, "l", the variable id; its round trip and injectivity are proved by `LocSymRoundTrip` and `LocSymInjective`, and `ShaderSymIsNotLocSym` separates it from `shadersym` |
| Names.ShaderSymRoundTrip | src/backends/webgl.ts:75-77 | `shadersym(progid)` parses back to `progid` |
| Names.ShaderSymOfParse | src/backends/webgl.ts:75-77 | every string that parses as a shader name is the `shadersym` of the parsed id |
| Names.ShaderSymInjective | src/backends/webgl.ts:75-77 | distinct programs get distinct shader variables |
| Names.LocSymRoundTrip | src/backends/webgl.ts:82-84 | `locsym(scopeid, escid)` parses back to both ids; the first `l` separates them |
| Names.LocSymInjective | src/backends/webgl.ts:82-84 | distinct (scope, variable) pairs get distinct location variables |
| Names.ShaderSymIsNotLocSym | src/backends/webgl.ts:75-84 | a shader variable never has the name of a location variable |
| WebGL.IndexOf | src/backends/webgl.ts:150 | `indexOf`: the first index where the substring occurs, and -1 exactly when it occurs nowhere |
| WebGL.NoMatchWithoutFirstChar | src/backends/webgl.ts:150 | a substring whose first character is absent from the string is not found |
| WebGL.UniformFunctions | src/backends/webgl.ts:62-71 | `GL_UNIFORM_FUNCTIONS`, the eight entries; `TransposeOnlyForMatrixTypes` proves which of them take a transpose argument |
| WebGL.TransposeOnlyForMatrixTypes | src/backends/webgl.ts:144-156 | the uniform function name contains "Matrix", so that the transpose argument is emitted, exactly for `Float3x3` and `Float4x4` |
| WebGL.GetProgPair | src/backends/webgl.ts:86-97 | succeeds exactly when the program exists and has one quote child; otherwise it throws the fragment-count error, or fails reading `undefined`; the pair is the program and the program at its child's id, which may be missing |
| WebGL.LocationLookup | src/backends/webgl.ts:106-110 | the `gl.get*Location` expression of `emit_loc_var`; `AttributeLookup` and `UniformLookup` prove which function it calls |
| WebGL.EmitLocVar | src/backends/webgl.ts:102-112 | `emit_loc_var`; `EmitLocVarLookup` proves the name it declares and the lookup it uses |
| WebGL.AttributeLookup | src/backends/webgl.ts:106-110 | an attribute's location is looked up with `getAttribLocation` on its scope's shader, never with `getUniformLocation` |
| WebGL.UniformLookup | src/backends/webgl.ts:106-110 | a uniform's location is looked up with `getUniformLocation` on its scope's shader, never with `getAttribLocation` |
| WebGL.EmitLocVarLookup | src/backends/webgl.ts:102-112 | `emit_loc_var` declares `locsym(scope, var)` and looks it up with `getAttribLocation` if and only if the variable is an attribute, and with `getUniformLocation` if and only if it is not |
| WebGL.EmitParamBinding | src/backends/webgl.ts:139-174 | fails with the source's error for a non-primitive uniform, an unsupported uniform type or a non-primitive attribute, and succeeds in every other case; a uniform binds through its table function at `locsym`, with a `false` transpose argument exactly for matrix types; an attribute binds through `bind_attribute` |
| WebGL.LocVarLines | src/backends/webgl.ts:129-131 | one location declaration per glue entry, in glue order |
| WebGL.ShaderSetupLines | src/backends/webgl.ts:116-134 | succeeds exactly when the pair exists, the fragment exists and the vertex program has a glue list; the first line declares the linked program, then each glue entry's location follows in order |
| WebGL.EmitLocVars | src/backends/webgl.ts:129-133 | the setup loop's text is the program declaration followed by the location lines |
| WebGL.ShaderSetup | src/backends/webgl.ts:116-134 | the text of `emit_shader_setup`, the joined lines whose success condition and contents `ShaderSetupLines` states |
| WebGL.EmitShaderSetup | src/backends/webgl.ts:116-134 | the method's text and errors are those of the line-by-line setup |
| WebGL.TraverseInOrder | src/backends/webgl.ts:187-196 | a loop that stops at the first throw succeeds exactly when every element succeeds, then gives one result per element in order; otherwise it reports the first element's error |
| WebGL.FirstFailureAt | src/backends/webgl.ts:187-196 | the first element that throws decides the error |
| WebGL.TraversePrefixFailure | src/backends/webgl.ts:187-196 | once a prefix has thrown, the rest of the loop changes nothing |
| WebGL.BindingValue | src/backends/webgl.ts:188-193 | the value bound for a glue entry; `BindOne` and `ShaderBindingLayout` state which one is chosen |
| WebGL.BindEntry | src/backends/webgl.ts:188-195 | one entry's binding call; `BindEntryBindsAt` proves the location and the call it uses |
| WebGL.ShaderBinding | src/backends/webgl.ts:179-199 | the text of `emit_shader_binding`; `ShaderBindingLayout` states its success condition and layout, `VtxCallMatchesSetup` its agreement with the setup |
| WebGL.BindOne | src/backends/webgl.ts:188-195 | binds the host-side name when it is non-empty, else the compiled host expression, and fails when neither is defined |
| WebGL.EmitBindings | src/backends/webgl.ts:187-196 | the loop yields each binding call prefixed by ",\n", in glue order, or the first entry's error |
| WebGL.EmitShaderBinding | src/backends/webgl.ts:179-199 | the method's text and errors are those of `ShaderBinding` |
| WebGL.ShaderBindingLayout | src/backends/webgl.ts:179-199 | `emit_shader_binding` succeeds exactly when the pair and the glue list exist and every entry can be bound; its text is `gl.useProgram(shadersym)` followed by each entry's binding call in order |
| WebGL.MatrixUniformCallBindsAt | src/backends/webgl.ts:150-157 | a matrix uniform's call is its table function applied first to the location |
| WebGL.UniformCallBindsAt | src/backends/webgl.ts:149-158 | every uniform's call is its table function applied first to the location |
| WebGL.BindEntryBindsAt | src/backends/webgl.ts:194-195 | every successful binding call is addressed to `locsym(scope, entry id)`, and is `bind_attribute` for attributes and the type's uniform function for uniforms |
| WebGL.VisitCall | src/backends/webgl.ts:205-225 | a `vtx` call on a literal quote becomes that program's shader binding; on another argument it throws the dynamic-`vtx` error; a `render` call becomes its argument's code; any other call goes to the JavaScript rules; at this node it fails only on a `vtx` or `render` call |
| WebGL.VisitBinary | src/backends/webgl.ts:227-240 | a `*` whose type is the 4x4 float matrix becomes `mat4mult(lhs, rhs)`; every other binary node goes to the JavaScript rules; at this node it fails only on a `*` with no type entry |
| WebGL.VtxCallMatchesSetup | src/backends/webgl.ts:116-134 | in a well-formed IR, the host code of a `vtx` call uses the names declared by the quote's setup: the same shader variable, and for each glue entry the same location variable, looked up as an attribute exactly when it is bound as one |
| WebGL.GlslProg | src/backends/webgl.ts:253-276 | the text of `emit_glsl_prog`, whose rejection of non-shader subprograms and layout `GlslProgLayout` proves |
| WebGL.GlslChild | src/backends/webgl.ts:257-263 | one subprogram of `emit_glsl_prog`; `SubprogramRejected` proves that an ordinary quote among a shader's subprograms gives the subprogram-in-shader error |
| WebGL.GlslProgLayout | src/backends/webgl.ts:253-276 | a subprogram that is missing or not a shader makes the emission fail; on success the subprograms' texts come in order, then the program's GLSL string, then the setup code exactly for vertex programs |
| WebGL.SubprogramRejected | src/backends/webgl.ts:257-262 | when the subprograms before the k-th are emitted and the k-th is an ordinary quote, `emit_glsl_prog` throws "error: subprograms not allowed in shaders" |
| WebGL.EmitGlslProg | src/backends/webgl.ts:253-276 | the method's text and errors are those of `GlslProg` |
| WebGL.EmitGlslChild | src/backends/webgl.ts:257-263 | a missing child fails reading `undefined`; a non-shader child throws the subprogram error; a child already being emitted overflows the stack; any other child is emitted recursively |
| WebGL.EmitProg | src/backends/webgl.ts:295-302 | a non-shader program goes to the JavaScript emitter and does not fail here; a shader program goes to `emit_glsl_prog` with no subprogram yet entered, and one with a subprogram that is missing or not a shader is rejected (lines 259-260, through `GlslProgLayout`) |
| WebGL.EmitProgRejectsSubprogram | src/backends/webgl.ts:295-298 | `emit_prog` of a shader quote whose first failing subprogram is an ordinary quote throws "error: subprograms not allowed in shaders" |
| WebGL.GlueFor | src/backends/webgl.ts:281-288 | the glue table after the first n programs; `GlueForDomain`, `GlueForValue` and `GlueTableOfWellFormed` prove its keys and entries |
| WebGL.GlueForDomain | src/backends/webgl.ts:281-288 | the glue table has an entry exactly for the ids of the defined shader programs |
| WebGL.GlueForValue | src/backends/webgl.ts:281-288 | an id's entry is the glue of the last shader program with that id |
| WebGL.GlueTableOfWellFormed | src/backends/webgl.ts:281-288 | in a well-formed IR the table is defined exactly at the shader programs' indices and holds each one's own glue |
| WebGL.BuildGlue | src/backends/webgl.ts:281-288 | the loop builds the glue table of all programs |
| WebGL.Codegen | src/backends/webgl.ts:279-313 | the output is the main wrapper of the driver's output for the emitter holding the IR and the full glue table; in the model it cannot fail, see "## Left out" |

## Left out

- The `RUNTIME` string (lines 12-60) is a constant of JavaScript text. It is emitted elsewhere, and nothing in this file computes with it.
- The collaborators are `Host` fields, and the model does not describe them: `js.emit_var`, `js.emit_string`, `paren`, `progsym`, `emit`, the JavaScript rules, `glsl.compile_prog`, `prog_kind`, `vtx_expr`, `render_expr`, `get_glue`, `js.emit_prog` and the `emit_main` driver. Every `Host` field is total: an exception thrown by `emit`, the JavaScript rules, `get_glue`, `glsl.compile_prog`, `js.emit_var` or the driver is not modelled.
- WebGL.Codegen: the emitter handed to the driver holds only the IR and the glue table, not the `compile` and `emit_prog` hooks, so nothing in the model calls `VisitCall`, `VisitBinary` or `EmitProg` from the driver, and `Codegen` cannot fail. The source's `codegen` throws any error of `get_glue` (line 285) and every error this model defines, raised through `emit_main`.
- WebGL.VisitCall, WebGL.VisitBinary: their failure conditions are those of the node itself. An error thrown while compiling a child, through `emit` or the JavaScript rules (lines 220, 224, 232-233, 239), is not modelled; for instance `f(vtx(x))` with `x` not a quote throws the dynamic-`vtx` error from inside the JavaScript rules.
- A call of `js.emit_var` without a third argument is modelled as passing `false`.
- `compile` (lines 243-245) and `compose_visit`: the dispatch over node kinds lives in `src/visit.ts`, which is not part of this model. The two WebGL rules are modelled directly as `VisitCall` and `VisitBinary`.
- `emit_proc` and `emit_prog_variant` (lines 293, 304-307) delegate to the JavaScript back end unchanged, so they carry nothing to model.
- WebGL.EmitParamBinding: the uniform table lookup covers only the table's own keys. For a type named after an inherited `Object` property, such as `constructor` or `__proto__`, the source finds a function or the prototype object, which has no `indexOf` method, so line 150 throws a `TypeError`; the model reports `UnsupportedUniformType` instead.
- Names.Decimal: program ids are non-negative integers. JavaScript's exponent notation for numbers of 1e21 and above is not modelled.
- The stack overflow caused by a cycle among shader subprograms is modelled as a `RuntimeError`. It is raised when a child is already on the recursion path.
- `typ === FLOAT4X4` compares object identity in the source; the model compares the type structurally. The type table's entry is modelled as the type alone, not the tuple whose first component it is.
- `atw.ts`, `dingus/` and `harness/` are not part of this model. Neither are the GLSL and JavaScript back ends, `gl.ts` or the IR construction.
- WebGL.Codegen: the generated program's behaviour in a browser (shader compilation, linking, buffer binding) is outside the model.
