# gears shader pipeline and uniform buffer, modelled in Dafny

This project models two parts of the `gears` renderer.

The first part is the front end of the `pipeline!` procedural macro (`gears-pipeline`). The macro takes a list of shader stages, such as `vs: { source: "...", define: ["N" = "V"], entry: "main" }`. The model covers:

- parsing the stage list, each stage's options and `define` lists (`PipelineInput`, `ModuleInput`, `DefinesInput`);
- the source rewriting before compilation: comment stripping and the `name.` → `_name_` renaming of input and output blocks;
- the macro table handed to the shader compiler;
- the debug routing and the numbered-source error report;
- emitting each compiled kernel as a `pub const NAME_SPIRV: &[u8] = &[...];` item.

The second part is the renderer's `UniformBuffer`. It is a device buffer over one block of CPU-visible memory. It is written by mapping the memory, copying bytes to its start, flushing and unmapping.

Rust token streams are modelled as sequences of `Tokens.Token` trees. Each `while !input.is_empty()` parse loop is a method that consumes a `seq<Token>` the way `ParseStream` does. Each such method is proved equal to a recursive specification function over the rest of the input. The properties are lemmas about those functions.

A stage body is also given by meaning, as a list of `ModuleInputs.Field` values. `FieldsTokens(fs, kws)` writes such a list out as tokens, each field under any one of the keywords the parser accepts for it (`p`/`path`, `s`/`src`/`source`, `def`, `n`, and so on; `Spelt` says which). A property stated over the fields is carried to the parser, for every spelling, through `ParseFieldsTokens`.

Parts that the code does not compute itself enter as oracles, that is, as function-valued parameters:

- reading a shader file and `Path::parent` (`ModuleInputs.Env`);
- the shader compiler's `preprocess` and `compile_into_spirv` (`Compile.Shaderc`);
- the annotation expansion done by code outside this model (`Preprocess.Expander`).

Where the code and its documentation disagree, the model follows the code:

- The stage aliases `v` and `f` are documented but rejected (`PipelineInputs.ShortAliasesRejected`).
- Without an `entry` option the entry point is `main`, not the documented `vert`/`frag` (`Compile.CompileModuleDefaults`).
- The vertex table has no `GEARS_OUT` macro and the fragment table has no `GEARS_IN` macro (`Compile.StageMacrosDiffer`).
- The `no-autodefine` spelling can never match. The tokenizer splits it into `no`, `-`, `autodefine`, so `no` is rejected as an unknown field (`ModuleInputs.HyphenatedNoAutodefineRejected`). Only `n` and `na` work.
- In a `define` list, a bare name followed by `,` takes the `continue` branch and is dropped. Only a bare name in last position is kept (`Defines.BareNameBeforeCommaDropped`).
- `UniformBuffer::write` sets `count` before its bound check. When the check fails, the call panics with the memory still mapped, so the unmap is not unconditional.
- The copy in `write` goes to the start of the mapping. The `offset` only enters the bound check.
- A pipeline with no stage, or with only one, is accepted by the parser, although a pipeline is described as needing both stages. `PipelineInputs.StagesAccepted` holds for the empty list as well.
- The parser accepts a stage body or a `define` list in any delimiter, `(...)`, `[...]` or `{...}`, since it only asks for a group. The encodings write one delimiter each (`{...}` for a stage body, `[...]` for a `define` list); the parse functions themselves accept all three.

## Model

| member | source | states |
|---|---|---|
| Defines.ParseDefines | gears-pipeline/src/lib.rs:55-93 | The parse loop returns exactly `DefinesOf(ts)`, the token-by-token reading of a `define` list: a name, then end, `= value` or `,`; any other punctuation or token is an error. |
| Defines.AddAssign | gears-pipeline/src/lib.rs:48-53 | `a += b` is `a`'s definitions followed by `b`'s: its length is the sum, its prefix is `a` and its suffix is `b`. |
| Defines.ParseDefinesTokens | gears-pipeline/src/lib.rs:55-93 | A list written out as `"N" = "V"` / `"N"` entries separated by `,` parses to exactly its surviving entries, in order. Valued entries always survive; a bare name survives only in last position. |
| Defines.DefinesRoundTrip | gears-pipeline/src/lib.rs:55-93 | When every entry but the last has a value, parsing the written-out list gives back the list. |
| Defines.BareNameBeforeCommaDropped | gears-pipeline/src/lib.rs:62-81 | `"N" ,` contributes no entry; the result is that of the rest of the list. |
| Defines.OtherPunctuationRejected | gears-pipeline/src/lib.rs:67-87 | A name followed by punctuation other than `=` and `,` is the invalid-punctuation error. |
| Defines.DefinesFromLiterals | gears-pipeline/src/lib.rs:59-72 | A parsed list has no more entries than tokens, and every name and value is a string literal of the input. |
| ModuleInputs.FieldStep | gears-pipeline/src/lib.rs:143-224 | A field that parses consumes at least one token and at most the tokens left, so the loop advances. |
| ModuleInputs.ParseModule | gears-pipeline/src/lib.rs:131-242 | The parse loop over a stage body returns exactly `ModuleFrom(ts, Start, env)`: the fields read in order from the initial locals, then the missing-source check. |
| ModuleInputs.FieldStepOfTokens | gears-pipeline/src/lib.rs:143-224 | A field at the head of the input, under any of its keywords, takes up exactly its own tokens and has the effect of the field. |
| ModuleInputs.ParseFieldsTokens | gears-pipeline/src/lib.rs:143-241 | Parsing a body written out field by field, each field under any of its aliases, is the same as applying its fields in order and then requiring a source. |
| ModuleInputs.SpellingIrrelevant | gears-pipeline/src/lib.rs:147-223 | Two spellings of the same fields, alias by alias, parse to the same outcome. |
| ModuleInputs.ShortSpellings | gears-pipeline/src/lib.rs:175-207 | `s: "..."`, `def: [...]`, `n` gives the record with that source and those definitions, the built-in macros off, no include path, no entry point and debug off. |
| ModuleInputs.DefaultDefinesFlag | gears-pipeline/src/lib.rs:139-207 | After the fields, the built-in macros are on exactly when they were on before and no `n`/`na` field occurs. |
| ModuleInputs.DebugFlag | gears-pipeline/src/lib.rs:141-217 | After the fields, debug is on exactly when it was on before or a `debug` field occurs. |
| ModuleInputs.DefinesAccumulate | gears-pipeline/src/lib.rs:196-204 | The definitions after the fields are the earlier ones followed by every `define` group's list, in field order. |
| ModuleInputs.SourceAtMostOnce | gears-pipeline/src/lib.rs:148-188 | Fields that apply without error hold at most one `source`/`path` field, and none if a source was already set. A source is set afterwards exactly when one was set before or one such field occurs. |
| ModuleInputs.ExactlyOneSource | gears-pipeline/src/lib.rs:148-230 | Whatever aliases are used, a body that parses has exactly one `source`/`path` field; a body without one, whose fields otherwise apply, is the missing-source error. |
| ModuleInputs.SecondSourceRejected | gears-pipeline/src/lib.rs:148-183 | A `source`/`path` field (any alias) when a source is already set is the already-specified error, before its value is read. |
| ModuleInputs.IncludeKept | gears-pipeline/src/lib.rs:162-195 | Once an include path is set, fields other than `include` leave it unchanged; `path` does not overwrite it. |
| ModuleInputs.LastIncludeWins | gears-pipeline/src/lib.rs:189-195 | `include` always overwrites: the include path is that of the last `include` field. |
| ModuleInputs.PathSeedsInclude | gears-pipeline/src/lib.rs:162-173 | With no include path set and no `include` field, a `path` field sets the include path to the file's parent directory, which exists. |
| ModuleInputs.IncludeUntouched | gears-pipeline/src/lib.rs:148-224 | Without `include` and `path` fields the include path is unchanged. |
| ModuleInputs.LastEntryWins | gears-pipeline/src/lib.rs:208-214 | The entry point is that of the last `entry` field, or the earlier one when there is none. |
| ModuleInputs.UnknownFieldRejected | gears-pipeline/src/lib.rs:218-223 | A field name that is none of the aliases is the invalid-field error, carrying that name. |
| ModuleInputs.HyphenatedNoAutodefineRejected | gears-pipeline/src/lib.rs:205-223 | `no-autodefine`, which reaches the parser as `no`, `-`, `autodefine`, is the invalid-field error for `no`. |
| PipelineInputs.ParsePipeline | gears-pipeline/src/lib.rs:98-129 | The loop over stage declarations returns exactly `PipelineFrom(ts, map[], env)`. |
| PipelineInputs.StagesAccepted | gears-pipeline/src/lib.rs:101-124 | A list of declarations `alias: { body }` is accepted exactly when every alias is `vs`/`vertex`/`vert` or `fs`/`fragment`/`frag`, no stage occurs twice, none is already present, and every body parses. |
| PipelineInputs.StagesContents | gears-pipeline/src/lib.rs:109-124 | When accepted, the map's keys are the stages already present plus those declared, each declared stage maps to its own parsed body, and stages already present keep their entries. |
| PipelineInputs.ShortAliasesRejected | gears-pipeline/src/lib.rs:109-118 | The aliases `v` and `f` are the unknown-shader-type error. |
| Stages.NameAndKindInjective | gears-pipeline/src/lib.rs:366-380 | `name()` (`VERT`/`FRAG`) and `kind()` both tell the two stages apart. |
| Compile.BuildMacroTable | gears-pipeline/src/lib.rs:475-507 | The macros added, in order: with built-ins off, exactly the user defines; otherwise the vertex built-ins (`GEARS_VERTEX`, `GEARS_IN`, `GEARS_INOUT` → `out`, `GEARS_VERT_UBO`) or the fragment ones (`GEARS_FRAGMENT`, `GEARS_OUT`, `GEARS_INOUT` → `in`), followed by the user defines. The user defines always end the table. |
| Compile.StageMacrosDiffer | gears-pipeline/src/lib.rs:475-502 | `GEARS_INOUT` declares an output in the vertex table and an input in the fragment table; the vertex table has no `GEARS_OUT` and the fragment table no `GEARS_IN`. |
| Compile.CompileOutcome | gears-pipeline/src/lib.rs:509-531 | Debug mode always yields an error, whether preprocessing succeeds or fails: the expanded text or the preprocessing error, each over the numbered source. Without debug mode the result is a kernel exactly when compilation succeeds, and then it is the compiler's kernel; a compile error is reported over the numbered source. |
| Compile.CompileModuleDefaults | gears-pipeline/src/lib.rs:339-351 | Without an `entry` option a stage is compiled exactly as `compile_shader_module` with entry point `main`, its stage's `kind()` and `name()`, and its include path, defines, built-in switch and debug flag; outside debug mode it succeeds exactly when the compiler does. |
| Compile.NumberLinesAt | gears-pipeline/src/lib.rs:519-524 | Line `i` of the listing is the row numbered `n + i`, standing after the rows of the lines before it. |
| Compile.ErrorReportLists | gears-pipeline/src/lib.rs:519-531 | The error text is `Error:`, the diagnostic, `Source:`, then every source line under its 1-based number, right-aligned in four columns and followed by `: `, in order. Trimming cuts only the trailing whitespace of the last line, never its number. |
| Text.DecimalRoundTrip | gears-pipeline/src/lib.rs:519-524 | Printing a number in decimal and reading the digits back gives the number. |
| Text.PadLeft | gears-pipeline/src/lib.rs:523 | `{:-4}` pads to width four with spaces on the left and keeps the text at the right end. |
| Text.TrimEnd | gears-pipeline/src/lib.rs:529 | `trim_end` keeps a prefix, removes only whitespace, and leaves text that does not end in whitespace. |
| Text.LinesHaveNoNewline | gears-pipeline/src/lib.rs:520-521 | No line produced by `lines()` holds a line feed. |
| Text.LinesRoundTrip | gears-pipeline/src/lib.rs:520-521 | Without carriage returns, joining the lines back, each followed by a line feed, gives the text, with a line feed added if it did not end in one. |
| Preprocess.NoLineCommentLeft | gears-pipeline/src/lib.rs:272-280 | After comment stripping no `//` is left in the text. |
| Preprocess.NoSlashUnchanged | gears-pipeline/src/lib.rs:272-280 | Text without `/` comes out of comment stripping unchanged. |
| Preprocess.GreedyBlockComment | gears-pipeline/src/lib.rs:272-280 | The block-comment pattern is greedy: `x/*1*/y/*2*/z` becomes `x z`, so code between two block comments is removed as well. |
| Preprocess.RenameChangesIffMatch | gears-pipeline/src/lib.rs:296-322 | A renamer changes the text exactly when `\bNAME\.\b` occurs in it. |
| Preprocess.RenameExamples | gears-pipeline/src/lib.rs:296-322 | `v.pos` becomes `_v_pos`, while `uv.x` and a trailing `v.` are left alone. |
| Preprocess.ApplyRenamers | gears-pipeline/src/lib.rs:314-322 | The rename loop applies the renamers one after the other, in the order they were queued. |
| Preprocess.RenamedNamesExactly | gears-pipeline/src/lib.rs:291-299 | A name gets a renamer exactly when an input or output block has that name; uniform blocks never do. |
| Preprocess.BoundExactly | gears-pipeline/src/lib.rs:301-304 | Exactly the `gears_bindgen` blocks are returned, and no more blocks than were matched. |
| Preprocess.CollectAttribs | gears-pipeline/src/lib.rs:280-304 | Over the matched blocks in order: the renamers queued are the input and output block names, the blocks returned are the bound ones, and each is tagged with the stage being processed. |
| Preprocess.GlslAttribMacros | gears-pipeline/src/lib.rs:265-325 | The rewritten text is: comments stripped, annotations expanded, then every renamer of an input or output block applied in order. The blocks returned are the bound ones, tagged with the stage. |
| Emit.ConstNames | gears-pipeline/src/lib.rs:398-401 | The constants are `VERT_SPIRV` and `FRAG_SPIRV`, one name per stage. |
| Emit.ByteListAt | gears-pipeline/src/lib.rs:413-417 | Byte `k` of the kernel is the unsuffixed literal at position `2k` of the list, followed by a `,`. |
| Emit.ByteListRoundTrip | gears-pipeline/src/lib.rs:413-418 | Reading the emitted list back gives exactly the kernel's bytes, in order. |
| Emit.ByteListInjective | gears-pipeline/src/lib.rs:413-418 | Different kernels give different lists. |
| Emit.EmitModule | gears-pipeline/src/lib.rs:394-420 | The stream gains exactly `pub const NAME_SPIRV : & [u8] = & [ list ] ;`, the list holding one literal and one `,` per byte. |
| UniformBuffers.UniformBuffer.constructor | gears/src/renderer/buffer/uniform.rs:21-49 | `new(size)` has `len == size` and `count == 0`, with fresh memory of `size` bytes, not mapped. `len` is a constant, so no later call changes it. |
| UniformBuffers.UniformBuffer.Write | gears/src/renderer/buffer/uniform.rs:51-75 | Maps, then `count == |data|`. If `offset + s * |data|` exceeds `len`, nothing is copied and the memory is left mapped; otherwise the first `s * |data|` bytes become the slice's bytes, the rest are unchanged, and the events are map, copy, flush, unmap. |
| UniformBuffers.UniformBuffer.Count | gears/src/renderer/buffer/uniform.rs:77-79 | On a live buffer, returns the element count of the last write. |
| UniformBuffers.UniformBuffer.Get | gears/src/renderer/buffer/uniform.rs:81-83 | On a live buffer, returns the buffer's own device buffer. |
| UniformBuffers.UniformBuffer.Destroy | gears/src/renderer/buffer/uniform.rs:87-92 | Requires a live buffer and leaves it destroyed, having freed its memory. |
| UniformBuffers.FlattenLength | gears/src/renderer/buffer/uniform.rs:56-67 | A slice of `n` elements of `s` bytes is `s * n` bytes. |
| UniformBuffers.Written | gears/src/renderer/buffer/uniform.rs:63-67 | Copying bytes to the start of memory keeps its size, puts the bytes first and leaves the rest. |
| UniformBuffers.WrittenIdempotent | gears/src/renderer/buffer/uniform.rs:56-67 | Copying the same bytes twice gives the memory of copying them once. |
| UniformBuffers.WriteTwice | gears/src/renderer/buffer/uniform.rs:51-79 | Two writes of the same slice that fits leave the count and memory of one write. |

## Left out

- The shader compiler (`shaderc`), its process-wide `STATIC_COMPILER` singleton and the include callback: foreign calls and global unsafe state. Their results are the `Compile.Shaderc` oracle.
- Reading a shader file (`read_shader_source`) and `Path::parent`: file-system access. They are the `ModuleInputs.Env` oracle. The `to_str` panic on a non-UTF-8 path is not modelled.
- The annotation pattern, `BindgenStruct` parsing, `StructRegistry` slot assignment, `generate` and `to_glsl`: `ubo.rs` is not part of this model. The expansion is the `Preprocess.Expander` oracle, and a block carries only its name, direction, `bind` flag and stage. The panic on a block that does not parse is left out as well.
- `Pipeline::new` iterating the stage `HashMap`, and `Pipeline::to_tokens` emitting constants in `HashMap` order: that order is unspecified. Each stage's compile call is `Compile.CompileModule`, and each constant is `Emit.EmitModule`.
- Spans, error positions and `to_compile_error`: errors are `Tokens.ParseError` values without positions, and compiler messages are plain strings.
- Punctuation spacing (`Spacing::Joint`/`Alone`): only the printed form depends on it.
- `syn`'s refusal of Rust keywords as identifiers, and literal kinds beyond string and other: `Token` has `Str` and `Num` only.
- Preprocess.IsWordChar: regex `\w` and `\b` are modelled on ASCII letters, digits and `_`; Unicode word characters are not.
- gfx_hal device calls (`create_buffer`, `allocate_memory`, `upload_type`, `bind_buffer_memory`, `map_memory`, `flush_mapped_memory_ranges`, `unmap_memory`, `free_memory`, `destroy_buffer`): the memory is a byte array, the buffer an opaque object, and the mapping calls are entries of a ghost event log.
- UniformBuffers.UniformBuffer.Write: `usize` overflow of `offset + size_of::<T>() * count` is not modelled (sizes are `nat`). A panicking write returns `ok == false` instead of unwinding. The method requires an unmapped memory, which holds after every write that does not panic.
- UniformBuffers.UniformBuffer.Write: the slice is given as a sequence of per-element byte strings, so the memory layout of `T` is not modelled.
- UniformBuffers.UniformBuffer.constructor: `new` allocates the buffer's required size `req.size`, which the device may round up past `size`. The model's memory is exactly `len` bytes, so bytes past `len` are not modelled.
- UniformBuffers.UniformBuffer.Write: `write` maps and flushes the whole allocation (`Segment::ALL`). The model maps the whole `len`-byte memory, which is the same only when `req.size == size`.
- The example applications (the camera and matrix math, locking, the event and frame loops, startup and logging): floating point, concurrency and application code.
