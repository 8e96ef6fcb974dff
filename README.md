# protobuf_bind! binding-tree compiler

This project models the code generator behind the `protobuf_bind!` macro,
found in `src/protobuf_bind.rs`. The macro receives a source message
expression and an ordered field specification. Each field has a key and a
value. A value can bind the field to a user identifier, destructure a nested
message, or be a repeated field, which is not supported. The macro expands
to one destructuring statement, `let pat = value;`.

The compiler is two mutually recursive procedures:

- `emit_field` compiles one field against the expression of its enclosing
  message.
- `emit_message` loops over the fields and collects the results into a tuple
  pattern and a tuple expression.

For a nested message, `emit_field` gensyms a fresh name `msg`. It binds that
name to the field read in a block `{ let msg = get(parent, key); ... }`. The
nested message is then compiled with that name as its parent.

The model has four modules:

- `syntax.dfy` holds the data:
  - the host syntax that is built (`Ast`: names, patterns, expressions, the
    `let` statement, the macro result);
  - the specification datatypes the parser produces (`Parser`);
  - `Outcome.Result`, whose `Panic` case stands for the `panic!` on a
    repeated field.
- `protobuf_bind.dfy` (`ProtobufBind`) holds the compiler as pure functions.
  The gensym counter is passed in and returned explicitly. `CompileFields`
  is `emit_message`'s loop, unfolded from its last field. The module also
  holds reference descriptions of a correct output:
  - `PatMirrors` / `ExprMirrors`: one slot per field at every depth;
  - `Corresponds`: pattern and expression have the same shape;
  - `Binders`: the names the generated blocks bind;
  - `FreshRange`: the gensym'd names for a range of counter values.
- `protobuf_bind_emit.dfy` (`ProtobufBindEmit`) holds the compiler in the
  source's own imperative form:
  - an `Interner` class whose counter `Gensym` advances;
  - `EmitField`;
  - `EmitMessage`, a `while` loop that appends to two sequences;
  - the driver `MacroProtobufBind`.

  Each of these methods is proved to compute exactly what the matching
  function computes, counter included.
- `protobuf_bind_proofs.dfy` (`ProtobufBindProofs`) holds the properties,
  proved by structural induction:
  - shape and order preservation;
  - leaf correctness;
  - no extra wrapping for nested messages;
  - the pattern and the expression correspond;
  - intermediate names are fresh and pairwise distinct;
  - compilation rejects a repeated field exactly when one occurs;
  - the output does not depend on the counter except for names;
  - the driver's outcome;
  - the worked two-field example.

A gensym'd identifier is `Name.Gensym("msg", id)`, which is a different
constructor from a user identifier `Name.User(text)`. So the two kinds of
name never collide, even when their texts agree. This matches the host,
where a gensym'd symbol never equals an interned user symbol.

## Model

| member | source | states |
|---|---|---|
| `ProtobufBind.CompileField` | src/protobuf_bind.rs:32-64 | on success the counter never goes back; it advances exactly when the field is a nested message (one gensym per nested message) and stays put for a single value |
| `ProtobufBind.CompileMessage` | src/protobuf_bind.rs:66-78 | on success the pattern is a tuple pattern and the expression a tuple expression, each with exactly one element per field; the counter never goes back |
| `ProtobufBind.CompileFields` | src/protobuf_bind.rs:67-75 | the loop over a list of fields yields two parallel lists, each as long as the field list |
| `ProtobufBind.ExpandProtobufBind` | src/protobuf_bind.rs:80-94 | a parse error yields the inert dummy result with the counter untouched; a successful expansion holds exactly one statement |
| `ProtobufBindProofs.MessageShape` | src/protobuf_bind.rs:32-78 | a successful compilation mirrors the specification at every depth: one slot per field in field order, a single-value slot binds exactly the identifier and reads exactly `field_get(parent, key)`, a nested-message slot is the nested message's own unwrapped tuple pattern and a block binding one gensym'd name to `field_get(parent, key)` followed by the nested tuple compiled with that name as parent |
| `ProtobufBindProofs.FieldsShape` | src/protobuf_bind.rs:71-75 | every slot `i` of the loop's two lists is the correct pattern and expression for field `i` read from the common parent |
| `ProtobufBindProofs.FieldShape` | src/protobuf_bind.rs:36-58 | leaf correctness for a single value, and the unwrapped pattern plus one `let` block for a nested message |
| `ProtobufBindProofs.EmptyMessage` | src/protobuf_bind.rs:67-77 | an empty specification compiles to an empty tuple pattern and an empty tuple expression, not to an error, without using the counter |
| `ProtobufBindProofs.MirrorsCorrespond` | src/protobuf_bind.rs:49-58 | a pattern and an expression that mirror the same specification correspond position for position: each tuple pattern meets a tuple expression of the same arity, possibly under the nested message's block; each identifier meets a field read |
| `ProtobufBindProofs.PatMirrorsUnique` | src/protobuf_bind.rs:36-49 | the pattern half of a correct output is determined by the specification alone |
| `ProtobufBindProofs.MessageCounter` | src/protobuf_bind.rs:43-49 | compiling a message consumes exactly one counter value per nested message at any depth |
| `ProtobufBindProofs.FieldsCounter` | src/protobuf_bind.rs:71-75 | the loop consumes one counter value per nested message in the fields it went through |
| `ProtobufBindProofs.FieldCounter` | src/protobuf_bind.rs:43-58 | one field consumes one counter value for itself, if it is a nested message, plus those of its nested fields |
| `ProtobufBindProofs.FieldAt` | src/protobuf_bind.rs:71-74 | slot `i` of the loop's output is exactly field `i` compiled against the same parent expression, with the counter left by the fields before it |
| `ProtobufBindProofs.MessageFieldsAt` | src/protobuf_bind.rs:70-77 | element `i` of the message's tuple pattern and tuple expression is field `i` compiled against the expression given to `emit_message` (order preservation, same parent for every field) |
| `ProtobufBindProofs.PrefixPanic` | src/protobuf_bind.rs:60-75 | once a field aborts, the whole message aborts with the same message, whatever follows |
| `ProtobufBindProofs.MessageRejects` | src/protobuf_bind.rs:60-62 | a message aborts if and only if a repeated field occurs anywhere in its tree, and the abort carries the repeated-field message |
| `ProtobufBindProofs.FieldsRejects` | src/protobuf_bind.rs:71-75 | the loop aborts if and only if one of its fields contains a repeated field |
| `ProtobufBindProofs.FieldRejects` | src/protobuf_bind.rs:35-62 | a field aborts if and only if it is, or contains, a repeated field |
| `ProtobufBindProofs.MirrorsErase` | src/protobuf_bind.rs:36-58 | two expressions that mirror the same specification, over parents that agree once gensym'd names are forgotten, themselves agree once gensym'd names are forgotten |
| `ProtobufBindProofs.CounterIndependence` | src/protobuf_bind.rs:44-49 | success and the produced pattern do not depend on the counter value or on the source expression; for source expressions that agree up to gensym'd names, the produced expressions agree once every gensym'd name is forgotten, so only the names the counter chose differ |
| `ProtobufBindProofs.MessagePatNames` | src/protobuf_bind.rs:36-49 | the pattern binds exactly the user identifiers of the specification, depth first, in field order |
| `ProtobufBindProofs.FieldsPatNames` | src/protobuf_bind.rs:71-77 | the loop's patterns bind the user identifiers of its fields in order |
| `ProtobufBindProofs.FieldPatNames` | src/protobuf_bind.rs:37-49 | a field's pattern binds its identifier, or those of its nested message |
| `ProtobufBindProofs.MessageBinders` | src/protobuf_bind.rs:44-58 | the blocks bind the gensym'd names for exactly the counter values consumed, in depth-first order of the nested messages |
| `ProtobufBindProofs.FieldsBinders` | src/protobuf_bind.rs:71-75 | the loop's blocks bind the names for the counter values it consumed, in order |
| `ProtobufBindProofs.FieldBinders` | src/protobuf_bind.rs:43-58 | a nested-message field binds its own newly drawn name first, then those of its nested fields |
| `ProtobufBindProofs.FreshNames` | src/protobuf_bind.rs:44 | the intermediate names are one per nested message, pairwise distinct, and the gensym'd names for consecutive counter values starting at the current one; none of them is bound by the pattern |
| `ProtobufBindProofs.SuccessiveCompilationsDisjoint` | src/protobuf_bind.rs:44 | two compilations run one after the other, the second starting from the counter the first left, bind no intermediate name in common |
| `ProtobufBindProofs.DriverOutcome` | src/protobuf_bind.rs:83-93 | a parse error gives the dummy result and no binding; a repeated field aborts with the repeated-field message; otherwise the result is exactly one `let pat = value` whose halves mirror the specification, correspond to each other, and bind fresh intermediate names |
| `ProtobufBindProofs.Example` | src/protobuf_bind.rs:32-78 | fields `a` bound to `x` and nested `b { c bound to y }` over source `S` compile to `(x, (y,))` bound to `(get(S, a), { let t = get(S, b); (get(t, c),) })`, with `t` the next gensym'd name |
| `ProtobufBindEmit.Interner.Gensym` | src/protobuf_bind.rs:44 | returns the name for the current counter value and advances the counter by one |
| `ProtobufBindEmit.EmitField` | src/protobuf_bind.rs:32-64 | the imperative `emit_field` returns what `CompileField` computes from the counter it starts with, and leaves the counter where `CompileField` does |
| `ProtobufBindEmit.EmitMessage` | src/protobuf_bind.rs:66-78 | the loop that pushes onto two growing lists returns what `CompileMessage` computes, with the same counter effect; the loop invariant ties the lists built so far to `CompileFields` on the fields visited so far |
| `ProtobufBindEmit.MacroProtobufBind` | src/protobuf_bind.rs:80-94 | the imperative driver returns what `ExpandProtobufBind` computes, counter included |

## Left out

- `IdentParser` and `parse_protobuf` (src/protobuf_bind.rs:19-30): the grammar and the token parser of the macro input are not part of this model. The driver takes the parser's outcome, `Parsed(expr, msg)` or `ParseError`, as a parameter.
- `util::field_get`: its body is not part of this model. It is the uninterpreted constructor `EGet(obj, key)`. The source always passes `false` as its flag, so the flag is not represented.
- The `RepeatedValue` payload: the compiler never looks at it, and the parser's definition is not part of this model, so the variant carries no data.
- Spans, `ExtCtxt` builders, `P<>` boxing, `MacEager`, `SmallVector` and `aster`'s `StmtBuilder` are host plumbing. Plain datatypes stand in for them. The block with its two statements is `EBlock(binder, init, body)`. The statement built by `build_let(pat, None, Some(value), vec![])` is `SLet(pat, value)`.
- `panic!` as a process abort: it is the `Panic` outcome carrying the source's message. After an abort the model says nothing about the counter, because the process is gone.
- `Symbol::gensym` is process-wide and safe under concurrency. The model has a single counter threaded through one sequential expansion. Only the uniqueness of the names it hands out is modelled.
- `Symbol::gensym`'s interning: a gensym'd name is modelled as its base text and counter value. The guarantee that it never equals a user's symbol is built into the `Name` type rather than derived.
