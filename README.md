# The `output string` codec of mm0-rs, in Dafny

This project models the string-output codec of the mm0-rs elaborator
(`mm0-rs/src/elab/inout.rs`). The codec turns expressions of sort `string`
into bytes. A fixed set of built-in terms drives it:

- `s0` is the empty string;
- `s1` is a one-character string;
- `sadd` is concatenation;
- `ch` makes a character from two hex digits;
- `x0` .. `xf` are the hex digits;
- a user def `scons` is accepted as a second concatenation when its body is provably one.

The model has four parts. Each part is one Dafny module with its own file.

- **Writer** (`writer.dfy`): the `StringWriter` sink with its single pending nibble, and `StringPart`.
  - The spec functions live on the value `WriterState`.
  - The class `StringWriter` updates its fields in place.
  - Each method of the class is proved equal to the spec function of the same name.
- **SegBuilder** (`builder.dfy`): the compile-time `StringSegBuilder` and `StringSeg`, in the same two layers.
- **Process** and **Output** (`process.dfy`, `output.dfy`): the two evaluators over expression nodes.
  - `process_node` and `process_def` build segment sequences symbolically.
  - `write_node` and `write_output_string` stream bytes into a writer.
  - Each is a method that threads a builder or writer object and loops where the source loops.
  - Each method is proved against a recursive spec function.
  - `OutputFacts` (`output_facts.dfy`) proves what the streaming evaluator guarantees:
    - appends only;
    - independence from the sink's contents;
    - left-to-right order and associativity of concatenation;
    - nibble packing by `ch`;
    - unfolding by substitution;
    - the error cases.
- **Registry** (`registry.dfy`): `check_sort`, `new_sorts`, `check_term` and `new_string_handler`. It proves:
  - the resulting map from term ids to built-ins is sound and complete;
  - it fails only on a missing or mistyped base symbol, naming it;
  - it admits `scons` exactly when the alias check passes.
- **Alias** (`alias.dfy`): why the `scons` check is sound.
  - When `process_def` turns a def's body into `[Var(chr, 0), Var(str, 1)]`, `write_node` writes exactly its first argument followed by its second when it unfolds that def.
  - Against the rest of the registry (`m - {t}`), where the admitted def `t` is not a built-in and is unfolded, `t` applied to two children that evaluate to bytes `x` and `y` writes `x + y` into a writer with no pending nibble, exactly as `sadd` on the same children does (`Alias.ConsWritesAsConcat`). So registering `t` as the built-in `scons` does not change what such an application writes.
  - The proof is a simulation between the symbolic builder and the streaming writer.

`env.dfy` abstracts the elaborator's environment:

- atoms, with the sort or term each name declares;
- term declarations, each with binders, return type and an optional body;
- expression nodes (`Dummy`, `Ref`, `App`).

`EnvWF` states what the rest of the elaborator guarantees:

- a def's body only mentions terms declared before it;
- heap slots only refer to earlier slots.

`inout.dfy` holds the built-in tags (`InoutStringType`) and the error datatype. `bytes.dfy` holds bytes, nibbles and their packing. `wrappers.dfy` holds `Option` and `Result`.

Some behaviours of the code are worth stating outright; the model follows the code in each:

- **`push_hex` keeps the pending nibble.** `push_hex` (`inout.rs:61-67`) appends `hi << 4 | h` but keeps `hi` pending, whereas `write_hex` (`inout.rs:121-127`) `take()`s it.
  - `SegBuilder.BuilderState.PushHex` models the code as written.
  - `SegBuilder.BuilderDisagreesWithWriter` shows that the stream `1 2 3 4` gives the literal `12 13 14` with `1` still pending; a writer packs the same stream as `12 34`.
  - This cannot change the outcome of the `scons` check, its only consumer: a nibble that the head's evaluation reaches leaves a nibble or literal segment that no later step removes (`Alias.HexEndsWithNibble`, `Alias.VarsOnlyBefore`), so the segments are never exactly two variables.
- **Literal segments are not always merged.** Splicing a heap slot (`inout.rs:208`) flushes and then appends the slot's segments verbatim, so it can leave two literal segments adjacent. `Process.SpliceLeavesAdjacentLiterals` exhibits `sadd` of two literal slots giving `[Str([1]), Str([2])]`.
- **Nothing is rolled back on an error.** The bytes `write_node` wrote before it fails stay in the sink (`OutputFacts.ErrorKeepsEarlierWrites`). The spec functions therefore return the state reached together with the error (`Outcome`).

## Model

| member | source | states |
|---|---|---|
| Bytes.Join | mm0-rs/src/elab/inout.rs:124 | `hi << 4 \| lo` on nibbles: the byte's high nibble is `hi` and its low nibble is `lo` |
| Bytes.Unpack | mm0-rs/src/elab/inout.rs:121-127 | splitting bytes into nibbles gives two nibbles per byte |
| Bytes.UnpackPack | mm0-rs/src/elab/inout.rs:121-127 | packing an even nibble stream pairwise, high nibble first, loses nothing: unpacking gives the stream back |
| Bytes.PackUnpack | mm0-rs/src/elab/inout.rs:121-127 | packing the nibbles of a byte string gives the byte string back |
| Bytes.UnpackAppend | mm0-rs/src/elab/inout.rs:121-130 | the nibbles of concatenated bytes are the concatenated nibbles |
| Writer.WriterState.WriteHex | mm0-rs/src/elab/inout.rs:121-127 | the writer's nibble stream grows by exactly `h`; the sink keeps its bytes and gains at most one; a nibble is pending afterwards exactly when none was before |
| Writer.WriterState.WriteStr | mm0-rs/src/elab/inout.rs:128-130 | the buffer is appended unchanged, the pending nibble is untouched, and with none pending the nibble stream grows by the buffer's nibbles |
| Writer.WriterState.WritePart | mm0-rs/src/elab/inout.rs:131-136 | a `Hex` part is `write_hex` and a `Str` part is `write_str` |
| Writer.WriterState.Into | mm0-rs/src/elab/inout.rs:139-146 | the part is `Str` of the buffered bytes iff no nibble is pending; otherwise it is the pending nibble and the bytes are dropped |
| Writer.WriteHexesNibbles | mm0-rs/src/elab/inout.rs:121-127 | feeding nibbles one by one extends the writer's nibble stream by exactly those nibbles, whatever its state |
| Writer.WriteHexesPack | mm0-rs/src/elab/inout.rs:121-127 | from a writer with nothing pending, a nibble stream is written packed pairwise, high first, and an odd last nibble stays pending |
| Writer.WriteNibblesOfBytes | mm0-rs/src/elab/inout.rs:121-130 | writing a byte string's nibbles with `write_hex` is the same as writing the string with `write_str` |
| Writer.PendingSurvivesStr | mm0-rs/src/elab/inout.rs:121-130 | a pending nibble survives a literal write and pairs with the next nibble after the literal bytes |
| Writer.StringWriter.constructor | mm0-rs/src/elab/inout.rs:108-112 | `StringWriter::default()` has an empty sink and nothing pending |
| Writer.StringWriter.WriteHex | mm0-rs/src/elab/inout.rs:121-127 | the in-place `write_hex` leaves the writer in the state `WriterState.WriteHex` specifies |
| Writer.StringWriter.WriteStr | mm0-rs/src/elab/inout.rs:128-130 | the in-place `write_str` leaves the writer in the state `WriterState.WriteStr` specifies |
| Writer.StringWriter.WritePart | mm0-rs/src/elab/inout.rs:131-136 | the in-place `write_part` leaves the writer in the state `WriterState.WritePart` specifies |
| SegBuilder.BuilderState.Flush | mm0-rs/src/elab/inout.rs:52-59 | afterwards nothing is pending and the builder stands for the same segment sequence as before (the literal run first, then the nibble, each only if present) |
| SegBuilder.BuilderState.PushHex | mm0-rs/src/elab/inout.rs:61-67 | with nothing pending `h` becomes pending; with `hi` pending the byte `hi << 4 \| h` joins the literal run and `hi` stays pending |
| SegBuilder.BuilderState.PushStr | mm0-rs/src/elab/inout.rs:69-72 | the bytes join the end of the literal run; nothing else changes |
| SegBuilder.BuilderState.PushSeg | mm0-rs/src/elab/inout.rs:74-80 | literals and nibbles go through `push_str` and `push_hex`; a variable or term segment is appended after a flush, leaving the builder clean |
| SegBuilder.BuilderState.Splice | mm0-rs/src/elab/inout.rs:208 | flushing and then extending `built` appends the given segments verbatim to what the builder stands for |
| SegBuilder.PushHexesPairWithPending | mm0-rs/src/elab/inout.rs:61-67 | once a nibble is pending in the builder, every later nibble is paired with that same nibble and the pending nibble never changes |
| SegBuilder.BuilderDisagreesWithWriter | mm0-rs/src/elab/inout.rs:61-67 | the nibbles `1 2 3 4` pushed into an empty builder give the literal `12 13 14` and a pending `1`, unlike the writer's pairwise packing |
| SegBuilder.StringSegBuilder.constructor | mm0-rs/src/elab/inout.rs:38-43 | `StringSegBuilder::default()` is empty |
| SegBuilder.StringSegBuilder.Flush | mm0-rs/src/elab/inout.rs:52-59 | the in-place `flush` leaves the builder in the state `BuilderState.Flush` specifies |
| SegBuilder.StringSegBuilder.PushHex | mm0-rs/src/elab/inout.rs:61-67 | the in-place `push_hex` leaves the builder in the state `BuilderState.PushHex` specifies |
| SegBuilder.StringSegBuilder.PushStr | mm0-rs/src/elab/inout.rs:69-72 | the in-place `push_str` leaves the builder in the state `BuilderState.PushStr` specifies |
| SegBuilder.StringSegBuilder.PushSeg | mm0-rs/src/elab/inout.rs:74-80 | the in-place `push_seg` leaves the builder in the state `BuilderState.PushSeg` specifies |
| Process.MadeArgs | mm0-rs/src/elab/inout.rs:223-225 | the argument sequences of an opaque application, when all are made, are one per argument |
| Process.MadeArgsPrefixFailure | mm0-rs/src/elab/inout.rs:223-225 | collecting the arguments stops at the first failing one |
| Process.ProcessNode | mm0-rs/src/elab/inout.rs:194-231 | the recursive `process_node` on a builder updated in place, including the loop building an opaque term's arguments, ends in the state and error the spec function `Process.Processed` gives (`Processed` follows the branches of `inout.rs:194-231` one by one) |
| Process.Make | mm0-rs/src/elab/inout.rs:46-51 | `make` runs `process_node` on an empty builder and, on success, returns its flushed segments |
| Process.HeapSegs | mm0-rs/src/elab/inout.rs:295-300 | `refs` holds one segment sequence per heap slot past the binders |
| Process.HeapSegsPrefixFailure | mm0-rs/src/elab/inout.rs:296-299 | building `refs` stops at the first slot that fails |
| Process.HeapSegsSnoc | mm0-rs/src/elab/inout.rs:296-299 | each heap slot is made against the slots before it and pushed onto `refs` |
| Process.DefProcessedByHeap | mm0-rs/src/elab/inout.rs:294-302 | with the heap slots made, `process_def` is `make` of the head against them |
| Process.ProcessHeap | mm0-rs/src/elab/inout.rs:295-300 | the loop of `process_def` computes `refs` slot by slot, stopping at the first error |
| Process.ProcessDef | mm0-rs/src/elab/inout.rs:290-306 | `process_def` returns the segments of the body's head, or "should be a def" for a term with no body; its result is the spec function `Process.DefProcessed` |
| Process.ProcessedFailsOnlyOnDummy | mm0-rs/src/elab/inout.rs:200-231 | `process_node` fails exactly when it reaches a dummy node, and then with "dummy not permitted" |
| Process.MadeArgsFailsOnlyOnDummy | mm0-rs/src/elab/inout.rs:223-225 | an opaque application's arguments fail exactly when one of them reaches a dummy node |
| Process.SpliceLeavesAdjacentLiterals | mm0-rs/src/elab/inout.rs:208 | `sadd` of two heap slots that hold literals gives two adjacent literal segments |
| Output.ArgParts | mm0-rs/src/elab/inout.rs:254-259 | the argument parts of an unfolded def are one per argument |
| Output.HeapParts | mm0-rs/src/elab/inout.rs:260-264 | evaluating heap slots extends the parts so far by one part per slot and keeps the earlier parts |
| Output.ArgPartsPrefixFailure | mm0-rs/src/elab/inout.rs:255-258 | the argument loop stops at the first failing argument |
| Output.HeapPartsPrefixFailure | mm0-rs/src/elab/inout.rs:260-264 | the heap loop stops at the first failing slot |
| Output.HeapPartsSnoc | mm0-rs/src/elab/inout.rs:260-264 | each heap slot is evaluated in a fresh writer against the parts before it, and its part is pushed |
| Output.ArgPartsSnoc | mm0-rs/src/elab/inout.rs:255-258 | each argument is evaluated in a fresh writer against the caller's heap, and its part is pushed |
| Output.WriteNode | mm0-rs/src/elab/inout.rs:233-271 | the recursive `write_node` on a writer updated in place, including the two loops of the unfolding branch, ends in the state and error the spec function `Output.Written` gives (`Written` follows the branches of `inout.rs:233-271` one by one) |
| Output.WriteHeap | mm0-rs/src/elab/inout.rs:278-283 | the heap loop of `write_output_string` computes the heap's parts in index order, stopping at the first error |
| Output.RootsPrefixFailure | mm0-rs/src/elab/inout.rs:284-286 | writing the roots stops at the first root that fails |
| Output.WriteOutputString | mm0-rs/src/elab/inout.rs:273-288 | `write_output_string` evaluates the heap into parts, then writes each root into the output writer, ending in the state and error the spec function `Output.OutputWritten` gives |
| OutputFacts.HexBehind | mm0-rs/src/elab/inout.rs:121-127 | `write_hex` does not depend on the bytes already in the sink |
| OutputFacts.PartBehind | mm0-rs/src/elab/inout.rs:131-136 | `write_part` does not depend on the bytes already in the sink |
| OutputFacts.WrittenBehind | mm0-rs/src/elab/inout.rs:233-271 | with any bytes already in the sink, `write_node` writes the same bytes after them and raises the same error |
| OutputFacts.WrittenAppends | mm0-rs/src/elab/inout.rs:233-271 | `write_node` only appends: the new sink is the old one followed by what the node writes into an empty sink |
| OutputFacts.PartReplaysStr | mm0-rs/src/elab/inout.rs:241 | a node whose fresh evaluation is the bytes `s` writes exactly `s` into any writer with nothing pending, as replaying its part does |
| OutputFacts.PartReplaysHex | mm0-rs/src/elab/inout.rs:241 | a node whose fresh evaluation is a lone nibble, and that wrote no byte before it, writes what replaying its part writes into any writer, including one with a nibble pending, which the two nibbles then leave as one byte (`inout.rs:121-124`) |
| OutputFacts.WrittenReplaysParts | mm0-rs/src/elab/inout.rs:233-271 | a successful `write_node` is the replay, through `write_part`, of a sequence of parts (`OutputFacts.WrittenParts`) that depends only on the node and the heap, whatever the writer holds |
| OutputFacts.WritePartsAppend | mm0-rs/src/elab/inout.rs:131-136 | replaying two runs of parts is replaying the first and then the second |
| OutputFacts.QuietParts | mm0-rs/src/elab/inout.rs:121-136 | parts that leave a fresh writer with no bytes and at most one pending nibble act on any writer as writing that nibble, or as nothing |
| OutputFacts.ConcatAssociative | mm0-rs/src/elab/inout.rs:246-251 | children are written left to right, so `f(g(a, b), c)` and `g(a, f(b, c))` write the same bytes and raise the same error for any of `sadd`, `scons`, `ch` |
| OutputFacts.ChWritesHexes | mm0-rs/src/elab/inout.rs:246-252 | `ch(xA, xB)` writes the nibble `A`, then `B`, through `write_hex` |
| OutputFacts.HexPair | mm0-rs/src/elab/inout.rs:121-127 | two nibbles extend the writer's stream by both, and with nothing pending make the one byte `a * 16 + b` |
| OutputFacts.ChWritesNibbles | mm0-rs/src/elab/inout.rs:246-252 | `ch(xA, xB)` never fails and feeds `A`, `B` into the stream; with nothing pending it writes the one byte `A * 16 + B` |
| OutputFacts.WrittenErrors | mm0-rs/src/elab/inout.rs:233-271 | `write_node` raises no error but a dummy variable or an unknown definition, however deep the unfolding |
| OutputFacts.ArgPartsErrors | mm0-rs/src/elab/inout.rs:255-258 | the argument loop raises only those two errors |
| OutputFacts.HeapPartsErrors | mm0-rs/src/elab/inout.rs:260-264 | the heap loop raises only those two errors |
| OutputFacts.ArgPartsFailOnOne | mm0-rs/src/elab/inout.rs:255-258 | one failing argument makes the whole argument loop fail |
| OutputFacts.ReachedFails | mm0-rs/src/elab/inout.rs:233-271 | a dummy variable, or an application of a term that is neither a built-in nor a def with a body (`inout.rs:266-268`), in any position the writer evaluates (`OutputFacts.ErrorReached`) makes `write_node` fail: a child of a built-in it writes, an argument of a def it unfolds, or that def's own heap slots and head |
| OutputFacts.UnfoldReachedFails | mm0-rs/src/elab/inout.rs:253-265 | unfolding a def whose heap slot or head reaches a dummy or an unknown definition fails |
| OutputFacts.HeapPartsFailOnReached | mm0-rs/src/elab/inout.rs:260-264 | the loop evaluating an unfolded def's heap fails when one of its slots reaches a dummy or an unknown definition |
| OutputFacts.WrittenFailsIffReached | mm0-rs/src/elab/inout.rs:233-271 | `write_node` fails if and only if it reaches a dummy variable or an unknown definition, so whether it fails depends on the node alone, not on the heap's parts or the writer |
| OutputFacts.ArgPartsFailsIffReached | mm0-rs/src/elab/inout.rs:255-259 | the argument loop fails if and only if one of the arguments reaches a dummy or an unknown definition |
| OutputFacts.HeapPartsFailsIffReached | mm0-rs/src/elab/inout.rs:260-264 | the heap loop fails if and only if one of its slots reaches a dummy or an unknown definition |
| OutputFacts.RootsFailIffReached | mm0-rs/src/elab/inout.rs:284-286 | writing the roots fails if and only if one of them reaches a dummy or an unknown definition |
| OutputFacts.OutputFailsIffReached | mm0-rs/src/elab/inout.rs:273-288 | `write_output_string` fails if and only if a statement heap slot or a root reaches a dummy variable or an unknown definition |
| OutputFacts.ArgPartsPair | mm0-rs/src/elab/inout.rs:254-259 | the argument loop over two children yields their two parts in order |
| OutputFacts.ErrorKeepsEarlierWrites | mm0-rs/src/elab/inout.rs:246-251 | when the second child of a concatenation is a dummy, the error is "dummy variable" and the first child's bytes stay in the sink |
| OutputFacts.WrapBodyWrites | mm0-rs/src/elab/inout.rs:241-251 | the body `sadd(s1(x), s0())` writes exactly the bytes of the part bound to `x` |
| OutputFacts.UnfoldStep | mm0-rs/src/elab/inout.rs:253-265 | unfolding a def writes its head into the current writer, against its argument parts followed by its heap's parts |
| OutputFacts.ArgPartsSingle | mm0-rs/src/elab/inout.rs:255-258 | a single argument's parts are its one part |
| OutputFacts.UnfoldSubstitutes | mm0-rs/src/elab/inout.rs:253-265 | unfolding substitutes the arguments' parts for the binders: `wrap(a)` with `wrap(x) := sadd(s1(x), s0())` writes exactly the bytes `a` evaluates to |
| OutputFacts.RootsConcat | mm0-rs/src/elab/inout.rs:284-286 | the roots are written in order into one writer, stopping at the first error |
| OutputFacts.RootsBehind | mm0-rs/src/elab/inout.rs:284-286 | writing the roots does not depend on the bytes already in the sink |
| OutputFacts.OutputAppends | mm0-rs/src/elab/inout.rs:273-288 | `write_output_string` only appends to the output, and a statement whose heap fails writes nothing |
| Registry.CheckSort | mm0-rs/src/elab/inout.rs:156-159 | succeeds iff the name is an atom that declares a sort, and returns that sort; otherwise the error names it |
| Registry.NewSorts | mm0-rs/src/elab/inout.rs:160-166 | succeeds iff `string`, `hex` and `char` are all sorts; otherwise it fails on the first missing one |
| Registry.NewSortsDistinct | mm0-rs/src/elab/inout.rs:160-166 | the three sorts are distinct |
| Registry.CheckTerm | mm0-rs/src/elab/inout.rs:168-192 | succeeds iff the name denotes a term whose kind matches `def` and whose type is exactly `args > ret`; every error names the symbol, with "not found" or the kind mismatch checked first |
| Registry.HexDigit | mm0-rs/src/elab/inout.rs:317 | `{:x}` prints `0`..`9` for 0..9 and `a`..`f` for 10..15 |
| Registry.TagNameInjective | mm0-rs/src/elab/inout.rs:312-318 | each built-in is looked up under its own name |
| Registry.SoundFits | mm0-rs/src/elab/inout.rs:312-318 | every registered term has as many binders as its built-in takes children |
| Registry.InsertSound | mm0-rs/src/elab/inout.rs:312-318 | inserting a term that passed `check_term` keeps the registry sound |
| Registry.NodeShaped | mm0-rs/src/elab/inout.rs:204-206 | with binders that are regular variables without dependencies, `process_node` never reaches its `unreachable!()` |
| Registry.DefShapedBySignature | mm0-rs/src/elab/inout.rs:294-302 | a def whose binders are all regular variables can be processed |
| Registry.ConsAlias | mm0-rs/src/elab/inout.rs:319-325 | the alias candidate is a declared term |
| Registry.HexDigitsSound | mm0-rs/src/elab/inout.rs:316-318 | the digit loop keeps the registry sound and keeps what was there |
| Registry.HexDigitsComplete | mm0-rs/src/elab/inout.rs:316-318 | after the loop every digit `x0`..`xf` is registered |
| Registry.HexDigitsFailure | mm0-rs/src/elab/inout.rs:316-318 | the loop fails only on a digit, and its error names that digit |
| Registry.HexDigitsNoCons | mm0-rs/src/elab/inout.rs:316-318 | the loop registers only digits |
| Registry.HexDigitsPrefixFailure | mm0-rs/src/elab/inout.rs:316-318 | the loop stops at the first failing digit |
| Registry.NamedBuiltinsValue | mm0-rs/src/elab/inout.rs:312-315 | on success all four of `s0`, `s1`, `sadd` and `ch` passed their checks and each is mapped to its tag |
| Registry.NamedMapSound | mm0-rs/src/elab/inout.rs:312-315 | the map of the four named built-ins is sound |
| Registry.NamedMapRegistered | mm0-rs/src/elab/inout.rs:312-315 | the map holds each of the four named built-ins |
| Registry.NamedMapNoCons | mm0-rs/src/elab/inout.rs:312-315 | the map holds no `scons` |
| Registry.NamedBuiltinsSound | mm0-rs/src/elab/inout.rs:312-315 | inserting the four named built-ins in order gives a sound registry that holds each of them and no `scons` |
| Registry.NamedBuiltinsErrors | mm0-rs/src/elab/inout.rs:312-315 | a failure among the named built-ins names one of them |
| Registry.BaseSound | mm0-rs/src/elab/inout.rs:312-318 | the registry before `scons` is sound and holds every base built-in |
| Registry.TermNamedInjective | mm0-rs/src/elab/inout.rs:170-171 | distinct names never denote the same term |
| Registry.HandlerParts | mm0-rs/src/elab/inout.rs:308-327 | a successful handler consists of the three sorts and the base registry, with `scons` added when it is an alias |
| Registry.WithConsSound | mm0-rs/src/elab/inout.rs:319-325 | adding `scons` keeps the registry sound |
| Registry.WithConsComplete | mm0-rs/src/elab/inout.rs:319-325 | adding `scons` keeps every base built-in registered as itself |
| Registry.DefNotBase | mm0-rs/src/elab/inout.rs:312-318 | a def is never in the base registry |
| Registry.WithConsCons | mm0-rs/src/elab/inout.rs:319-325 | an added `scons` is the term named `scons`, and its body evaluates against the base registry to `[Var(chr, 0), Var(str, 1)]` |
| Registry.WithConsWithout | mm0-rs/src/elab/inout.rs:319-325 | removing the `scons` candidate gives back the base registry, whether or not it was added |
| Registry.HandlerSound | mm0-rs/src/elab/inout.rs:308-327 | every entry of the handler's map is the term its built-in's name denotes, with exactly that built-in's signature and kind |
| Registry.HandlerComplete | mm0-rs/src/elab/inout.rs:308-327 | each of `s0`, `s1`, `sadd`, `ch` and `x0`..`xf` is registered as its own built-in |
| Registry.HandlerCons | mm0-rs/src/elab/inout.rs:319-325 | a registered `scons` is the def named `scons`, and its body evaluates against the rest of the registry to its first argument followed by its second |
| Registry.HandlerConsEntry | mm0-rs/src/elab/inout.rs:319-325 | the facts of `HandlerCons` and `HandlerSound` for one registered `scons` |
| Registry.HandlerAdmitsCons | mm0-rs/src/elab/inout.rs:319-325 | conversely, a `scons` that passes `check_term` as a def and whose body evaluates to `[Var(chr, 0), Var(str, 1)]` is registered |
| Registry.HandlerErrors | mm0-rs/src/elab/inout.rs:308-327 | every failure of the handler names a sort or a base built-in, never `scons`, which is skipped silently |
| Registry.MissingHexSort | mm0-rs/src/elab/inout.rs:160-166 | without a `hex` sort the handler fails naming `hex` |
| Registry.NewStringHandler | mm0-rs/src/elab/inout.rs:308-327 | the handler built by successive map insertions is the spec function `Registry.StringHandler`, which the soundness lemmas below are about |
| Registry.RegisterBase | mm0-rs/src/elab/inout.rs:312-318 | the four insertions and then the `for i in 0..16` loop compute the base registry, stopping at the first error |
| Registry.RegisterCons | mm0-rs/src/elab/inout.rs:319-325 | `scons` is inserted iff it passes `check_term` and `process_def` gives `[Var(chr, 0), Var(str, 1)]` |
| Alias.OpaqueEndsWithTerm | mm0-rs/src/elab/inout.rs:222-226 | a successful run through an opaque application ends with that term's segment |
| Alias.HexEndsWithNibble | mm0-rs/src/elab/inout.rs:220 | a run through a hex digit ends with a nibble segment |
| Alias.VarsOnlyBefore | mm0-rs/src/elab/inout.rs:194-231 | `process_node` never removes a segment that is not a variable |
| Alias.ArgBuilt | mm0-rs/src/elab/inout.rs:202-207 | a reference to binder `i` appends `Var(sort_i, i)` to a clean builder |
| Alias.SlotBuilt | mm0-rs/src/elab/inout.rs:208 | a reference to a heap slot appends that slot's segments to a clean builder |
| Alias.RefWritten | mm0-rs/src/elab/inout.rs:241 | `write_node` on a reference replays the referenced part |
| Alias.PairProcessed | mm0-rs/src/elab/inout.rs:214-219 | a two-child built-in processes its second child from where the first stopped |
| Alias.PairWritten | mm0-rs/src/elab/inout.rs:246-251 | a two-child built-in writes its second child after the first |
| Alias.Simulation | mm0-rs/src/elab/inout.rs:194-271 | when `process_node` succeeds from a clean builder and yields only variables, `write_node` on the same node writes exactly the bytes those variables stand for, into any writer |
| Alias.AgreesFromEmpty | mm0-rs/src/elab/inout.rs:46-51 | from an empty builder and a fresh writer, a made sequence of variables is written as exactly its bytes with nothing pending |
| Alias.SlotAgrees | mm0-rs/src/elab/inout.rs:296-299 | a heap slot that `make` turns into variables evaluates to the part holding the bytes they stand for |
| Alias.HeapAgrees | mm0-rs/src/elab/inout.rs:260-264 | building the heap slot by slot on both sides keeps the slots' segments and parts in agreement |
| Alias.ProcessedIsDef | mm0-rs/src/elab/inout.rs:294-305 | a def that `process_def` processed has a body |
| Alias.ConsBodyConcatenates | mm0-rs/src/elab/inout.rs:253-265 | a def whose body `process_def` turns into `[Var(_, 0), Var(_, 1)]` writes exactly `x + y` when unfolded with argument parts `x` and `y` |
| Alias.ConsAgrees | mm0-rs/src/elab/inout.rs:321 | a made sequence equal to `[Var(_, 0), Var(_, 1)]` is written as the first argument's bytes followed by the second's |
| Alias.AdmittedConsConcatenates | mm0-rs/src/elab/inout.rs:319-325 | a term that passed the alias check unfolds, against the rest of the registry, to its first argument followed by its second |
| Alias.HandlerConsConcatenates | mm0-rs/src/elab/inout.rs:319-325 | the `scons` the handler registers is the def named `scons`, and unfolding it writes its first argument's part, then its second's |
| Alias.ConsWritesAsConcat | mm0-rs/src/elab/inout.rs:319-325 | on two children evaluating to bytes `x` and `y`, with no nibble pending, unfolding an admitted `scons` and applying `sadd` write the same thing, namely `x + y` |
| Alias.HandlerConsWritesAsConcat | mm0-rs/src/elab/inout.rs:308-327 | the same for the `scons` and `sadd` of the handler `new_string_handler` returns |

## Left out

- I/O errors of the sink and the `OutputError` / `BoxError` conversions (`inout.rs:83-106`): the sink is a byte sequence and writes to it cannot fail.
- The elaborator plumbing after `inout.rs:329` (`get_string_handler`, `elab_output_string`, `eval_string`, `elab_output`, `elab_input`, `run_output`). It depends on lisp evaluation, elaboration and the DAG builder, none of which are part of this model. The heap and roots are parameters instead, and so is the registry.
- Error message text: each error carries the symbol it is about, not its rendered message. The sort names listed in the "incorrect type" message are not modelled.
- Sorts and terms are identified by their ids, and the environment is reduced to what the codec reads (`env.dfy`).
- Process.ProcessNode: the `unreachable!()` for a binder that is not `Reg(s, 0)` (`inout.rs:206`) is a precondition (`Shaped`). `Registry.NodeShaped` proves it holds for every def that `check_term` accepts.
- Process.ProcessNode: the cast `i as u32` of a binder index (`inout.rs:205`) is not modelled; indices are natural numbers.
- Bytes.Join: the `u8` wrap-around of `hi << 4` is not modelled, because every nibble comes from a hex-digit term `x0`..`xf` and is below 16.
- Output.WriteNode: termination of unfolding rests on the environment invariant that a def's body only uses earlier terms (`EnvWF`, enforced outside this file). A ghost bound carries it.
- OutputFacts.PartReplaysHex: needs the extra hypothesis that the node wrote no whole byte before its last nibble, because converting a writer into a part drops its bytes when a nibble is pending (`inout.rs:139-146`). It holds for any writer, with or without a pending nibble.
- Alias.HandlerConsConcatenates: assumes the unfolded def's heap evaluates successfully. An unreferenced heap slot can make unfolding fail, for example one applying an axiom with no body, even though the symbolic check ignores that slot.
- Alias.AdmittedConsConcatenates: makes the same assumption that the heap evaluates successfully.
- Alias.ConsWritesAsConcat: holds only for children evaluating to byte strings and a writer with no nibble pending. A pending nibble is packed with the first nibble `sadd` writes, while the unfolded body replays whole parts, so the two differ: with `a = ch(x1, x2)`, `b = s0()` and nibble `5` pending, `sadd` writes byte `0x51` and leaves `2` pending, while unfolding writes `0x12` and leaves `5` pending. It also assumes the unfolded heap evaluates (`ConsHeapSucceeds`), as above.
- Alias.HandlerConsWritesAsConcat: the same restrictions as `Alias.ConsWritesAsConcat`.
- Sharing one writer across statements and rebuilding the handler for each statement (`run_output`) is not modelled.
