# Verified model of the Miden VM assembler, executor and cryptographic primitives

The project models, in Dafny, the parts of the Miden VM repository whose correctness is hard to see:

- **Assembler back end** (`BlockCombining`, `SpanBuilding`, `BodyCompiler`, `DecoratorLoss`,
  `DecoratorErasure`, `Syntax`): code bodies with nested
  control flow become MAST blocks. Spans are flushed at control flow, `repeat` is unrolled, adjacent spans are
  merged and the rest is folded into a balanced tree of JOINs. The main theorem is compiler correctness.
- **Executor** (`Mast`, `Execution`, `OpBatching`, `Processor`): the meaning of MAST blocks, how the operations
  of a span are packed into batches of groups, and the processor that executes them group by group.
- **Modules, callsets and the procedure cache** (`ProcedureCaching`, `AssemblyContexts`, `ModuleProviding`,
  `Assembling`): the assembler proper, with imports compiled on demand. The main theorems are that compilation
  ends, and that a compiled program never misses a call target.
- **Programs from source to execution** (`GroupDecoding`, `CodeLikeness`, `IdealHash`, `SourceMeaning`, `SharedRoots`,
  `RootProbing`, `RootSharingExample`, `Libraries`): what roots keep of the code, and for which programs and machines
  executing a compiled program does what its source says.
- **Range checker of the AIR** (`Fields`, `RangeChecker`, `RangeLookups`): the column, the LogUp bus, and the two
  together.
- **Sponge and hash code** (`Lanes`, `Sponges`, `Keccak`, `ByteStrings`, `Cshake`, `Sha2`, `SeedExpanding`): incremental code
  with buffers and offsets against byte-by-byte or whole-message definitions.
- **Merkle trees and openings** (`MerkleIndexes`, `MerkleTrees`, `MerklePaths`).

`dafny verify dfyconfig.toml` checks everything.

## How the model is set up

- A `Machine` gives an arbitrary deterministic meaning to operations and decorators, which may fail; the only law
  asked of it is that NOOP changes nothing. The clock and the cycle limit are not part of its state. Fuel is
  spent only on loop iterations and calls, so the theorems hold with any fuel, on terminating and
  non-terminating runs alike.
- Instruction lowering is arbitrary: an instruction stands for any straight-line items or for a block. The
  instructions that invoke procedures are modelled as they are. The label of an instruction in its tracking
  decorator (procedure name, text, break flag) is given with the instruction.
- A span holds its operations and decorators; its batches are computed from the operations when it is executed,
  which gives the same batches as computing them when it is built. Shifts and ORs of opcodes into a group are
  multiplications and additions, since their bits do not overlap.
- After a span the executor runs at most one left-over decorator (`processor/src/lib.rs:390-392`). `Meaning` is what
  a MAST says with every decorator in its place, `Exec` what the executor does. Every body that compiles means what
  it says (`BodyMeans`). Executed, it does so on all machines if and only if it is loss-free (`LossFree`, a recursion
  over the body that follows which spans get merged): `BodyRuns` and `BodyLoses` are the two directions. If
  decorators do not change the VM state it always does (`CompiledBodyRuns`).
- Spans to be inlined are well-formed and hold no proxies (`ProperBody`); this is so of all code the assembler makes,
  and `Assembling` carries it along.
- After an iteration a loop goes on only if the top of the stack is one and ends at any other value, as the code
  does in release builds.
- The root of code without proxies is assumed to determine the calls made in it (`Determines`); where programs are
  run from their source it is assumed to determine tree, calls and group values (`DeterminesGroups`). This is what
  collision resistance gives: a span's root is the hash of its group values, which hold opcodes and immediate values
  (`core/src/program/blocks/span_block.rs:342-378`). Nothing is assumed of proxies, whose root is by definition that
  of the code they hide; `IdealHashDetermines` gives a hash that meets all of this and sees no more than roots do.
- Roots forget decorators, NOOPs and the error codes of assertions, so different procedures may share one, and a
  table has one code for each root. Calling a procedure may therefore run another one (`WrongErrorCode`). Source
  correctness holds without condition for machines that see only what is encoded (`EncodedProgramRuns`); for all
  machines with silent decorators under a condition on the finite set of cached and local procedures
  (`SilentProgramRuns`), which is exact for the procedures used (`RunAsSourceExactly`); and with effects of decorators under
  the like condition (`EffectfulProgramRuns`).
- What the source language means (`RunInstruction`) is stated without the lowering: a straight-line instruction runs all
  its items, calls by root and dynamic calls are stated on the machine and the table.
- Success is stated besides what success gives: `Accepts` and `Compilable` say of instructions and bodies when they can be
  compiled, `ProgramAccepted` and `ModuleFine` of programs and modules whose imports are cached, and the assembler's
  methods then succeed, or name the procedure that cannot be cached.
- Phantom calls are collected in a ghost set, and all closure theorems are up to this set; it does not grow unless
  the context allows phantom calls.
- In `SourceMeaning` a program and the modules it was compiled with form a library; procedures imported from modules
  compiled before are run from their sources. Calls by root, and imports from elsewhere, mean their compiled code,
  and a `call` needs the callee's root in the table, as the executor does.
- `get_proc_root_by_id` looks only at direct ids, so re-exporting an alias from a module without a path
  panics; the model reports this as `AliasHasNoDirectRoot`. Panics of the span builder are errors, too.
- Permutations, compression functions, block ciphers and `merge` are arbitrary functions.
- The range checker's column is over the integers modulo 18446744069414584321 with the field laws as a hypothesis
  (`PrimeField`: they amount to the modulus being prime); the LogUp bus is over any field.
- A Merkle path keeps its depth in a byte, so a path of 256 nodes or more has the depth of its length modulo 256.
  The model keeps this: `compute_root` still folds the whole path, but `inner_nodes` then stops short.

## Model

| member | source | states |
|---|---|---|
| `BodyCompiler.BodyMeans` | assembly/src/assembler/mod.rs:304-374 | Compiler correctness for every body that compiles: with all decorators run where they stand, its MAST means exactly what running prologue, body and epilogue directly does, outcome for outcome, for every machine, table, fuel and state |
| `BodyCompiler.BodyRuns` | assembly/src/assembler/mod.rs:304-374 | Compiler correctness as executed, decorators with effects included: if the body is loss-free (in the MAST, the last span of each run of adjacent spans ends with at most one decorator; a condition computed from the body), executing its MAST has exactly the outcome of running it directly, for every machine, table, fuel and state |
| `BodyCompiler.BodyLoses` | processor/src/lib.rs:383-395 | the converse, so the condition is exact: for every other body that compiles there is a lawful machine, a table and a state for which execution and direct running differ |
| `BodyCompiler.LossFreeIff` | assembly/src/assembler/mod.rs:438-505 | the condition on the body holds exactly if every span of the compiled MAST ends with at most one decorator, merging taken into account |
| `DecoratorErasure.CompiledBodyRuns` | assembly/src/assembler/mod.rs:304-374 | Compiler correctness for every body that compiles, whatever its decorators, on machines whose decorators do not change the VM state |
| `DecoratorErasure.CompilesErased` | assembly/src/assembler/mod.rs:304-374 | compiling a body without its decorators gives the MAST without its decorators: same spans, same JOIN tree |
| `DecoratorErasure.ExecErased` | processor/src/lib.rs:224-361 | with silent decorators, a MAST does the same with and without them |
| `DecoratorErasure.SilentRuns` | processor/src/lib.rs:383-395 | with silent decorators every MAST is executed as it says, however many decorators its spans leave over |
| `BodyCompiler.BodyCompiles` | assembly/src/assembler/mod.rs:304-374 | a body compiles if and only if no span with decorators but without operations has to be closed, a condition on the body alone |
| `BodyCompiler.BodyProper` | assembly/src/assembler/mod.rs:304-374 | the MAST has well-formed spans only and no proxy, if the blocks inlined are so |
| `BodyCompiler.NodeMeans` | assembly/src/assembler/mod.rs:317-366 | the blocks of a control node or an inlined block mean what running it directly does |
| `BodyCompiler.TimesMean` | assembly/src/assembler/mod.rs:347-355 | the unrolled copies of a repeat body mean what running the body that many times does |
| `BodyCompiler.ReplicatedBlocks` | assembly/src/assembler/mod.rs:347-355 | unrolling gives exactly so many copies of the block |
| `BodyCompiler.EmptyBodies` | assembly/src/assembler/mod.rs:333-374 | an empty body and a missing else are a span with one NOOP |
| `BodyCompiler.WhileMeans` | assembly/src/assembler/mod.rs:357-364 | iterating a block that means what a body says means what the while node does, with the same fuel |
| `DecoratorLoss.LosslessRuns` | processor/src/lib.rs:224-395 | a MAST whose spans all end with at most one decorator is executed exactly as it says, for every machine, table, fuel and state |
| `DecoratorLoss.LossyDiffers` | processor/src/lib.rs:383-395 | every other MAST of well-formed spans is executed differently from what it says, by a machine that counts decorators and takes its branches from a tape |
| `BodyCompiler.UntidyBodyLosesDecorator` | processor/src/lib.rs:390-392 | a concrete body with two trailing decorators whose compiled form executes only one of them |
| `BodyCompiler.MergedTailIsKept` | assembly/src/assembler/mod.rs:485-505 | two trailing decorators of a repeated body are not lost if an operation follows: merging moves them before it |
| `BodyCompiler.DecoratorsAlonePanic` | assembly/src/assembler/span_builder.rs:142-152 | a body of decorators only cannot be compiled: the span builder panics |
| `Mast.LinearIsInterleave` | processor/src/lib.rs:383-395 | the executed order of operations and decorators is the full interleaving if and only if the span is tidy |
| `Mast.LinearAppend` | assembly/src/assembler/mod.rs:492-504 | decorators left over by the first of two merged spans are no longer lost |
| `Mast.ShiftInvariant` | assembly/src/assembler/mod.rs:494-496 | shifting the offsets of a span's decorators keeps each at its operation |
| `Mast.OpcodesUnique` | core/src/operations/mod.rs:443-556 | operations with one opcode differ in their arguments only; just PUSH carries an immediate value |
| `Execution.FuelMonotone` | processor/src/lib.rs:224-311 | more fuel never changes an outcome other than running out of it |
| `Execution.OneItem` | processor/src/lib.rs:383-482 | an operation or a decorator is one step of the machine; an error of the step ends the run with it |
| `Execution.MeaningSeqConcat` | processor/src/lib.rs:242-255 | what a list of blocks means is what its two parts mean in turn |
| `BlockCombining.CombineSpans` | assembly/src/assembler/mod.rs:485-505 | computes the merged span of a list of spans |
| `BlockCombining.MergedItems` | assembly/src/assembler/mod.rs:485-505 | merging keeps every decorator in order and at the same operation |
| `BlockCombining.MergedTidy` | assembly/src/assembler/mod.rs:485-505 | a merged span ends with at most one decorator if and only if the last of its parts does |
| `BlockCombining.MergedLinear` | assembly/src/assembler/mod.rs:485-505 | as executed, a merged span runs every decorator of all parts but the last, whatever these parts leave over |
| `BlockCombining.MergeConsecutiveSpans` | assembly/src/assembler/mod.rs:441-458 | replaces each maximal run of adjacent spans by their merged span and keeps everything else |
| `BlockCombining.PiecesAreMaximal` | assembly/src/assembler/mod.rs:446-458 | runs are maximal: no two runs are adjacent, and glueing the pieces gives back the input list |
| `BlockCombining.MergeRunsMean` | assembly/src/assembler/mod.rs:441-458 | merging runs of well-formed spans keeps what a list of blocks means, for every machine, table, fuel and state |
| `BlockCombining.JoinPairs` | assembly/src/assembler/mod.rs:463-474 | one round of joining pairs, an odd last block being carried over |
| `BlockCombining.PairUpAt` | assembly/src/assembler/mod.rs:463-474 | the ith block of a round joins blocks 2i and 2i+1; an odd last block is carried over as it is |
| `BlockCombining.CombineBlocks` | assembly/src/assembler/mod.rs:438-479 | returns the JOIN tree over the merged blocks |
| `BlockCombining.JoinTreeMeans` | assembly/src/assembler/mod.rs:460-478 | the JOIN tree means what its blocks mean in order |
| `BlockCombining.JoinTreeShape` | assembly/src/assembler/mod.rs:460-478 | flattening the JOINs gives back the blocks, and JOIN nesting grows by at most the ceiling of the binary logarithm of their number |
| `BlockCombining.CeilLog2IsLeast` | assembly/src/assembler/mod.rs:460-478 | that bound is the least k with n <= 2^k |
| `BlockCombining.CombinedMeans` | assembly/src/assembler/mod.rs:438-479 | the combined block means what the list means, for all lists of well-formed spans and other blocks |
| `BlockCombining.CombinedSafe` | assembly/src/assembler/mod.rs:438-479 | combining adds no call target, and keeps spans well-formed and free of proxies |
| `SpanBuilding.SpanBuilder.EmitInstruction` | assembly/src/assembler/span_builder.rs:101-136 | what the open span says is extended by exactly the instruction's items, all of them, preceded in debug mode by a tracking decorator with context name, text, break flag and cycle count, if there is an operation among them |
| `SpanBuilding.EmittedItems` | assembly/src/assembler/span_builder.rs:72-90 | the same of the span as a value: nothing is dropped or reordered, in debug mode or not |
| `SpanBuilding.SpanBuilder.ExtractSpanInto` | assembly/src/assembler/span_builder.rs:142-155 | closes the open span: adds it to the blocks if it has operations, panics if it has only decorators |
| `SpanBuilding.SpanBuilder.ExtractFinalSpanInto` | assembly/src/assembler/span_builder.rs:162-166 | the same after appending the epilogue |
| `SpanBuilding.AppendItems` | assembly/src/assembler/span_builder.rs:65-90 | the straight-line meaning of the open span grows by exactly the appended items |
| `OpBatching.OpBatchAccumulator.AddOp` | core/src/program/blocks/span_block.rs:275-299 | adds an operation, and its immediate to the next free group; the groups stay the encoding of the operations |
| `OpBatching.OpBatchAccumulator.IntoBatch` | core/src/program/blocks/span_block.rs:302-318 | the finished batch encodes exactly the accumulated operations |
| `OpBatching.BatchOps` | core/src/program/blocks/span_block.rs:342-378 | splits operations into well-formed batches, all but the last full, whose operations concatenate to the input; the values hashed, eight slots per batch, are a function of the operations |
| `OpBatching.PackedGreedily` | core/src/program/blocks/span_block.rs:251-299 | in numbers: packing keeps the operations in order, uses groups of at most nine operations, the ninth without an immediate value, and batches of at most eight slots; a group ends only when it is full for the next operation, and a batch only when it has no room for it |
| `OpBatching.SlotCount` | core/src/program/blocks/span_block.rs:275-299 | a batch takes one slot for each group and one for each immediate value |
| `OpBatching.NextPowerIsLeast` | processor/src/lib.rs:404-418 | the group count is rounded up to the least power of two that is not below it |
| `GroupDecoding.DecodeGroupValues` | core/src/program/blocks/span_block.rs:342-378 | round trip: opcodes and immediate values of all operations but NOOPs can be read off the group values again, across groups, immediates, padding and batches |
| `GroupDecoding.SameGroupsSameViews` | core/src/program/blocks/span_block.rs:342-378 | spans with the same group values have the same operations up to NOOPs and arguments that are not encoded |
| `OpBatching.GroupFits` | core/src/program/blocks/span_block.rs:323-338 | a group of nine operations is a field element |
| `OpBatching.EncodeSnoc` | core/src/program/blocks/span_block.rs:275-299 | shifting an opcode to its position extends the encoding of a group by that operation |
| `Processor.Process.ExecuteOpBatch` | processor/src/lib.rs:404-482 | executes a batch: the outcome is that of its operations and decorators, groups decoded plus immediates consumed equal the group count rounded up to a power of two, and erasing the inserted NOOPs from the rows gives exactly the batch's operations |
| `Processor.Process.ExecuteOps` | processor/src/lib.rs:420-462 | the main loop of a batch ends at its last group with every group and immediate accounted for |
| `Processor.Process.PadBatch` | processor/src/lib.rs:464-479 | the padding NOOPs change nothing and decode the missing groups |
| `Processor.Process.StepBatch` | processor/src/lib.rs:426-461 | one operation moves op, group and next-group index to where the next operation is, positions staying inside a group also after a trailing immediate |
| `Processor.GroupAt` | processor/src/lib.rs:404-482 | the group index always points at the group slot of the operation being executed, never at an immediate |
| `Processor.BatchEnd` | processor/src/lib.rs:404-482 | after the last operation the next-group index is the number of groups |
| `Processor.Process.ExecuteBatches` | processor/src/lib.rs:368-381 | executing the batches of a span uses up the decoder's group count exactly |
| `Processor.Process.ExecuteSpanBlock` | processor/src/lib.rs:364-395 | executes a span as its operations and decorators say; when it ends the decoder's group counter is zero |
| `Processor.Process.ExecuteCodeBlock` | processor/src/lib.rs:224-361 | executes a block exactly as its meaning prescribes, for every kind of block |
| `Processor.Process.RepeatLoop` | processor/src/lib.rs:290-303 | iterates while the top of the stack is one |
| `ProcedureCaching.ProcedureCache.GetById` | assembly/src/assembler/procedure_cache.rs:21-38 | resolves an id to the procedure cached under its root, an alias to that of the id behind it; no `expect` can fail |
| `ProcedureCaching.ProcedureCache.GetByHash` | assembly/src/assembler/procedure_cache.rs:41-43 | finds a procedure under its own root |
| `ProcedureCaching.ProcedureCache.GetProcRootById` | assembly/src/assembler/procedure_cache.rs:46-48 | finds roots of direct ids only |
| `ProcedureCaching.ProcedureCache.Insert` | assembly/src/assembler/procedure_cache.rs:66-106 | refused as a duplicate exactly if the id is taken, as conflicting exactly if the root is cached with another number of locals, and otherwise granted: then the procedure is cached under its root unless the root was cached, the id names the root, and nothing else changes; a refused insert changes nothing |
| `ProcedureCaching.ProcedureCache.InsertProcAlias` | assembly/src/assembler/procedure_cache.rs:111-136 | refused exactly if the new id is taken; otherwise the alias names the id behind the target and the root returned is that of the target; nothing else changes |
| `ProcedureCaching.RunValid` | assembly/src/assembler/procedure_cache.rs:66-136 | over every run of inserts and alias inserts: ids and aliases are disjoint, alias chains have length one, every id names a cached root, every procedure is cached under its own root |
| `ProcedureCaching.ResolvedForever` | assembly/src/assembler/procedure_cache.rs:21-54 | an id that resolves keeps resolving to the same procedure forever |
| `ProcedureCaching.LookupStable` | assembly/src/assembler/procedure_cache.rs:21-54 | an id resolves exactly if the cache contains it, and to the same procedure in every larger cache |
| `AssemblyContexts.AssemblyContext.BeginModule` | assembly/src/assembler/context.rs:100-121 | pushes a module, or reports a circular dependency exactly if its path is on the stack; paths on the stack stay distinct |
| `AssemblyContexts.AssemblyContext.CompleteModule` | assembly/src/assembler/context.rs:132-149 | pops the module and returns its procedures and callset; a kernel is what the kernel module exports |
| `AssemblyContexts.AssemblyContext.BeginProc` | assembly/src/assembler/context.rs:409-426 | refuses a name that is compiled or being compiled in the module, so that names in a module stay distinct |
| `AssemblyContexts.AssemblyContext.CompleteProc` | assembly/src/assembler/context.rs:433-438 | turns the current procedure, with its name, export flag and locals, into a compiled one and adds its callset to the module's; names stay distinct |
| `AssemblyContexts.AssemblyContext.RegisterLocalCall` | assembly/src/assembler/context.rs:194-215 | adds a local callee's callset, and its root unless inlined; refuses calls in a kernel and unknown indexes |
| `AssemblyContexts.AssemblyContext.RegisterExternalCall` | assembly/src/assembler/context.rs:222-240 | the same for an imported callee |
| `AssemblyContexts.AssemblyContext.IntoCbTable` | assembly/src/assembler/context.rs:283-308 | builds a table with exactly the roots of the program's callset, each with the cached code or else that of the first local procedure with the root, if and only if every root is cached or local |
| `AssemblyContexts.FindLocalProc` | assembly/src/assembler/context.rs:393-398 | the first local procedure with a root, found exactly if there is one |
| `AssemblyContexts.CallGood` | assembly/src/assembler/context.rs:452-495 | registering a callable procedure keeps every callset complete and covers the calls of the code it adds |
| `AssemblyContexts.CallsetAfterCall` | assembly/src/assembler/context.rs:452-495 | a callee is in the callset after a call, an inlined one is not; what it calls is in either case, and nothing else |
| `AssemblyContexts.StoredIs` | assembly/src/assembler/context.rs:283-308 | the code that stands for a root is the cached one, or else that of the first local procedure with the root |
| `AssemblyContexts.CompletedGood` | assembly/src/assembler/context.rs:433-438 | completing a procedure whose callset covers its code keeps the module's callsets complete |
| `AssemblyContexts.GoodStackGrows` | assembly/src/assembler/context.rs:283-308 | callsets stay complete as the cache and the set of phantoms grow |
| `AssemblyContexts.GoodStackDistinct` | assembly/src/assembler/context.rs:100-121 | no module is ever being compiled twice |
| `AssemblyContexts.ProgramTableClosed` | assembly/src/assembler/context.rs:283-308 | with complete callsets, a table made of a program's callset is closed under calls and holds well-formed code without proxies |
| `IdealHash.IdealHashDetermines` | core/src/program/blocks/span_block.rs:342-378 | the assumptions on MAST roots can be met: there is a hash that is computed from the tree, the calls and the group values of spans and from nothing else, gives proxies and DYN the roots they have, and tells trees, calls and group values apart |
| `ModuleProviding.ModuleProvider.GetModule` | assembly/src/assembler/module_provider.rs:20-22 | the module of a known procedure |
| `ModuleProviding.ModuleProvider.AddModule` | assembly/src/assembler/module_provider.rs:33-54 | adds a module with all its re-exported and own procedures; refuses a path that is taken and changes nothing; if a name cannot be appended to the path reports that, adding no module |
| `Assembling.Assembler.CompileAst` | assembly/src/assembler/mod.rs:142-153 | whole-program safety: the code block table can always be built, holds every call target reachable from the root except phantoms, each with the code that stands for it, and the root is compiled from the program's body against its procedures; and every accepted program (`ProgramAccepted`: distinct names, no exports, everything invoked is there, no span of decorators only) compiles |
| `Assembling.PlainAccepted` | assembly/src/assembler/mod.rs:142-185 | programs of straight-line instructions that emit operations are accepted |
| `Syntax.LowersIff` | assembly/src/assembler/mod.rs:317-366 | a body can be lowered exactly if everything it invokes is there: earlier procedures, cached imports |
| `Syntax.OutlineCompilable` | assembly/src/assembler/mod.rs:304-374 | whether closing a span panics does not depend on the code that is invoked, only on the instructions and the control structure |
| `Assembling.Assembler.CompileInContext` | assembly/src/assembler/mod.rs:163-185 | compiles procedures in order, none exported, then the body; the callset covers all calls |
| `Assembling.Assembler.WithKernelModule` | assembly/src/assembler/mod.rs:89-100 | compiles the kernel module; the kernel is exactly the set of roots of the procedures it exports itself, and all of them are cached |
| `Assembling.Assembler.CompileModule` | assembly/src/assembler/mod.rs:197-268 | ends for every set of modules; a module on the stack is a circular dependency; success restores the stack, returns the roots of all exports, of procedures compiled from their bodies, and leaves every exported name resolving to a cached procedure with that root; whatever happens the cache stays closed under calls; a module whose imports are cached and whose bodies can be compiled fails only if one of its compiled procedures cannot be cached, its id being taken or its root cached with other locals |
| `Assembling.PlainModuleFine` | assembly/src/assembler/mod.rs:197-268 | modules without re-exports whose procedures are straight-line instructions that emit operations, with any locals and distinct names, meet the condition under which modules compile |
| `Assembling.Assembler.CompileReExport` | assembly/src/assembler/mod.rs:208-235 | a re-exported procedure is cached under its original id and its name in this module, with the root returned; once it is cached, the source's panic occurs exactly for an alias re-exported from a module without a path, and naming it succeeds if the name is free |
| `Assembling.Assembler.CacheProcs` | assembly/src/assembler/mod.rs:250-265 | caches exported and called procedures; the cache is closed under calls after every insert, also if a later one fails |
| `Assembling.ExportedInOrder` | assembly/src/assembler/mod.rs:250-268 | the roots returned are those of the exported procedures, in order, the others left out |
| `Assembling.Assembler.CacheIfNeeded` | assembly/src/assembler/mod.rs:250-265 | an exported procedure is cached under its name, an internal one that is called under its index, any other not at all; it fails only if the id is taken or the root is cached with other locals |
| `Assembling.Assembler.EnsureProcedureIsInCache` | assembly/src/assembler/mod.rs:387-409 | on success the procedure is in the cache and the stack is as before; a cached procedure is always found without any change; otherwise an unknown module or a circular dependency is reported exactly as such, and a module that can be compiled is compiled |
| `Assembling.Assembler.CompileProcedure` | assembly/src/assembler/mod.rs:274-298 | adds one procedure compiled from its body, with prologue and epilogue if it has locals; it succeeds if the name is free and the body can be compiled |
| `SourceMeaning.PrologueAllocates` | assembly/src/assembler/mod.rs:274-298 | running the prologue adds the number of locals to the frame pointer, modulo the field modulus, on every machine on which PUSH and FMPUPDATE add to it |
| `SourceMeaning.EpilogueFrees` | assembly/src/assembler/mod.rs:274-298 | running the epilogue takes the number of locals off again: from the frame pointer that the prologue leaves back to the one before it; without locals both are empty |
| `SourceMeaning.ProcedureKeepsFrame` | assembly/src/assembler/mod.rs:274-298 | a procedure whose body keeps the frame pointer keeps it, however many locals it has |
| `Assembling.Assembler.CompileBody` | assembly/src/assembler/mod.rs:304-374 | the block is what the body compiler makes of the lowered body, and the callset covers all its calls; a body that can be compiled is |
| `Assembling.Assembler.CompileNode` | assembly/src/assembler/mod.rs:317-366 | one node takes the compiled part of a body to the next, closing the open span where the source does; a node that can be compiled is |
| `Assembling.Assembler.CompileIfElse` | assembly/src/assembler/mod.rs:326-345 | both branches, a missing else being a NOOP span |
| `Assembling.Assembler.InvokeLocal` | assembly/src/assembler/instruction/procedures.rs:7-58 | exec.local and call.local inline or call an earlier procedure and register it; refused exactly for calls in a kernel and unknown indexes |
| `Assembling.Assembler.InvokeImported` | assembly/src/assembler/instruction/procedures.rs:24-98 | exec and call of an imported procedure, compiled on demand; one that is cached is refused exactly for calls in a kernel |
| `Assembling.Assembler.InvokeMastRoot` | assembly/src/assembler/instruction/procedures.rs:61-78 | a call by root registers the cached procedure, or a phantom call; refused exactly in a kernel and where phantom calls are not allowed |
| `Assembling.Assembler.InvokeKernel` | assembly/src/assembler/instruction/procedures.rs:101-124 | syscall of a procedure, exactly if it is cached already and this is no kernel |
| `Assembling.CompiledProgramRuns` | processor/src/lib.rs:328-336 | a compiled program never fails for a missing code block unless its root is a phantom, and it does what its lowered body says, if decorators are silent or its body is loss-free |
| `SharedRoots.EncodedProgramRuns` | assembly/src/assembler/mod.rs:142-185 | whole-program correctness for every machine with silent decorators whose operations depend on opcode and immediate value only: executing a compiled program with its table does what the source of the program says, where each instruction runs its own items, calls by root and dynamic calls run the table's code, and exec and call of local procedures, and of procedures imported from modules compiled before, run these from their own sources; no condition on roots being shared |
| `SharedRoots.SilentProgramRuns` | assembly/src/assembler/mod.rs:142-185 | the same for every machine with silent decorators, if whatever stands for the root of a procedure that is called or imported (the cached code, or else that of the program's first procedure with the root) has the same operations, arguments included, up to NOOPs |
| `RootProbing.UnlikeIsTold` | assembly/src/assembler/context.rs:283-308 | that condition is exact: if it fails, the least procedure concerned is executed differently from what its source says, and so is a call of it, on a lawful machine with silent decorators; provided that calls made by the code in question come back (none dynamic, all in the table, nested boundedly) |
| `RootProbing.RunAsSourceExactly` | assembly/src/assembler/context.rs:283-308 | both directions in one: all procedures that a program calls or imports are executed as their sources say, on every lawful machine with silent decorators over the probing states, if and only if that condition holds |
| `RootProbing.UnlikeProgramDiffers` | assembly/src/assembler/context.rs:283-308 | if that procedure is one of the program's own, the program that just calls it, with the same procedures and table, is not executed as its source says |
| `RootSharingExample.WrongErrorCode` | assembly/src/assembler/context.rs:283-308 | a program that fails with the wrong error code, for every hash computed as roots are: two procedures that differ in the error code of an assertion share a root, and calling the second runs the first |
| `SharedRoots.EffectfulProgramRuns` | assembly/src/assembler/mod.rs:142-185 | whole-program correctness for every machine, decorators with effects included, if what stands for those roots has the same operations and decorators up to NOOPs, and what is called, as well as the body, loses no decorator |
| `SharedRoots.SharedByRoot` | assembly/src/assembler/context.rs:283-308 | what stands for a root has the tree, the calls and the group values of every procedure with that root |
| `CodeLikeness.AlikeMeans` | processor/src/lib.rs:224-395 | code with the same tree and calls means the same to every machine that cannot tell its spans apart |
| `Libraries.ModuleJoins` | assembly/src/assembler/mod.rs:197-268 | what compiling a module promises is what it takes to run its procedures, re-exports included, from its source |
| `Libraries.ProgramJoins` | assembly/src/assembler/mod.rs:142-185 | a compiled program completes the library of the modules it was compiled with |
| `Libraries.ProgramAlone` | assembly/src/assembler/mod.rs:142-185 | what compiling a program promises is enough for a library of the program alone, in which imports mean their compiled code |
| `Assembling.ModuleStays` | assembly/src/assembler/mod.rs:197-268 | a compiled module stays compiled as the cache grows |
| `SourceMeaning.ProgramRunsSource` | assembly/src/assembler/mod.rs:142-185 | executing a compiled program does what its source says on a machine for which the code found for used procedures means what these mean, if decorators are silent or the body is loss-free; the theorems above discharge this |
| `SourceMeaning.ProcedureMeansSource` | assembly/src/assembler/mod.rs:274-298 | on such a machine the MAST of a procedure means prologue, source body and epilogue, the procedures it invokes being run from their sources; what prologue and epilogue do is `PrologueAllocates` and `EpilogueFrees` |
| `SourceMeaning.PrimitiveMeans` | assembly/src/assembler/mod.rs:317-366 | a straight-line instruction runs all of its items, in debug mode after its tracking decorator |
| `SourceMeaning.OtherMeansSource` | assembly/src/assembler/instruction/procedures.rs:61-137 | debug instructions, calls by root, dynexec and dyncall mean on machine and table what the source language says, independently of how they are lowered |
| `Assembling.NextProcCallsCached` | assembly/src/assembler/mod.rs:250-265 | when a procedure is cached everything it calls already is |
| `Assembling.LocalsKept` | assembly/src/assembler/mod.rs:240-242 | procedures already compiled stay compiled from their bodies as the cache grows |
| `Execution.NeverMissing` | processor/src/lib.rs:328-336 | with a closed table, execution reports a missing code block only for phantoms |
| `Execution.MissingCallFails` | processor/src/lib.rs:312-361 | a call of code that is not in the table fails with the root called, a dynamic one with the error of dynamic calls |
| `Execution.CallRuns` | processor/src/lib.rs:312-361 | a call runs the code of the table in its own context and returns; a system call needs a kernel procedure |
| `Execution.ConditionDecides` | processor/src/lib.rs:257-309 | a condition is dropped, one takes the first branch or enters the loop, zero takes the second or skips it, anything else is an error |
| `Execution.LoopUnrolls` | processor/src/lib.rs:279-309 | a loop runs its body and then is the same loop again while the top of the stack is one, and otherwise drops the condition and ends |
| `Syntax.LowerNodesStable` | assembly/src/assembler/mod.rs:317-366 | as the cache grows, instructions that could be lowered are lowered to the same code |
| `RangeChecker.RangeSound` | air/src/constraints/range.rs:41-49 | for traces shorter than the modulus / 2187: accepted exactly if the values are integers climbing from 0 to 65535 in steps of 0 or a power of three up to 2187; then no value exceeds 65535 and the column never decreases |
| `RangeChecker.ConstraintMeaning` | air/src/constraints/range.rs:83-94 | the degree-nine constraint is zero exactly if the change is one of the nine allowed steps |
| `RangeChecker.StepIsPower` | air/src/constraints/range.rs:83-94 | the allowed steps are zero and the first eight powers of three |
| `RangeChecker.StepWithoutWrap` | air/src/constraints/range.rs:83-94 | away from the top of the field, exactly if the difference of the integers is an allowed step |
| `RangeChecker.FlagsMeaning` | air/src/constraints/mod.rs:69-73 | the stack and memory flags are one exactly for op bits 100xxxx and chiplet selectors 110 |
| `RangeChecker.BusConstraintMeaning` | air/src/constraints/range.rs:154-200 | if no denominator is zero, the constraint with denominators cleared is zero exactly if the fractional recurrence holds |
| `RangeChecker.BusAccumulates` | air/src/constraints/range.rs:154-200 | over a whole trace, the bus plus all requested fractions equals its start plus all supplied fractions |
| `RangeChecker.BusBalances` | air/src/constraints/range.rs:54-62 | starting at one, the bus ends at one exactly if the supplied fractions sum to the requested ones |
| `RangeChecker.BusColumnHolds` | air/src/constraints/range.rs:154-200 | every trace without zero denominators has a bus column that meets the constraints |
| `RangeChecker.StackTerm` | air/src/constraints/range.rs:174-192 | each stack term is the product of all denominators times its fraction |
| `RangeChecker.MemoryTerm` | air/src/constraints/range.rs:179-194 | each memory term likewise |
| `RangeLookups.LookupsAreSixteenBit` | air/src/constraints/range.rs:41-62 | what the checker is for: if column and bus constraints are met for as many distinct challenges as there are fractions, every value that a flagged row looks up is an integer up to 65535 |
| `RangeLookups.LookupsInColumn` | air/src/constraints/range.rs:54-62 | then every such value occurs in the checker's column |
| `RangeLookups.ColumnsAreSixteenBit` | air/src/constraints/mod.rs:69-107 | stated on the columns: in a row with op bits 100xxxx each of the four helper columns, and in a row with chiplet selectors 110 each of the two delta columns, holds an integer up to 65535 |
| `RangeLookups.ColumnsInColumn` | air/src/constraints/mod.rs:69-107 | these columns hold values of the checker's column |
| `RangeLookups.MultiplicitiesCount` | air/src/constraints/range.rs:154-200 | a bus that passes for enough challenges has, for every value, multiplicities that add up to the number of times such columns look it up |
| `RangeLookups.CountedPasses` | air/src/constraints/range.rs:154-200 | the converse, completeness: if the multiplicities count the lookups, then for every challenge that is no value of the trace there is a bus column from one to one that meets the constraints |
| `RangeLookups.MultipleIsNumber` | air/src/constraints/range.rs:154-200 | in the base field so many ones add up to their number, so the assumption that few ones do not add up to zero holds of any trace that fits |
| `RangeLookups.FewChallengesPass` | air/src/constraints/range.rs:54-62 | the soundness error of one challenge: if a value looked up is not in the column, fewer than seven challenges per row let the bus pass |
| `RangeLookups.CoefficientsCancel` | air/src/constraints/range.rs:154-200 | a sum of fractions that vanishes at as many challenges as it has terms has cancelling coefficients at every point |
| `RangeLookups.Independent` | air/src/constraints/range.rs:154-200 | fractions with distinct poles are linearly independent: no sum of n of them vanishes at n challenges unless all coefficients are zero |
| `Sponges.AbsorbChunked` | crypto/PQClean/common/fips202.c:440-483 | however a message is split, absorbing its pieces and padding gives the lanes of the one-shot function, for domain bytes below 128 |
| `Sponges.OneShotAgrees` | crypto/PQClean/common/fips202.c:349-380 | one-shot and byte-by-byte absorption agree exactly if the padding bits do not clash |
| `Sponges.PaddingFitsIff` | crypto/PQClean/common/fips202.c:371-376 | they clash exactly for domain bytes from 128 on when the message leaves just one byte of a block |
| `Sponges.SqueezeChunked` | crypto/PQClean/common/fips202.c:498-523 | any sequence of squeeze calls returns the stream of one call of the total length |
| `Sponges.XofChunked` | crypto/PQClean/common/fips202.c:440-523 | absorbing and squeezing in any pieces gives what the one-shot functions give |
| `Keccak.KeccakProper` | crypto/PQClean/common/fips202.c:449-459 | on 64-bit lanes, xoring in a shifted byte changes that byte only, and bytes determine the lane |
| `Keccak.KeccakChunked` | crypto/PQClean/common/fips202.c:440-523 | chunking independence for the Keccak lanes and any permutation |
| `Keccak.KeccakContext.IncInit` | crypto/PQClean/common/fips202.c:417-424 | 25 zero lanes, nothing pending |
| `Keccak.KeccakContext.IncAbsorb` | crypto/PQClean/common/fips202.c:440-462 | absorbs as if byte by byte; less than a block is ever pending |
| `Keccak.KeccakContext.IncFinalize` | crypto/PQClean/common/fips202.c:477-483 | xors in the domain byte and the last bit of the block |
| `Keccak.KeccakContext.IncSqueeze` | crypto/PQClean/common/fips202.c:498-523 | squeezes as if byte by byte, left-over bytes first |
| `Keccak.KeccakAbsorb` | crypto/PQClean/common/fips202.c:349-380 | the one-shot absorption, lane by lane, with its padded last block |
| `Keccak.KeccakSqueezeBlocks` | crypto/PQClean/common/fips202.c:395-405 | returns whole blocks of the same byte stream |
| `Keccak.Shake` | crypto/PQClean/common/fips202.c:696-714 | the one-shot SHAKE returns the byte-by-byte stream of any length |
| `Keccak.LoadedXor` | crypto/PQClean/common/fips202.c:27-34 | xoring in a loaded word is xoring in its eight bytes |
| `Lanes.LoadedIs` | crypto/PQClean/common/fips202.c:27-34 | a loaded word is the sum of the bytes times powers of 256, the first byte least significant |
| `Lanes.ByteOfIs` | crypto/PQClean/common/fips202.c:44-48 | byte k of a word is its kth digit to the base 256 |
| `Keccak.StateBytes` | crypto/PQClean/common/fips202.c:44-48 | the bytes of the state are those of its lanes in order, the least significant of a lane first |
| `Sponges.XorBytesAt` | crypto/PQClean/common/fips202.c:449-459 | bytes xored into the state are found at their positions, and no other byte changes |
| `Keccak.ZeroLanesAre` | crypto/PQClean/common/fips202.c:417-424 | the initial state has 25 lanes, all zero |
| `Lanes.Load64` | crypto/PQClean/common/fips202.c:27-34 | loads eight bytes in little-endian order |
| `Lanes.ByteOfLoaded` | crypto/PQClean/common/fips202.c:27-34 | a loaded lane holds the bytes it was loaded from |
| `Cshake.LeftEncodeInto` | crypto/PQClean/common/sp800-185.c:6-20 | writes the left_encode of a number and returns its length |
| `Cshake.LeftEncodeIs` | crypto/PQClean/common/sp800-185.c:6-20 | in numbers: the first byte counts those that follow, as few as the number needs and at least one, and they stand for the number, most significant first |
| `Cshake.EncodeStringIs` | crypto/PQClean/common/sp800-185.c:29-33 | a string follows its length in bits, so encoded |
| `Cshake.BytepadIs` | crypto/PQClean/common/sp800-185.c:22-40 | the block length comes first, and fewer zeros than a block complete the last block |
| `Cshake.PrefixIs` | crypto/PQClean/common/sp800-185.c:22-40 | the prefix begins with the rate and the two strings and fills whole blocks |
| `Cshake.CshakeIncInit` | crypto/PQClean/common/sp800-185.c:22-40 | reaches the state after absorbing bytepad(encode_string(N) || encode_string(S), rate), at the start of a block |
| `Cshake.SkipIsZeros` | crypto/PQClean/common/sp800-185.c:35-39 | jumping to the last byte of a block and absorbing a zero is absorbing zeros to its end |
| `Cshake.PrefixInjective` | crypto/PQClean/common/sp800-185.c:22-40 | the prefix, with anything after it, determines name, customization string and what follows |
| `Cshake.LeftEncodeInjective` | crypto/PQClean/common/sp800-185.c:6-20 | an encoded number tells where it ends |
| `Sha2.Sha2Context.IncBlocks` | crypto/PQClean/common/sha2.c:601-625 | hashes whole blocks, one block being one compression of the state, and counts their bytes modulo 2^64 |
| `Sha2.Sha2Context.IncFinalize` | crypto/PQClean/common/sha2.c:627-732 | after any number of block calls there is a chain of states from the initial value, each compressed with the next block of the padded whole message into the one after it, and the result is the last; for every length below 2^64 bytes and every tail |
| `Sha2.PadTail` | crypto/PQClean/common/sha2.c:636-667 | writes the tail, the bit, zeros and the length into one block or two, as section 5.1 of FIPS 180-4 pads |
| `Sha2.PaddedWhole` | crypto/PQClean/common/sha2.c:636-667 | padded messages are whole blocks |
| `Sha2.PaddedLeast` | crypto/PQClean/common/sha2.c:636-667 | no shorter padding would make whole blocks |
| `Sha2.PaddedInjective` | crypto/PQClean/common/sha2.c:636-667 | different messages whose bit length fits the field are padded differently |
| `Sha2.LengthByteIs` | crypto/PQClean/common/sha2.c:645-652 | the shifts by 53, 45, ... cut the bytes out of the length in bits |
| `Sha2.LengthField` | crypto/PQClean/common/sha2.c:699-710 | for SHA-512 the first seven bytes of the length field are zero |
| `Sha2.CryptoHashblocks` | crypto/PQClean/common/sha2.c:132-287 | one compression for each whole block, in order, a rest being ignored: no block leaves the state, one block is one compression, and in general the states form a chain over the blocks |
| `Sha2.HashBlocksIs` | crypto/PQClean/common/sha2.c:132-287 | less than a block leaves the state, one block is one compression |
| `Sha2.HashBlocksConcat` | crypto/PQClean/common/sha2.c:132-287 | hashing the blocks of two messages one after the other is hashing those of both |
| `Sha2.HashBlocksChain` | crypto/PQClean/common/sha2.c:132-287 | the chain of states over the blocks, from the first state to the result |
| `Sha2.PaddedIs` | crypto/PQClean/common/sha2.c:636-667 | in numbers: the message, 0x80, zeros, and the length in bits, most significant byte first, filling whole blocks with less than one block to spare |
| `Sha2.PaddedSha256` | crypto/PQClean/common/sha2.c:627-667 | for SHA-256: blocks of 64 bytes, the length in the last eight |
| `Sha2.PaddedSha512` | crypto/PQClean/common/sha2.c:684-731 | for SHA-512: blocks of 128 bytes, the length in the last sixteen |
| `ByteStrings.BigEndianValue` | crypto/PQClean/common/sha2.c:645-652 | the bytes of a number, most significant first, stand for that number |
| `ByteStrings.ToByteIs` | crypto/PQClean/common/sha2.c:645-652 | the byte of a number below 256 has that value |
| `SeedExpanding.SeedExpander.Init` | crypto/PQClean/common/nistseedexpander.c:20-43 | counter block of diversifier, maximal length and zero; empty buffer |
| `SeedExpanding.SeedExpander.Expand` | crypto/PQClean/common/nistseedexpander.c:59-103 | returns the next bytes of one fixed stream; all output stays shorter than the maximal length; a refused request changes nothing |
| `SeedExpanding.SeedExpander.Take` | crypto/PQClean/common/nistseedexpander.c:73-100 | takes bytes from the buffer, refilling it, exactly along the stream |
| `SeedExpanding.SeedExpander.IncrementCounter` | crypto/PQClean/common/nistseedexpander.c:91-98 | the carry loop computes the successor of the counter |
| `SeedExpanding.SuccessorOfDigits` | crypto/PQClean/common/nistseedexpander.c:91-98 | that successor is the encoding of the next number |
| `SeedExpanding.CounterBlocksDistinct` | crypto/PQClean/common/nistseedexpander.c:26-39 | below 2^32 blocks no counter block repeats |
| `MerkleTrees.MerkleTree.New` | crypto/src/merkle/merkle_tree.rs:23-52 | builds a tree exactly for a power of two of at least two leaves; its nodes are those over the leaves |
| `MerkleTrees.MerkleTree.Root` | crypto/src/merkle/merkle_tree.rs:58-60 | node one is the root over the leaves, halves merged recursively |
| `MerkleTrees.MerkleTree.Depth` | crypto/src/merkle/merkle_tree.rs:65-67 | two to the depth is the number of leaves |
| `MerkleTrees.MerkleTree.GetNode` | crypto/src/merkle/merkle_tree.rs:75-84 | returns the node at the scalar index, or the error for the root or a depth too big |
| `MerkleTrees.MerkleTree.GetPath` | crypto/src/merkle/merkle_tree.rs:93-113 | returns the siblings up to the root, one per level |
| `MerkleTrees.MerkleTree.UpdateLeaf` | crypto/src/merkle/merkle_tree.rs:145-175 | leaves exactly the nodes over the leaves with that one replaced, and changes only the leaf and its ancestors |
| `MerkleTrees.NodeIsRootOfLeaves` | crypto/src/merkle/merkle_tree.rs:23-52 | the node at every index is the root over the leaves below it |
| `MerkleTrees.OnlyAncestorsChange` | crypto/src/merkle/merkle_tree.rs:145-175 | a node not above a leaf does not depend on it |
| `MerklePaths.ComputeRoot` | crypto/src/merkle/path.rs:32-41 | folds the path, or reports an index too big for its depth byte |
| `MerklePaths.Verify` | crypto/src/merkle/path.rs:46-51 | true exactly if the computed root is the given one |
| `MerklePaths.OpeningComplete` | crypto/src/merkle/merkle_tree.rs:93-113 | every node of a tree verifies with its siblings against the root |
| `MerklePaths.OpenAndVerify` | crypto/src/merkle/path.rs:46-51 | get_path, get_node and root of one tree always verify together |
| `MerklePaths.FindCollision` | crypto/src/merkle/path.rs:32-51 | from two different openings at one index against one root computes two different inputs with the same merge |
| `MerklePaths.InnerNodesLeadToRoot` | crypto/src/merkle/path.rs:125-145 | inner nodes are a chain of merges, one per level, ending in the computed root |
| `MerklePaths.InnerNodes` | crypto/src/merkle/path.rs:59-69 | yields all of them exactly if the path is shorter than 256, as its depth is kept in a byte |
| `MerklePaths.InnerNodeIterator.Next` | crypto/src/merkle/path.rs:125-145 | returns the next inner node, or nothing at the root |
| `MerkleIndexes.NewIndex` | crypto/src/merkle/index.rs:38-44 | accepts a value exactly if it is below two to the depth |
| `MerkleIndexes.ScalarMoves` | crypto/src/merkle/index.rs:80-147 | parent and sibling are halving and flipping the last bit of the scalar index; valid indexes stay valid |
| `MerkleIndexes.ScalarUnique` | crypto/src/merkle/index.rs:116-118 | the scalar index determines depth and value |

## Left out

- Instruction lowering, opcode tables and the parser: lowering is a parameter of the theorems, the rest would only add easy members.
- The decoder trace and the stack, memory and chiplet traces: only the group counter, the remaining opcodes of a group and the executed operations are modelled.
- Host effects of decorators and advice injectors: a decorator is an arbitrary deterministic step of the machine.
- The clock, cycle limits, and execution contexts beyond an arbitrary `enter` and `leave` of the machine.
- Error messages, procedure names kept only for them, and the borrow errors of the procedure cache.
- The vectors that hold the module and procedure stacks are lists; popping and pushing at their end is the head of the list.
- Reading and writing the SHA-2 byte counter inside the context's byte array: the counter is a number modulo 2^64.
- The position of the Keccak counter in lane 25 of the context: it is a field of its own.
- Truncation of digests for SHA-224 and SHA-384, and the fixed-length SHA-3 functions: they copy or fix lengths.
- Clearing and freeing of contexts, and output buffers: outputs are returned as sequences.
- The bus when a denominator is zero: the cleared constraint then no longer determines the next value.
- RangeLookups.LookupsInColumn: is for seven challenges per row, one for each fraction, where the source draws one; `FewChallengesPass` turns this into the number of challenges that let a wrong value pass, and the probability argument is left out.
- RangeLookups.LookupsAreSixteenBit: for as many challenges, for the same reason.
- RangeLookups.ColumnsAreSixteenBit: for as many challenges, for the same reason.
- Assembling.Assembler.CompileModule: that it succeeds is stated for modules whose imports are cached; if an import has to be compiled first, success is not promised.
- The proof system around the constraints.
- RootProbing.UnlikeIsTold: is about the procedure, its call and the program of that call; whether the body of another program ever gets to the call is not part of it, and code with dynamic calls, phantoms or calls that never come back is excluded, since it may keep every machine from getting there.
- Leaf and inner-node iterators of the Merkle tree, partial and sparse trees, the Merkle store and serialization.
- ModuleProviding.ModuleProvider.AddModule: when a name cannot be appended, names before it stay registered with an index that has no module (module_provider.rs:39-46); the provider is then not `Valid`, and an assembler with such a provider is not modelled.
- BlockCombining.CombineBlocks: states the tree it builds; that an empty list panics is its precondition.
- MerkleTrees.MerkleTree.New: its precondition is that twice the number of leaves is a 64-bit size.
- Sponges.AbsorbChunked: is for domain bytes below 128, those the library uses; for the others `OneShotAgrees` says exactly when it holds.
