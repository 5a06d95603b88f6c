# A verified model of mruby's YARP bytecode generator core

This project models the core of `codegen.yarp.c`, mruby's generator of RITE VM bytecode from the YARP syntax tree, and proves its properties. The model covers:

- the instruction emitters and a byte-exact decoder;
- the per-scope instruction buffer with its `pc`, `lastpc` and `lastlabel` marks;
- forward jump chains and their resolution;
- the peephole rewrites that look back at the last one or two instructions;
- integer constant folding;
- the literal pool and the symbol table;
- the register and loop stacks;
- local and upvalue lookup;
- integer literal reading;
- the fixed right-hand-side multiple assignment.

Properties are stated against independent reference definitions:

- a decoder for the emitters;
- a chain walk for jump resolution;
- a small register machine for the peephole rewrites and the folds;
- Ruby's binding rules for multiple assignment;
- the mathematical value of a digit string for `readint`.

The scope (`struct scope`) is the class `Scope.CodegenScope`. The instruction buffer, pool, symbol table, stack pointer and loop stack are fields that the methods update in place, under the invariant `Valid()`. Next to the bytes, the scope keeps `insns`, one record per instruction, tiling the buffer. `Scope.Emit` appends a record only when `Encoding.Decode` reads exactly that record back from the bytes appended with it. The records stand in for `mrb_decode_insn` / `mrb_prev_pc`, which the C code uses to re-read the last instructions. Jump patching later rewrites only the offset bytes inside jump records.

`codegen_error`, which does not return, becomes an `Outcome` or `Result` carrying the C message. `mrb_int` is the 64-bit configuration (`MRB_INT64`).

Modules, lowest first:

| Module | File | Contents |
|---|---|---|
| `Wrappers` | `wrappers.dfy` | `Option`, `Result`, `Outcome` |
| `MachineInts` | `machine_ints.dfy` | C integer conversions, C and floored division, two's complement bit operations |
| `Opcodes` | `opcodes.dfy` | the opcodes and their operand formats |
| `Encoding` | `encoding.dfy` | encoder and decoder functions |
| `Scope` | `scope.dfy` | the scope class |
| `Emitter` | `emitter.dfy` | `genop_*` |
| `JumpLinks`, `Jumps` | `jump_links.dfy`, `jumps.dfy` | jump chains, `genjmp`, `genjmp2`, `dispatch` |
| `Pools` | `pools.dfy` | `new_lit_*`, `new_sym` |
| `IntLoads` | `int_loads.dfy` | `gen_int`, `get_int_operand` |
| `Folding`, `FoldingSound` | `folding.dfy`, `folding_sound.dfy` | `gen_addsub`, `gen_muldiv`, `gen_binop`, `gen_uniop` |
| `Registers` | `registers.dfy` | `push_n_`, `pop_n_`, `loop_push`, `loop_pop` |
| `Locals` | `locals.dfy` | `lv_idx`, `search_upvar` |
| `RegMachine` | `reg_machine.dfy` | the reference register machine |
| `Peephole`, `PeepholeSound` | `peephole.dfy`, `peephole_sound.dfy` | `gen_move`, `gen_return`, `gen_setxv`, `gen_getupvar`, `gen_setupvar`, `gen_intern` |
| `IntLiterals` | `intlit.dfy` | `readint` |
| `Syntax` | `syntax.dfy` | the YARP node kinds used |
| `MultiWrite` | `multi_write.dfy` | fixed right-hand-side multiple assignment |
| `Walker` | `walker.dfy` | the integer literal node |

## Model

| member | source | states |
|---|---|---|
| MachineInts.Int16RoundTrip | mrbgems/mruby-compiler/core/codegen.yarp.c:806-809 | every int16 value truncated to `uint16_t` as gen_int does reads back as itself through `(int16_t)` |
| IntLoads.Int32RoundTrip | mrbgems/mruby-compiler/core/codegen.yarp.c:1216-1222 | every int32 value truncated to `uint32_t` reads back as itself when the pattern is read as signed |
| MachineInts.CRem | mrbgems/mruby-compiler/core/codegen.yarp.c:948 | C's `%` is the remainder of truncating division: dividend == quotient * divisor + r, \|r\| < \|divisor\|, and r has the dividend's sign |
| MachineInts.FloorMod | mrbgems/mruby-compiler/core/codegen.yarp.c:943-953 | the floored remainder has the divisor's sign and completes the floored division |
| MachineInts.Complement | mrbgems/mruby-compiler/core/codegen.yarp.c:1244-1246 | `~n` on an mrb_int is again an mrb_int and equals n XOR -1 on the two's complement expansion |
| MachineInts.XorMinusOne | mrbgems/mruby-compiler/core/codegen.yarp.c:1244-1246 | flipping every bit of n gives -n-1 |
| MachineInts.BitwiseRange | mrbgems/mruby-compiler/core/codegen.yarp.c:955-963 | `&`, `\|` and `^` of two k-bit signed values stay in the k-bit signed range, so folding them never overflows mrb_int |
| Encoding.Op1RoundTrip | mrbgems/mruby-compiler/core/codegen.yarp.c:279-293 | the bytes genop_1 writes, with or without OP_EXT1, decode at their start to the instruction with its operand and length |
| Encoding.Op2RoundTrip | mrbgems/mruby-compiler/core/codegen.yarp.c:295-323 | the four EXT shapes of genop_2 decode back to both operands and the instruction length |
| Encoding.Op0RoundTrip | mrbgems/mruby-compiler/core/codegen.yarp.c:272-277 | genop_0's single byte decodes to its opcode |
| Encoding.Op3RoundTrip | mrbgems/mruby-compiler/core/codegen.yarp.c:325-330 | genop_3 decodes to a, b and the low byte of c, which is all genop_3 writes |
| Encoding.Op2SRoundTrip | mrbgems/mruby-compiler/core/codegen.yarp.c:332-337 | genop_2S decodes to a and the 16-bit b |
| Encoding.Op2SSRoundTrip | mrbgems/mruby-compiler/core/codegen.yarp.c:339-345 | genop_2SS decodes to a and the high and low 16-bit halves of the 32-bit b |
| Encoding.OpWRoundTrip | mrbgems/mruby-compiler/core/codegen.yarp.c:347-359 | genop_W decodes to the low 24 bits of its operand |
| Encoding.JmpRoundTrip | mrbgems/mruby-compiler/core/codegen.yarp.c:550-559 | a jump opcode followed by its 16-bit slot decodes to the slot's value, 3 bytes long |
| Encoding.Op2Bytes | mrbgems/mruby-compiler/core/codegen.yarp.c:295-323 | the encoding's length is 3 plus one for a prefix plus one per wide operand; the prefix comes exactly when an operand exceeds a byte |
| Emitter.CheckNoExtOps | mrbgems/mruby-compiler/core/codegen.yarp.c:203-209 | an error, with the C message, exactly when OP_EXTs are prohibited and an operand exceeds a byte |
| Emitter.NewLabel | mrbgems/mruby-compiler/core/codegen.yarp.c:211-215 | returns pc, which becomes lastlabel |
| Emitter.Genop0 | mrbgems/mruby-compiler/core/codegen.yarp.c:272-277 | for an opcode without operands, appends the opcode and its record, with lastpc at its start; the byte decodes back to the record |
| Emitter.Genop1 | mrbgems/mruby-compiler/core/codegen.yarp.c:279-293 | for a B-format opcode, appends Op1Bytes and the record they decode back to, or fails with check_no_ext_ops's error leaving the code unchanged |
| Emitter.Genop2 | mrbgems/mruby-compiler/core/codegen.yarp.c:295-323 | for a BB-format opcode, appends Op2Bytes and the record they decode back to, or fails with check_no_ext_ops's error leaving the code unchanged |
| Emitter.Genop3 | mrbgems/mruby-compiler/core/codegen.yarp.c:325-330 | for a BBB-format opcode, appends genop_2's bytes and the low byte of c, decoding back to the record, or fails with check_no_ext_ops's error |
| Emitter.Genop2S | mrbgems/mruby-compiler/core/codegen.yarp.c:332-337 | for a BS-format opcode, appends genop_1 and the 16-bit b, decoding back to the record, checking only a |
| Emitter.Genop2SS | mrbgems/mruby-compiler/core/codegen.yarp.c:339-345 | for a BSS-format opcode, appends genop_1 and both 16-bit halves of b, decoding back to the record, checking only a |
| Emitter.GenopW | mrbgems/mruby-compiler/core/codegen.yarp.c:347-359 | for a W-format opcode, appends the opcode and three bytes of a, decoding back to the record, without any check |
| Scope.CodegenScope.constructor | mrbgems/mruby-compiler/core/codegen.yarp.c:4188-4265 | a new scope has an empty buffer, pool and symbol table, a valid state, and sp equal to nlocals; the outermost scope is the zeroed one |
| Scope.Emit | mrbgems/mruby-compiler/core/codegen.yarp.c:217-256 | emit_B / emit_S appending bytes that decode to the given record: the buffer grows by exactly those bytes, the record is appended, lastpc marks its start, and `Valid()` is kept |
| Scope.RewindTo | mrbgems/mruby-compiler/core/codegen.yarp.c:514 | rewind_pc / `s->pc = addr_pc(...)`: the buffer is cut back to the start of record k, dropping exactly the records from k on |
| Scope.AppendOk | mrbgems/mruby-compiler/core/codegen.yarp.c:217-256 | appending one instruction whose operands fit keeps the code invariant (records tile [0, pc)) and the tables' invariant |
| Scope.TilesOrder | mrbgems/mruby-compiler/core/codegen.yarp.c:485-510 | the records of the buffer start at strictly increasing addresses, which is what lets mrb_prev_pc find the one before lastpc |
| Scope.LabelAtOrBefore | mrbgems/mruby-compiler/core/codegen.yarp.c:526-530 | a label below pc that no later record starts at lies at or before record k: looking back to record k never crosses a label |
| JumpLinks.StoredLinkFollows | mrbgems/mruby-compiler/core/codegen.yarp.c:534-548 | following the offset gen_jmpdst stores leads to the jump target, and JMPLINK_START reads back as the end of the chain |
| JumpLinks.ChainExtend | mrbgems/mruby-compiler/core/codegen.yarp.c:534-559 | a new jump slot linked to the head of a chain heads a chain whose sites are the new one, then the old ones |
| JumpLinks.ResolveChainSpec | mrbgems/mruby-compiler/core/codegen.yarp.c:973-1002 | resolving a chain fails exactly when some site lies more than INT16_MAX bytes back; otherwise every site of the chain is patched |
| JumpLinks.ResolvedChainLandsOnDest | mrbgems/mruby-compiler/core/codegen.yarp.c:973-1002 | after patching, every jump of the chain lands on the destination and no byte outside the slots changes |
| JumpLinks.SitesSpaced | mrbgems/mruby-compiler/core/codegen.yarp.c:534-548 | the slots of a chain are in range and pairwise disjoint |
| JumpLinks.DispatchNextOnChain | mrbgems/mruby-compiler/core/codegen.yarp.c:988-991 | the site dispatch returns after patching is the chain's next site, strictly further back, or 0 at the end |
| JumpLinks.PutS | mrbgems/mruby-compiler/core/codegen.yarp.c:248-256 | emit_S overwrites exactly two bytes, high byte first |
| Jumps.FoldCondJump | mrbgems/mruby-compiler/core/codegen.yarp.c:568-604 | genjmp2's peephole, with the load test corrected: the jump is decided at compile time exactly when the last instruction loads a constant into the tested temporary, and is then kept exactly when it would be taken; a MOVE into a temporary is tested at its source; anything else is tested as is |
| Jumps.FoldCondJumpAsWritten | mrbgems/mruby-compiler/core/codegen.yarp.c:568-604 | genjmp2's peephole as written: a constant load decides the jump when it loads the tested register or any temporary, whichever register that is |
| Jumps.CondJumpFoldAsWritten | mrbgems/mruby-compiler/core/codegen.yarp.c:578-598 | as written, `LOADT t; JMPIF a` with t another temporary becomes an unconditional jump and `LOADT t; JMPNOT a` disappears; the corrected fold tests a |
| Jumps.GenJmp | mrbgems/mruby-compiler/core/codegen.yarp.c:534-559 | genjmp: the slot address, with the jump appended holding the offset to its target; an offset outside int16 is "too big jump offset" with the code unchanged |
| Jumps.JumpOntoChain | mrbgems/mruby-compiler/core/codegen.yarp.c:534-619 | a jump emitted after a rewind, aimed at a pending chain, heads that chain extended by its slot |
| Jumps.PeepholeForJump | mrbgems/mruby-compiler/core/codegen.yarp.c:566-604 | the decision is FoldCondJump's or none, and the buffer is cut back to exactly the records the decision keeps |
| Jumps.EmitCondJump | mrbgems/mruby-compiler/core/codegen.yarp.c:605-616 | a conditional jump is appended with its slot after the register operand, or fails with the EXT error or the offset error, leaving the code unchanged |
| Jumps.GenJmp2 | mrbgems/mruby-compiler/core/codegen.yarp.c:563-619 | for each decision the whole new buffer: nothing (JMPLINK_START) for a jump never taken, an OP_JMP for one always taken, the conditional jump otherwise, each after the cut |
| Jumps.Dispatch | mrbgems/mruby-compiler/core/codegen.yarp.c:973-992 | patches the slot with the forward offset to pc and makes pc a label; fails when the offset exceeds INT16_MAX; returns the old link's site |
| Jumps.DispatchLinked | mrbgems/mruby-compiler/core/codegen.yarp.c:994-1002 | the buffer after dispatch_linked is ResolveChain's, and it fails exactly when ResolveChain does |
| Jumps.ResolvedJumpsLand | mrbgems/mruby-compiler/core/codegen.yarp.c:994-1002 | after dispatch_linked every jump of the chain lands on pc, nothing else changes, and failure means some site is too far back |
| Pools.IntIndex | mrbgems/mruby-compiler/core/codegen.yarp.c:1123-1134 | the linear scan's result: the first integer entry equal to num, and none before it |
| Pools.StrIndex | mrbgems/mruby-compiler/core/codegen.yarp.c:1082-1089 | the first string entry the scan accepts, and none before it |
| Pools.BigIntIndex | mrbgems/mruby-compiler/core/codegen.yarp.c:1052-1059 | the first BIGINT entry the scan accepts, and none before it |
| Pools.SymIndex | mrbgems/mruby-compiler/core/codegen.yarp.c:1180-1183 | the first occurrence of the symbol, and none before it |
| Pools.SignedChar | mrbgems/mruby-compiler/core/codegen.yarp.c:1066 | `(char)x` is a signed char congruent to x modulo 256 |
| Pools.NewLitStr | mrbgems/mruby-compiler/core/codegen.yarp.c:1076-1107 | returns the scan's index, the pool unchanged when found, the string appended otherwise |
| Pools.NewLitInt | mrbgems/mruby-compiler/core/codegen.yarp.c:1117-1147 | returns the first equal integer entry's index, or appends num |
| Pools.NewLitBint | mrbgems/mruby-compiler/core/codegen.yarp.c:1041-1074 | "integer too big" exactly when there are more than 255 digits; otherwise the scan's index, or a new entry with the length and base bytes |
| Pools.NewSym | mrbgems/mruby-compiler/core/codegen.yarp.c:1173-1193 | the symbol's index, appended when new; "too many symbols" exactly when a 32769th symbol would be added |
| Pools.IntInsertIdempotent | mrbgems/mruby-compiler/core/codegen.yarp.c:1117-1147 | inserting an integer twice returns the same index, leaves the pool as it was, and the entry there holds the integer |
| Pools.StrInsertIdempotent | mrbgems/mruby-compiler/core/codegen.yarp.c:1076-1107 | a string shorter than 2^30 bytes inserted twice returns the first index |
| Pools.StrMatchesIsEquality | mrbgems/mruby-compiler/core/codegen.yarp.c:1084-1088 | below 2^30 bytes the scan's length-and-bytes test is string equality |
| Pools.SymInsertIdempotent | mrbgems/mruby-compiler/core/codegen.yarp.c:1173-1193 | interning twice returns the same index and leaves the table as it was |
| Pools.BigIntDedupLimits | mrbgems/mruby-compiler/core/codegen.yarp.c:1056-1068 | a BIGINT entry is found again exactly when it has at most 127 digits and is not negative |
| Pools.PoolRefsGrow | mrbgems/mruby-compiler/core/codegen.yarp.c:1030-1039 | a growing pool keeps every emitted OP_LOADL index valid |
| IntLoads.IntLoadForm | mrbgems/mruby-compiler/core/codegen.yarp.c:1209-1227 | the chosen opcode is LOADI__1 or a LOADI_n for the one-operand shapes, and LOADINEG or LOADI with a byte operand for the two-operand shape |
| IntLoads.GenInt | mrbgems/mruby-compiler/core/codegen.yarp.c:1209-1227 | appends exactly the load that IntLoadForm describes, adds the pool literal when one is needed, or fails with check_no_ext_ops's error |
| IntLoads.GenIntLit | mrbgems/mruby-compiler/core/codegen.yarp.c:1223-1226 | OP_LOADL of new_lit_int's index, truncated to 16 bits |
| IntLoads.GenLoadL | mrbgems/mruby-compiler/core/codegen.yarp.c:1225 | `genop_2(s, OP_LOADL, dst, idx)`: the load appended, or check_no_ext_ops's error with the code unchanged |
| IntLoads.LoadDecodes | mrbgems/mruby-compiler/core/codegen.yarp.c:1209-1227 | the bytes gen_int writes decode to the record the scope keeps |
| IntLoads.IntLoadRoundTrip | mrbgems/mruby-compiler/core/codegen.yarp.c:789-836 | get_int_operand, with LOADI32 read as signed, reads back i from the load gen_int emits for i, for every integer whose literal index fits 16 bits |
| IntLoads.IntLoadIsNotJump | mrbgems/mruby-compiler/core/codegen.yarp.c:789-836 | an instruction get_int_operand accepts is neither a jump nor a NOP |
| IntLoads.IntOperandAsWritten | mrbgems/mruby-compiler/core/codegen.yarp.c:789-836 | get_int_operand as written agrees with the corrected reader on every opcode but LOADI32 |
| IntLoads.LoadI32NegativeMisread | mrbgems/mruby-compiler/core/codegen.yarp.c:811-812 | -40000 is emitted as LOADI32 and read back as written as 4294927296; the corrected reader gives -40000 |
| Folding.AddSubFoldAsWritten | mrbgems/mruby-compiler/core/codegen.yarp.c:872-879 | as written, `LOADI32 -40000` then `+ 1` folds to 4294927297; the corrected fold gives -39999 |
| Folding.FoldArithSound | mrbgems/mruby-compiler/core/codegen.yarp.c:838-913 | on mrb_int operands the fold yields Ruby's value exactly when that value exists and fits mrb_int |
| Folding.FloorDivShrinks | mrbgems/mruby-compiler/core/codegen.yarp.c:905-908 | floored division of an mrb_int by anything but 0 and -1 is an mrb_int |
| Folding.BinopValueMeaning | mrbgems/mruby-compiler/core/codegen.yarp.c:943-963 | gen_binop's `%` is Ruby's floored modulo (MRB_INT_MIN % -1 included), `&`, `\|` and `^` are the two's complement operations, and every fold stays in mrb_int |
| Folding.CorrectedRemainder | mrbgems/mruby-compiler/core/codegen.yarp.c:947-953 | C's remainder moved to the divisor's sign is the floored remainder |
| Folding.RemainderUnique | mrbgems/mruby-compiler/core/codegen.yarp.c:947-953 | a remainder with the divisor's sign is unique |
| Folding.AddSubStepOf | mrbgems/mruby-compiler/core/codegen.yarp.c:838-881 | an immediate is ADDI or SUBI of 1 to 128; every rewrite needs an integer load last; a fold needs two and no label between them, and its value is the guarded sum or difference |
| Folding.MulDivStepOf | mrbgems/mruby-compiler/core/codegen.yarp.c:883-913 | a fold needs two integer loads without a label between them and yields the guarded product or floored quotient |
| Folding.BinopStepOf | mrbgems/mruby-compiler/core/codegen.yarp.c:917-971 | OP_GETIDX exactly for `[]`; a fold only over two integer loads without a label between them |
| Folding.UniopMeaning | mrbgems/mruby-compiler/core/codegen.yarp.c:1229-1253 | `+n` folds to n, `-n` to -n except on MRB_INT_MIN, `~n` to -n-1; other operators do not fold; folds stay in mrb_int |
| Folding.LoadOver | mrbgems/mruby-compiler/core/codegen.yarp.c:1250-1251 | `s->pc = addr_pc(...)` then gen_int: the records from keep on are replaced by gen_int's load of v |
| Folding.ReplaceLast | mrbgems/mruby-compiler/core/codegen.yarp.c:859-869 | rewind_pc then genop_2: the last record is replaced by one instruction |
| Folding.DropLast | mrbgems/mruby-compiler/core/codegen.yarp.c:859-860 | rewind_pc: the last record is dropped |
| Folding.CutTwoAllowed | mrbgems/mruby-compiler/core/codegen.yarp.c:854-856 | with no label on the last record, both operand loads can be cut without crossing a label or removing a jump |
| Folding.GenAddSub | mrbgems/mruby-compiler/core/codegen.yarp.c:838-881 | for each decision of AddSubStepOf the new buffer: the plain ADD/SUB, the addend dropped, ADDI/SUBI in place of the load, or one load of the folded value |
| Folding.GenMulDiv | mrbgems/mruby-compiler/core/codegen.yarp.c:883-913 | the plain MUL/DIV, or both loads replaced by one load of the folded value |
| Folding.GenBinop | mrbgems/mruby-compiler/core/codegen.yarp.c:917-971 | FALSE with nothing emitted; OP_GETIDX for `[]`; or both loads replaced by the folded load, and TRUE once it is emitted |
| Folding.GenUniop | mrbgems/mruby-compiler/core/codegen.yarp.c:1229-1253 | FALSE with nothing emitted, or the last load replaced by the load of the folded value |
| FoldingSound.AddSubImmKeepsValue | mrbgems/mruby-compiler/core/codegen.yarp.c:856-870 | on the register machine, dropping `+ 0` and ADDI/SUBI of the addend leave the value the load and ADD/SUB would leave |
| FoldingSound.AddSubFoldKeepsValue | mrbgems/mruby-compiler/core/codegen.yarp.c:872-879 | the two loads and the operator, and the single load of the folded value, leave the same integer in dst |
| FoldingSound.MulDivKeepsValue | mrbgems/mruby-compiler/core/codegen.yarp.c:898-911 | gen_muldiv's fold leaves in dst the product or floored quotient that the unfolded code leaves |
| FoldingSound.FoldKeepsValue | mrbgems/mruby-compiler/core/codegen.yarp.c:838-913 | for any arithmetic operator a fold to v and the unfolded code agree on dst |
| FoldingSound.LoadsThenOpValue | mrbgems/mruby-compiler/core/codegen.yarp.c:838-913 | two integer loads and the operator leave Ruby's value of the operation in dst |
| FoldingSound.LoadValue | mrbgems/mruby-compiler/core/codegen.yarp.c:1209-1227 | gen_int's load of v leaves v in dst |
| FoldingSound.ImmSign | mrbgems/mruby-compiler/core/codegen.yarp.c:861-869 | ADDI/SUBI with the immediate adds what the operator would have |
| Registers.PushN | mrbgems/mruby-compiler/core/codegen.yarp.c:1005-1013 | "too complex expression" exactly when sp + n reaches 0xffff; otherwise sp grows by n and nregs covers it |
| Registers.PopN | mrbgems/mruby-compiler/core/codegen.yarp.c:1015-1022 | "stack pointer underflow" exactly when n exceeds sp; otherwise sp shrinks by n |
| Registers.LoopPush | mrbgems/mruby-compiler/core/codegen.yarp.c:4311-4323 | a loop with empty chains and the current sp as result register is pushed |
| Registers.LoopPop | mrbgems/mruby-compiler/core/codegen.yarp.c:4386-4395 | succeeds exactly when the nil load and the break patching do, and then the loaded nil, the patched breaks, the popped loop and the claimed register are all there |
| Registers.LoadLoopValue | mrbgems/mruby-compiler/core/codegen.yarp.c:4389-4391 | with val, OP_LOADNIL into the top register is appended, and the break chain is kept |
| Registers.CloseLoop | mrbgems/mruby-compiler/core/codegen.yarp.c:4392-4394 | the breaks are patched to land here, the loop is popped and the value's register is claimed |
| Registers.PopLoop | mrbgems/mruby-compiler/core/codegen.yarp.c:4393-4394 | the loop is popped and, with val, one register is pushed |
| Registers.BreaksLandAfterLoop | mrbgems/mruby-compiler/core/codegen.yarp.c:4386-4395 | every break of the loop lands right after the nil load, at the end of the code, and nothing but the slots changes |
| Locals.LvIdx | mrbgems/mruby-compiler/core/codegen.yarp.c:1275-1286 | 0 exactly when the scope has no such local; otherwise the first register of that name, counting from 1 |
| Locals.Ancestor | mrbgems/mruby-compiler/core/codegen.yarp.c:1293-1302 | the scope k levels out, with 0 and 1 being the scope and its prev |
| Locals.SearchUpvar | mrbgems/mruby-compiler/core/codegen.yarp.c:1288-1340 | the nearest enclosing scope declaring the name, with no nearer one declaring it, as (levels, register); or the missing-parameter or missing-local error when none does |
| Locals.NoneBeyond | mrbgems/mruby-compiler/core/codegen.yarp.c:1295-1302 | past the outermost scope there are no more scopes |
| RegMachine.RunAppend | mrbgems/mruby-compiler/core/codegen.yarp.c:626-787 | running two instruction sequences one after the other is running them joined |
| RegMachine.RunPoolGrow | mrbgems/mruby-compiler/core/codegen.yarp.c:1117-1147 | appending to the pool changes no run whose LOADLs name existing entries |
| RegMachine.IntOperandPoolGrow | mrbgems/mruby-compiler/core/codegen.yarp.c:815-831 | an integer read from an existing entry survives pool growth |
| Peephole.EmitNow | mrbgems/mruby-compiler/core/codegen.yarp.c:272-345 | emitting after the last record is the effect that keeps every record |
| Peephole.ApplyEffect | mrbgems/mruby-compiler/core/codegen.yarp.c:514 | cutting back to keep records (rewind_pc) and emitting the decided instruction keeps `Valid()` and yields exactly the effect |
| Peephole.MoveEffectOk | mrbgems/mruby-compiler/core/codegen.yarp.c:626-734 | every decision of gen_move can be carried out: no label and no jump among the cut records |
| Peephole.MoveEffectUnfolds | mrbgems/mruby-compiler/core/codegen.yarp.c:635-651 | in its recursive cases gen_move's effect is the lifted effect of the call on the records before the dropped MOVE |
| Peephole.RewindToPrev | mrbgems/mruby-compiler/core/codegen.yarp.c:641-648 | the last record is dropped with lastpc on the one before it, and the peephole is off again exactly at pc 0, with optimisation off, or on a label |
| Peephole.GenMove | mrbgems/mruby-compiler/core/codegen.yarp.c:626-734 | the new buffer is the old buffer with MoveEffect carried out |
| Peephole.MoveThroughLast | mrbgems/mruby-compiler/core/codegen.yarp.c:635-651 | the recursive cases of gen_move carry out MoveEffect |
| Peephole.GenReturn | mrbgems/mruby-compiler/core/codegen.yarp.c:770-787 | the new buffer is the old one with ReturnEffect carried out |
| Peephole.GenSetxv | mrbgems/mruby-compiler/core/codegen.yarp.c:1195-1207 | "too many symbols" with nothing changed, or the name interned and SetxvEffect carried out, the MOVE dropped only without val |
| Peephole.StoreXv | mrbgems/mruby-compiler/core/codegen.yarp.c:1199-1206 | the store is SetxvEffect carried out |
| Peephole.GenGetupvar | mrbgems/mruby-compiler/core/codegen.yarp.c:738-752 | search_upvar's error with nothing changed, or GetupvarEffect carried out with the level and register it found |
| Peephole.GenSetupvar | mrbgems/mruby-compiler/core/codegen.yarp.c:754-768 | search_upvar's error with nothing changed, or SetupvarEffect carried out, the MOVE dropped only without val |
| Peephole.GenIntern | mrbgems/mruby-compiler/core/codegen.yarp.c:2288-2304 | underflow at sp 0, otherwise InternEffect carried out on the popped register and the symbol pushed |
| Peephole.InternPush | mrbgems/mruby-compiler/core/codegen.yarp.c:2296-2303 | the rewrite on register sp, then the push and its error |
| Peephole.InternTop | mrbgems/mruby-compiler/core/codegen.yarp.c:2292-2302 | the rewrite on the popped string register is InternEffect |
| PeepholeSound.MoveEffectSound | mrbgems/mruby-compiler/core/codegen.yarp.c:626-734 | on the register machine, the code and MOVE dst src, and the code gen_move leaves, are observably the same and agree on dst, for every instruction before the MOVE |
| PeepholeSound.MoveLeafSound | mrbgems/mruby-compiler/core/codegen.yarp.c:629-733 | the same for the cases where gen_move does not call itself again, ARRAY of any length included |
| PeepholeSound.MoveRecCompose | mrbgems/mruby-compiler/core/codegen.yarp.c:635-651 | a dropped MOVE followed by the recursive call's effect keeps the meaning |
| PeepholeSound.MoveSelf | mrbgems/mruby-compiler/core/codegen.yarp.c:629-630 | MOVE x x changes nothing |
| PeepholeSound.MoveBack | mrbgems/mruby-compiler/core/codegen.yarp.c:637-639 | MOVE dst src right after MOVE src dst changes nothing |
| PeepholeSound.MoveThrough | mrbgems/mruby-compiler/core/codegen.yarp.c:637-651 | MOVE t x; MOVE dst t is MOVE dst x for a temporary t, and a second MOVE into dst overwrites the first |
| PeepholeSound.RetargetSound | mrbgems/mruby-compiler/core/codegen.yarp.c:653-704 | a load or value-producing instruction into the temporary src, followed by the MOVE, is the same instruction into dst; for ARRAY this holds for every count, since the retarget is made only below 256 |
| PeepholeSound.RetargetFills | mrbgems/mruby-compiler/core/codegen.yarp.c:653-704 | the retargeted instruction is one record, and fills dst with what the original filled src with |
| PeepholeSound.FillArray | mrbgems/mruby-compiler/core/codegen.yarp.c:686-698 | an ARRAY of fewer than 256 of src's registers, the only one gen_move retargets, is the empty ARRAY, or an ARRAY2 naming the same registers |
| PeepholeSound.ArrayRetargetTruncates | mrbgems/mruby-compiler/core/codegen.yarp.c:686-692 | as written, `ARRAY src n` with n of 256 or more becomes an ARRAY2 whose count genop_3 cuts to its low byte (lines 327-329): it builds the first n mod 256 values, not all n |
| PeepholeSound.BlkpushRetargetAsWritten | mrbgems/mruby-compiler/core/codegen.yarp.c:668-671 | as written, BLKPUSH is retargeted with genop_2, two byte operands, though BLKPUSH is BS (line 3445): the bytes do not decode on their own and swallow the next byte into b |
| PeepholeSound.ImmPlainSound | mrbgems/mruby-compiler/core/codegen.yarp.c:705-726 | MOVE t dst; ADDI t n; MOVE dst t is ADDI dst n for a temporary t |
| PeepholeSound.ImmFoldSound | mrbgems/mruby-compiler/core/codegen.yarp.c:711-722 | an integer load into dst before that sequence is the single load of the sum |
| PeepholeSound.ImmMoveSound | mrbgems/mruby-compiler/core/codegen.yarp.c:705-726 | the ADDI/SUBI rewrite of gen_move keeps the meaning of the code |
| PeepholeSound.ReadThroughMove | mrbgems/mruby-compiler/core/codegen.yarp.c:760-765 | MOVE t x then a store or return reading t is that instruction reading x |
| PeepholeSound.AfterReturn | mrbgems/mruby-compiler/core/codegen.yarp.c:783-785 | nothing runs after a RETURN |
| PeepholeSound.UpvarReload | mrbgems/mruby-compiler/core/codegen.yarp.c:744-750 | GETUPVAR of the upvalue just stored from the same register changes nothing |
| PeepholeSound.InternString | mrbgems/mruby-compiler/core/codegen.yarp.c:2295-2300 | STRING then INTERN of its register is the SYMBOL load of the same literal |
| PeepholeSound.ReturnSound | mrbgems/mruby-compiler/core/codegen.yarp.c:770-787 | gen_return keeps the meaning: returning a temporary just moved from x returns x, and a second return is never reached |
| PeepholeSound.SetxvSound | mrbgems/mruby-compiler/core/codegen.yarp.c:1195-1207 | gen_setxv keeps the meaning: storing a temporary just moved from x stores x |
| PeepholeSound.SetupvarSound | mrbgems/mruby-compiler/core/codegen.yarp.c:754-768 | gen_setupvar keeps the meaning: storing a temporary just moved from x stores x, and with val dst keeps its value too |
| PeepholeSound.SetupvarDropsValue | mrbgems/mruby-compiler/core/codegen.yarp.c:759-765 | as written, the MOVE before SETUPVAR is dropped even with val, and dst then no longer holds the value the caller pushes (lines 2063, 2225) |
| PeepholeSound.GetupvarSound | mrbgems/mruby-compiler/core/codegen.yarp.c:738-752 | gen_getupvar keeps the meaning: dst already holds the upvalue |
| PeepholeSound.InternSound | mrbgems/mruby-compiler/core/codegen.yarp.c:2288-2304 | gen_intern keeps the meaning |
| PeepholeSound.PreservesTrans | mrbgems/mruby-compiler/core/codegen.yarp.c:635-651 | two meaning-preserving rewrites in a row preserve meaning |
| PeepholeSound.SamePrefix | mrbgems/mruby-compiler/core/codegen.yarp.c:626-787 | a rewrite of the tail keeps its meaning after any common prefix |
| IntLiterals.FirstBad | mrbgems/mruby-compiler/core/codegen.yarp.c:2395-2414 | every character before the result is a digit, and the one at it is not |
| IntLiterals.ReadInt | mrbgems/mruby-compiler/core/codegen.yarp.c:2389-2432 | readint with the early MRB_INT_MIN return taken only at the last digit computes ReadIntSpec |
| IntLiterals.ReadIntSpecMeaning | mrbgems/mruby-compiler/core/codegen.yarp.c:2389-2432 | a value read is the digits' value, negated with neg, and an mrb_int; an overflow means the digits exceed MRB_INT_MAX; an error means a character is not a digit |
| IntLiterals.ValueGrows | mrbgems/mruby-compiler/core/codegen.yarp.c:2415-2427 | each digit multiplies the value read so far by at least base, so once too big it stays too big |
| IntLiterals.OverflowIn | mrbgems/mruby-compiler/core/codegen.yarp.c:2415-2425 | digits that exceed MRB_INT_MAX are an overflow, except the magnitude of MRB_INT_MIN reached at the last digit with neg |
| IntLiterals.ReadIntAsWrittenPositive | mrbgems/mruby-compiler/core/codegen.yarp.c:2389-2432 | without neg, which is all the active callers pass, readint as written computes ReadIntSpec |
| IntLiterals.EarlyMin | mrbgems/mruby-compiler/core/codegen.yarp.c:2420-2424 | as written with neg, a prefix of magnitude MRB_INT_MAX + 1 returns MRB_INT_MIN however many digits follow |
| IntLiterals.ReadIntEarlyMin | mrbgems/mruby-compiler/core/codegen.yarp.c:2420-2424 | "92233720368547758080" with neg is MRB_INT_MIN as written but an overflow as intended |
| Syntax.KnownTruth | mrbgems/mruby-compiler/core/codegen.yarp.c:2450-2474 | true_always holds exactly of the literals Ruby counts as true, false_always exactly of those it counts as false, and never both |
| Syntax.NoSplat | mrbgems/mruby-compiler/core/codegen.yarp.c:1701-1708 | true exactly when no element is a splat |
| Syntax.CountDestructuredParameters | mrbgems/mruby-compiler/core/codegen.yarp.c:1384-1393 | adds the number of destructuring patterns, nested ones included |
| Syntax.DestructuredAppend | mrbgems/mruby-compiler/core/codegen.yarp.c:1384-1393 | the count over a list is the sum of the counts over its parts |
| Syntax.NoneDestructured | mrbgems/mruby-compiler/core/codegen.yarp.c:1384-1393 | a list without patterns adds nothing |
| MultiWrite.FirstSplat | mrbgems/mruby-compiler/core/codegen.yarp.c:2228-2242 | the position of the first splat target: none before it, a splat at it |
| MultiWrite.CountMultiWrite | mrbgems/mruby-compiler/core/codegen.yarp.c:2228-2242 | pre is the position of the first splat, post the non-splat targets after it, and splat the position of the last splat, or none exactly when there is no splat |
| MultiWrite.CountsAroundSplat | mrbgems/mruby-compiler/core/codegen.yarp.c:2228-2242 | with at most one splat, pre and post together are all the targets but the splat |
| MultiWrite.FixedMultiWrite | mrbgems/mruby-compiler/core/codegen.yarp.c:3076-3133 | the fixed right-hand-side branch, with the post loop starting after the splat, binds every target exactly as Ruby does |
| MultiWrite.SplatAndPost | mrbgems/mruby-compiler/core/codegen.yarp.c:3101-3131 | the splat takes the elements the post targets leave, and the post targets bind as Ruby does |
| MultiWrite.AsWrittenWithoutPost | mrbgems/mruby-compiler/core/codegen.yarp.c:3076-3133 | as written, the branch is right when no target follows a named splat |
| MultiWrite.SplatReassigned | mrbgems/mruby-compiler/core/codegen.yarp.c:3119-3131 | as written, `a, *b, c = 1, 2, 3` leaves b bound to 3 and c to nil; Ruby binds b to [2] and c to 3 |
| MultiWrite.AnonymousSplatNull | mrbgems/mruby-compiler/core/codegen.yarp.c:3116 | as written, `a, * = 1, 2` hands a null node to gen_assignment |
| Walker.CString | mrbgems/mruby-compiler/core/codegen.yarp.c:1048 | strlen: the characters up to the first NUL |
| Walker.LitbintOverruns | mrbgems/mruby-compiler/core/codegen.yarp.c:1048 | as written, new_litbint is handed all the program text after the literal, not the literal |
| Walker.LitbintTooBig | mrbgems/mruby-compiler/core/codegen.yarp.c:3626-3629 | a 19-digit literal that overflows, followed by 237 more characters, makes new_litbint as written see 256 characters and fail |
| Walker.GenIntegerNode | mrbgems/mruby-compiler/core/codegen.yarp.c:3618-3637 | the outcome is LiteralOutcome's, the pool LiteralPool's, and the push's error is "too complex expression"; an integer literal that fits is loaded so that it reads back as its value; one that does not is loaded from a BIGINT entry holding exactly its digits; an error leaves the code unchanged; the register is then claimed |
| Walker.LoadLiteral | mrbgems/mruby-compiler/core/codegen.yarp.c:3626-3633 | the load of the literal's text into dst: malformed text is an error, more than 255 digits "integer too big"; the outcome and the pool are LiteralOutcome's and LiteralPool's |
| Walker.LoadBigLiteral | mrbgems/mruby-compiler/core/codegen.yarp.c:3627-3630 | more than 255 digits is "integer too big" with the pool unchanged; otherwise the new_litbint pool, check_no_ext_ops's outcome, and one OP_LOADL of the entry that holds the digits |
| Walker.LoadFitLiteral | mrbgems/mruby-compiler/core/codegen.yarp.c:3631-3633 | gen_int's pool and outcome, and a load that reads back as the value |
| Walker.BigEntryAt | mrbgems/mruby-compiler/core/codegen.yarp.c:1041-1074 | the index new_litbint returns names an entry holding the digits, and so does its 16-bit truncation |

## Left out

- emit_B's buffer growth (lines 217-246) is not modelled: the code is a sequence. Neither is the `UINT32_MAX/2` size limit, whose error the model never raises.
- Floating point literals and `new_lit_float` are not modelled.
- `mrb_num_shift` is a parameter of `Folding.BinopValue`: the shift folds of gen_binop rely on it.
- `mrb_div_int`, the division gen_muldiv calls, is not part of this model. The model takes it to be floored division, as Ruby's Integer#/ is.
- Code under `#if 0` is not modelled: `NODE_NEGATE`, which is readint's only caller with neg, and `loop_break`.
- Memory management is not modelled: allocation, codegen_realloc, freeing, and the unwinding of `codegen_error`.
- The debug information, `filename`, `lines` and `catch` tables are not modelled.
- `mrb_decode_insn` and `mrb_prev_pc` are replaced by the scope's records `insns`. Each record is what `Encoding.Decode` reads from its bytes when it is appended (a requirement of `Scope.Emit`, met by every emitter through the round-trip lemmas). `Valid()` does not restate this for the whole buffer, and the records of jumps keep the link offset, not the one `dispatch` patches in later.
- The tree walker `codegen` is modelled only for integer literals. Its other node kinds call into parts of the generator outside this model, including `gen_assignment`, `gen_call` and the scope and irep builders.
- `gen_massignment` (lines 2244-2286) is not modelled: its meaning rests on OP_APOST's behaviour in the VM.
- `MultiWrite.FixedMultiWrite` models which value each target is bound to, not the instructions `gen_assignment` emits.
- `Walker.GenIntegerNode` reads the literal in base 10, as the walker does (line 3622). Prefixed literals such as `0x1f` are therefore malformed, exactly as in the source.
- readint does not check digits against the base: `9` is accepted in base 8. The model keeps this.
- `IntLoads.GenInt` truncates a literal's pool index to 16 bits, as the C code does. The read-back lemmas require the index to fit.
- `Pools.StrMatches` compares the length modulo 2^30, as the 30-bit length field does.
- `Scope.RewindTo` leaves lastpc at the new pc. The C code leaves it stale, but always emits before lastpc is read again.
- The soundness lemmas in `PeepholeSound` need the rewritten registers to be temporaries, at or above nlocals. They say nothing about a rewrite of a local variable's register.
- Folding.AddSubStepOf: reads LOADI32 operands with the corrected IntOperand, not get_int_operand as written (see Findings; Folding.AddSubFoldAsWritten shows the difference).
- Folding.MulDivStepOf: reads LOADI32 operands with the corrected IntOperand, as the first finding explains.
- Folding.BinopStepOf: reads LOADI32 operands with the corrected IntOperand, as the first finding explains.
- Folding.UniopStepOf: reads LOADI32 operands with the corrected IntOperand, as the first finding explains.
- Peephole.ImmMoveEffect: reads LOADI32 operands with the corrected IntOperand, as the first finding explains.
- Peephole.RetargetEffect: retargets BLKPUSH in its BS form and ARRAY only below 256 values, as Findings says; the source's forms are PeepholeSound.BlkpushRetargetAsWritten and PeepholeSound.ArrayRetargetTruncates.
- Jumps.FoldCondJump: decides a jump after a constant load only when the load fills the tested temporary; the source's test is Jumps.FoldCondJumpAsWritten.
- Peephole.GenSetupvar: drops the MOVE only without val; the source's behaviour is PeepholeSound.SetupvarDropsValue.
- `Pools.NewSym` caps the table at 32768 symbols, where the capacity check stops it. The model states the bound rather than the capacity doubling.
- The search for an enclosing scope stops at `prev`. The context's `upper` chain (mrbc_context is shared with the parser) is not part of this model.

## Findings

| source | as written | input that shows it | evidently intended | confidence | as-written member | corrected member |
|---|---|---|---|---|---|---|
| mrbgems/mruby-compiler/core/codegen.yarp.c:811-812 | LOADI32's operand is rebuilt as `(mrb_int)((uint32_t)b<<16)+c`, an unsigned value | gen_int emits -40000 as LOADI32 0xffff63c0, which is read back as 4294927296; folding `(0-40000)+1` then goes wrong | read the 32-bit pattern as `int32_t`, as gen_int wrote it | not executed | IntLoads.LoadI32NegativeMisread | IntLoads.IntLoadRoundTrip |
| mrbgems/mruby-compiler/core/codegen.yarp.c:2420-2424 | with neg, a magnitude of exactly MRB_INT_MAX + 1 returns MRB_INT_MIN at once | "92233720368547758080" with neg is read as MRB_INT_MIN | MRB_INT_MIN only when no digit follows, overflow otherwise | not executed | IntLiterals.ReadIntEarlyMin | IntLiterals.ReadInt |
| mrbgems/mruby-compiler/core/codegen.yarp.c:3119-3131 | the post loop starts at idx == pre, the splat's own position | `a, *b, c = 1, 2, 3` as a statement binds b to 3 and c to nil | start after the splat, binding b to [2] and c to 3 | not executed | MultiWrite.SplatReassigned | MultiWrite.FixedMultiWrite |
| mrbgems/mruby-compiler/core/codegen.yarp.c:3116 | the splat's expression is assigned even when the splat has no name | `a, * = 1, 2` as a statement passes a null node to gen_assignment | skip the assignment for an anonymous splat, as lines 2028-2035 do | not executed | MultiWrite.AnonymousSplatNull | MultiWrite.FixedMultiWrite |
| mrbgems/mruby-compiler/core/codegen.yarp.c:1048 | new_litbint measures the literal with strlen from its start, and the walker passes only the start (line 3628) | a 19-digit literal that overflows, followed by more than 236 characters of program, is "integer too big"; a shorter tail is stored as part of the digits | the literal's own digits, from its start to its end | not executed | Walker.LitbintTooBig | Walker.GenIntegerNode |
| mrbgems/mruby-compiler/core/codegen.yarp.c:668-671 | gen_move retargets BLKPUSH with genop_2, as if its operands were two bytes; BLKPUSH is BS, emitted with genop_2S at line 3445 | `BLKPUSH t 5; MOVE d t` with t a temporary becomes the bytes of BB-form `BLKPUSH d 5`, which the decoder reads with the next byte x as `BLKPUSH d 5*256+x`, so the code after it is misread | `genop_2S(s, data.insn, dst, data.b)` | not executed | PeepholeSound.BlkpushRetargetAsWritten | Peephole.RetargetEffect |
| mrbgems/mruby-compiler/core/codegen.yarp.c:686-692 | `ARRAY src n; MOVE dst src` becomes `genop_3(OP_ARRAY2, dst, src, n)`, and genop_3 writes only n's low byte (lines 327-329) | an array literal of 300 elements built while 99 or more registers are in use (gen_values lifts its stack limit at line 1744 and emits `ARRAY sp 300` at lines 1796-1798), assigned to a local, becomes an ARRAY2 of 44 values | retarget only when n fits a byte, otherwise emit the MOVE | not executed | PeepholeSound.ArrayRetargetTruncates | Peephole.RetargetEffect |
| mrbgems/mruby-compiler/core/codegen.yarp.c:578-598 | a constant load decides the conditional jump when `data.a == a \|\| data.a > s->nlocals`, that is also when it loads a temporary other than the tested one | `LOADT t; JMPIF a` with t and a different temporaries becomes `JMP`, and `LOADT t; JMPNOT a` is dropped, whatever a holds | `data.a == a && data.a > s->nlocals`, as the MOVE case tests at line 573 | not executed | Jumps.CondJumpFoldAsWritten | Jumps.FoldCondJump |
| mrbgems/mruby-compiler/core/codegen.yarp.c:759-765 | gen_setupvar drops a last `MOVE dst x` and stores x even when the value is wanted in dst; unlike gen_setxv (line 1199) it has no val test | `y = (up = b)` with up an upvalue and b a local: gen_assignment calls gen_setupvar (line 2063) and then pushes sp as the value (line 2225), but the MOVE that filled sp is gone | drop the MOVE only without val, as gen_setxv does | not executed | PeepholeSound.SetupvarDropsValue | Peephole.GenSetupvar |
