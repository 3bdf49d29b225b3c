# NEMU: a verified model of its debugger, its QEMU link and its x86 core

NEMU is a teaching emulator. It has a debugger that evaluates expressions, a client that drives QEMU over the GDB
remote protocol for differential testing, and an x86 core built on register-transfer helpers. This project models
those parts in Dafny and proves what they promise, or exactly when they keep it.

Run `dafny verify dfyconfig.toml` in this directory to check everything.

| files | subject |
|---|---|
| `Options`, `Words`, `Arithmetic`, `Sequences`, `Bits` | optional values, 32-bit words, bytes, facts about division, sequences and bitwise operators |
| `Lexer`, `Grammar`, `Marking`, `Evaluator`, `Misreading`, `Readings`, `Debugger` | the debugger's `expr` command, as a class over its token array and as functions |
| `Generator`, `ExprTheorems` | the random expression generator, and theorems from text to value |
| `Packet`, `Link`, `Channel`, `Host`, `RegisterTransfer` | GDB packets, the acknowledged link, both ends of it over a damaging channel, memory and register transfers |
| `X86State`, `Rtl`, `Conditions`, `SignedDivision`, `NarrowDivision`, `Limbs`, `Stack`, `Addressing` | what the x86 instructions mean, as functions and lemmas |
| `Cpu`, `LimbPrograms`, `StackPrograms` | the instructions as the source runs them, proved against those functions, and programs: numbers of any length in memory, balanced code on the stack |
| `Memory`, `Watchpoint`, `MonitorState`, `DiffTest`, `CpuExec`, `TestedRuns` | physical memory, the watchpoint pool, differential testing, the run loop, and both together |

Conventions: code that updates variables is a class or method and is proved equal to a function of its input or old
state; properties over all inputs and all runs are lemmas about those functions. A failed assertion, a panic, a
division fault or an access outside the memory array ends the emulator: a method then returns `ok == false` (or
`Abort`, `Panicked`) and promises nothing about the state left behind.

## Results that differ from what one would hope

- `check_parentheses` only counts, so `(1)+(2)` is stripped to `1)+(2` and does not evaluate (`CountingFails`), and with
  a dereference a wrong value can come out: `(x)*(*y)` yields `*y` (`CountingMisleads`). `ReadExactly` says for all
  tokens what comes out: eval reads a grammar in which a dereference may drop what stands in front of it. On a tree of
  the intended grammar the right value comes out when the tree is `Clean`, and otherwise a value means that something
  was dropped (`EvaluateAnyTree`); if no parenthesised group starts with a dereference none can be (`EvaluateTree`).
- `*` directly after `&&` or after another dereference is not taken for a dereference. `MarkPrint` says exactly when
  marking works, `MissedFails` that eval returns no value on a clean expression marked wrongly, and `ExprOnLine` puts
  both conditions together; `**y` and `x&&*y` are the smallest cases (`DereferencesMissed`).
- The generator prints the C compiler's `int` value next to each text; the debugger computes with unsigned words, so
  the two differ on `(1-3)/2` and its like (`SignedDivisionDiffers`). `QuotientsAgreeExactly` and `OperatorAgrees` give
  the divisions on which they agree; all other operators agree always.
- `adc` and `sbb` compute OF from a carry bit instead of the result; `AdcOverflowFlag` and `SbbOverflowFlag` say exactly
  for which operands the flag is right, `AdcOverflowMissed` and `SbbOverflowFalse` show it wrong. `add` at 8 and 16 bits
  sets CF from the 32-bit sum (`AddCarryFlag`, `CarryMissed`).
- At 8 and 16 bits `imul1` and `idiv` do not sign-extend their operands; `NarrowSignedProduct` and
  `NarrowSignedDivision` say exactly for which operands the results are the signed ones. -1 times 1 and 1 divided by -1
  are among the others (`MinusOneTimesOne`, `OneByMinusOne`).
- In a build with watchpoints, the trap that ends a program is forgotten when it changes a watched value, and the next
  call goes on behind it (`EndForgotten`); a watched `$pc` is such a value (`TrapStops`). `EndIsKept` says exactly when
  the end is kept. A run stopped by a watchpoint is also the one reason why two calls are not one (`CallsCompose`).

## Model

| member | source | states |
|---|---|---|
| `Lexer.MatchIsLongest` | nemu/src/monitor/debug/expr.c:19-41 | every rule of the token table matches the longest prefix its regular expression allows: the recogniser's length matches and no longer prefix does |
| `Lexer.LexLayout` | nemu/src/monitor/debug/expr.c:72-112 | tokens laid out with any blanks (at least one between two atoms) are tokenized into exactly themselves |
| `Debugger.Session.NextToken` | nemu/src/monitor/debug/expr.c:79-109 | one round advances the position strictly and moves one lexeme from the rest of the text to the tokens, or fails because no rule matches |
| `Debugger.Session.MakeToken` | nemu/src/monitor/debug/expr.c:72-112 | the position loop leaves the token array and the verdict that the recursive lexer gives |
| `Debugger.Session.MarkLoads` | nemu/src/monitor/debug/expr.c:193-196 | the in-place loop, which reads tokens it has already changed, is one pass of `Mark` |
| `Marking.MarkPrint` | nemu/src/monitor/debug/expr.c:193-196 | after marking, the tokens are those of the intended expression, nested dereferences allowed, exactly when no dereference directly follows `&&` or another dereference |
| `Marking.MarkedPrint` | nemu/src/monitor/debug/expr.c:193-196 | what marking leaves of an expression typed behind a token of any kind, whether it was meant or not |
| `Misreading.DereferencesMissed` | nemu/src/monitor/debug/expr.c:131-196 | `**y` and `x&&*y` are not marked as they were meant, and eval returns no value on what marking leaves |
| `Debugger.Session.CheckParentheses` | nemu/src/monitor/debug/expr.c:115-129 | keep, strip or assertion failure depends only on the ends and the total depth of the segment |
| `Debugger.Session.FindPrimaryOperator` | nemu/src/monitor/debug/expr.c:131-146 | the scan finds the split position of the segment |
| `Evaluator.SplitPositionIs` | nemu/src/monitor/debug/expr.c:131-146 | the split position is the one primary operator: outside parentheses, loosest, and last among equals |
| `Grammar.PrimaryIsUnique` | nemu/src/monitor/debug/expr.c:131-146 | a segment has at most one primary operator |
| `Grammar.RootIsPrimary` | nemu/src/monitor/debug/expr.c:131-146 | in the text of a tree of the left-associative precedence grammar, the primary operator is the root |
| `Grammar.PrintIsNested` | nemu/src/monitor/debug/expr.c:115-146 | the text of every tree is properly nested |
| `Grammar.Unambiguous` | nemu/src/monitor/debug/expr.c:131-146 | two trees of the grammar with the same tokens are equal, also with dereferences and redundant parentheses |
| `Debugger.Session.Eval` | nemu/src/monitor/debug/expr.c:148-185 | the recursion over token positions computes `Evaluate` of the segment and terminates on its length |
| `Debugger.Session.EvalOperator` | nemu/src/monitor/debug/expr.c:160-184 | the splitting branch computes the two sides and combines them |
| `Evaluator.EvaluateExplains` | nemu/src/monitor/debug/expr.c:115-185 | whenever eval returns on tokens whose dereferences stand at the start or behind an operator, they are the text of a tree of the grammar and the result is that tree's value modulo 2^32 |
| `Evaluator.EvaluatePrint` | nemu/src/monitor/debug/expr.c:131-185 | on the text of every clean tree, dereferences included, eval gives the tree's value, or the failure its evaluation meets |
| `Evaluator.EvaluateTree` | nemu/src/monitor/debug/expr.c:115-185 | when no parenthesised group starts with a dereference, eval returns on a tree's text if and only if the tree is clean and has a value, and then returns it |
| `Evaluator.EvaluateExactly` | nemu/src/monitor/debug/expr.c:115-185 | on tokens whose dereferences stand at the start or behind an operator, eval returns a value if and only if they are the text of a clean tree with that value |
| `Misreading.MissedFails` | nemu/src/monitor/debug/expr.c:131-196 | on a clean expression with a dereference that marking misses, eval returns no value |
| `Misreading.ValueMeansFound` | nemu/src/monitor/debug/expr.c:115-196 | when no group starts with a dereference, a value after marking means that the tree is clean, its dereferences were found, and the value is its own |
| `Misreading.EvaluateMarked` | nemu/src/monitor/debug/expr.c:115-196 | on every clean expression, and on every one in which no group starts with a dereference, marking and evaluating give a value if and only if it is clean, its dereferences are found and it has one |
| `Evaluator.CountingFails` | nemu/src/monitor/debug/expr.c:115-129 | `(1)+(2)` is worth 3 but eval does not return on it |
| `Evaluator.CountingMisleads` | nemu/src/monitor/debug/expr.c:115-166 | `(x)*(*y)` evaluates to `*y` for all x |
| `Readings.ReadExactly` | nemu/src/monitor/debug/expr.c:115-185 | on any tokens whatever, eval returns a value if and only if they are the text of a reading with that value: a tree whose dereferences may drop a prefix with as many `(` as `)` and no looser operator outside of them |
| `Readings.EvaluateText` | nemu/src/monitor/debug/expr.c:115-185 | on the text of a reading eval gives its value, or the failure its evaluation meets |
| `Readings.OneReading` | nemu/src/monitor/debug/expr.c:115-146 | two readings with the same tokens are equal |
| `Readings.NothingDropped` | nemu/src/monitor/debug/expr.c:115-185 | a reading that drops nothing is a clean tree of the grammar with the same tokens and value |
| `Readings.CleanIsReading` | nemu/src/monitor/debug/expr.c:115-185 | and every clean tree of the grammar is such a reading |
| `Readings.EvaluateAnyTree` | nemu/src/monitor/debug/expr.c:115-185 | on the text of any tree of the grammar eval returns v if and only if the tree is clean and worth v, or it is not clean and a reading that drops something is worth v |
| `Debugger.Session.Expr` | nemu/src/monitor/debug/expr.c:188-199 | tokenizing, marking and evaluating composed |
| `ExprTheorems.ExprOnLine` | nemu/src/monitor/debug/expr.c:72-199 | an expression with any blanks, clean or with no group that starts with a dereference, is answered with a value if and only if it is clean, markable and has one, and then with that value; a clean and markable one is also answered with the failure its evaluation meets |
| `ExprTheorems.ExprOnText` | nemu/src/monitor/debug/expr.c:72-199 | every text whatever is answered with a value if and only if it is tokenized and its tokens after marking have a reading with that value |
| `ExprTheorems.ExprOnPlainText` | nemu/src/monitor/debug/expr.c:72-199 | every text in which no `*` follows a `(` is answered with a value if and only if its tokens are those of a clean, markable expression with that value |
| `ExprTheorems.ExprOnPlainLine` | nemu/src/monitor/debug/expr.c:72-199 | without dereferences the answer is a value if and only if the tree is clean and divides by no zero |
| `Generator.Buffer.GenRandExpr` | nemu/tools/gen-expr/gen-expr.c:46-55 | the generator appends the text of the choices it made |
| `Generator.JoinPrint` | nemu/tools/gen-expr/gen-expr.c:52-52 | joining two trees by an operator has the text of left, operator, right |
| `Generator.JoinIsWellFormed` | nemu/tools/gen-expr/gen-expr.c:52-52 | and is again a tree of the grammar |
| `ExprTheorems.GeneratedIsLine` | nemu/tools/gen-expr/gen-expr.c:25-55 | every generated text is the text of exactly one tree of the grammar |
| `ExprTheorems.ExprOnGenerated` | nemu/tools/gen-expr/gen-expr.c:46-55 | every generated text is tokenized into its lexemes, holds no dereference after marking, and is worth its C-precedence unsigned value whenever eval returns |
| `ExprTheorems.IntValueAgrees` | nemu/tools/gen-expr/gen-expr.c:57-97 | the compiler's int value and the debugger's word agree when every division has operands whose int and unsigned quotients agree |
| `ExprTheorems.OperatorAgrees` | nemu/tools/gen-expr/gen-expr.c:57-97 | where the operands agree, the result agrees if and only if the operator is no division or one with such operands |
| `ExprTheorems.QuotientsAgreeExactly` | nemu/tools/gen-expr/gen-expr.c:57-97 | one defined int division of a by b agrees with the unsigned one if and only if a >= 0 and b > 0, or a >= 0 and b < 0 and a < -b, or a < 0 and b is 1 or a |
| `ExprTheorems.SignedDivisionDiffers` | nemu/tools/gen-expr/gen-expr.c:57-97 | they differ on `(a-b)/c` for all generated a < b and c > 1 |
| `Packet.DecodeEncoded` | nemu/tools/qemu-diff/src/protocol.c:40-53 | the two hexadecimal digits of a byte, in lower or upper case, decode to the byte |
| `Packet.FlipInvolutive` | nemu/tools/qemu-diff/src/protocol.c:252-255 | undoing the escape restores the byte |
| `Packet.ReceiveEncoding` | nemu/tools/qemu-diff/src/protocol.c:174-275 | for every payload and every legal mix of literals, escapes and runs, after any junk and abandoned packets, the reader returns exactly the payload with a good checksum and stops behind the packet |
| `Packet.PiecesMean` | nemu/tools/qemu-diff/src/protocol.c:220-255 | every payload has an encoding, with its special bytes escaped, that the reader's handling of escapes undoes; a fact about the encoding, since the source's own sender escapes nothing |
| `Packet.ReceiveChecks` | nemu/tools/qemu-diff/src/protocol.c:189-214 | a framed body is reported good if and only if its digits are its sum |
| `Packet.SubstitutionDetected` | nemu/tools/qemu-diff/src/protocol.c:197-214 | replacing one byte of a body by another (neither a packet marker) is always reported bad |
| `Link.Connection.RecvPacket` | nemu/tools/qemu-diff/src/protocol.c:174-275 | the byte loop, with push-back and growing buffer, computes the reader's function of the stream |
| `Link.Connection.SendPacket` | nemu/tools/qemu-diff/src/protocol.c:139-159 | appends `$`, the command, `#` and its sum in two digits |
| `Link.Connection.GdbSend` | nemu/tools/qemu-diff/src/protocol.c:161-172 | transmits once per answer up to the first `+`, and consumes exactly those answers |
| `Link.Connection.GdbRecv` | nemu/tools/qemu-diff/src/protocol.c:277-292 | answers `-` per bad packet and `+` for the good one it returns; in acknowledging mode never returns a bad packet |
| `Link.SentIsReceived` | nemu/tools/qemu-diff/src/protocol.c:139-275 | a sent command without special bytes is received unchanged |
| `Link.Retransmission` | nemu/tools/qemu-diff/src/protocol.c:161-292 | over a channel that detectably damages k transmissions the receiver answers k times `-` and once `+` and returns the command, and the sender transmits k + 1 times |
| `Channel.RunsDeliver` | nemu/tools/qemu-diff/src/protocol.c:161-292 | in every schedule of sender, receiver and a channel that detectably damages the first k transmissions, nothing but the command is delivered, at most 3(k + 1) steps happen, and when none is left the command was delivered after k + 1 transmissions and k refusals and the sender knows |
| `Host.GdbMemcpyToQemuSmall` | nemu/tools/qemu-diff/src/gdb-host.c:14-32 | one write command, sent over the link and answered there, changes the remote memory as a write of the bytes, or is refused and changes nothing; the link is left idle |
| `Host.Roundtrip` | nemu/tools/qemu-diff/src/gdb-host.c:22-29 | for anything that arrives, sending a command and receiving transmits once per answer up to the first `+` and then returns the first packet with a good sum |
| `Host.Ask` | nemu/tools/qemu-diff/src/gdb-host.c:22-29 | a command without special bytes is transmitted once, executed by the stub, and its reply returned and acknowledged |
| `Host.Qemu.Answer` | nemu/tools/qemu-diff/src/gdb-host.c:17-29 | the stub refuses what is not a good packet and otherwise acknowledges the command it reads, executes it and sends a reply |
| `Host.GdbMemcpyToQemu` | nemu/tools/qemu-diff/src/gdb-host.c:34-45 | the 1500-byte chunk loop leaves the remote memory as one whole write does when it reports success, and succeeds within the limit |
| `Host.WriteAppend` | nemu/tools/qemu-diff/src/gdb-host.c:37-43 | two adjacent writes are one write, also when addresses wrap around |
| `Host.WriteIsParsed` | nemu/tools/qemu-diff/src/gdb-host.c:17-21 | the write command reads back to its address and data |
| `Host.CommandArrives` | nemu/tools/qemu-diff/src/gdb-host.c:17-23 | a write command needs no escaping and arrives unchanged over the link |
| `RegisterTransfer.GdbDecodeHexStr` | nemu/tools/qemu-diff/src/protocol.c:55-64 | the 64-bit loop with its growing weight gives the little-endian value of the digit pairs modulo 2^64 |
| `RegisterTransfer.GdbGetRegs` | nemu/tools/qemu-diff/src/gdb-host.c:47-66 | every register that starts inside the reply is the value of its eight digits, or of those that are left |
| `RegisterTransfer.DecodeRegs` | nemu/tools/qemu-diff/src/gdb-host.c:55-62 | the loop that ends each register's digits with a zero byte and takes it back decodes all of them and leaves the buffer unchanged |
| `RegisterTransfer.RegisterFromReply` | nemu/tools/qemu-diff/src/gdb-host.c:50-62 | in the terminated buffer a register's digits end where the reply does |
| `RegisterTransfer.RegistersRoundTrip` | nemu/tools/qemu-diff/src/gdb-host.c:47-90 | register files of any size sent as hexadecimal bytes decode to the same words |
| `RegisterTransfer.FetchRegs` | nemu/tools/qemu-diff/src/gdb-host.c:47-66 | over the link, the registers fetched are the stub's |
| `RegisterTransfer.GdbSetRegs` | nemu/tools/qemu-diff/src/gdb-host.c:68-90 | over the link, the stub's registers become the given ones, or nothing changes and it fails |
| `RegisterTransfer.SetThenGet` | nemu/tools/qemu-diff/src/gdb-host.c:47-90 | registers that were set are read back |
| `RegisterTransfer.DifftestSetRegs` | nemu/tools/qemu-diff/src/diff-test.c:26-31 | the first registers become the given ones and QEMU keeps the others |
| `X86State.RegisterStore` | nemu/src/isa/x86/include/isa/rtl.h:8-24 | a register stored at a width reads back modulo the width, and registers sharing no byte with it keep their value |
| `Rtl.ShiftedOutIsZero` | nemu/src/isa/x86/include/isa/rtl.h:96-103 | the shift of the zero flag tests the result modulo its width |
| `Rtl.OverflowFlags` | nemu/src/isa/x86/include/isa/rtl.h:45-71 | the sign-bit tricks tell whether the signed sum or difference leaves the range of the width |
| `Processor.Cpu.IsSubOverflow` | nemu/src/isa/x86/include/isa/rtl.h:45-53 | the xor-and-msb steps compute the sign condition for differences |
| `Processor.Cpu.IsAddOverflow` | nemu/src/isa/x86/include/isa/rtl.h:62-71 | the not-xor-and-msb steps compute the sign condition for sums |
| `Processor.Cpu.UpdateZFSF` | nemu/src/isa/x86/include/isa/rtl.h:96-115 | ZF and SF of the result at its width, the other flags unchanged |
| `Processor.Cpu.Add` | nemu/src/isa/x86/exec/arith.c:3-18 | the wrapped sum is written to the operand; ZF, SF and OF are those of the width, CF the carry out of 32 bits |
| `Processor.Cpu.Sub` | nemu/src/isa/x86/exec/arith.c:20-39 | the wrapped difference is written; all four flags are those of the comparison at the width |
| `Processor.Cpu.Cmp` | nemu/src/isa/x86/exec/arith.c:41-54 | the flags of the comparison, no register or memory change |
| `Processor.Cpu.Adc` | nemu/src/isa/x86/exec/arith.c:83-109 | sum with carry, CF the carry at every width, OF as the code computes it |
| `Processor.Cpu.Sbb` | nemu/src/isa/x86/exec/arith.c:111-137 | difference with borrow, CF the borrow at every width, OF as the code computes it |
| `Rtl.AddCarryFlag` | nemu/src/isa/x86/exec/arith.c:5-12 | add's CF is the carry at the width if and only if the width is 32 bits or nothing is carried |
| `Rtl.CarryMissed` | nemu/src/isa/x86/exec/arith.c:5-12 | the largest 8- or 16-bit number plus 1 leaves CF clear |
| `Rtl.AdcFlagsMean` | nemu/src/isa/x86/exec/arith.c:96-108 | what the two comparisons and the or say: the carry of the three-term sum |
| `Rtl.SbbFlagsMean` | nemu/src/isa/x86/exec/arith.c:124-136 | likewise for the borrow |
| `Rtl.AdcOverflowFlag` | nemu/src/isa/x86/exec/arith.c:98-107 | adc's OF is the signed overflow if and only if the operands' signs differ or the three-term sum, cut to the width, has no sign bit |
| `Rtl.SbbOverflowFlag` | nemu/src/isa/x86/exec/arith.c:126-135 | sbb's OF is the signed overflow if and only if the operands' signs agree or the three-term difference, cut to the width, has no sign bit |
| `Rtl.AdcOverflowMissed` | nemu/src/isa/x86/exec/arith.c:98-107 | the largest positive number plus the carry overflows and leaves OF clear |
| `Rtl.SbbOverflowFalse` | nemu/src/isa/x86/exec/arith.c:126-135 | the smallest number minus 0 fits and sets OF |
| `Limbs.AddChainIsArithmetic` | nemu/src/isa/x86/exec/arith.c:3-109 | for every n, add then adc over n limbs gives the sum modulo 2^(32n), the last carry set exactly when it does not fit |
| `Limbs.SubChainIsArithmetic` | nemu/src/isa/x86/exec/arith.c:20-137 | sub then sbb gives the difference modulo 2^(32n), the last borrow set exactly when the first number is smaller |
| `Limbs.SubUndoesAdd` | nemu/src/isa/x86/exec/arith.c:3-137 | subtracting what was added restores the first number, and borrows exactly if the sum carried |
| `Limbs.MulChainIsProduct` | nemu/src/isa/x86/exec/arith.c:139-161 | the mul/add/adc chain is the product by one limb, carry word included |
| `Limbs.DivChainIsDivMod` | nemu/src/isa/x86/exec/arith.c:230-235 | the chain of div steps that leaves the remainder in EDX is quotient and remainder by a nonzero limb |
| `Limbs.DivStepIsExact` | nemu/include/rtl/rtl.h:52-64 | no quotient digit is cut when the upper word is below the divisor |
| `Limbs.DivUndoesMul` | nemu/src/isa/x86/exec/arith.c:139-239 | dividing a product by its limb gives the number back without remainder |
| `LimbPrograms.RunChain` | nemu/src/isa/x86/exec/arith.c:3-137 | `add` then `adc`, or `sub` then `sbb`, executed over two numbers of n limbs in memory leave the limbs and the carry flag of the chain, and change no register and no other memory |
| `LimbPrograms.AddNumbers` | nemu/src/isa/x86/exec/arith.c:3-109 | the executed chain leaves the sum modulo 2^(32n), CF set exactly when it does not fit |
| `LimbPrograms.SubtractNumbers` | nemu/src/isa/x86/exec/arith.c:20-137 | the executed chain leaves the difference modulo 2^(32n), CF set exactly when the first number is smaller |
| `LimbPrograms.AddThenSubtract` | nemu/src/isa/x86/exec/arith.c:3-137 | executed one after the other they restore the first number, and the borrow is the carry of the sum |
| `LimbPrograms.MultiplyNumber` | nemu/src/isa/x86/exec/arith.c:139-161 | the executed rounds of mul, add and adc multiply a number in memory by EBX and add ECX, the word above the limbs left in ECX |
| `LimbPrograms.DivideNumber` | nemu/src/isa/x86/exec/arith.c:210-239 | the executed rounds of div, from the top limb down, leave the quotient by EBX in memory and the remainder in EDX |
| `LimbPrograms.MultiplyThenDivide` | nemu/src/isa/x86/exec/arith.c:139-239 | multiplied by EBX and divided by it again, a number in memory is what it was, with remainder 0 |
| `Processor.Cpu.Mul` | nemu/src/isa/x86/exec/arith.c:139-161 | AX, DX:AX or EDX:EAX holds the exact unsigned product, other register bytes unchanged |
| `Processor.Cpu.Imul1` | nemu/src/isa/x86/exec/arith.c:164-186 | at 32 bits EDX:EAX is the exact signed 64-bit product; at 8 and 16 bits the unsigned product is stored, which is the signed one if and only if the signs are irrelevant |
| `SignedDivision.NarrowSignedProduct` | nemu/src/isa/x86/exec/arith.c:165-176 | the product of zero-extended operands read as signed is their signed product if and only if neither is negative, one is zero, or both are the smallest number |
| `SignedDivision.MinusOneTimesOne` | nemu/src/isa/x86/exec/arith.c:165-176 | -1 times 1 comes out as 255 or 65535 |
| `Rtl.SignedProductParts` | nemu/include/rtl/c_op.h:14-15 | the two halves of the signed product make up the whole |
| `Processor.Cpu.Div` | nemu/src/isa/x86/exec/arith.c:210-239 | quotient (cut to the width) and remainder of AX, DX:AX or EDX:EAX; fails exactly for divisor zero |
| `Processor.Cpu.Idiv` | nemu/src/isa/x86/exec/arith.c:241-270 | at 32 bits the 64-bit signed division, failing exactly for divisor zero and the smallest dividend by minus one; at 8 and 16 bits a division by the unsigned divisor, whose results are the signed ones if and only if `SignsHandled` |
| `NarrowDivision.NarrowSignedDivision` | nemu/src/isa/x86/exec/arith.c:243-259 | read as signed numbers, the stored quotient and remainder are the truncating ones if and only if the divisor is not negative and the quotient fits, or the dividend is smaller than the negative divisor's size, or one of the listed coincidences holds |
| `NarrowDivision.OneByMinusOne` | nemu/src/isa/x86/exec/arith.c:243-259 | 1 divided by -1 comes out as 0 |
| `Processor.Cpu.Sext` | nemu/include/rtl/rtl.h:139-159 | the sign extension of the low bytes whatever the upper bytes hold |
| `Processor.Cpu.Cltd` | nemu/src/isa/x86/exec/data-mov.c:43-60 | EDX:EAX or DX:AX becomes the sign-extended accumulator |
| `SignedDivision.ExtendedDivision` | nemu/include/rtl/rtl.h:66-78 | after cltd, idiv leaves the truncated remainder always and the truncated quotient except for the smallest number by minus one |
| `Processor.Cpu.CltdIdiv` | nemu/src/isa/x86/exec/arith.c:258-263 | cltd and idiv in a row divide as C does, with that one exception |
| `Arithmetic.TruncatedDivision` | nemu/include/rtl/rtl.h:66-78 | truncated quotient and remainder satisfy the division equation, with a remainder of the dividend's sign |
| `Processor.Cpu.RtlSetcc` | nemu/src/isa/x86/exec/cc.c:5-32 | the flag steps and the inversion give 1 exactly when the manual's condition holds; the parity codes panic |
| `Processor.Cpu.Setcc` | nemu/src/isa/x86/exec/logic.c:103-110 | the operand receives that bit |
| `Processor.Cpu.Jcc` | nemu/src/isa/x86/exec/control.c:11-19 | jumps exactly when the condition holds |
| `Conditions.ComparisonDecides` | nemu/src/isa/x86/exec/cc.c:17-30 | after a comparison at any width every comparing code decides as the simple comparison of the extended operands |
| `Processor.Cpu.CmpJcc` | nemu/src/isa/x86/exec/control.c:11-19 | cmp and jcc in a row reach the target exactly when that comparison holds, else the next instruction |
| `Processor.Cpu.UpdatePc` | nemu/include/cpu/exec.h:46-49 | the next instruction follows unless the instruction jumped |
| `Processor.Cpu.Mov` | nemu/src/isa/x86/exec/data-mov.c:3-6 | the source value is written to a register or memory operand at its width; it fails exactly for immediates and bytes outside memory |
| `Processor.Cpu.RtlPush` | nemu/src/isa/x86/include/isa/rtl.h:26-33 | push on registers and byte memory |
| `Processor.Cpu.RtlPop` | nemu/src/isa/x86/include/isa/rtl.h:35-43 | pop on registers and byte memory |
| `Processor.Cpu.Push` | nemu/src/isa/x86/exec/data-mov.c:8-13 | the operand is pushed |
| `Processor.Cpu.Pop` | nemu/src/isa/x86/exec/data-mov.c:15-21 | the popped word is written to the operand after esp moved |
| `Processor.Cpu.Call` | nemu/src/isa/x86/exec/control.c:27-33 | the sequential pc is pushed and the target entered |
| `Processor.Cpu.CallRm` | nemu/src/isa/x86/exec/control.c:50-58 | likewise with the target from the operand |
| `Processor.Cpu.Ret` | nemu/src/isa/x86/exec/control.c:35-42 | the popped word becomes the pc |
| `Processor.Cpu.Leave` | nemu/src/isa/x86/exec/data-mov.c:35-41 | esp takes ebp and ebp is popped |
| `Stack.BalancedRun` | nemu/src/isa/x86/exec/control.c:27-58 | in every balanced program on a stack nothing else touches, each pop yields its pushed value, each ret returns behind its call, frames close whatever esp became and whatever was stored to their locals, and esp, ebp and the stack in use end as they began |
| `Stack.BodyThenPop` | nemu/src/isa/x86/include/isa/rtl.h:26-43 | balanced code between push and pop leaves the pushed word to be popped |
| `Stack.BodyThenLeave` | nemu/src/isa/x86/exec/data-mov.c:35-41 | leave finds the saved ebp behind the locals wherever esp is |
| `StackPrograms.Execute` | nemu/src/isa/x86/exec/control.c:27-58 | the instructions of any such program, executed on the processor, get stuck exactly when the run on states does and otherwise end in its state |
| `StackPrograms.ExecuteBalanced` | nemu/src/isa/x86/exec/control.c:27-58 | executed on the processor, a balanced program delivers what was pushed and keeps esp, ebp and the stack in use |
| `Processor.Cpu.LoadAddr` | nemu/src/isa/x86/decode/modrm.c:3-46 | the word-by-word sum and the advance of pc are the decoder's function |
| `Processor.Cpu.SelectRegisters` | nemu/src/isa/x86/decode/modrm.c:6-28 | base, index, scale and displacement size from the ModR/M fields and the SIB byte |
| `Processor.Cpu.ReadModRM` | nemu/src/isa/x86/decode/modrm.c:80-113 | the register the reg field names, with its value when asked for, and the operand the r/m field names, with its loaded value when asked for |
| `Addressing.DecodeEncoding` | nemu/src/isa/x86/decode/modrm.c:3-46 | every encoding of every addressing form decodes to base + index * 2^scale + displacement modulo 2^32 and ends behind the encoding |
| `Addressing.DecodeMemoryOperand` | nemu/src/isa/x86/decode/modrm.c:80-113 | the same from the ModR/M byte on, with any register field |
| `Addressing.DecodeRegisterOperand` | nemu/src/isa/x86/decode/modrm.c:96-101 | mod 3 names the register and takes one byte |
| `Processor.Cpu.PaddrRead` | nemu/src/memory/memory.c:23-31 | the mask of a four-byte load is the little-endian number of the bytes read, also when the load reaches behind the end of the array |
| `Processor.Cpu.PaddrWrite` | nemu/src/memory/memory.c:33-41 | the low bytes of the word replace the bytes at the address, nothing else |
| `Processor.Cpu.OperandWrite` | nemu/src/isa/x86/decode/decode.c:311-315 | a register or memory operand is stored at its width; it fails exactly for immediates and bytes outside memory |
| `Memory.ReadsMatchBytes` | nemu/src/memory/memory.c:23-41 | after any writes of 1, 2 or 4 bytes, overlapping or not, every read is the little-endian number of a plain byte map |
| `Memory.IoSpace.NewSpace` | nemu/src/device/io/map.c:10-17 | hands out the old end of the space and moves it by whole pages |
| `Memory.AllocateAll` | nemu/src/device/io/map.c:10-17 | calling new_space for each size hands out exactly the regions of the run, and fails when the run does |
| `Memory.RegionsAreApart` | nemu/src/device/io/map.c:10-17 | over every run that passes the assertion, regions are page-aligned, in bounds and pairwise disjoint |
| `Watchpoint.Pool.InitWpPool` | nemu/src/monitor/debug/watchpoint.c:11-21 | all nodes numbered and linked on the free list |
| `Watchpoint.Pool.NewWp` | nemu/src/monitor/debug/watchpoint.c:24-44 | the first free node moves behind the last active one; both lists stay linked, ended, disjoint and complete, and numbers stay |
| `Watchpoint.Pool.FreeWp` | nemu/src/monitor/debug/watchpoint.c:47-68 | an active node moves to the front of the free list, with the same invariant; it fails exactly for nodes not active |
| `Watchpoint.ExactlyOnce` | nemu/src/monitor/debug/watchpoint.c:7-8 | the lists together hold every node of the pool once |
| `Watchpoint.FullPool` | nemu/src/monitor/debug/watchpoint.c:25-25 | new_wp finds a free node unless the whole pool is active |
| `Watchpoint.RunsKeepOrder` | nemu/src/monitor/debug/watchpoint.c:11-68 | in every run the lists partition the pool and the active list is the nodes allocated and not freed since, in allocation order |
| `Watchpoint.LastFreedFirst` | nemu/src/monitor/debug/watchpoint.c:24-68 | the free list is last in, first out: nested frees are matched by the allocations that follow |
| `DiffTest.SameRegs` | nemu/src/isa/x86/diff-test.c:4-48 | the register loop tells exactly whether pc and all eight registers agree |
| `DiffTest.Tester.DifftestStep` | nemu/src/monitor/diff-test/diff-test.c:93-122 | one check is the step of the tester state: detached, catching up, copying or comparing |
| `DiffTest.Tester.SkipDut` | nemu/src/monitor/diff-test/diff-test.c:35-41 | REF runs ahead by the given number of instructions |
| `DiffTest.Tester.SkipRef` | nemu/src/monitor/diff-test/diff-test.c:17-28 | the next check copies, and a catch-up ends |
| `DiffTest.Tester.Detach` | nemu/src/monitor/diff-test/diff-test.c:124-126 | checks do nothing until testing is attached again |
| `DiffTest.Tester.Attach` | nemu/src/monitor/diff-test/diff-test.c:128-138 | testing restarts without anything pending |
| `DiffTest.ChecksHold` | nemu/src/monitor/diff-test/diff-test.c:84-122 | in every run that neither aborts nor panics REF's pc and registers equal the emulator's after every check with testing attached and no catch-up pending |
| `DiffTest.CatchUpPanics` | nemu/src/monitor/diff-test/diff-test.c:98-109 | a catch-up of k checks panics exactly when the pc misses at all k |
| `DiffTest.CatchUpEnds` | nemu/src/monitor/diff-test/diff-test.c:98-104 | it ends at the first check that meets REF's pc, where the registers are compared |
| `DiffTest.DifferencesAbort` | nemu/src/monitor/diff-test/diff-test.c:118-121 | without skips a run aborts exactly when some instruction's result differs from REF's |
| `DiffTest.SameMachinesAgree` | nemu/src/monitor/diff-test/diff-test.c:93-122 | a machine tested against itself, with device accesses skipped, never aborts and REF follows it |
| `CpuExec.Emulator.CpuExec` | nemu/src/monitor/cpu-exec.c:41-104 | the counted loop with its state machine, the differential check, the watchpoints and the devices computes the run function |
| `CpuExec.Emulator.CheckWatchpoints` | nemu/src/monitor/cpu-exec.c:70-86 | all watched values are renewed, and the emulator stops exactly when one changed |
| `CpuExec.CallsCompose` | nemu/src/monitor/cpu-exec.c:41-104 | cpu_exec(a) then cpu_exec(b) is cpu_exec(a + b) if and only if the program was over, b is 0, or no watchpoint stopped the first call |
| `CpuExec.UnstoppedCallsCompose` | nemu/src/monitor/cpu-exec.c:41-104 | unless a watchpoint stopped the first call, cpu_exec(a) then cpu_exec(b) is cpu_exec(a + b), for all a and b |
| `CpuExec.CallsExecute` | nemu/src/monitor/cpu-exec.c:41-104 | any calls without watchpoints execute up to the first instruction that exits or fails its check or as many as asked for, and nothing after END or ABORT |
| `TestedRuns.TestedRun` | nemu/src/monitor/cpu-exec.c:41-104 | under differential testing a run without skips executes up to the first instruction that exits or leaves other registers than REF's; in the latter case it aborts at the pc of that instruction, and otherwise it is left as without testing |
| `TestedRuns.Lockstep` | nemu/src/monitor/diff-test/diff-test.c:93-122 | until then the machine and REF have executed the same number of instructions each |
| `CpuExec.ExecutedToFirstExit` | nemu/src/monitor/cpu-exec.c:48-93 | no executed instruction but the last exits, and a run cut short ends in one that does |
| `CpuExec.EndIsKept` | nemu/src/monitor/cpu-exec.c:70-93 | with watchpoints a program stays ended exactly when its last instruction changed no watched value |
| `CpuExec.EndForgotten` | nemu/src/monitor/cpu-exec.c:70-93 | whenever the instruction that ends or aborts a program changes a watched value, the state is STOP and every later call executes instructions |
| `CpuExec.TrapStops` | nemu/src/isa/x86/exec/special.c:27-34 | with `$pc` watched, the call that executes the trap leaves STOP behind it, and the next call executes the instruction after the trap |

## Left out

- `ExprTheorems.IntValueAgrees`: one direction for whole expressions; after a division on which the values differ, later operators may bring them together again. For one operator `OperatorAgrees` is exact.
- `Link.Connection.GdbSend`: when the answers run out the source resends for ever; the model returns `acked == false`.
- `Link.SentIsReceived`: for commands without `$`, `#`, `}` and `*`, because the source sends them raw.
- `Host.GdbMemcpyToQemuSmall`: the stub is an abstract executor of write commands below a memory limit, and what it answers is put into the connection's input before the client starts to wait; QEMU itself is not part of this model.
- `RegisterTransfer.GdbGetRegs`: nothing is stated about registers behind the end of a short reply; the source decodes whatever its buffer holds there.
- `Processor.Cpu.Imul1`: an overflowing `int` product is taken to wrap around, which C leaves undefined.
- `Stack.BalancedRun`: pops into esp or ebp and other writes to them are excluded from balanced code.
- `StackPrograms.Execute`: the pc moves only at calls and returns; the programs are not decoded from memory.
- `TestedRuns.TestedRun`: without skipped instructions, detaching and watchpoints, which `DiffTest` and `CpuExec` treat one by one.
- `DiffTest.Tester.DifftestStep`: the pc argument is the emulator's pc, as at the only call.
- `CpuExec.Emulator.CpuExec`: instruction, differential check, devices and watched values are any functions of the machine (the devices also see the run state); logging is left out, and a panic inside the check ends the emulator.
- Debugger: the 32-token and 32-character buffers are unbounded; `atoi` and `strtol` saturate at 2^63-1 before they are cut to 32 bits; an unmapped address or unknown register name counts as an abort; both operands are evaluated in turn, and the first failure is the result.
- GDB link: sockets, opening and closing, allocation failures, and switching acknowledgement off (`gdb_start_noack`).
- Memory: device memory, `map_read` and `map_write` with their callbacks; what lies behind the memory array is three unknown bytes that never change, and a read or write that itself crosses the end fails.
- x86: `inc`, `dec`, `neg`, logic and shift instructions (the flag helpers of several are given the operand value where a width is expected), `rol`, `imul2`, `imul3`, the opcode tables, the operand decoders other than ModR/M, interrupts and the MMU.
- 64-bit overflow of the run loop's instruction argument; the argument is a natural number.
- The user interface (`ui.c`), device models, MIPS and RISC-V back ends, nanos-lite, navy-apps and nexus-am.
