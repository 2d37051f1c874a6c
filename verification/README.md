# A verified model of the WebAssembly compiler

The repository parses a WebAssembly module, validates its function bodies as it reads them, compiles each
body in one pass to x64 or arm64 code, and runs the code on a coroutine stack. This project models that
whole way and proves what its stages promise each other.

- **The one-pass compilers** (`CompilerSpec`, `CompilerShape`, `CompilerSim`, `CompilerRun`, `DeadCode`,
  `Arguments`, `LinearMeaning`, `CompilerResults`, `CallingConventions`, `Branches`, `Compiler`, with `Registers`, `RuntimeStack`, `FunctionFrame`, `Machine`). Both back
  ends are one algorithm over a `Target`: the register sets, the argument and return registers, and the
  three places where the sources depart from the algorithm they share. The class `Compiler` changes its
  compile-time stack, its register tracker and its code in place, as the sources do, and every method is
  proved against a function of the old state. About these functions a simulation is proved: a register
  machine running the emitted code against a plain stack interpreter (`WasmCore.dfy`).
- **The validator** (`Validator`, `ValidatorTyping`, `ValidatorBounds`, `ValidatorMarks`): a class proved
  against a state function; acceptance is equivalent to a declarative typing; the two high-water marks are
  what the compiler sizes its array and its frame with.
- **LEB128 and the parser** (`ByteStream`, `Leb128`, `Parser`, with `ParserSpec`, `ParserProgress`,
  `ParserInvariant`, `BinaryGrammar`, `ParserExact`, `ParserErrors`, `ModuleEncoding`, `ParserRoundTrip`, `GlobalSection`, `IndexSpaces`): the loops with their shifts and masks on one side, the value of a
  byte string in unbounded arithmetic and the binary format of a module on the other. All sections are read
  that the sources read. The parser's language is given by a grammar apart from its functions, and it reads that
  language and nothing else.
- **VM threads and invocations** (`Threads`, `Vm`): step relations for any number of coroutine threads and
  VMs, with a monitor of each VM's events; the classes `Process` and `Host` perform the same steps on fields.
- **The whole way** (`Runtime`): module compilation, lookup by name and signature, and theorems from the
  bytes of a module to the result of calling an exported function.

## What departs from its intent, and what is proved about it

`Target` has a flag for each departure of the code generators, `X64` and `ARM64` set the flags as the sources
do, and `Target.Correct()` clears them. `Corrected` targets are proved right. For a target as written,
`HarmlessRun` is the exact condition, computed from the interpreter's run alone, under which the machine
follows the interpreter at every instruction boundary. Each departure of the code generators has an accepted body
whose compiled call goes wrong (`Counterexamples`, `SpillLoop`, `DeadCodeExamples`, `LocalExamples`; `Accepting` has
what the validator does with such bodies), and each of the driver's and the parser's has an input (`ModuleExamples`,
`GlobalSection`, `Leb128`).

- The x64 addition is an add with carry (`compiler/x64/compiler.cc:86`). Harmless exactly when no carry is
  pending; one earlier sum that overflowed is enough to be wrong.
- The x64 assignment to a local stores 64 bits (`compiler/x64/compiler.cc:102`), since allocated registers
  come from a 64-bit iterator (`compiler/common/call_convention.h:64-70`). It clears the next local's slot;
  harmless exactly when that local is not an i32 or is zero.
- The arm64 assignment is a load (`compiler/arm64/compiler.cc:103`). Harmless exactly when the local has
  the value already.
- The spill loop has no `break` (`compiler/x64/compiler.cc:121-130`, `compiler/arm64/compiler.cc:122-131`).
  Every later entry gets its lower neighbour's register. Harmless exactly when all these operands are equal;
  with N registers the sum 0 + 1 + ... + N comes out N - 1 short.
- The prologue stores the argument registers by position (`compiler/x64/compiler.cc:45-51`,
  `compiler/arm64/compiler.cc:46-52`), while both calling conventions pass floating-point arguments in vector registers
  and count only the others; the VM takes such signatures (`runtime/signature_converter.h:16-30`). Integer arguments
  arrive in every state exactly when no parameter in a vector register comes before an integer one. With (f32, i32)
  the second parameter is taken from the wrong register, on every target.
- `if` and `else` are read as branch instructions that the validator and both compilers visit without effect
  (`compiler/x64/compiler.cc:106-114`). A body is accepted and compiled exactly as it is without them, both arms one
  behind the other. The block type behind an `if` is not read (`parser/parser.cc:519-526`), so that every `if` with at
  most one result is refused as an unknown opcode.
- A return leaves the compile-time stack as it is (`compiler/x64/compiler.cc:105`), while the validator's is
  emptied. So on an accepted body the compiler meets none of its own undefined cases exactly when the depths fit
  without that reset (refusals of the foreign encoder, of offsets or frame sizes an instruction cannot hold, are
  outside this statement). When it compiles, the
  call returns its meaning exactly when the place the exit reads holds it at the return; a walk over the dead
  code's depths shows that it does (it must stay above the result, end with it on top, and neither spill nor
  reload it). Otherwise the result can be silently wrong, on every target.
- After a return the validator takes 16 bytes for every value it pops from nowhere
  (`parser/validator.cc:129-139`). The byte mark is the true maximum, and the frame has a word for each
  operand, exactly when nothing is pushed after such a pop. Otherwise the frame can even have size 0, and a call overwrites the
  word at its caller's stack pointer.
- The frame size is kept in a signed 32-bit field without a check (`compiler/common/function_frame.h:33-38`).
  The frame holds locals and operands exactly when their size fits it.
- There is one code holder per compiler, which nothing empties, and installing it makes the whole of it a
  function (`compiler/compiler.cc:33-39`, `compiler/compiler.cc:79-80`). So every function after the first
  runs as the first one: of two functions that return 1 and 2, the second returns 1. Taken to be the foreign library's behaviour: an assembler appends to the holder it
  attaches to, and an installed holder is entered at its start.
- Declared locals are not cleared by the prologue and start as what their slots hold. The result of a body is a
  weighted sum of its locals, with weights computed from the body; a corrected back end is right exactly when the
  weighted sum of the old slot contents is 0 modulo 2^32, and right whatever they are exactly when no declared i32
  local has a weight. Setting each local before reading it is enough. A body that returns an unset local returns the
  word in its slot.
- Local slots lie below the lowered stack pointer (`compiler/common/function_frame.h:71-73`). They are
  proved disjoint from the spill slots and from each other, not inside the reserved area.
- The LEB128 decoder accepts what section 5.2.2 of the WebAssembly Core Specification refuses. Its answer is
  the value of the bytes exactly when the unused bits of a last possible byte are zero or agree with the sign.
- `i32.const` is read with the unsigned decoder (`parser/parser.cc:545`), while the binary format writes it
  signed. A constant is read as written exactly when it is not negative or takes all five bytes (is below
  -2^27); -1 is read as 127.
- A global's initialiser is read without its end opcode (`parser/parser.cc:395-427`), so that every global
  section of the binary format is refused unless it is empty.
- The declared size of a section is used for custom sections only (`parser/parser.cc:615-622`).
- Imported functions, tables, memories and globals take no place in the index spaces
  (`parser/parser.cc:442-475`), where the format has them first. An index denotes what it should exactly when nothing
  of its kind is imported or it is beyond both spaces. With one imported and one own function, index 0 denotes the
  own one and index 1 is refused.
- A module with a function section and no code section is accepted; its bodies stay empty and unvalidated. Every
  encoding cut off before its export section is read; with a function that has a result, that function is not valid.
- An invocation from inside another VM's function throws after it has stored the function
  (`runtime/vm.cc:40-44`). The VM is then idle, refuses every later invocation, and never recovers.

## Model

| member | source | states |
|---|---|---|
| `Align.AlignDownMeans` | base/align.h:12-16 | For every power of two, masking gives the greatest multiple at or below the value. |
| `Align.AlignUpMeans` | base/align.h:20-24 | The result is a multiple, and it is the next one at or above the value exactly when the 32-bit sum does not wrap; otherwise it lies below the value. |
| `FunctionFrame.StackSizeMeans` | compiler/common/function_frame.h:33-38 | The frame size is a multiple of 16 and the least that holds locals and operand stack. |
| `FunctionFrame.FrameHoldsExactly` | compiler/common/function_frame.h:33-38 | Without any bound: the frame holds locals and operand stack if and only if their size fits the signed 32-bit field. |
| `FunctionFrame.LocalLayout` | compiler/common/function_frame.h:54-74 | Local slots are word aligned, pairwise disjoint, start at the bottom of the frame area and end below every operand spill slot. |
| `FunctionFrame.SlotsPacked` | compiler/common/function_frame.h:54-74 | Slots start at the bottom and lie one behind the other without a gap: 4 bytes for i32 and f32, 8 for i64, f64 and references, 16 for v128. |
| `FunctionFrame.Frame.constructor` | compiler/common/function_frame.h:55-74 | The two loops and the rebasing loop give every parameter and declared local the offset of the layout. |
| `FunctionFrame.Frame.StackSizeBytes` | compiler/common/function_frame.h:33-38 | Returns the frame size, with 32-bit wrap-around and the conversion to a signed value. |
| `FunctionFrame.Frame.LocalStackOffset` | compiler/common/function_frame.h:40-42 | Returns the slot offset of the local in the layout. |
| `Registers.SeekNext` | compiler/common/call_convention.h:83-89 | Stops at the next set bit after the index, or at 32 when there is none; it skips no set bit. |
| `Registers.RegisterTracker.TakeUnusedRegister` | compiler/common/register_tracker.h:38-48 | Returns the lowest allocatable register not in use and marks exactly it; returns none, and changes nothing, only when all are in use. |
| `Registers.RegisterTracker.MarkRegisterUnused` | compiler/common/register_tracker.h:50-53 | Removes exactly that register from the used set. |
| `Registers.X64WellFormed` | compiler/x64/call_convention.cc:10-29 | The nine caller-saved registers are disjoint from the callee-saved ones and contain the return register; which registers they are, and which have the arguments, `X64CallKeeps` and `X64ReadsArgument` say. |
| `Registers.Arm64WellFormed` | compiler/arm64/call_convention.cc:10-25 | The fifteen caller-saved registers are disjoint from the callee-saved ones and contain the return register. |
| `Registers.CorrectTargets` | compiler/arm64/call_convention.cc:10-25 | Both calling conventions, with the departures cleared, are targets the correctness theorems hold for. |
| `RuntimeStack.PushKeepsSlots` | compiler/common/runtime_stack.h:46-51 | Giving a pushed entry the offset after the increment keeps every slot equal to the bytes of the entries up to and including it. |
| `RuntimeStack.PopKeepsSlots` | compiler/common/runtime_stack.h:52-56 | Removing the top keeps that, and takes the offset back to what it was before the push. |
| `RuntimeStack.RuntimeStack.Push` | compiler/common/runtime_stack.h:46-51 | Appends the entry with its slot, below the array's end, and moves the offset by the entry's size. |
| `RuntimeStack.RuntimeStack.Pop` | compiler/common/runtime_stack.h:52-56 | Returns the entry pushed last and leaves the rest; the offset goes back to the slot below. |
| `RuntimeStack.RuntimeStack.Peek` | compiler/common/runtime_stack.h:57-60 | Returns the top entry. |
| `RuntimeStack.RuntimeStack.SetRegister` | compiler/common/runtime_stack.h:63-65 | Writing an entry's register through the iterator changes that entry and nothing else of the stack. |
| `CompilerShape.SpillShape` | compiler/x64/compiler.cc:121-130 | What the loop does to a stack whose bottom k entries are spilled, in closed form, with and without a break: which entry is spilled, which registers move, which stores are emitted in which order. |
| `CompilerShape.SpillKeepsInv` | compiler/x64/compiler.cc:121-132 | One pass spills entry k, keeps registers distinct and the used set equal to those held, plus the one that has become free. |
| `CompilerShape.Exhausted` | compiler/x64/compiler.cc:116-131 | No register is free exactly when the entries above the spilled prefix hold all caller-saved registers; then there is an entry to spill, so the assertion in the allocator cannot fail. |
| `CompilerShape.ReloadNeverSpills` | compiler/x64/compiler.cc:135-143 | Reloading a popped entry, when at most one register is in use, finds a free one and changes no other entry. |
| `CompilerShape.PushShape` | compiler/x64/compiler.cc:71-96 | A constant or local read emits a spill exactly when registers are exhausted, then the value into a fresh caller-saved register, and keeps the invariant. |
| `CompilerShape.AddShape` | compiler/x64/compiler.cc:79-88 | In every reachable state an addition emits at most two reloads and the add, spills nothing, leaves the sum in the lower operand's register and frees the upper one's. |
| `CompilerShape.SetLocalShape` | compiler/x64/compiler.cc:97-104 | In every reachable state an assignment emits at most one reload and its store form, spills nothing and frees the register. |
| `CompilerShape.VisitShape` | compiler/x64/compiler.cc:71-133 | A visit succeeds, rather than popping an empty stack, pushing past the array or indexing past the locals, if and only if its depth allows it; then the register accounting is kept, whatever the frame. |
| `CompilerShape.VisitKeepsInv` | compiler/x64/compiler.cc:71-133 | Every visit the validator allows succeeds and keeps: spilled entries are a bottom prefix, registers held are distinct, caller-saved and exactly the tracker's set. Its code writes only caller-saved registers, spill slots from offset 4 to below the operand size, and local slots. |
| `CompilerSim.PushCodeKeepsMatch` | compiler/x64/compiler.cc:116-133 | Spilling leaves every local as it is, shows each operand above the first spilled its lower neighbour's value if the loop runs on, and keeps every operand findable if and only if the loop stops or these operands are all equal. |
| `CompilerSim.PushSim` | compiler/x64/compiler.cc:71-96 | Running the code of a constant or local read matches the interpreter's step if and only if its spill is harmless. |
| `CompilerSim.AddSim` | compiler/x64/compiler.cc:79-88 | Running the code of an addition, reloads included, matches the interpreter's step modulo 2^32 if and only if no pending carry is taken. |
| `CompilerSim.SetLocalSim` | compiler/x64/compiler.cc:97-104 | Running the code of an assignment matches the interpreter's step if and only if the store form leaves this local and the next one right. |
| `CompilerSim.StepExact` | compiler/x64/compiler.cc:71-133 | From a matching state one visit keeps the match if and only if the target's departures do no harm there; a corrected target always keeps it. |
| `CompilerRun.CompilesExactly` | compiler/x64/compiler.cc:71-114 | From any reachable state a sequence of visits, returns included, succeeds if and only if its depths fit. |
| `CompilerRun.AcceptedCompilesExactly` | compiler/compiler.cc:26-39 | Every accepted body, code behind a return included, compiles without an undefined case if and only if its depths fit, the walk over it that a return does not reset. |
| `CompilerRun.ReachableInv` | compiler/compiler.cc:31-34 | Over any number of visits the invariant holds, the code is free of jumps and confined to the frame, and the compile-time depth is the validator's. |
| `CompilerRun.RunExact` | compiler/x64/compiler.cc:71-133 | Over whole bodies the machine follows the interpreter at every boundary if and only if no departure does harm on the way. |
| `CompilerRun.FollowsEnds` | compiler/x64/compiler.cc:71-133 | Following to the end leaves the operands and locals of the interpreter's final state, and the predicted carry. |
| `CompilerRun.PrologueRun` | compiler/x64/compiler.cc:39-52 | After the prologue the frame is open, every i32 local's slot holds the argument or its old contents, and no memory outside the local slots has changed. |
| `Arguments.StoredByPosition` | compiler/x64/compiler.cc:45-51 | The slot of every parameter, of any type, holds the register of its position: the low word for i32, f32 and references, both words for the others. |
| `Arguments.IndexIsPosition` | compiler/x64/compiler.cc:45-51 | The position of every integer parameter is the number of its register if and only if no parameter in a vector register comes before an integer one. |
| `Arguments.DeliveredExactly` | compiler/x64/compiler.cc:45-51 | The prologue puts every integer argument of the calling convention into the slot of its parameter, in every state, if and only if no parameter in a vector register comes before an integer one. |
| `CompilerRun.EpilogueRun` | compiler/x64/compiler.cc:53-69 | The exit code puts what the top entry's place holds, reloaded if spilled, into the return register, closes the frame and changes no memory and no other preserved register. |
| `CompilerRun.FunctionCode` | compiler/compiler.cc:26-39 | The code of an accepted function whose depths fit: prologue, a straight core confined to the frame, perhaps a jump to the exit with the dead code behind it, and the exit. |
| `CompilerRun.FunctionRun` | compiler/compiler.cc:26-39 | A call runs the prologue, the code before the first return, and the exit that was compiled for the state at the end of the body. |
| `CompilerRun.CallKeepsConvention` | compiler/x64/compiler.cc:39-143 | Every run of a compiled function, as written or corrected, restores the stack pointer, keeps all callee-saved registers, changes no memory outside its local and spill slots, except for the word behind a local that a 64-bit assignment overwrites, and none from the caller's stack pointer up. |
| `CallingConventions.X64CallKeeps` | compiler/x64/call_convention.cc:10-29 | Every call of x64 code, as written or corrected and whatever the body, keeps rbx, rbp, r12-r15 and every other register but rax, rcx, rdx, rsi, rdi and r8-r11. |
| `CallingConventions.Arm64CallKeeps` | compiler/arm64/call_convention.cc:10-25 | Every call of arm64 code keeps x19-x29, the link register and every other register but x0-x7 and x9-x15. |
| `CallingConventions.X64ReadsArgument` | compiler/x64/call_convention.h:23-26 | Of six i32 arguments the i-th is the one in rdi, rsi, rdx, rcx, r8 or r9, and it is returned in rax, by register number. |
| `CallingConventions.Arm64ReadsArgument` | compiler/arm64/call_convention.h:23-26 | Of six i32 arguments the i-th is the one in x0 to x5, and it is returned in x0, by register number. |
| `CompilerRun.CallReturnsMeaning` | compiler/x64/compiler.cc:39-143 | The machine follows the interpreter up to the return if and only if the departures do no harm, and corrected targets are never harmed; the call returns the meaning if and only if the place the exit reads holds it at the return, as it does when dead code has not moved that place. |
| `CompilerRun.CallIsRight` | compiler/arm64/compiler.cc:40-144 | Convention, result and freedom from harm of one call, for every target, arm64 included. |
| `CompilerRun.AppendedNeverRuns` | compiler/x64/compiler.cc:67-69 | Whatever follows a compiled function in a buffer, calling it runs as calling it alone. |
| `Branches.BranchesIgnored` | compiler/x64/compiler.cc:106-114 | Every body is accepted, with the same marks, and compiled, to the same code, as it is without its branch instructions. |
| `Branches.IfRefused` | parser/parser.cc:519-526 | An `if` of the binary format with no or one result is refused, since its block type is read as an opcode. |
| `LinearMeaning.MeaningLinear` | compiler/x64/compiler.cc:71-104 | The meaning of every compiled body, on all locals, is a constant plus a weighted sum of its i32 locals modulo 2^32, with constant and weights computed from the body. |
| `LinearMeaning.SameMeaningExactly` | compiler/x64/compiler.cc:71-104 | Two sets of locals give a body the same meaning if and only if their weighted sums agree modulo 2^32. |
| `DeadCode.DeadHarmlessKeepsExit` | compiler/x64/compiler.cc:105-143 | Dead code that stays above the result, ends with it on top and neither spills nor reloads it leaves the exit's place as it was; so does having no result or no dead code. |
| `DeadCode.WordMarksExact` | parser/validator.cc:129-157 | For every accepted body the byte mark is four times the element mark if and only if nothing is pushed after a value popped from nowhere. |
| `DeadCode.CleanCompilable` | parser/parser.cc:574-577 | Under that condition an accepted body whose depths fit is compiled with a frame that has a word for each operand. |
| `DeadCode.ReturnLastCompilable` | parser/parser.cc:574-577 | With nothing after its return, every accepted body of implemented instructions with a frame of 32-bit size compiles, and its exit finds the result. |
| `CompilerResults.AgreeingRuns` | compiler/x64/compiler.cc:39-52 | A body that sets each declared local before reading it computes the same operands whatever these locals start as. |
| `CompilerResults.ResultExactly` | compiler/x64/compiler.cc:39-143 | In any state and for any arguments, wherever they are: a corrected back end returns the WebAssembly meaning if and only if the locals the call starts on have the same weighted sum as the arguments and zeros. |
| `CompilerResults.MeaningPreserved` | compiler/x64/compiler.cc:39-143 | For every compiled body whose exit still finds the result, at any length and depth and on all arguments, with no parameter in a vector register before an integer one: a corrected back end returns the WebAssembly meaning if and only if the weighted sum of the old contents of the declared locals' slots is 0 modulo 2^32. |
| `CallingConventions.X64CallRight` | compiler/x64/compiler.cc:39-143 | Corrected x64 code called as System V has it: rax has the WebAssembly meaning if and only if the old slot contents cancel out. |
| `CallingConventions.Arm64CallRight` | compiler/arm64/compiler.cc:39-144 | Corrected arm64 code called as AAPCS64 has it: x0 has the WebAssembly meaning under the same condition. |
| `CompilerResults.AssignedSlots` | compiler/x64/compiler.cc:39-52 | In a body that sets each declared local before reading it the old slot contents cancel out, whatever they are. |
| `CompilerResults.AssignedPreserved` | compiler/x64/compiler.cc:39-143 | So for such a body the corrected back ends return the WebAssembly meaning. |
| `CompilerResults.AnySlotsExactly` | compiler/x64/compiler.cc:39-52 | The old slot contents cancel out whatever they are if and only if every declared i32 local has a weight of 0 modulo 2^32. |
| `CompilerResults.HarmlessByShape` | compiler/x64/compiler.cc:79-130 | A check on the body alone under which a back end as written is never harmed: it fits the registers, adds at most once if the add takes the carry, and assigns no local the store form would spoil. |
| `CompilerResults.AsWrittenReturnsMeaning` | compiler/x64/compiler.cc:39-143 | On bodies that pass this check the back ends as written return the meaning. |
| `CompilerResults.FinalAddExact` | compiler/x64/compiler.cc:79-88 | A body that ends with an addition, unharmed before it, returns its meaning if and only if no carry is pending there. |
| `Counterexamples.X64AddsStaleCarry` | compiler/x64/compiler.cc:86 | An accepted body of meaning 0 for which the x64 code returns something else, from every starting state with room for the frame. |
| `Counterexamples.LoadLosesAssignment` | compiler/arm64/compiler.cc:103 | A compiled body that assigns 5 to its parameter and returns it: the call returns the meaning if and only if the argument is 5. |
| `Counterexamples.WideStoreClearsNextLocal` | compiler/x64/compiler.cc:102 | A compiled body that assigns to its first parameter and returns its second: the call returns the meaning if and only if the second argument is 0. |
| `SpillLoop.RunningOnHarms` | compiler/x64/compiler.cc:121-130 | For every target with N registers whose loop has no break, the compiled sum 0 + 1 + ... + N returns its meaning less N - 1, from every state with room for the frame. |
| `DeadCodeExamples.DeadCodeOverflowsStack` | compiler/x64/compiler.cc:105 | An accepted body with code after its return makes the compiler push past the array that its own mark has sized. |
| `DeadCodeExamples.DeadCodeLosesResult` | compiler/x64/compiler.cc:105 | An accepted and compiled body of meaning 3 whose call returns 2 on every target, corrected ones included. |
| `DeadCodeExamples.PhantomSpoilsFrame` | parser/validator.cc:129-139 | An accepted and compiled body whose frame has size 0: every call, on every target, overwrites the word at the caller's stack pointer with the argument, against the calling convention. |
| `LocalExamples.FloatShiftsArguments` | compiler/x64/compiler.cc:45-51 | An accepted and compiled body on (f32, i32) whose call returns, on every target, what is in the second argument register, where the meaning is the integer argument in the first. |
| `LocalExamples.SlotBecomesResult` | compiler/x64/compiler.cc:39-52 | An accepted and compiled body of meaning 0 whose call returns, on every target, the word in the slot of its declared local. |
| `Compiler.Compiler.constructor` | compiler/x64/compiler.cc:23-34 | Starts with an empty compile-time stack of the marked size and no used registers, behind what the code holder has. |
| `Compiler.Compiler.SpillForRegister` | compiler/x64/compiler.cc:121-130 | The loop that swaps registers in place leaves stack, code and held register as the recursive description of the pass says. |
| `Compiler.Compiler.AllocateRegister` | compiler/x64/compiler.cc:116-133 | Takes a free register, or else the one that spilling has freed; stack, register set and code end as specified. |
| `Compiler.Compiler.EnsureInRegister` | compiler/x64/compiler.cc:135-143 | A held register is returned as it is; otherwise one is allocated and loaded from the entry's own slot. |
| `Compiler.Compiler.ConstI32` | compiler/x64/compiler.cc:71-78 | New state and code of a constant, tied to the function the simulation is about. |
| `Compiler.Compiler.AddI32` | compiler/x64/compiler.cc:79-88 | New state and code of an addition: pop, reload, peek, reload, add, free. |
| `Compiler.Compiler.GetLocalI32` | compiler/x64/compiler.cc:89-96 | New state and code of a local read. |
| `Compiler.Compiler.SetLocalI32` | compiler/x64/compiler.cc:97-104 | New state and code of an assignment. |
| `Compiler.Compiler.VisitOp` | compiler/x64/compiler.cc:71-114 | One visit of any instruction, the no-op ones included. |
| `Compiler.Compiler.VisitBody` | compiler/compiler.cc:31-34 | The driver's loop performs all visits in order. |
| `Compiler.Compiler.Prologue` | compiler/x64/compiler.cc:39-52 | Opens the frame and stores every parameter, at its width, in its slot. |
| `Compiler.Compiler.Epilogue` | compiler/x64/compiler.cc:53-69 | Binds the exit, returns the top operand if there is a result, closes the frame. |
| `Compiler.Compile` | compiler/compiler.cc:26-39 | The driver appends the specified code of the whole function to the code holder. |
| `Compiler.CompileAccepted` | compiler/compiler.cc:26-39 | The code produced for an accepted function keeps the calling convention from every state, and returns the meaning from every state in which the target's departures do no harm, when dead code has not moved the result. |
| `Validator.FunctionValidator.constructor` | parser/validator.cc:64-69 | Locals are the parameters followed by the declared ones; the state is the empty reachable one. |
| `Validator.FunctionValidator.PopType` | parser/validator.cc:129-149 | Accepts a matching type, or anything from nowhere after a return, and takes its bytes off the wrapping counter; refuses otherwise. |
| `Validator.FunctionValidator.PushType` | parser/validator.cc:152-157 | Pushes the type and raises both marks when exceeded. |
| `Validator.FunctionValidator.PopResults` | parser/validator.cc:93-95 | The loop over the results pops them in the order listed. |
| `Validator.FunctionValidator.FinalizeBody` | parser/validator.cc:110-115 | Accepts exactly when the results can be popped and nothing is left. |
| `Validator.FunctionValidator.VisitOp` | parser/validator.cc:78-108 | Accepts, and changes the state, as the state function of the instruction says. |
| `ValidatorTyping.VisitComplete` | parser/validator.cc:78-108 | Every typing step of a concrete stack is accepted from the state that describes the stack. |
| `ValidatorTyping.VisitSound` | parser/validator.cc:78-149 | Every accepted visit comes from a typing step of some stack the state describes. |
| `ValidatorTyping.AcceptsIffTyped` | parser/validator.cc:78-157 | A body is accepted if and only if it has a typing derivation from the empty stack to the results, where the stack after a return may be any. |
| `ValidatorBounds.CoreRuns` | parser/validator.cc:78-157 | Accepted reachable code never gets the interpreter stuck, has its depth throughout, and is what the compiler expects at every visit. |
| `ValidatorBounds.AcceptedCore` | parser/validator.cc:92-115 | Acceptance splits at the first return: the part before it ends with exactly the results, and with nothing after it has the marks of the whole. |
| `ValidatorBounds.MarksAreMaxima` | parser/validator.cc:152-157 | Every accepted body, dead code included, never gets stuck, ends with its results and is never deeper than the element mark; with nothing after its return both marks are attained. |
| `ValidatorBounds.DeadCodeSpoilsByteMark` | parser/validator.cc:129-139 | A short accepted body with a byte mark of 2^64 - 28. |
| `ValidatorMarks.VisitLaw` | parser/validator.cc:129-157 | The byte counter is the stack's bytes less 16 for each phantom popped, modulo 2^64, after every accepted visit. |
| `ValidatorMarks.MarksExact` | parser/validator.cc:71-76 | For every accepted body, dead code included: the element mark is the largest stack met; the byte mark is the largest byte size met if and only if nothing is pushed after a phantom has been popped. |
| `ByteStream.ByteStream.ReadByte` | base/stream.cc:10-15 | Returns the next byte and moves one byte on, or refuses at the end and stays. |
| `ByteStream.ByteStream.ReadBytes` | base/stream.cc:22-32 | Returns the next n bytes and moves behind them, or refuses when fewer are left and stays. |
| `ByteStream.OffsetsExactly` | base/stream.cc:27-28 | All reads of a buffer have the offsets that are meant, after narrowing to 32 signed bits, if and only if the buffer is smaller than 2 GiB. |
| `ByteStream.ByteStream.Skip` | base/stream.cc:33-39 | Moves n bytes on, never past the end. |
| `ByteStream.ByteStream.HasRemaining` | base/stream.cc:40 | True exactly when bytes are left. |
| `Leb128.DecodeInt` | leb128/leb128.h:51-83 | For both widths and signs and every input: the loop returns the unbounded value of the bytes reduced to the type and stops behind them; it reads at most ceil(N/7) bytes, throws the decode error exactly when these all continue, and runs out of input exactly when the bytes end before. |
| `Leb128.FailsExactly` | leb128/leb128.h:51-83 | Decoding overflows exactly when the first ceil(N/7) bytes all continue, and runs out of input exactly when fewer bytes are there and all continue. |
| `Leb128.EncodeInt` | leb128/leb128.h:11-47 | The loops produce the encoding the round trip is about. |
| `Leb128.EncodeSignedLoop` | leb128/leb128.h:21-33 | The loop with arithmetic shifts and the sign-bit test terminates with the signed encoding. |
| `Leb128.EncodeUnsignedLoop` | leb128/leb128.h:34-44 | The do-while loop terminates with the unsigned encoding. |
| `Leb128.RoundTrip` | leb128/leb128.h:11-83 | Decoding an encoding followed by any bytes gives the value back and leaves exactly these bytes. |
| `Leb128.Minimal` | leb128/leb128.h:11-47 | An encoding has 1 to ceil(N/7) bytes, only its last ends the number, and no byte string that decodes to the same value and is used up is shorter. |
| `Leb128.LosslessExactly` | leb128/leb128.h:51-83 | Whenever the decoder answers, for both widths and signs, the answer is the unbounded value of the bytes if and only if that value is in range, if and only if the last byte fits: u32 below 0x10, u64 below 2, signed with unused bits equal to the sign. |
| `Leb128.ExcessBitsDropped` | leb128/leb128.h:62-66 | Instance: five bytes worth more than 2^32 decode to 2^32 - 1 without an error. |
| `Leb128.SignedReadExactly` | parser/parser.cc:544-545 | The unsigned decoder stops behind every signed 32-bit encoding, and reads the value's own word if and only if the value is not negative or below -2^27. |
| `Leb128.MinusOneMisread` | parser/parser.cc:544-545 | Instance: the encoding of -1 is read as 127. |
| `Parser.ParseValType` | parser/parser.cc:46-59 | Six type codes are accepted, all others refused; agrees with the reading function from every stream position. |
| `Parser.ParseName` | parser/parser.cc:69-78 | A length of at most 256 and that many bytes, or the error. |
| `Parser.ParseSignatureTypes` | parser/parser.cc:97-110 | The counted loop reads a bounded vector of types, or refuses it as too large before reading any. |
| `Parser.ParseSignature` | parser/parser.cc:112-123 | Tag, at most six parameters, at most one result. |
| `Parser.ParseOpcode` | parser/parser.cc:519-554 | The instructions each opcode stands for, with unsigned immediates. |
| `Parser.Emit` | parser/parser.cc:498-501 | Each instruction is validated when it is emitted; refusal ends the body. |
| `Parser.ParseExpression` | parser/parser.cc:513-558 | The loop reads to the end opcode and returns what the reading function returns, with the validator in the same final state. |
| `Parser.ParseLocals` | parser/parser.cc:564-573 | Run-length groups expand in order, with at most 256 locals in all. |
| `Parser.ParseOneCode` | parser/parser.cc:560-585 | A body with its locals and marks, refused when its size is not the declared one. |
| `Parser.ParseLimits` | parser/parser.cc:125-134 | A minimum, and a maximum or the largest there is. |
| `Parser.ParseTableType` | parser/parser.cc:136-144 | A reference type and limits; other types are refused. |
| `Parser.ParseGlobalType` | parser/parser.cc:148-152 | A type and whether it is mutable. |
| `Parser.ParseConstExpr` | parser/parser.cc:395-421 | One of four constants with its immediate, without an end opcode. |
| `Parser.ParseGlobal` | parser/parser.cc:423-427 | A global type and its constant. |
| `Parser.ParseDescription` | parser/parser.cc:324-345 | What is imported; the type index of a function must exist. |
| `Parser.ModuleBuilder.ParseSignatureSection` | parser/parser.cc:292-303 | The signatures are appended in order. |
| `Parser.ModuleBuilder.ParseFunctionDeclarationSection` | parser/parser.cc:305-319 | Each declaration's type index must exist; functions are appended with empty bodies. |
| `Parser.ModuleBuilder.ParseOneImport` | parser/parser.cc:321-350 | Two names and a description. |
| `Parser.ModuleBuilder.ParseImportSection` | parser/parser.cc:352-363 | At most 256 imports, stored in order. |
| `Parser.ModuleBuilder.ParseTableSection` | parser/parser.cc:367-378 | At most 16 tables, stored in order. |
| `Parser.ModuleBuilder.ParseMemoriesSection` | parser/parser.cc:382-393 | At most one memory. |
| `Parser.ModuleBuilder.ParseGlobalsSection` | parser/parser.cc:429-440 | At most 1024 globals, stored in order. |
| `Parser.ModuleBuilder.ParseOneExport` | parser/parser.cc:442-475 | The index must exist in the space of its kind: functions, tables, memories or globals that the module declares. |
| `Parser.ModuleBuilder.ParseExportsSection` | parser/parser.cc:477-492 | At most 256 exports, and a repeated name is refused when it is read. |
| `Parser.ModuleBuilder.ParseCodeSection` | parser/parser.cc:587-601 | As many bodies as declared functions, filled in in place one after the other. |
| `Parser.ModuleBuilder.ParseOneSection` | parser/parser.cc:603-664 | Ids other than 0 must increase; dispatch on the id, in agreement with the reading function. |
| `Parser.ModuleBuilder.Parse` | parser/parser.cc:666-683 | Magic, version, then sections to the end of the input; terminates on every input. |
| `Parser.ModuleBuilder.Build` | parser/parser.cc:280-290 | Functions and export map of the builder. |
| `Parser.ParseModule` | parser/parser.cc:687-691 | The imperative parser returns, for every input, exactly the result or the error of the reading functions. |
| `ParserExact.ExpressionExact` | parser/parser.cc:513-558 | A body is read if and only if its bytes are instructions of the grammar, opcode and immediate, up to an end opcode, that the validator accepts; and it is read as these instructions. |
| `ParserExact.OtherOpcodesRefused` | parser/parser.cc:552-553 | Any first byte other than the eight known opcodes is refused as a parse error. |
| `ParserExact.CodeExact` | parser/parser.cc:560-585 | A function entry is read if and only if it is one of the grammar: size, at most 256 locals in groups, an accepted body that ends at the size; the marks are cut to 32 bits. |
| `ParserExact.SectionExact` | parser/parser.cc:603-665 | A section is read if and only if its id is in order and its contents are of the grammar, with every limit written out; it adds what the grammar says. |
| `ParserExact.ModuleExact` | parser/parser.cc:603-691 | A byte string is read as a module if and only if the grammar has it as that module: nothing else is accepted and nothing is read as something else. |
| `ParserErrors.ExpressionErrors` | parser/parser.cc:513-558 | Behind instructions that can be read: the validator's refusal comes first, then the end of input, an unknown opcode as a parse error, or the validator's refusal at the end. |
| `ParserErrors.CountErrors` | parser/parser.cc:290-493 | A list longer than its section's limit is refused as too large, for each of the seven sections with a limit. |
| `ParserErrors.LocalsErrors` | parser/parser.cc:564-573 | A group that makes more than 256 locals is refused as too large. |
| `ParserErrors.SizeErrors` | parser/parser.cc:579-584 | A function entry that is right but for its declared size is refused. |
| `ParserErrors.NameTwiceErrors` | parser/parser.cc:483-489 | A name exported a second time is refused. |
| `ParserErrors.SectionErrors` | parser/parser.cc:603-665 | Sections out of order, of an id not implemented or unknown, and custom sections that are cut off are refused, each with its error. |
| `ParserErrors.HeaderErrors` | parser/parser.cc:666-684 | Inputs without the magic bytes and version 1 are refused, short ones for want of input. |
| `ParserProgress.SectionProgress` | parser/parser.cc:603-664 | Every section that parses leaves a strictly shorter suffix of its input. |
| `ParserProgress.CodeConsumesItsSize` | parser/parser.cc:560-585 | An accepted code entry is its size and then exactly that many bytes. |
| `ParserProgress.SizeIgnored` | parser/parser.cc:615-663 | The declared size of a section other than a custom one makes no difference. |
| `ParserInvariant.ExpressionAccepted` | parser/parser.cc:513-558 | What is read as a body is what the validator accepts, with the same marks. |
| `ParserInvariant.ExpressionWithin` | parser/parser.cc:513-558 | A body of n bytes never has more than n operands. |
| `ParserInvariant.CodeAccepted` | parser/parser.cc:560-577 | Every code entry that parses is accepted, has at most 256 declared locals, and its element mark is not cut by its 32 bits. |
| `ParserInvariant.SectionKeepsInv` | parser/parser.cc:603-664 | Every section keeps the builder invariant, raises the section id strictly unless it is custom, and a custom section changes nothing. |
| `ParserInvariant.SectionsKeepInv` | parser/parser.cc:666-683 | Every reachable builder state keeps: at most 6 parameters, 1 result and 256 declared locals; every list within its limit and filled only by its own section; imported types, exports of all kinds and the start function in range; distinct names; bodies accepted once the code section is read. |
| `ParserInvariant.ExportMapExact` | parser/parser.cc:280-290 | The export map has exactly the names of exported functions, each with its own index. |
| `ParserInvariant.ParsedModuleGood` | parser/parser.cc:280-290 | Every exported index of a parsed module is in range; all bodies are accepted if and only if there was a code section or no declared function returns anything. |
| `ParserRoundTrip.LocalsBack` | parser/parser.cc:564-573 | Every grouping of locals reads back as its expansion. |
| `ParserRoundTrip.ExpressionBack` | parser/parser.cc:513-558 | The encoding of every accepted body, with constants written signed or unsigned, is read to its end as a body with the constants as the decoder takes them and the validator's final state. |
| `ParserRoundTrip.CodeBack` | parser/parser.cc:560-585 | Every function entry reads back with its locals, its marks and the constants as the decoder takes them. |
| `ParserRoundTrip.ImportBack` | parser/parser.cc:321-350 | Every import reads back, of each of the four kinds, with limits with or without a maximum. |
| `ParserRoundTrip.ExportBack` | parser/parser.cc:442-475 | Every export reads back, of each of the four kinds, when its index is in the parser's space. |
| `ParserRoundTrip.CustomsBack` | parser/parser.cc:618-622 | Custom sections at a boundary do not change what follows. |
| `ParserRoundTrip.ParserReadsEncoding` | parser/parser.cc:603-691 | For every module without globals and within the limits, in any grouping of locals, with custom sections at every boundary and empty sections written or not: types, imports, tables, memories, exports and start are read as they are and the functions with their marks; the functions are the ones that were encoded if and only if every constant in signed form is not negative or below -2^27. |
| `ParserRoundTrip.ParserInvertsUnsigned` | parser/parser.cc:603-691 | With constants in unsigned form, parsing yields the functions with their marks and the export map outright. |
| `GlobalSection.GlobalBack` | parser/parser.cc:395-427 | Every global of the binary format, in any encoding of its initialiser, is read up to its end opcode or refused; it is read if and only if it is a numeric constant of a type other than v128. |
| `GlobalSection.GlobalsRefused` | parser/parser.cc:395-440 | Every global section of the binary format, whatever the types and initialisers, makes the module be refused unless the section is empty; an empty one changes nothing. |
| `IndexSpaces.IndexReadExactly` | parser/parser.cc:442-475 | An index of any kind denotes to the parser what it does in the binary format if and only if nothing of that kind is imported or the index is beyond both spaces. |
| `IndexSpaces.ItemReadExactly` | parser/parser.cc:442-475 | An exported item is read if and only if the parser takes its index for one of the module's own, and is refused otherwise. |
| `IndexSpaces.ExportReadExactly` | parser/parser.cc:477-500 | A whole module with one export, of any kind and index, is read if and only if that index is one of the module's own. |
| `ModuleExamples.ImportsShiftIndices` | parser/parser.cc:442-475 | A module with one imported and one own function, from its bytes: exported index 1 is refused, index 0 denotes the own function, where the format means the imported one. |
| `ModuleExamples.CutOffRead` | parser/parser.cc:603-691 | Every encoded module cut off before its export section is read, and its functions have no bodies. |
| `ModuleExamples.NoCodeAccepted` | parser/parser.cc:603-691 | A module of a type and a function section that is read although its function, which has a result, is not valid. |
| `Threads.NextConsistent` | runtime/thread/thread.cc:113-163 | Every operation keeps: `current_vm_thread` is t exactly when t runs. |
| `Threads.AlwaysConsistent` | runtime/thread/thread.cc:113-163 | In every run with any number of threads `current_vm_thread` is the running thread, and at most one runs. |
| `Threads.NextLived` | runtime/thread/thread.cc:113-140 | Every operation does to every thread what its life allows and nothing else: started at the entry, continued at its place, suspended with its place, reset by a stop or at its end. |
| `Threads.ThrowsExactly` | runtime/thread/thread.cc:113-140 | A resume throws exactly inside a thread, a stop exactly for the running thread, a yield exactly on the host; nothing has changed then. |
| `Threads.ResumeHandsControlBack` | runtime/thread/thread.cc:113-125 | A resumed thread keeps control until it gives it back, and then is suspended or stopped with `current_vm_thread` null. |
| `Threads.ResumeGoesOn` | runtime/thread/thread.cc:113-125 | A resume from the host succeeds and goes on at the entry point of a stopped thread, or where a suspended one was. |
| `Threads.WaitingKeepsPlace` | runtime/thread/thread.cc:118-140 | Whatever the others do meanwhile, a waiting thread goes on where it left off, or at its entry point if it has been stopped. |
| `Threads.YieldThenResume` | runtime/thread/thread.cc:113-140 | A thread that yields and is resumed goes on at the place it has left, whatever the others have done, unless it was stopped, and moves on from there. |
| `Threads.Process.ResumeThread` | runtime/thread/thread.cc:113-125 | Refuses inside any VM thread without a change; otherwise transfers control, with a fresh stack for a stopped thread. |
| `Threads.Process.StopThread` | runtime/thread/thread.cc:126-132 | Refuses a running thread; stops any other. |
| `Threads.Process.YieldThread` | runtime/thread/thread.cc:133-140 | Suspends the running thread and clears `current_vm_thread`; refuses outside. |
| `Threads.Process.FinishThread` | runtime/thread/thread.cc:58-62 | The end of the start routine stops the thread and clears `current_vm_thread`. |
| `Vm.NextKeepsInv` | runtime/vm.cc:35-58 | Every action keeps each VM's stored function, thread state and place in step with its monitor; the assertion does not fail. |
| `Vm.StartedWasAsked` | runtime/vm.cc:49-58 | Behind every start in an unobjected log lie the invocation and an execute, with no cancel or end in between. |
| `Vm.ProtocolHolds` | runtime/vm.cc:35-58 | Over every interleaving on any number of VMs: the assertion never fails; a function starts only after its invocation and an execute and not after a cancel; it starts once; accepted functions of a VM do not overlap. |
| `Vm.DoneExactly` | runtime/function_handle.cc:19-21 | Done exactly when nothing accepted is still under way. |
| `Vm.InvokeExactly` | runtime/vm.cc:35-46 | In every reachable state: an invocation throws exactly inside a function, while something is under way, or when the VM is wedged; a VM that is not idle is left as it was. |
| `Vm.ExecuteExactly` | runtime/function_handle.cc:9-13 | From the host an execute continues whatever is under way, at its place; otherwise it does nothing, and throws exactly inside another function while something is under way. |
| `Vm.CancelExactly` | runtime/function_handle.cc:14-18 | A cancel ends whatever is under way unless it is running, and touches nothing else. |
| `Vm.YieldOrReturn` | runtime/vm.cc:49-58 | A running function that yields hands control to the host and stays under way at its place; one that returns leaves its VM done. |
| `Vm.BegunReachesEnd` | runtime/function_handle.cc:9-21 | A function that has begun is continued by executes over any number of yields, keeps its place over each, and reaches its end. |
| `Vm.InvokeThenExecute` | runtime/vm.cc:35-58 | An invocation from the host gives control straight back with the function ready but not begun; the next execute begins it. |
| `Vm.CancelFrees` | runtime/function_handle.cc:14-18 | After a cancel the host can invoke again, if and only if the VM is not wedged. |
| `Vm.WedgedExactly` | runtime/vm.cc:36-44 | A VM becomes wedged exactly by an invocation while it is idle and another VM's function runs. |
| `Vm.WedgeReached` | runtime/vm.cc:36-44 | Two fresh VMs and six steps lead to a wedged VM. |
| `Vm.WedgedForever` | runtime/vm.cc:36-44 | A wedged VM stays so in every run and refuses every invocation. |
| `Vm.Host.InvokeDynamic` | runtime/vm.cc:35-46 | Refuses a VM with a stored function or a thread that is not stopped; otherwise stores the function, then resumes, and leaves it stored if that throws. |
| `Vm.Host.ExecuteComputation` | runtime/function_handle.cc:9-13 | Resumes a suspended thread and does nothing otherwise. |
| `Vm.Host.CancelComputation` | runtime/function_handle.cc:14-18 | Stops a suspended thread and does nothing otherwise. |
| `Vm.Host.IsDone` | runtime/function_handle.cc:19-21 | Answers whether the VM's monitor is at rest. |
| `Vm.Host.RunInternal` | runtime/vm.cc:49-58 | The start routine takes the stored function, yields once, calls it, and ends. |
| `Runtime.CompilerImpl.CompileFunction` | compiler/compiler.cc:26-39 | The function's code is appended to the one code holder, and the compiled function is all that is in it. |
| `Runtime.CompilerImpl.CompileAll` | compiler/compiler.cc:41-48 | Functions are compiled one by one in order into that holder; their number and the exports are kept. |
| `Runtime.HolderRunsFirst` | compiler/compiler.cc:79-80 | Every function compiled into a holder that is not empty, of this module or a later one, runs as the first function in it. |
| `Runtime.SharedRunsFirst` | compiler/compiler.cc:79-80 | With a fresh compiler every function of a module runs as its first one. |
| `Runtime.SharedReturnsFirst` | compiler/compiler.cc:33-39 | With a corrected back end, a call of any function returns the meaning of the first one. |
| `ModuleExamples.SecondRunsFirst` | compiler/compiler.cc:79-80 | A module of two functions that return 1 and 2, from its bytes, compiled with one compiler: calling the second returns 1, on every target, where its meaning is 2. |
| `ModuleExamples.CompileOneTwo` | compiler/compiler.cc:26-48 | The same for what the compiler object itself produces. |
| `Runtime.CompileModule` | compiler/compiler.cc:41-48 | The intent: one buffer for each function, in order, with number and exports kept. |
| `Runtime.ReturnLastUsable` | compiler/compiler.cc:41-48 | An accepted function with nothing after its return is usable unless its frame is too big. |
| `Runtime.LookupFunctionHandleDynamic` | runtime/vm.cc:22-33 | Finds a function if and only if the name is exported and the signature is equal, and it is the exported one. |
| `Runtime.LookupInBounds` | runtime/vm.cc:24-28 | For every module that parses and compiles, every lookup index is in bounds. |
| `Runtime.ReadyExactly` | compiler/compiler.cc:41-48 | A parsed module is ready for the compiler if and only if its functions use implemented instructions, have depths that fit and a frame of 32-bit size with a word for each operand, and, without a code section, return nothing. |
| `Runtime.FirstExportRunsRight` | runtime/vm.cc:22-33 | As the driver does it: the first function of the first module, found by name, keeps the calling convention; with its arguments where the convention puts them and no parameter in a vector register before an integer one, it returns the WebAssembly meaning of the parsed body if and only if the old slot contents cancel out. |
| `Runtime.ExportRunsRight` | runtime/vm.cc:22-33 | As is meant, with a buffer for each function: from the bytes of a module to a call of whatever a lookup finds, which keeps the calling convention and returns the WebAssembly meaning under the same exact condition. |

## Left out

- Instruction encoding, with the offsets and frame sizes that an encoder refuses, logging, comments, the error handler and executable memory belong to a foreign library and are replaced by an instruction list.
- Memory is word-granular: every slot and size is a multiple of 4, which `LocalLayout` and `VisitKeepsInv` prove.
- The stack pointer is an unbounded integer; only the borrow of the prologue's subtraction, which the x64 carry flag can see, is modelled. Flags after the closing addition are not, since no later instruction reads them.
- A meaning of `if` and `else`: the interpreter has none, and the results are about bodies without branch instructions, to which `BranchesIgnored` reduces all others.
- CompilerRun.CallReturnsMeaning: the equivalence with freedom from harm is for following at every instruction boundary, because harm need not reach the result; `FinalAddExact` gives it for the result where a body ends with an addition. Frames that do not have a word for each operand are excluded; `FrameHoldsExactly` and `WordMarksExact` say exactly which these are.
- CompilerResults.MeaningPreserved: needs an exit that finds the result and no parameter in a vector register before an integer one; without the latter `ResultExactly` has the condition.
- CompilerResults.HarmlessByShape: one direction only, as it looks at the body and not at its run; `HarmlessRun` is the exact condition.
- DeadCode.DeadHarmlessKeepsExit: one direction only, as it looks at depths; dead code may also move the result's place and put it back in the same register. `ExitKept` compares the places, and `CallReturnsMeaning` gives the exact condition on the values.
- ByteStream.ByteStream.ReadBytes: the iterator offsets are narrowed to 32 signed bits in the source (base/stream.cc:27-28); positions are unbounded here, which by `OffsetsExactly` is the same for buffers smaller than 2 GiB.
- Runtime.CompileModule: one buffer for each function, which is the intent; `CompilerImpl` has the one holder of the source.
- Runtime.ExportRunsRight: about that intent; `FirstExportRunsRight` and `SharedRunsFirst` are about the holder of the source.
- Vector registers and floating-point, 64-bit and reference values at run time: no instruction uses them, and only their sizes matter for the frame.
- ParserRoundTrip.ParserReadsEncoding: modules without globals, since `GlobalsRefused` says that no global section of the format is read.
- The values of floating-point initialisers are kept as their bytes.
- The set of export names holds views into the strings of a growing vector (parser/parser.cc:483-489); names are compared by value here.
- UTF-8 validation of names and error message texts; errors are compared by kind.
- Block types: `ParseBlockType` is called nowhere.
- Coroutine scheduling in the parser and compiler: yielding does nothing there, so coroutines are straight calls.
- The stack switch is an atomic transfer of control; guard pages, memory protection and sanitizer hooks are left out, and so are a stack overflow and the destruction of threads and VMs.
- Exceptions thrown by a VM function, other than those that a refused invocation or resume raises.
- The conversion of native signatures and the typed handles over `LookupFunctionHandleDynamic` and `InvokeDynamic`, and the release of compiled code.
