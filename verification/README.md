# A verified model of the core of RingEcho-Lang-C

RingEcho-Lang-C is a compiler toolchain for the RingEcho language, written in C. This Dafny project models the
parts of it whose correctness is decided by state, arithmetic or search, and proves what they promise.
`dafny verify dfyconfig.toml` checks everything; nothing is executed.

## What is modelled

**Middle end of the native backend.** `Ast` is the checked tree, `SourceSemantics` its meaning as an evaluator
with scopes and structured control flow, `NativeIr` the stack IR with the machine that runs it. `Lower` is the
lowering as a class that appends instructions, hands out labels and slots, pushes and pops loops and counts
depth, with its error conditions and limits; `LowerSpec` says as functions what it accepts and emits. `Simulation`
proves that lowering preserves meaning in both directions. `Verifier` is the work-list verifier, `VerifierSound`
what a verified function guarantees in every run, and `LowerHeights`, `LowerVerifies`, `LowerStatic` and
`FrontBackAgree` connect it to the lowering; with `FallThrough` they show that it accepts exactly the functions whose
bodies the checker's divergence analysis (`Divergence`) accepts, unit functions aside. `TypedValues`,
`TypedRuns` and `ImplicitConversions` show that operands are in range of their type in every run.

**Machine arithmetic.** `X64`, `Arm` and `X86` are machines with registers, carry flag and stack; their methods
are the emitted sequences, instruction by instruction. `NativeTypes.BinarySem` is the reference they meet;
`RuntimeArithmetic` proves that the C backend's runtime meets the same one, and `BitMeaning` what it says bit by bit.

**Arbitrary-precision integers.** `BigInt` and `BigDecimal` are the in-place loops over base-2^32 limbs.

**Type layout.** `LayoutSpec` and `LayoutManager` (the same computation as functions and in place), `LayoutSound`
(what every layout satisfies), `LayoutExact` (which layout a type has, in both directions), `LayoutRecursion` (types that contain themselves), `SysvClass` (eightbyte
classification).

**Stateful algorithms.** `OwnedTypes`, `Workspace`, `Mangling` and `Monomorph`, and the conversions between integers
and text in `Numeric`, `RuntimeText` and `DecimalText`.

A source run and a machine run are functions of a step bound; statements about all runs quantify over it, and
"runs for ever" means that no bound suffices. Values of integer types are mathematical integers, wrapped where the
code wraps. External functions are a parameter: each either answers or does not return.

## Where the code is stricter or looser than one might expect

- An implicit integer conversion is judged at the widths of the machine that runs the compiler, although the
  comment at src/base/types.c:315 promises that every value is preserved. It is, exactly when the rule also holds
  at the target's widths (`ImplicitConversions.RuleIsExact`); a 32-bit target built on a 64-bit machine is a
  counterexample (`CrossConversionLosesValue`).
- Import loading always ends when imports are not circular (`Workspace.AcyclicEnds`), and on circular ones when at
  most 64 paths can come up (`Workspace.Load`). Otherwise it may not: from the moment 64 paths are recorded it ends
  exactly when chains of unrecorded files are bounded (`FullTableDepth`), and `CircularNeverEnds` is a program of
  65 paths that is loaded for ever. For tables that are not full yet no exact condition is stated.
- `reo_big_to_dec` prints the number modulo 10^1199, so the decimal round trip holds exactly below that.
- Parsing at an unsigned type refuses every minus sign, so "-0" fails although 0 is in range.
- System V classification also sends to memory whatever nests 128 deep or more; the layout manager can produce
  such a value of 8 bytes (`LayoutDepth.SmallButInMemory`).

## Model

| member | source | states |
|---|---|---|
| Simulation.LoweringPreservesMeaning | src/backend/native_lower.c:80-336 | For every accepted program, function and arguments, the source evaluation ends with a given returned value or trap if and only if the lowered stack code does; so one runs for ever exactly when the other does. Covers short-circuit operators, if-expressions, shadowing, compound assignment, while, break, continue and recursive calls |
| Simulation.SourceEndIsMachineEnd | src/backend/native_lower.c:104-336 | From a source run that ends, some number of machine steps ends the same way |
| Simulation.MachineEndIsSourceEnd | src/backend/native_lower.c:104-336 | A machine run that ends within n steps is matched by a source evaluation within depth n + 1 |
| Simulation.SimE | src/backend/native_lower.c:158-261 | From any machine state, the code of an accepted expression leaves exactly one more value, the source value, or ends as the source does |
| Simulation.SimS | src/backend/native_lower.c:263-336 | The code of an accepted statement starts and ends on the empty stack, updates the slots as the source updates its variables, and goes to the break, continue or return destination the source takes |
| Simulation.SimWhile | src/backend/native_lower.c:309-318 | Loops: any number of rounds, left by the condition, by break, by return or by a trap |
| Simulation.LiteralReads | src/backend/native_lower.c:162-167 | The 64-bit word a fitting literal is emitted as reads back as the literal |
| Simulation.OperandsOnStack | src/backend/native_lower.c:121-156 | The machine reaches the operator of a strict expression with exactly its two converted operands on top of the stack |
| TypedValues.ArithmeticAtItsType | src/backend/native_lower.c:136-143 | Arithmetic and bitwise operators on integers, of whatever types, are accepted at the type of the expression and compute the left operand, the right operand, and then the operator at that type |
| TypedValues.ComparisonAtItsType | src/backend/native_lower.c:144-156 | Operands of one type are compared at that type: integers and characters in every way, booleans for equality |
| TypedValues.ComparisonTypes | src/backend/native_lower.c:144-156 | Integers of two different types, with the same widths for compiler and target, are compared if and only if one type holds every value of the other, and then at the wider type |
| TypedValues.LogicalMeaning | src/backend/native_lower.c:107-120 | && and || take booleans and look at the right operand only when the left one leaves the result open |
| TypedValues.ImplicitExactly | src/backend/native_lower.c:91-101 | What may stand where another type is wanted: an unsuffixed literal exactly when it is in range, anything else exactly when the type is the same or an integer type all of whose values survive |
| TypedValues.ImplicitKeepsValue | src/backend/native_lower.c:91-101 | A value that an implicit conversion lets through arrives unchanged |
| TypedValues.ArgumentsArrive | src/backend/native_lower.c:207-224 | Each argument in range of its parameter arrives unchanged under its parameter's name, in order |
| LowerSpec.LookupInnermost | src/backend/native_lower.c:80-84 | A name stands for the innermost local of that name, and for none only if there is none |
| SourceSemantics.FindInnermost | src/backend/native_lower.c:80-84 | The same for the variables of the source semantics |
| LowerLabels.LabelsMarkedOnce | src/backend/native_lower.c:78-79 | A lowered function marks each label it allocated exactly once and no other label |
| LowerLabels.FindUnique | src/backend/native_lower.c:433-438 | With unique marks, looking a label up yields the one position it marks |
| Lower.Lowerer.Expression | src/backend/native_lower.c:255-261 | Reports an error exactly when the expression is not accepted or a limit (nesting, instructions) is exceeded; otherwise returns its type and has appended exactly its code, with that many new labels |
| Lower.Lowerer.ExpressionImpl | src/backend/native_lower.c:158-253 | The same, case by case, inside the depth counter |
| Lower.Lowerer.LogicalExpression | src/backend/native_lower.c:107-120 | The code of && and ||, with the two labels allocated before the operands |
| Lower.Lowerer.StrictExpression | src/backend/native_lower.c:121-156 | Operands, the conversions each needs, and the operator at the operand type |
| Lower.Lowerer.DirectCall | src/backend/native_lower.c:207-224 | The first function of that name, arguments converted to the parameter types, and the call |
| Lower.Lowerer.IfExpression | src/backend/native_lower.c:230-241 | Condition, arms and their labels; an error when the arms have different types |
| Lower.Lowerer.BlockExpression | src/backend/native_lower.c:242-250 | All values but the last are dropped |
| Lower.Lowerer.Statement | src/backend/native_lower.c:263-328 | Error exactly when the statement is refused or a limit is exceeded; otherwise the locals, slots and code are those of the specification |
| Lower.Lowerer.LetStatement | src/backend/native_lower.c:265-273 | The new local is visible only after its initialiser, and the value is stored in its slot |
| Lower.Lowerer.AssignStatement | src/backend/native_lower.c:274-286 | Plain and compound assignment, the variable loaded before the value is computed |
| Lower.Lowerer.WhileStatement | src/backend/native_lower.c:309-318 | Labels on the loop stacks only while the body is lowered |
| Lower.Lowerer.Branches | src/backend/native_lower.c:297-308 | The branches of an if in order, each ending with a jump to the common end |
| Lower.Lowerer.Body | src/backend/native_lower.c:330-336 | A body is a scope: the locals are those from before, also after an error |
| Lower.Lowerer.Emit | src/backend/native_lower.c:62-77 | One instruction, or an error exactly when the function or the module is full |
| LowerModuleCode.Register | src/backend/native_lower.c:338-363 | Signatures are registered exactly when each is supported, within the limits, and its name new and not reserved |
| LowerModuleCode.LowerFunction | src/backend/native_lower.c:381-388 | One function: its code, or nothing exactly when it is refused or does not fit |
| LowerModuleCode.LowerAll | src/backend/native_lower.c:364-391 | The module is lowered exactly when every declaration is registered, accepted and fits the limits; the result is then the specified code of every function |
| LowerModuleCode.LoweredIsCompiled | src/backend/native_lower.c:364-391 | What a successful lowering returns is a program to which the preservation theorem applies |
| Verifier.Verify | src/backend/native_lower.c:393-448 | Accepts if and only if every instruction is well formed and some assignment of stack heights is consistent with the control flow; the heights left in depth are then consistent and the least such assignment (every other agrees wherever they are defined) |
| Verifier.Worklist.Visit | src/backend/native_lower.c:439-444 | A position is queued once, when its height is first set; a second visit succeeds exactly at the same height; the queue never overruns its array |
| Verifier.CheckInstructions | src/backend/native_lower.c:398-412 | The first pass: all instructions sound and all labels found, or an error |
| Verifier.Inspect | src/backend/native_lower.c:414-445 | One round of the work list: successors reached at the right height, or proof that no assignment exists. The height test against the instruction limit never fires (heights never exceed the queue) |
| VerifierSound.StepSafe | src/backend/native_lower.c:413-445 | From a state at the computed height one step neither underflows nor leaves the code, reaches only positions at their computed heights, and returns only at height 0 |
| VerifierSound.RunFuncSafe | src/backend/native_lower.c:393-448 | No run of an accepted program goes wrong, for any arguments and number of steps |
| VerifierSound.HeightsHold | src/backend/native_lower.c:413-445 | In every run, every state is at the height computed for its position |
| LowerVerifies.GoodE | src/backend/native_lower.c:158-261 | Every expression nets one value: the assignment that counts upwards is consistent through its code |
| LowerVerifies.GoodBody | src/backend/native_lower.c:330-336 | Every statement nets nothing, and the code behind a diverging statement is dead |
| FrontBackAgree.LoweredCodeOk | src/backend/native_lower.c:398-412 | Every instruction the lowering emits passes the first pass of the verifier and has a machine form |
| FrontBackAgree.VerifierAcceptsLowered | src/backend/native_lower.c:427-431 | The verifier accepts a lowered function if and only if it returns unit or its end is unreachable |
| FrontBackAgree.DivergingBodyNeverFallsThrough | src/analysis/sema.c:1251-1295 | When the checker says that a body diverges, the end of the lowered code is unreachable, whatever loops, breaks and continues the body contains, and the verifier accepts it |
| FallThrough.EndReachable | src/analysis/sema.c:1256-1295 | The end of a lowered function is reachable in its control flow if and only if the checker says that its body does not diverge |
| FallThrough.AcceptedExactlyWhenDiverging | src/analysis/sema.c:1278-1301 | So the verifier accepts a lowered function if and only if it returns unit or the checker says that its body diverges |
| FallThrough.CrossedIfStmt | src/analysis/sema.c:1283-1288 | Control gets through an if that does not diverge: past failing conditions into a branch that does not diverge, into such an else, or past all of it when there is no else |
| Divergence.DivergesWhenNoWayThrough | src/analysis/sema.c:1256-1277 | Any expression, native or not, diverges if and only if every way through its blocks and arms meets something of type never or a diverging match |
| FrontBackAgree.VerifiedNeverWrong | src/backend/native_lower.c:364-448 | A source function that was lowered and verified never goes wrong, whatever it is called with |
| Divergence.AcceptedDoesNotDiverge | src/analysis/sema.c:1256-1277 | No expression that the native lowering accepts diverges; only statements do |
| ImplicitConversions.RuleIsExact | src/base/types.c:315-320 | For integer types, every value survives the conversion if and only if the coercion rule, asked at the widths of the target, allows it |
| ImplicitConversions.NativeConversionKeepsValues | src/base/types.c:315-320 | What the rule allows keeps every value when compiler and target have the same pointer width, or no pointer-sized type is involved |
| ImplicitConversions.CrossConversionLosesValue | src/base/types.c:315-320 | A 64-bit compiler for a 32-bit target lets an i64 become an isize, and 2^32 becomes 0: the rule uses the widths of its own machine |
| ImplicitConversions.TypeRanges | src/backend/native.c:1-25 | The values of each scalar type, spelled out |
| TypedValues.ValuesCanonical | src/backend/native_lower.c:158-261 | Every value an accepted expression computes is in the range of its type |
| TypedValues.StatementKeeps | src/backend/native_lower.c:263-336 | Every statement, however it is left, keeps each variable in the range of its type |
| TypedValues.OperandsCanonical | src/backend/native_lower.c:104-156 | Both operands of every strict operator, as converted, are in the range of the type the operator is emitted with, wherever an implicit conversion among them is between types of the same widths for compiler and target |
| TypedValues.CompoundOperandsCanonical | src/backend/native_lower.c:275-287 | The same for compound assignment, without that condition: the variable and the converted value are in the range of the type of the variable |
| TypedValues.ComparisonsAreExact | src/backend/native_lower.c:121-156 | An accepted comparison compares the mathematical values of its operands, whatever integer types they have |
| TypedRuns.EvaluatesSane | src/backend/native_lower.c:263-388 | In every run of an accepted function, for any arguments, wherever a statement evaluates an expression the variables in scope are those the lowering knows there and each is in the range of its type |
| TypedRuns.RunsStayInRange | src/backend/native_lower.c:158-388 | So every value of every expression and sub-expression in every run is in the range of its type |
| TypedRuns.RunsMeetTheEncoder | src/backend/native_x64.c:17-90 | And every strict operator in every run finds canonical words, on which the x64 sequence computes, or traps, exactly as the source operator |
| TypedValues.StrictOnWords | src/backend/native_x64.c:17-90 | So the x64 sequence finds canonical words and computes, or traps, exactly as the source operator |
| RuntimeArithmetic.ConvBinaryIsExact | src/backend/runtime_conversion.c:27-36 | For widths 8 to 128, signed and unsigned, the runtime operator is the mathematical one wrapped to the width (shift counts cut to the width, division truncating), and aborts exactly on a zero divisor and on the least value by -1 |
| RuntimeArithmetic.RuntimeAgreesWithIr | src/backend/runtime_conversion.c:162-186 | The IR operator that the native encoders implement and the call that the C backend emits trap on the same operands and otherwise give the same value, for + - * / % << >> |
| BitMeaning.BitwiseMeaning | src/backend/native_x64.c:66-68 | And, or and exclusive or of any integers at any integer type: every bit of the result is set exactly when both, either, or exactly one of the operand bits is |
| BitMeaning.UnaryMeaning | src/backend/native_x64.c:140-150 | The complement turns every bit round, and the negative is the negated number wrapped to the type |
| X64.Machine.Normalize | src/backend/native_x64.c:16-31 | Leaves the 64-bit extension of the value read at the type |
| X64.Machine.Divide | src/backend/native_x64.c:55-65 | Traps exactly on zero and on the least value of the type by -1, also at widths idiv cannot check; otherwise truncated quotient or remainder |
| X64.Machine.Shift | src/backend/native_x64.c:69-72 | Shift by the count modulo the width, arithmetic for signed types |
| X64.Machine.Compare | src/backend/native_x64.c:73-85 | The condition code of each operator and signedness gives the IR comparison |
| X64.Machine.Binary | src/backend/native_x64.c:43-90 | On canonical words: the IR operator, its trap, and a canonical result; refused exactly for operators without a machine form |
| X64.Machine.Constant | src/backend/native_x64.c:135-135 | The pushed word is the canonical form of the constant |
| X64.Machine.Store | src/backend/native_x64.c:137-137 | The slot receives the canonical form of the popped word |
| X64.Machine.Unary | src/backend/native_x64.c:140-150 | Negation, complement and not, normalised |
| X64.Machine.Convert | src/backend/native_x64.c:151-155 | A value read at its new type |
| X64.WordsStandForValues | src/backend/native_x64.c:43-90 | Words of canonical values are canonical, and the operator sees the same operands through them |
| X64.CanonLow | src/backend/native_x64.c:17-31 | Reading the low 64 bits of an integer at a type is reading the integer |
| Wide.DivisionStep | src/backend/native_arm.c:105-135 | One round of restoring division keeps: dividend so far = quotient * divisor + remainder, remainder below the divisor |
| Wide.NothingLost | src/backend/native_arm.c:105-135 | The remainder before round k is below 2^k, so doubling it loses no bit, also for divisors of 2^63 and more |
| Wide.DivisionEnds | src/backend/native_arm.c:105-135 | After 64 rounds quotient and remainder are the floor quotient and remainder |
| Arm.Machine.Negate | src/backend/native_arm.c:98-103 | Negation modulo 2^64 on a register pair |
| Arm.Machine.DivideUnsigned | src/backend/native_arm.c:105-135 | The emitted loop divides every 64-bit dividend by every non-zero divisor |
| Arm.Machine.Divide | src/backend/native_arm.c:137-195 | Truncating division, remainder with the sign of the dividend, a trap exactly on zero and on -2^63 by -1 |
| Arm.Machine.Multiply | src/backend/native_arm.c:249-254 | umull and two mla give the low 64 bits of the product |
| Arm.Machine.ShiftLoop | src/backend/native_arm.c:258-270 | The one-bit loop shifts by the count modulo 64, with the right fill |
| Arm.Machine.Binary | src/backend/native_arm.c:245-275 | The operators other than comparisons at the 64-bit types: the IR operator on two stack slots, its trap, or no machine form |
| X86.Machine.DivideUnsigned | src/backend/native_x86.c:78-115 | The same for the i386 loop, which also checks for a zero divisor |
| X86.Machine.Divide | src/backend/native_x86.c:117-166 | Signed and unsigned 64-bit division and remainder, with their traps |
| X86.Machine.Multiply | src/backend/native_x86.c:236-242 | Two cross products and one full product give the low 64 bits |
| X86.Machine.ShiftLoop | src/backend/native_x86.c:252-265 | The one-bit shift loop |
| X86.Machine.Binary | src/backend/native_x86.c:230-270 | The operators other than comparisons at the 64-bit types: the IR operator on two stack slots, its trap, or no machine form |
| WideOps.PairProduct | src/backend/native_arm.c:249-254 | Three 32-bit products, the upper ones cut to 32 bits, are the 64-bit product |
| WideOps.Magnitudes | src/backend/native_arm.c:137-195 | Dividing magnitudes and putting the signs back is truncating division |
| BigInt.Cmp | libs/bigint/bigint.c:122-133 | Compares the numbers; null handles first |
| BigInt.Add | libs/bigint/bigint.c:135-153 | The exact sum, in normal form |
| BigInt.Sub | libs/bigint/bigint.c:155-170 | The difference, or zero when it would be negative |
| BigInt.Mul | libs/bigint/bigint.c:172-195 | The exact product, in normal form |
| BigInt.AddRow | libs/bigint/bigint.c:178-192 | One row of the product added in place; the inner sum never exceeds 64 bits and the carry never runs past the limbs of the product |
| BigInt.RowStep | libs/bigint/bigint.c:180-185 | Limb times limb plus limb plus carry stays below 2^64, and the invariant of the row moves one limb up |
| BigInt.CarryInside | libs/bigint/bigint.c:186-192 | While a carry is left its position is inside the product |
| BigInt.Shl1 | libs/bigint/bigint.c:197-211 | Doubles |
| BigInt.SetBit | libs/bigint/bigint.c:213-225 | Sets one bit, growing the number when needed |
| BigInt.DivideBit | libs/bigint/bigint.c:236-256 | One bit of long division keeps: prefix of the dividend = quotient * divisor + remainder, remainder below the divisor, quotient bits not yet reached zero |
| BigInt.DivMod | libs/bigint/bigint.c:228-258 | For every dividend and non-zero divisor a = q * b + r with 0 <= r < b, both normalised; no result for a zero divisor |
| BigInt.Gcd | libs/bigint/bigint.c:274-285 | Ends, with the greatest common divisor |
| BigInt.GcdStep | libs/bigint/bigint.c:274-285 | A remainder step keeps the common divisors |
| BigInt.ModSmall | libs/bigint/bigint.c:287-295 | The remainder by a machine word; 0 for a zero divisor |
| BigDecimal.FromDec | libs/bigint/bigint.c:61-95 | Accepts exactly an optional plus and at least one digit, and returns the number |
| BigDecimal.DivideByChunk | libs/bigint/bigint.c:321-325 | Division by 10^9 in place; the 64-bit word never overflows |
| BigDecimal.EmitChunk | libs/bigint/bigint.c:328-331 | The digits of one chunk, low end first, without digits above the number |
| BigDecimal.ToDec | libs/bigint/bigint.c:297-339 | The number modulo 10^1199 in the usual notation, without superfluous zeros |
| BigDecimal.DecimalRoundTrip | libs/bigint/bigint.c:61-339 | Printing and reading gives the number back if and only if it is below 10^1199 |
| Alignment.PowerTwoMeaning | src/analysis/layout.c:21-21 | The bit test recognises exactly the powers of two |
| Alignment.AlignUpMeaning | src/analysis/layout.c:72-82 | Succeeds exactly for a power-of-two alignment and a rounded size within the largest object, and then returns the least multiple |
| LayoutManager.Manager.Resolve | src/analysis/layout.c:237-326 | The in-place computation returns exactly the specified layout, and nothing only after reporting a failure |
| LayoutManager.Manager.AppendField | src/analysis/layout.c:94-108 | One field appended, or a failure; size, alignment and fields updated together |
| LayoutManager.Manager.RecordType | src/analysis/layout.c:135-175 | Records with generic arguments, packing, explicit alignment and transparency |
| LayoutManager.Manager.EnumType | src/analysis/layout.c:177-235 | Enums: tag, one tuple per variant, largest payload |
| LayoutSound.ResolveSound | src/analysis/layout.c:237-326 | Every successful layout, at every level: power-of-two alignment, size a multiple of it and within the limit, fields in order and minimally padded, arrays exact, payloads after the tag, aligned and inside |
| LayoutSound.FieldsDisjoint | src/analysis/layout.c:94-108 | Fields of such a layout are disjoint and inside the object |
| LayoutSound.RecordFollowsDeclaration | src/analysis/layout.c:135-175 | A record has the declared fields in order, each with the layout of its type, unaligned only when declared packed, with the alignment asked for; a transparent one has the size and alignment of its field |
| LayoutSound.TupleFollowsDeclaration | src/analysis/layout.c:311-322 | A tuple has exactly one field for each component, in order, with the layout of its type |
| LayoutSound.EnumFollowsDeclaration | src/analysis/layout.c:177-235 | An enum has exactly the declared variants (for Option and Result those of their arguments), in order and tagged from 0, each payload with exactly the declared components and their layouts |
| LayoutExact.TupleExactly | src/analysis/layout.c:311-322 | A tuple has a layout if and only if its components have one and fit, and the layout is then this one: numbered fields as early as alignment allows, alignment that of the most demanding field, size padded, inhabited exactly when all fields are |
| LayoutExact.StructExactly | src/analysis/layout.c:135-175 | The same for records: exactly the declared fields under the bound arguments, in order, packed, aligned or transparent as declared, and no layout when an attribute cannot be met |
| LayoutExact.DeclaredEnumExactly | src/analysis/layout.c:177-235 | A declared enum has a layout if and only if the payloads of exactly its declared variants have one and fit; tags 0, 1, ..., payloads at the first offset after the tag that suits all of them, inhabited exactly when some variant is |
| LayoutExact.OptionExactly | src/analysis/layout.c:186-220 | An undeclared Option<t> is laid out exactly as the enum of None without a payload and Some with a t |
| LayoutExact.ResultExactly | src/analysis/layout.c:186-220 | An undeclared Result<t, e> is laid out exactly as the enum of Ok with a t and Err with an e |
| LayoutExact.BareExactly | src/analysis/layout.c:216-219 | Without arguments i64 stands in for them |
| LayoutExact.OptionPayloads | src/analysis/layout.c:186-220 | In a laid-out Option<t>, None has tag 0 and no field, Some has tag 1 and one field with the layout of t |
| LayoutExact.ResultPayloads | src/analysis/layout.c:186-220 | In a laid-out Result<t, e>, Ok has tag 0 and one field with the layout of t, Err has tag 1 and one field with the layout of e |
| LayoutExact.ArgumentCount | src/analysis/layout.c:179-188 | Option and Result with another number of arguments, or with arguments although the program declares them, have no layout |
| LayoutExact.ShortResultExactly | src/analysis/layout.c:262-274 | Result<t, i64> is laid out exactly as the record tag, value, error, index and is always inhabited |
| LayoutExact.ArrayExactly | src/analysis/layout.c:293-301 | An array has a layout if and only if its element has one and the product fits; uninhabited only with elements that are |
| LayoutExact.ParameterExactly | src/analysis/layout.c:245-247 | A type parameter stands for its argument, read in the bindings around it |
| LayoutExact.OuterParameter | src/analysis/layout.c:245-247 | Any other name means what it means outside the bindings of the type |
| LayoutExact.AliasExactly | src/analysis/layout.c:248-251 | An alias stands for its target, before any enum or structure of the same name |
| LayoutExact.ScalarsAgree | src/analysis/layout.c:283-290 | Scalars are exactly as wide as the native backend computes with |
| LayoutExact.PrimitiveMeaning | src/analysis/layout.c:283-310 | Floats, 128-bit integers, pointers and slices have their sizes and alignments, and only never has no value |
| LayoutRecursion.ChainFails | src/analysis/layout.c:237-244 | A type from which as many by-value steps lead on as levels of nesting are left has no layout. A step goes to an array element, a tuple component, a record field under its bindings, a variant payload, an argument of Option or Result, the target of an alias, or what a parameter is bound to |
| LayoutRecursion.EndlessFails | src/analysis/layout.c:237-326 | A type that can be unfolded by value for ever has no layout, at any nesting |
| LayoutRecursion.CircleFails | src/analysis/layout.c:237-326 | A type that some by-value steps lead back to has no layout, at any nesting and with any bindings; the way round may pass through parameters and, as in generic structures, may add bindings, as long as these do not hide a declared name used on it |
| LayoutRecursion.KnotFails | src/analysis/layout.c:135-326 | The same read off the declarations: aliases, enums and structures, generic ones included, that mention each other by value all the way round, also inside arrays, tuples, Option and Result |
| LayoutRecursion.ListFails | src/analysis/layout.c:177-235 | struct N { next: Option<N> } has no layout |
| LayoutRecursion.WrapperFails | src/analysis/layout.c:135-175 | struct N { w: W<N> } with struct W<T> { v: T } has no layout |
| SysvClass.Classify | src/analysis/layout.c:344-379 | Succeeds exactly when the object fits two words, every part is aligned and the nesting is within 128; then each word has gained exactly the classes of the leaves that touch it |
| SysvClass.SysvClassify | src/analysis/layout.c:381-392 | For layouts the manager produces: none for uninhabited types; in memory exactly when larger than 16 bytes, misaligned or nested too deeply; otherwise each word is the merge of the leaves that touch it, INTEGER over SSE, in any order (section 3.2.3 of the System V AMD64 psABI) |
| SysvClass.FlatClass | src/analysis/layout.c:344-379 | In a record of scalars an eightbyte is INTEGER exactly when something other than a float lies in it, even in part, and without a class exactly when nothing does |
| LayoutDepth.SmallButInMemory | src/analysis/layout.c:344-392 | The classifier, applied to an aligned 8-byte value that the manager lays out, sends it to memory, because of its nesting alone |
| RuntimeText.ParseInteger | src/backend/runtime_conversion.c:59-81 | For texts under 4096 characters succeeds exactly when the text is well formed and the integer in range (an unsigned target taking no minus sign), and returns it |
| RuntimeText.MinusZeroRefused | src/backend/runtime_conversion.c:59-81 | The parser, applied to "-0" at an unsigned target of any width, refuses it although it is well formed and denotes 0, which is in range |
| RuntimeText.FillDigits | src/backend/runtime_conversion.c:124-133 | The digits of every 128-bit number fit the 40 cells and read back as it |
| RuntimeText.UnsignedString | src/backend/runtime_conversion.c:124-133 | The usual decimal notation |
| RuntimeText.SignedString | src/backend/runtime_conversion.c:134-147 | The same with a minus sign, also for the least value |
| RuntimeText.TextRoundTrip | src/backend/runtime_conversion.c:59-147 | What is printed for an integer in range parses, at every width, to the same integer |
| RuntimeText.CheckedInteger | src/backend/runtime_conversion.c:251-295 | Succeeds exactly when the target type has the value, and then preserves it |
| DecimalText.ReverseIsDecimal | src/backend/runtime_conversion.c:124-133 | Digits without superfluous zeros, turned round, are the usual notation |
| Numeric.IntegerParse | src/base/numeric.c:5-32 | Accepts exactly an optional sign and 1 to 512 digits of the radix with magnitude below 2^128, and returns sign and magnitude |
| Numeric.MultiplyAdd | src/base/numeric.c:18-28 | Four words times radix plus digit, refused exactly on overflow |
| Numeric.DigitMeaning | src/base/numeric.c:14-16 | The digits are exactly 0 to 9 and a to f in either case, with their usual values |
| Numeric.FitsIsRange | src/base/numeric.c:34-43 | True exactly when the signed value lies in the range of the type, for every width from 1 to 128 |
| OwnedTypes.Register.Own | src/analysis/sema.c:266-317 | Ends on shared and circular graphs, adds no duplicate, and keeps the list closed up to objects still being registered |
| OwnedTypes.Register.OwnType | src/analysis/sema.c:266-317 | Adds exactly the owned objects reachable from the argument through owned objects |
| OwnedTypes.PartMeaning | src/analysis/sema.c:284-313 | The parts of an object: what arrays, slices, vectors, references and pointers refer to, components, arguments, parameters and results, and nothing else |
| OwnedTypes.Register.Destroy | src/analysis/sema.c:1996-2011 | Each registered object is freed exactly once, and nothing else |
| Mangling.MangledInjective | src/backend/backend_c_generic.c:41-57 | Equal symbols come from equal function names and equal argument lists |
| Mangling.Mangle | src/backend/backend_c_generic.c:41-57 | Succeeds exactly when symbol and terminator fit the buffer, which then holds the symbol; otherwise the empty string |
| Mangling.HexDigits | src/backend/backend_c_generic.c:41-57 | Each byte of a text is two hexadecimal digits, the high one first, and an underscore ends the text |
| Monomorph.Generator.Instantiate | src/backend/backend_c_generic.c:58-73 | A new job unless the instance is already listed; an error exactly on a bad argument count, an overlong symbol or argument, or a full table |
| Monomorph.Generator.FlushPending | src/backend/backend_c_generic.c:88-113 | Generates every instance without a body, also those recorded meanwhile, and publishes prototypes and bodies |
| Monomorph.Generator.FlushLambdas | src/backend/backend_c_generic.c:115-148 | The same for lambdas |
| Monomorph.Generator.Finish | src/backend/backend_c.c:46-54 | Without an error nothing is pending after the bounded number of passes, everything asked for by the program or by a generated body is generated, and everything generated is declared |
| Monomorph.Compile | src/backend/backend_c.c:46-54 | A whole compilation: without an error, no two functions share a symbol, an instance is generated exactly when the program or a generated function calls it, and for each lambda expression there are as many functions as occurrences in the program and the generated functions; an error is reported only when the first use that exceeds a limit, or an error in a body, is among what the program or a generated body asks for |
| Monomorph.AsksMeaning | src/backend/backend_c_generic.c:58-73 | What generated functions ask for is what their bodies use, each use as often as it stands there |
| Monomorph.Generator.Ask | src/backend/backend_c_generic.c:58-73 | One use of an instance or lambda: an error exactly when the tables, holding what was asked for so far, have no room for it or its texts are too long |
| Monomorph.OnceEach | src/backend/backend_c_generic.c:33-148 | From the tables to the generated text: distinct symbols, exactly the instances asked for, exactly the lambdas listed |
| Monomorph.OtherSymbols | src/backend/backend_c_expr.c:706-723 | Lambda symbols differ from each other and from instance symbols |
| Workspace.Load | src/exec/workspace.c:254-264 | When at most 64 path strings can come up, loading ends even on circular imports, and emits exactly the readable files reached from the entry, each file once, dependencies first: file by file, the statements at exactly the positions that hold no import, in order, each as often as it stands there |
| Workspace.Loader.LoadFile | src/exec/workspace.c:194-252 | One file: recorded before its imports, emitted after them; and the recorded files are those of the bounded specification |
| Workspace.EmittedFileByFile | src/exec/workspace.c:240-250 | What loading emits: for each file, in order, the statements at a strictly increasing sequence of positions that is exactly the set of positions without an import |
| Workspace.EmittedCount | src/exec/workspace.c:240-250 | No import is emitted, and every other statement as often as it stands in the files |
| Workspace.AcyclicOrder | src/exec/workspace.c:194-252 | Without circular imports every dependency comes strictly before its importer |
| Workspace.AcyclicEnds | src/exec/workspace.c:194-252 | However many paths there are and whatever is recorded, loading ends when imports are not circular, nesting no deeper than the number of readable files |
| Workspace.FullTableDepth | src/exec/workspace.c:60-66 | Once 64 paths are recorded, loading nests deeper than n if and only if there is a chain of n imports through unrecorded files |
| Workspace.CircleNeverEnds | src/exec/workspace.c:60-66 | A circle among unrecorded files is then never left |
| Workspace.CircularNeverEnds | src/exec/workspace.c:60-66 | A program of 65 paths that is loaded for ever |

## Left out

- Floating point everywhere: values, conversions, float layouts beyond their class.
- Bytes of instruction encodings, branch fix-ups, object files, calling sequences and argument registers; the machines execute instructions in order.
- Arm.Machine.Binary: comparisons and types narrower than 64 bits (src/backend/native_arm.c:203-244), unary operators and conversions.
- X86.Machine.Binary: comparisons and types narrower than 64 bits (src/backend/native_x86.c:174-229), unary operators and conversions.
- AArch64 entirely.
- X64.Machine.Binary: one instruction sequence at a time; how the words of a whole function sit in one frame is not simulated, only that operands are canonical wherever an operator runs (TypedRuns.RunsMeetTheEncoder).
- Simulation.LoweringPreservesMeaning: holds for expressions with a native type; the tree carries its resolved types already, and a let without initialiser, which the lowering refuses, is not in the tree.
- FrontBackAgree.VerifierAcceptsLowered: assumes what the parser and checker guarantee of trees: integer literals have integer types (src/analysis/sema.c:449-471), ranges have no native type (src/analysis/sema.c:570-571), compound assignment has one of four operators (src/front/parser.c:600-605).
- TypedValues.ValuesCanonical: assumes that the checker's type of each sub-expression is the one the lowering finds.
- LowerModuleCode.LowerAll: extern blocks and pub wrappers are opened up beforehand; calling conventions are one flag.
- Verifier.Verify: opcodes out of range cannot be written down in the model, and the depth fields start at -1.
- LayoutManager.Manager.Resolve: type texts are parsed beforehand (a text that does not parse is None); names are compared, not copied; the cache of nodes is not modelled.
- SysvClass.SysvClassify: null pointers and malformed hand-made layouts; only layouts the manager can produce are classified.
- BigInt.DivMod: a null dividend with a non-zero divisor is a null dereference in the code and excluded.
- BigDecimal.ToDec: the ring of static result buffers and the lifetime of the returned text.
- `reo_big_bit_length`, freeing of intermediate numbers, and the 32-bit length of a number.
- RuntimeText.ParseInteger: texts do not contain the terminator; conversions of floats, booleans and characters are not modelled.
- Workspace.Load: reading, lexing and parsing are a map from paths to statements; path resolution gives a path or nothing; path strings shorter than the table's cells; the error messages for files that cannot be read and paths that cannot be resolved are not modelled.
- Monomorph.Compile: the C text of a body is reduced to what it asks for (instances, lambdas, errors), a fixed list for each function; definitions are known by name and parameter count; type bindings and captured names are not modelled.
- Mangling.Mangle: null name and argument pointers.
- OwnedTypes.Register.Destroy: scopes and statements freed alongside.
- Memory exhaustion: every allocation succeeds.
- Garbage collector, generated C text, language server, command line, process handling, package files: no state or arithmetic of the kind proved here, or sources outside the repository.
