# Computer systems, verified

A Dafny model of a collection of systems programs, with proofs of what they promise:

* a compiler from TeenyBASIC to x86-64, with its constant folding, its code generator and its
  recursive-descent parser;
* two heap allocators, one with an explicit free list and boundary tags, one with an implicit list;
* the 4-level page-table iterators of a small kernel, its page allocator, and process isolation on top;
* an interpreter for a subset of Java bytecode;
* a thread pool with a blocking queue;
* a guarded heap that detects bad frees, bad accesses and leaks;
* number reading and writing of the kernel's library.

Each program is modelled twice. A specification on values (trees, layouts, page-table walks, runs of a
state machine) is the place where the properties are stated and proved as lemmas. The imperative form
follows the program: classes with mutable fields, loops, byte and word memory. Its methods are proved
to do what the specification says.

## How the parts fit

* Compiler: `Words`, `TeenyBasic` (syntax and meaning), `Machine` (the x86-64 subset), `Folding`,
  `FoldingExact`, `CodeGen`, `ExprSimulation`, `StmtSimulation`, `CompilerCorrectness`, `Compiler` (the imperative form).
  The machine leaves flags after arithmetic, and what print_int does to registers, to an arbitrary
  environment. Running out of fuel in the source run stands for a run that is not finished yet; the main
  theorem quantifies over all fuel.
* Parser: `Characters`, `Syntax` (the grammar as functions of text and position), `RoundTrip` for expressions,
  `ProgramRoundTrip` for programs, `Grammar` for the converse, `Parser` (the imperative form). `EndToEnd` joins
  parser and compiler.
* Allocators: `ByteMemory`, `BlockTags`, `ExplicitLayout`, `ExplicitMemory`, `ExplicitMalloc`,
  `ImplicitLayout`, `ImplicitMalloc`.
* Kernel: `PageTable`, `PhysicalPages`, `Vmiter`, `Translation`, `Ptiter`, `Isolation`, `ProcessSpace`, `Kernel`. Entries are 64-bit words
  in the format of section 4.5 of the Intel 64 and IA-32 Architectures Software Developer's Manual,
  Volume 3A. `Ptiter` treats addresses and table indices as numbers, where setting low bits and adding 1 rounds
  up, and so has its own view of the tables.
* Interpreter: `IntegerOps`, `Bytecode` (the abstract machine, in the manner of section 6.5 of the Java Virtual Machine
  Specification), `Interpreter`.
* `WorkQueue`, `ThreadPool`; `GuardedHeap`; `Numbers`, `StandardNumbers`.

## Where the code does not do what it should

* Folding updates a pointer that its caller does not see when the folded expression is an operand. The
  folded number then takes part in the same operation again: PRINT (1 + 2) * X prints 5 * X, and
  IF 1 + 2 < X is false for X == 4. `FoldingExact` has the exact condition.
* A zero-byte request to the explicit allocator gets a block without room for links. Freeing it harms the
  heap exactly when it has no free neighbour; mm_malloc(0), mm_malloc(1) and a free of the first do it.
* mm_realloc copies to address 0 when the heap is exhausted.
* Unmapping a page that lies under a large page leaves it mapped, and reports success.
* In the page allocation system call the result of memory_map goes unchecked: with pages left, but not
  more than tables are missing, the page stays unmapped and clearing it faults. Process set-up installs
  all tables or uses up all pages, so in runs from boot it does not come to that. The documentation of
  the call promises that memory previously at the address is freed; the code keeps it in use.
* strtoul takes characters after 9 for digits when the base is above 10, and from base 18 on misreads
  letters: "1:" in base 16 is 26. It ends "0xg" at the g, gives strings without a number an end that is not
  their start, and makes 1 of "-18446744073709551616". `StandardNumbers` has the exact condition under which
  it does what section 7.22.1.4 of ISO/IEC 9899:2011 says.
* The parser accepts a comparison without an operator. No comparison and no jump is compiled for it: an IF
  always takes its first branch and a WHILE never ends. Text between ELSE and END IF that is no sequence of
  statements is dropped.
* The guarded heap compares a freed pointer with 4096 times the size of the heap, so that pointers past
  the heap end in a segmentation fault instead of an invalid free; and it takes bytes in a payload that
  look like a header for one. On a heap filled to its last page the check for leaks at exit faults itself.
* With no workers the thread pool leaves all work in the queue.
* A new node of the work queue gets a back link to itself; only the tail's back link is ever used.

## Model

| member | source | states |
|---|---|---|
| Folding.FoldOutcome | assembly-compiler/src/compile.c:164-201 | folding divides by zero (or overflows in a division) inside the compiler exactly when a constant subexpression traps, and yields a number exactly for a constant expression, namely its value |
| Folding.FoldConstant | assembly-compiler/src/compile.c:164-201 | an all-constant tree that does not trap folds to one number equal to its wrapped 64-bit value |
| Folding.ConstantValueIsItsMeaning | assembly-compiler/src/compile.c:178-196 | the constant that folding computes is what the expression means in every store |
| Folding.FoldWithoutPairs | assembly-compiler/src/compile.c:164-201 | folding a tree without constant pairs is the identity |
| Folding.FoldedConstantValue | assembly-compiler/src/compile.c:195-196 | the tree left behind when only the leftmost number was overwritten: its value is the operations replayed from the new number |
| Folding.StableFoldKeepsMeaning | assembly-compiler/src/compile.c:164-201 | the tree left behind has the old meaning in every store whenever replaying the operations on each folded result changes nothing |
| Folding.NoPairIsStable | assembly-compiler/src/compile.c:164-201 | trees without constant pairs meet that condition |
| Folding.ConstantsKeptIffStable | assembly-compiler/src/compile.c:195-196 | every constant subexpression keeps its value if and only if the replay condition holds |
| Folding.FoldIdentityUpToLeftmost | assembly-compiler/src/compile.c:195-196 | a folded constant tree differs from the original at most in its leftmost number if and only if all right operands are neutral |
| Folding.FoldIdentityIff | assembly-compiler/src/compile.c:164-201 | folding leaves a tree unchanged if and only if the value written at every constant subexpression is already the number there |
| Folding.FoldChangesMeaning | assembly-compiler/src/compile.c:18-25 | PRINT (1 + 2) * X prints 5 * X: a pointer update that is lost changes the meaning |
| FoldingExact.PairWithVariableIff | assembly-compiler/src/compile.c:164-201 | one constant operation beside a variable, on either side of any operation: folding keeps the meaning in every store if and only if replaying the operation on its result changes nothing |
| FoldingExact.OperandKeptIff | assembly-compiler/src/compile.c:164-201 | one constant subexpression of any size in any context of operations whose other leaves are different variables: the operand keeps its meaning in every store if and only if the replay condition holds, or a divisor is 0 and traps either way |
| FoldingExact.PrintKeptIff | assembly-compiler/src/compile.c:18-25 | the same for the expression of a PRINT, which is always kept when it is constant |
| FoldingExact.ChangeShows | assembly-compiler/src/compile.c:164-201 | wherever the condition fails there are values of the variables that show it |
| FoldingExact.MaskedExample | assembly-compiler/src/compile.c:164-201 | X / (0 / (2 - 1)) is a case in which a trapping division hides the change |
| FoldingExact.CondKeptIff | assembly-compiler/src/compile.c:85-91 | a comparison with <, = or > of such an expression with an expression of other variables keeps its outcome in every store under exactly the same condition |
| FoldingExact.ConstantCondKeptIff | assembly-compiler/src/compile.c:85-91 | a comparison of two constants keeps its outcome if and only if their replays compare the same way |
| FoldingExact.FoldChangesComparison | assembly-compiler/src/compile.c:85-91 | IF 1 + 2 < X with X == 4 turns from true to false |
| Words.PowerOfTwoTest | assembly-compiler/src/compile.c:205-206 | v & (v - 1) is 0 exactly for the powers of two |
| Words.Log2OfPow2 | assembly-compiler/src/compile.c:207-207 | the logarithm of a power of two is its exponent |
| Words.ShiftIsMultiplication | assembly-compiler/src/compile.c:203-213 | a left shift by k is wrapped multiplication by 2^k for every operand |
| Words.TruncDivLaw | assembly-compiler/src/compile.c:178-194 | division of the source and of the machine: a == b * q + r, the remainder is smaller than the divisor and has the sign of a |
| TeenyBasic.ArithLaws | assembly-compiler/src/compile.c:178-194 | what the operators mean: right modulo 2^64, subtraction undoes addition, quotients are cut off toward zero, and only a division by zero or of the smallest number by -1 fails |
| Machine.ConditionsCompare | assembly-compiler/src/compile.c:50-52 | cmp with the conditional jumps compares signed 64-bit values, overflow included |
| CodeGen.EmitLabels | assembly-compiler/src/compile.c:85-160 | under any nesting, a piece of code defines exactly the labels that its counters passed, each once, and jumps only to those |
| CodeGen.AssembledLabels | assembly-compiler/src/compile.c:14-162 | in the assembly of any program every label is defined once and every jump resolves |
| ExprSimulation.DivideAfterCqto | assembly-compiler/src/compile.c:62-67 | cqto and idiv divide as C does, or raise the divide error in the same cases |
| ExprSimulation.RunOperands | assembly-compiler/src/compile.c:41-48 | operand code leaves both values in place, restores rsp, changes nothing at or above it and uses at most max(d(left), 1 + d(right), 2) words |
| ExprSimulation.RunShift | assembly-compiler/src/compile.c:203-213 | the shift form of a multiplication by a power of two computes the wrapped product |
| ExprSimulation.RunExpr | assembly-compiler/src/compile.c:34-74 | expression code leaves the value in rdi or traps exactly when the source does, restores rsp, changes no word at or above it and stays within its stack depth |
| ExprSimulation.RunCond | assembly-compiler/src/compile.c:50-52 | a comparison leaves the order of its two operands in the flags; without an operator both sides are evaluated and no comparison is made |
| StmtSimulation.SimulateIf | assembly-compiler/src/compile.c:85-131 | IF with and without ELSE: code and source agree on output, variables, trap and divergence |
| StmtSimulation.SimulateWhile | assembly-compiler/src/compile.c:132-160 | WHILE: the same, for every number of iterations |
| StmtSimulation.Simulate | assembly-compiler/src/compile.c:14-162 | the code of every statement simulates the statement, under any nesting and for every amount of fuel |
| CompilerCorrectness.CrashIff | assembly-compiler/src/compile.c:164-201 | the compiler itself traps exactly when an expression that it folds holds a trapping constant |
| CompilerCorrectness.FoldKeepsRuns | assembly-compiler/src/compile.c:18-25 | a program that folding does not harm has the same runs after it |
| CompilerCorrectness.WholeProgram | assembly-compiler/src/compiler.c:19-43 | from any entry state the assembled program reaches a configuration that agrees with the source run for every amount of fuel |
| CompilerCorrectness.EndsMatch | assembly-compiler/src/compiler.c:19-43 | the machine never gets stuck, and whenever it has stopped some amount of fuel gives the source the matching end |
| CompilerCorrectness.FinishesIff | assembly-compiler/src/compile.c:14-162 | the source finishes with given output and variables if and only if the code returns so, with the caller frame intact |
| CompilerCorrectness.TrapsIff | assembly-compiler/src/compile.c:14-162 | the source traps after given output if and only if the code raises a divide error there |
| CompilerCorrectness.DivergesIff | assembly-compiler/src/compile.c:14-162 | the source runs forever if and only if the code does; whether or not the run ends, the output after n steps is part of the output of the source with fuel n, and every output of the source is reached exactly |
| CompilerCorrectness.OutputWithin | assembly-compiler/src/compile.c:14-162 | at every moment of every run the code has printed nothing that the source does not print |
| CompilerCorrectness.OutputReached | assembly-compiler/src/compile.c:14-162 | whatever the source has printed with some fuel, the code has printed exactly that at some moment |
| CompilerCorrectness.MissingWhileNeverReturns | assembly-compiler/src/compile.c:140-158 | the code of a WHILE whose comparison has no operator never returns |
| CompilerCorrectness.MissingIfTakesFirst | assembly-compiler/src/compile.c:94-131 | the code of an IF whose comparison has no operator returns exactly as its first branch does, once both sides evaluate; the ELSE branch is never taken |
| CompilerCorrectness.CallsAligned | assembly-compiler/src/compiler.c:26-28 | every print_int call happens with rsp at the bottom of the frame, 16-byte aligned as section 3.2.2 of the System V AMD64 ABI requires |
| CompilerCorrectness.CompilerCorrect | assembly-compiler/src/compile.c:14-162 | a program whose folding is safe compiles, its labels resolve, and its code finishes, traps or diverges exactly as the program does and prints the same all along the run, also when the run never ends |
| Compiler.StoreResult | assembly-compiler/src/compile.c:180-196 | the in-place update of the left number, as the specification of folding describes it |
| Compiler.ComputeFolds | assembly-compiler/src/compile.c:164-201 | the in-place folding on a mutable tree refines the folding function, crash included |
| Compiler.FoldOperands | assembly-compiler/src/compile.c:85-91 | folding a comparison rewrites its operands and never the comparison |
| Compiler.CodeWriter.CheckPowerTwo | assembly-compiler/src/compile.c:203-213 | writes the shifted code exactly when the right operand is a power of two above 1 |
| Compiler.CodeWriter.CompileExpr | assembly-compiler/src/compile.c:14-74 | writes exactly the specified code of the expression |
| Compiler.CodeWriter.CompilePrint | assembly-compiler/src/compile.c:18-25 | folds in place and writes the code of the folded PRINT |
| Compiler.CodeWriter.CompileIf | assembly-compiler/src/compile.c:85-131 | folds the condition, writes both branches and advances the label counters as specified |
| Compiler.CodeWriter.CompileWhile | assembly-compiler/src/compile.c:132-160 | the same for WHILE |
| Compiler.CodeWriter.CompileAll | assembly-compiler/src/compile.c:26-33 | a sequence is compiled statement by statement, with the counters threaded through |
| Compiler.CodeWriter.CompileStmt | assembly-compiler/src/compile.c:14-162 | compile_ast writes exactly the specified code, or dies exactly where folding traps |
| Compiler.CodeWriter.CompileFile | assembly-compiler/src/compiler.c:55-76 | header, program and footer are the assembled program of which correctness is proved |
| RoundTrip.ParenthesisedRoundTrip | assembly-compiler/src/parser.c:140-202 | parsing the fully parenthesised text of any expression gives back that expression and consumes the whole text |
| RoundTrip.FactorRoundTrip | assembly-compiler/src/parser.c:160-176 | the same for a factor anywhere in a longer text |
| RoundTrip.NumText | assembly-compiler/src/parser.c:140-156 | every 64-bit number, the smallest included, is written as a token that strtol reads back |
| RoundTrip.ConstantRead | assembly-compiler/src/parser.c:140-156 | every integer constant of C, decimal, octal or hexadecimal, with or without a sign, is read as its value if that fits in 64 bits, and refused otherwise |
| RoundTrip.OnlyConstantsRead | assembly-compiler/src/parser.c:140-156 | nothing else but the empty string is read as a number |
| RoundTrip.SumNests | assembly-compiler/src/parser.c:178-202 | chains without parentheses nest to the left at both precedence levels, and * and / bind tighter |
| ProgramRoundTrip.ProgramReadBack | assembly-compiler/src/parser.c:363-372 | parsing the text of any program, with IF, ELSE and WHILE nested in any way, comparisons with or without an operator and comment lines wherever a statement may stand, gives back exactly that program |
| ProgramRoundTrip.CommentSkipped | assembly-compiler/src/parser.c:213-215 | a comment line in front of a statement is passed over, up to and including its newline |
| ProgramRoundTrip.CommentsIgnored | assembly-compiler/src/parser.c:213-215 | a program parses to the same tree with its comments and without them |
| Syntax.SkipLine | assembly-compiler/src/parser.c:131-138 | ends right behind the first newline, or at the end of the text when there is none |
| Syntax.CharacterClasses | assembly-compiler/src/parser.c:19-44 | which characters are spaces, operators, variables, parentheses and comment starts |
| Grammar.AcceptedIsGrammatical | assembly-compiler/src/parser.c:363-372 | every text that is accepted, and its tree, obey a grammar stated without the parser: keywords, the word after END, operators, nesting, comments and the end of the text |
| Grammar.StatementRead | assembly-compiler/src/parser.c:212-321 | so for every statement and every end of a sequence, anywhere in a text |
| Grammar.ExpressionRead | assembly-compiler/src/parser.c:191-202 | so for every expression: sums of products of factors, nested to the left |
| Grammar.TokenRead | assembly-compiler/src/parser.c:84-120 | a token is a whole word of at most 100 characters; there is none only at the end of the text or in front of a longer word |
| ProgramRoundTrip.StatementRoundTrip | assembly-compiler/src/parser.c:212-321 | every statement is read back where it stands, and the position is right behind it |
| ProgramRoundTrip.SequenceRoundTrip | assembly-compiler/src/parser.c:323-361 | a sequence is read back statement by statement, up to the end of the text, ELSE, END IF or END WHILE |
| ProgramRoundTrip.EndOfSequence | assembly-compiler/src/parser.c:217-243 | the end of a sequence is noticed and the position restored to where it was |
| ProgramRoundTrip.MissingOperatorIff | assembly-compiler/src/parser.c:204-208 | a comparison is accepted without an operator if and only if both expressions are there and the next character after the first that is no space is none of <, = and > |
| EndToEnd.TextToCode | assembly-compiler/src/compiler.c:45-77 | from text to machine code: the text of any program whose folding is safe is parsed, compiled without a crash, its labels resolve, and the code finishes, traps or diverges exactly as the program does and prints the same all along the run |
| EndToEnd.MissingOperatorText | assembly-compiler/src/parser.c:204-208 | WHILE (1)(2), PRINT (3), END WHILE is accepted, with the null character as its operator |
| EndToEnd.BlockReadBack | assembly-compiler/src/compiler.c:57-68 | the parse tree of a written program stands for that program |
| Parser.Reader.Advance | assembly-compiler/src/parser.c:60-70 | skips spaces and takes the next character, or reports the end |
| Parser.Reader.TryAdvance | assembly-compiler/src/parser.c:74-82 | takes a character of the wanted kind and puts any other back |
| Parser.Reader.AdvanceUntilSeparator | assembly-compiler/src/parser.c:84-120 | reads a token up to a space, an operator or the end, and gives up after 100 characters |
| Parser.Reader.SkipToNextLine | assembly-compiler/src/parser.c:131-138 | moves behind the next newline, or to the end |
| Parser.Reader.ParseFactor | assembly-compiler/src/parser.c:160-176 | parenthesised expression, variable or number, as the grammar function says |
| Parser.Reader.ParseTerm | assembly-compiler/src/parser.c:178-189 | the loop of a term refines the grammar function, and ends |
| Parser.Reader.ParseExpression | assembly-compiler/src/parser.c:191-202 | the loop of an expression refines the grammar function, and ends |
| Parser.Reader.ParseComparison | assembly-compiler/src/parser.c:204-208 | a comparison; a missing operator is accepted as the null character |
| Parser.Reader.ParseIf | assembly-compiler/src/parser.c:259-293 | IF with optional ELSE up to END IF, or nothing |
| Parser.Reader.ParseWhile | assembly-compiler/src/parser.c:294-317 | WHILE up to END WHILE, or nothing |
| Parser.Reader.ParseStatement | assembly-compiler/src/parser.c:212-321 | one statement after any comments, or the end of a sequence with the position restored, as the grammar function says |
| Parser.Reader.ParseSequence | assembly-compiler/src/parser.c:323-361 | statements up to the end of the sequence; it ends on every text although positions are restored |
| Parser.ParseProgram | assembly-compiler/src/parser.c:363-372 | the whole text, with nothing left over |
| ExplicitLayout.MallocInvariant | malloc/src/mm-explicit.c:223-257 | malloc of any size, 0 included, keeps the whole heap invariant (tiling, alignment, the list of free blocks, no adjacent free blocks) and returns a block with room for the request |
| ExplicitLayout.FreeInvariant | malloc/src/mm-explicit.c:262-273 | free keeps the whole heap invariant, coalescing on both sides leaving no adjacent free blocks, if and only if the block has room for links or a free neighbour |
| ExplicitLayout.TakeInvariant | malloc/src/mm-explicit.c:149-162 | splitting a block or using it whole keeps the invariant |
| ExplicitLayout.MallocGranted | malloc/src/mm-explicit.c:223-257 | what a request is granted: the least multiple of 16 with room for it and both tags, cut off exactly when at least 32 bytes remain, which then are a free block right behind; otherwise the whole free block; always less than the request plus 48 |
| ExplicitLayout.MallocFailsIff | malloc/src/mm-explicit.c:223-257 | a request fails if and only if no free block has room for it and the heap cannot grow by its block |
| ExplicitLayout.FreedIsReused | malloc/src/mm-explicit.c:66-83 | the block that a free makes is the first that the next request gets, if it has room |
| ExplicitLayout.MallocKeepsLive | malloc/src/mm-explicit.c:223-257 | malloc moves and resizes no live block |
| ExplicitLayout.FreeKeepsLive | malloc/src/mm-explicit.c:262-273 | free changes no other live block |
| ExplicitLayout.WalkMeetsAll | malloc/src/mm-explicit.c:192-203 | a walk by sizes meets exactly the blocks up to the break, and their sizes add up |
| ExplicitLayout.GrowsOnlyWhenNothingFits | malloc/src/mm-explicit.c:227-245 | the heap grows only when no run of adjacent free blocks holds the request |
| ExplicitLayout.PayloadsApart | malloc/src/mm-explicit.c:127-129 | payloads are 16-byte aligned, inside the heap and pairwise disjoint |
| ExplicitLayout.RunInvariant | malloc/src/mm-explicit.c:134-301 | for runs that may ask for zero bytes: the invariant holds after every sequence of calls in which no block without room for links and without a free neighbour is freed |
| ExplicitLayout.RunInvariantIff | malloc/src/mm-explicit.c:134-301 | and the invariant holds all along a run if and only if the run is such |
| ExplicitLayout.RunOfBytes | malloc/src/mm-explicit.c:134-301 | after every sequence of malloc of at least one byte, free of live blocks and realloc while memory lasts: the whole invariant holds and every block has at least 32 bytes |
| ExplicitMemory.RoomForLinksIff | malloc/src/mm-explicit.c:224-225 | a block has room for two tags and two links if and only if at least one byte was requested |
| ExplicitMalloc.ZeroRequestDestroysNeighbour | malloc/src/mm-explicit.c:223-273 | on any fresh heap with room: mm_malloc(0), mm_malloc(1) and freeing the first leaves a header of 0 at the live second block |
| ExplicitMemory.UnlinkMiddle | malloc/src/mm-explicit.c:102-106 | the pointer writes of a removal from the middle leave the links of the shortened list |
| ExplicitMemory.PushRepresented | malloc/src/mm-explicit.c:66-84 | the byte writes of an insertion leave memory representing the longer list and every live payload unchanged |
| ExplicitMemory.Retag | malloc/src/mm-explicit.c:46-55 | rewriting the two tags of one block makes memory represent the changed layout |
| ExplicitMalloc.Allocator.RemoveFromFreelist | malloc/src/mm-explicit.c:86-108 | all four pointer cases remove exactly that block |
| ExplicitMalloc.Allocator.AddToFreelist | malloc/src/mm-explicit.c:66-84 | the block is put in front, tags and links included; the bytes written are stated for every block, and represent the longer list if the block has room for links |
| ExplicitMalloc.Allocator.FindFit | malloc/src/mm-explicit.c:114-124 | the first listed block that is large enough, taken off the list, or none |
| ExplicitMalloc.Allocator.SplitBlock | malloc/src/mm-explicit.c:149-162 | the rest becomes a listed free block and the last block is kept right |
| ExplicitMalloc.Allocator.CoalesceLeft | malloc/src/mm-explicit.c:164-190 | merging with a free left neighbour found through its footer |
| ExplicitMalloc.Allocator.CoalesceRight | malloc/src/mm-explicit.c:192-218 | merging with a free right neighbour |
| ExplicitMalloc.Allocator.UseBlock | malloc/src/mm-explicit.c:229-239 | split or whole, as the layout function says (see ExplicitLayout.MallocGranted) |
| ExplicitMalloc.Allocator.GrowHeap | malloc/src/mm-explicit.c:241-256 | a new last block at the break |
| ExplicitMalloc.Allocator.MmMalloc | malloc/src/mm-explicit.c:223-257 | on bytes, for every request: refines the layout function, keeps memory and layout in agreement and every live payload byte; the block is the least multiple of 16 with room for request and tags, or a free block used whole with less than 32 bytes to spare |
| ExplicitMalloc.Allocator.MmFree | malloc/src/mm-explicit.c:262-273 | the same for free, exactly when the block has room for links or a free neighbour, so always when no block is smaller than 32 bytes; otherwise its footer, and with an empty list the header after it, is overwritten; a null pointer does nothing |
| ExplicitMalloc.Allocator.MmRealloc | malloc/src/mm-explicit.c:279-301 | realloc carries over the first min(old capacity, new size) bytes and changes no other live payload; it crashes exactly when the heap is exhausted and there are bytes to copy; where no block is smaller than 32 bytes it keeps the heap valid and the blocks so |
| ImplicitLayout.CoalesceKeeps | malloc/src/mm-implicit.c:64-84 | coalescing keeps the total bytes and exactly the allocated blocks, in place |
| ImplicitLayout.CoalesceSeparates | malloc/src/mm-implicit.c:64-84 | after coalescing no two free blocks touch |
| ImplicitLayout.CoalesceFixpoint | malloc/src/mm-implicit.c:64-84 | a heap without touching free blocks is left as it is |
| ImplicitLayout.RunInsideBlock | malloc/src/mm-implicit.c:64-84 | every run of adjacent free blocks lies inside one block afterwards |
| ImplicitLayout.GrowsOnlyWhenNothingFits | malloc/src/mm-implicit.c:126-160 | the heap grows only when no contiguous free run held the request before the call |
| ImplicitLayout.MallocLive | malloc/src/mm-implicit.c:126-160 | malloc adds exactly one live block, the least multiple of 16 with room for request and header, or a free block of that size, and keeps all others |
| ImplicitLayout.MallocFailsIff | malloc/src/mm-implicit.c:126-160 | a request fails if and only if after coalescing no free block has room for it and the heap cannot grow by its block |
| ImplicitLayout.MallocSized | malloc/src/mm-implicit.c:126-160 | sizes stay legal and payloads 16-byte aligned |
| ImplicitLayout.LiveApart | malloc/src/mm-implicit.c:103-105 | live blocks are disjoint and inside the heap |
| ImplicitLayout.ReleaseLive | malloc/src/mm-implicit.c:165-174 | free removes exactly its block from the live ones |
| ImplicitMalloc.Allocator.CoalesceBlocks | malloc/src/mm-implicit.c:64-84 | the one-pass loop over headers refines the coalescing function and keeps every live payload byte |
| ImplicitMalloc.Allocator.FindFit | malloc/src/mm-implicit.c:90-100 | the first free block that is large enough, or none |
| ImplicitMalloc.Allocator.UseBlock | malloc/src/mm-implicit.c:55-62 | split, or the whole block |
| ImplicitMalloc.Allocator.MmMalloc | malloc/src/mm-implicit.c:126-160 | on bytes: refines the layout function and keeps every live payload byte |
| ImplicitMalloc.Allocator.MmFree | malloc/src/mm-implicit.c:165-174 | clears the allocated bit of exactly that block |
| PageTable.DescendFromPath | mini-operating-system/k-vmiter.cc:28-40 | from any position on the path of an address, going down ends where a walk from the root ends |
| PageTable.OnPathKept | mini-operating-system/util.c:4-11 | a cached position stays on its path while other iterators install tables |
| PageTable.InstallForest | mini-operating-system/k-vmiter.cc:85-94 | a new table keeps every table in one place of one page table |
| PageTable.InstallTranslate | mini-operating-system/k-vmiter.cc:85-94 | installing a table where nothing was mapped changes no translation in any page table |
| PageTable.InstallFacts | mini-operating-system/k-vmiter.cc:87-93 | allocate, zero and install: no translation changes, no table moves, the walk goes on into the new table |
| PageTable.LeafWriteFrame | mini-operating-system/k-vmiter.cc:96-98 | a level-0 write changes the translation of its own page in its own page table only |
| PageTable.BlockSameWalk | mini-operating-system/k-vmiter.hh:153-155 | all addresses that one entry translates end their walk at that entry |
| PageTable.PermBits | mini-operating-system/k-vmiter.cc:30-30 | upper levels never take away the present bit or the bits that are no permissions |
| Translation.PermissionsOfAllLevels | mini-operating-system/k-vmiter.cc:28-40 | an address is writable, or open to the user, if and only if the entries of all levels on its walk say so |
| Translation.MovesAlong | mini-operating-system/k-vmiter.hh:156-167 | in the range of one entry, a large page included, the physical address keeps its distance from the address, with the same permissions |
| Translation.EntryLeadsToPage | mini-operating-system/k-vmiter.hh:156-167 | an entry made of a page address and flags leads to that page; in a large page bit 12 is one of the flags |
| Translation.AddressParts | mini-operating-system/x86-64.h:56-65 | the four table indices and the offset make up the 48 bits of the address that are translated |
| Translation.RangeEnd | mini-operating-system/k-vmiter.hh:153-155 | the end of a range lies right behind the addresses that the entry translates |
| PhysicalPages.PhysicalMemory.Kalloc | mini-operating-system/kernel.c:113-127 | a page-aligned address outside all ranges kept back for the kernel, its stack, devices and the null page, not in use before and marked as used, one free page less; every page below it is kept back or in use; or 0 exactly when that holds of all pages of memory |
| PhysicalPages.AllocatableIff | mini-operating-system/k-hardware.cc:329-346 | the tests for reserved and kernel pages let an address through if and only if it lies in none of the ranges kept back |
| PhysicalPages.TakeOne | mini-operating-system/kernel.c:113-127 | taking a free page leaves exactly one free page less |
| Vmiter.Iterator.Down | mini-operating-system/k-vmiter.cc:28-40 | follows table entries as far as they go; panics exactly when the entry there points beyond 4 GiB |
| Vmiter.Iterator.RealFind | mini-operating-system/k-vmiter.cc:42-58 | from any position on a path, the shortcut and the pointer arithmetic give the same level, entry and permissions as a walk from the root |
| Vmiter.Shortcut | mini-operating-system/k-vmiter.cc:52-55 | below the level where two addresses part, only the index changes, and it can be read off the entry pointer |
| Vmiter.Iterator.ReadersTranslate | mini-operating-system/k-vmiter.hh:156-180 | pa() and perm() are the translation of the current address |
| Vmiter.Iterator.Next | mini-operating-system/k-vmiter.cc:60-66 | moves to the next page or past the range of an absent entry, in which nothing is mapped |
| Vmiter.Iterator.NextRange | mini-operating-system/k-vmiter.hh:206-208 | moves to the end of the current range, as a fresh walk would |
| Vmiter.Iterator.TryMap | mini-operating-system/k-vmiter.cc:68-100 | on success exactly the current page gets the new entry and every other translation in every page table is unchanged; it fails exactly when fewer pages are free than tables are missing, and then no translation changes; unmapping above level 0 does nothing |
| Vmiter.MappedAs | mini-operating-system/k-vmiter.cc:96-98 | a page mapped so has exactly the given address and permissions, or none without the present bit |
| Vmiter.UnmapIff | mini-operating-system/k-vmiter.cc:85-99 | mapping with no permissions leaves the page unmapped if and only if the walk reaches level 0 or nothing was present |
| Vmiter.TryUnmap | mini-operating-system/k-vmiter.cc:85-99 | try_map with no permissions on a fresh iterator does to memory exactly what that statement is about, and reports success in every case |
| Vmiter.LargePageStaysMapped | mini-operating-system/k-vmiter.cc:85-99 | a page under a large page stays mapped |
| Ptiter.VisitsAll | mini-operating-system/k-vmiter.cc:103-140 | the visiting order lists every table but the root exactly once, children before parents |
| Ptiter.TableIterator.Down | mini-operating-system/k-vmiter.cc:110-140 | without a stack, moves to exactly the next table of that order, reading only tables that are still to be visited, and terminates |
| Ptiter.TableIterator.Go | mini-operating-system/k-vmiter.cc:103-108 | starts at the first table of the order, or is done |
| Ptiter.TableIterator.Next | mini-operating-system/k-vmiter.hh:242-244 | moves to the following table of the order, or is done |
| Ptiter.FreeKeeps | mini-operating-system/k-vmiter.hh:88-97 | overwriting a visited page leaves the tables still to be visited alone |
| Ptiter.FreeTables | mini-operating-system/k-vmiter.hh:88-97 | the documented loop frees every table but the root exactly once, whatever freeing writes into the pages |
| Isolation.NothingShared | mini-operating-system/kernel.c:144-189 | no physical page but the console is user-accessible in the page tables of two processes |
| Isolation.KernelOutOfReach | mini-operating-system/k-hardware.cc:329-346 | no page of a page table, and but for the console no page in a range kept back for the kernel, its stack, devices or the null page, is user-accessible; the ranges are given by their bounds |
| Isolation.GrowIsolated | mini-operating-system/kernel.c:150-168 | installing tables and mapping confined pages keeps isolation |
| Isolation.RootIsolated | mini-operating-system/k-hardware.cc:290-296 | a zeroed free page can become the page table of a new process |
| Kernel.Kernel.MemoryMap | mini-operating-system/util.c:13-15 | a fresh iterator and try_map: maps the page, or fails, exactly when fewer pages are free than tables are missing, with the page unmapped and no translation changed |
| Kernel.Kernel.MapKernelSpace | mini-operating-system/util.c:4-11 | the loop with a cached iterator, under which each round installs tables: unless the pages ran out, every address below the first process address is mapped to itself without user access; isolation and all tables are kept |
| Kernel.Kernel.MapShared | mini-operating-system/kernel.c:151-152 | then page 0 is unmapped and the console opened, and nothing else below the first process address changes |
| Kernel.Kernel.LoadSegment | mini-operating-system/kernel.c:159-168 | every page of the segment is mapped to a page given to the process, unless the pages ran out; it stops only when pages run out or at an address that cannot be mapped |
| Kernel.Kernel.GivePage | mini-operating-system/kernel.c:165-166 | a free page becomes the property of the process and is mapped at the address, exactly when there are more free pages than missing tables; no other translation changes |
| Kernel.Kernel.KallocPagetable | mini-operating-system/k-hardware.cc:290-296 | a new page table that maps nothing, different from all others |
| Kernel.Kernel.ProcessSetup | mini-operating-system/kernel.c:144-189 | setting up a process keeps isolation and gives it a page table of its own; unless the pages ran out it has the kernel mappings, every page of its segments and its stack |
| Kernel.Kernel.SyscallPageAlloc | mini-operating-system/kernel.c:336-345 | on documented arguments: -1 exactly when no page is free; a fault exactly when pages are free but not more than tables are missing; otherwise a free page, zeroed, mapped for the process and nothing else changed. The page that was there before stays in use and owned |
| Kernel.FaultingState | mini-operating-system/kernel.c:336-345 | from any state with two free pages: a process with an empty page table and one page left, for which the call faults |
| ProcessSpace.SetupReady | mini-operating-system/kernel.c:144-189 | after a set-up that did not run out of pages, all tables for the addresses of the process are there, so that its page allocations need none |
| Kernel.Kernel.UserWrite | mini-operating-system/kernel.c:244-261 | what a process stores changes no translation; it faults exactly when the page is not writable for users |
| Kernel.MayWriteIff | mini-operating-system/k-vmiter.hh:180-192 | a process may store at an address if and only if it is mapped and the entries of all levels are writable and open to the user |
| Kernel.WordAddress | mini-operating-system/x86-64.h:59-64 | a store goes to the word of physical memory that the translated address lies in |
| Kernel.Kernel.Run | mini-operating-system/kernel.c:60-95 | isolation holds after every run of set-ups, page allocations and stores; the run stops only at a failed set-up, so no page allocation ever faults in it |
| Numbers.Strtoul | mini-operating-system/lib.cc:160-208 | spaces, sign, prefix and digits: the saturated value, negated after a minus sign, and the position of the first character that is no digit |
| Numbers.ReadDigits | mini-operating-system/lib.cc:178-203 | on any digit string the result saturates exactly when the number is at least 2^64 |
| Numbers.OverflowTest | mini-operating-system/lib.cc:191-195 | the overflow test before the multiplication is exact |
| Numbers.FillNumbuf | mini-operating-system/lib.cc:280-296 | writes the digits and the terminator within the 24-byte buffer, lower-case digits for a negative base and upper-case digits otherwise |
| Numbers.WrittenCase | mini-operating-system/lib.cc:280-296 | all digits are in the case that was asked for |
| Numbers.RoundTrip | mini-operating-system/lib.cc:160-208 | for every 64-bit value and base, what fill_numbuf writes strtoul reads back, stopping at the terminator |
| Numbers.DigitsRead | mini-operating-system/lib.cc:182-187 | an upper-case digit is read right if and only if it lies outside the first range; always for bases up to 17 |
| Numbers.MisreadPunctuation | mini-operating-system/lib.cc:182-187 | for every character and base up to 36: the digit value read is that of the C standard if and only if the character is not one of those after 9 that the first range takes in |
| StandardNumbers.SubjectLongest | mini-operating-system/lib.cc:160-208 | the number that the C standard sees is the longest part, after spaces and sign, of the expected form |
| StandardNumbers.ReadRightIff | mini-operating-system/lib.cc:160-208 | for every string and base: value and end are those of the C standard if and only if a digit follows spaces, sign and prefix or there is none of these, the character that ends the digits is not misread, no digit is misread unless the number is too large anyway, and a number that is too large has no minus sign |
| StandardNumbers.MisreadExample | mini-operating-system/lib.cc:182-183 | "1:" in base 16 is read as 26 |
| StandardNumbers.BarePrefixExample | mini-operating-system/lib.cc:166-176 | "0xg" in base 16 ends at the g instead of the x |
| StandardNumbers.NoNumberExample | mini-operating-system/lib.cc:198-200 | " +z" holds no number, but its end is not its start |
| StandardNumbers.NegativeTooLarge | mini-operating-system/lib.cc:201-206 | a minus sign before a number that is too large gives 1 instead of the largest number |
| StandardNumbers.NegativeTooLargeExample | mini-operating-system/lib.cc:201-206 | so for "-18446744073709551616" |
| Bytecode.RunSafe | java-virtual-machine/jvm.c:45-167 | a class with a consistent operand-depth assignment never gets stuck, and a method returns a value exactly when it should; in every state of every run, ended or not, pc is at an instruction start with its depth, within the limits of its method, and references, array lengths and output of all earlier states are kept |
| Bytecode.ActOk | java-virtual-machine/jvm.c:52-165 | one instruction, call or return keeps the depth assignment |
| Bytecode.FuelMonotone | java-virtual-machine/jvm.c:45-167 | more fuel does not change a result |
| Interpreter.Activation.AddToXor | java-virtual-machine/jvm.c:169-226 | by opcode: the operation of that opcode on the two top operands in order, or negation of the top; not defined exactly for the quotient that is out of range |
| IntegerOps.RingLaws | java-virtual-machine/jvm.c:178-186 | add, subtract and multiply stay in 32 bits, are right modulo 2^32, and subtracting undoes adding |
| IntegerOps.DivisionLaws | java-virtual-machine/jvm.c:187-198 | quotient and remainder: a == b * q + r, the remainder is smaller than the divisor and has the sign of a |
| IntegerOps.DivisionByZero | java-virtual-machine/jvm.c:187-201 | a division by zero gives 0, and its remainder the negated dividend |
| IntegerOps.ShlBits | java-virtual-machine/jvm.c:202-204 | shifting left by k: bit i of the result is bit i - k, and the k low bits are 0 |
| IntegerOps.ShrBits | java-virtual-machine/jvm.c:205-207 | arithmetic right shift: bit i of the result is bit i + k, and the top bits copy the sign |
| IntegerOps.UshrBits | java-virtual-machine/jvm.c:208-210 | logical right shift: bit i of the result is bit i + k, and the top bits are 0 |
| IntegerOps.LogicLaws | java-virtual-machine/jvm.c:211-219 | bit i of and, or and exclusive or comes from bit i of the operands |
| Bytecode.SignedBytes | java-virtual-machine/jvm.c:307-326 | immediate bytes and offsets are the signed 8-bit and 16-bit numbers with those bytes, higher byte first |
| Bytecode.ArrayLaws | java-virtual-machine/jvm.c:405-424 | an index is good exactly when it is below the length of the array, and an array holds what was last stored at each index |
| Interpreter.Activation.InvokeVirtual | java-virtual-machine/jvm.c:234-239 | prints and pops the top, using one spare slot |
| Interpreter.Activation.Jump | java-virtual-machine/jvm.c:307-374 | compares the operands in order and jumps by the signed offset |
| Interpreter.Activation.NewArray | java-virtual-machine/jvm.c:388-397 | a zeroed array that holds its length, under a fresh reference |
| Interpreter.Activation.IAStore | java-virtual-machine/jvm.c:405-412 | stores one element of one array |
| Interpreter.Activation.IALoad | java-virtual-machine/jvm.c:414-422 | loads the element |
| Interpreter.Activation.PassArguments | java-virtual-machine/jvm.c:104-110 | moves the arguments from the stack to fresh locals in order |
| Interpreter.ExecuteInstr | java-virtual-machine/jvm.c:54-148 | byte decoding and array updates do one step of the abstract machine, in bounds |
| Interpreter.InvokeStatic | java-virtual-machine/jvm.c:97-119 | a call leaves the caller's locals and lower stack untouched, takes the arguments, pushes the result and goes on behind the instruction |
| Interpreter.Execute | java-virtual-machine/jvm.c:45-167 | the interpreter computes the result of the abstract machine for every verified class, without an index out of bounds |
| WorkQueue.Queue.Enqueue | threadpool/src/queue.c:24-36 | the linked queue appends one new node, although that node's own back link points to itself |
| WorkQueue.Queue.Dequeue | threadpool/src/queue.c:38-53 | the linked queue removes its first value; freed nodes are unreachable |
| ThreadPool.RunInvariant | threadpool/src/queue.c:24-53 | in every reachable state of every interleaving: FIFO contents, one mutex holder, each started item running or finished, and no lost wake-up (while a thread sleeps, entries are at most the woken threads yet to recheck) |
| ThreadPool.ConsumerAwake | threadpool/src/queue.c:38-53 | no wake-up is lost: with entries in the queue and a worker asleep, some worker was woken and has yet to test the queue; and unless the client holds the mutex or all workers are busy or gone, a worker can take the next step towards the queue |
| ThreadPool.AllWorkDone | threadpool/src/thread_pool.c:23-76 | when all joins have returned, every item was started exactly once, in order, and finished; the queue is empty if and only if there was a worker or no work |
| ThreadPool.OneStopEach | threadpool/src/thread_pool.c:23-37 | each worker consumes exactly one null entry: as many are taken as workers have exited, and an exited worker takes no further step |
| ThreadPool.NoDeadlock | threadpool/src/thread_pool.c:67-76 | after finish has begun some thread can always take a step until all workers are joined |
| ThreadPool.Progress | threadpool/src/thread_pool.c:23-37 | every step after finish has begun, except an unsignalled wake-up, comes nearer to the end |
| ThreadPool.RunsEnd | threadpool/src/thread_pool.c:67-76 | so the length of every run is bounded by its unsignalled wake-ups |
| GuardedHeap.Heap.Malloc | signal-handler/myasan.c:112-128 | a new chunk at the current page; the layout (tiling, headers, accessible exactly the live payload pages) is kept |
| GuardedHeap.Heap.Free | signal-handler/myasan.c:130-166 | the verdict for every pointer, and the freed chunk and only it closed |
| GuardedHeap.JudgeRightIff | signal-handler/myasan.c:130-160 | free calls live, freed and all other pointers by their right names if and only if payload bytes do not imitate a header for that pointer and the pointer is not past the heap but below the wrong bound |
| GuardedHeap.PastHeapPointer | signal-handler/myasan.c:136-136 | one page past the heap: an invalid free that ends in a segmentation fault |
| GuardedHeap.ImitateHeader | signal-handler/myasan.c:143-152 | a program that writes header bytes into its own allocation has the second page of it freed as an allocation |
| GuardedHeap.GuardsInaccessible | signal-handler/myasan.c:50-65 | the byte after each payload and every header are inaccessible |
| GuardedHeap.PageOwner | signal-handler/myasan.c:112-128 | every page below the current page is header or payload of a chunk |
| GuardedHeap.Heap.CheckForLeaks | signal-handler/myasan.c:67-89 | reports the lowest live chunk if and only if one exists; the loop reads one page past the last chunk, which faults exactly when the heap is filled to its last page and nothing is live |
| GuardedHeap.Heap.UserWrite | signal-handler/myasan.c:112-128 | writes to accessible pages keep the layout |

## Left out

- TeenyBASIC program errors at run time other than division, and printing of the syntax tree: not modelled.
- Signed overflow in the folding arithmetic and in the interpreter's arithmetic is undefined in C; the model wraps, except for the smallest number divided by -1, which traps.
- Label counters and stack addresses are unbounded numbers.
- FoldingExact.OperandKeptIff: with several constant subexpressions, or a variable that occurs twice, the condition is sufficient (Folding.StableFoldKeepsMeaning) but not necessary, since constants and equal variables can cancel a change.
- FoldingExact.CondKeptIff: a comparison without an operator is left out; its outcome depends only on which operands trap, and under a division that is a matter of the powers of two in the changed constant.
- Grammar.AcceptedIsGrammatical: the converse is shown for written programs (ProgramRoundTrip.ProgramReadBack); for any text it fails, since the grammar leaves open how much of a dropped ELSE part or a gap of null characters is passed over.
- mm_calloc of both allocators, mm_realloc of the implicit one, and mm_checkheap: they would add nothing new.
- ImplicitMalloc.Allocator.CoalesceBlocks: before the first allocation the code reads a header through a null pointer; the model takes that read as harmless.
- vmiter::range_perm, and the kernel page table itself: it is never loaded for a process, so isolation speaks of the page tables of processes.
- Vmiter.Iterator.TryMap: a kernel stop is modelled by a flag of the iterator, and the code's assertions are preconditions.
- Kernel.Kernel.ProcessSetup: runs in which a page cannot be allocated stop there, while the code goes on with page 0; the copying of segment data is not modelled, and a segment is given by its first page and its number of pages.
- Kernel.Kernel.SyscallPageAlloc: the address meets the documented contract.
- Boot code, interrupts, scheduling, console, keyboard and the memory viewer.
- Bytecode.RunSafe: undefined array sizes, indices and quotients end a run; shift counts outside 0 to 31 are taken modulo 32; reading class files is not modelled, so methods, constants and parameter counts are given.
- ThreadPool.AllWorkDone: no work is added after finish has begun; critical sections are single steps between taking and releasing the mutex; memory management of the pool is not modelled.
- GuardedHeap.Heap.Malloc: the heap is not exhausted, and sizes do not overflow when rounded up; of a page only the bytes that a header would occupy are modelled; memory past the heap is taken to be unmapped; the signal handler is modelled only where free runs into it.
- Numbers.FillNumbuf: bases from 8 to 16; strtol, printf formatting and the other library functions are not modelled.
- The meltdown demonstration, the password cracker, the file system exercises, timing code and test drivers.
