# Verified models of the CLRX assembler's algorithms

This project models three parts of the CLRX assembler in Dafny and proves what they are for.

**Expressions** (`amdasm/AsmExpression.cpp`, with the relocation client in `amdasm/AsmFormats.cpp`).
Words are integers modulo 2^64; bitwise operations are defined bit by bit. The parser is a
shunting-yard compiler from tokens to postfix code. Which operator binds tighter and what each operator
computes is stated without the tables that the code consults: in terms of the text and its code, and of
integers and single bits. The evaluator has two stack machines over that
code: one on words, one on linear forms "offset + sum of multiplier * section base". The proofs say
that parsing inverts printing, that accepted text is the text of an expression, that the linear
forms denote the right word for every placement of the sections, that an evaluation keeps its address
when section differences are prepared, and that the fast path, the snapshots of `.eqv` definitions and
the split relocations agree with this meaning.

**Register allocation** (`amdasm/AsmRegAlloc.cpp`, `amdasm/AsmRegAlloc.h`,
`amdasm/AsmRegAllocLive.cpp`). The interval container and the loop that fills the live ranges of one
code block, the greedy colouring step, the chunked usage log, the closure of SSA id replacements and
the construction of basic blocks.

**Kernel selections** (`amdasm/AsmFormats.cpp`). The state machine of `.kcode` and `.kcodeend`, which
shares one register counter among all kernels.

Code that changes variables step by step is modelled by methods with loops and classes with
fields; each is proved against a function of its inputs or of the old state, and the promises of the
source are then proved about that function, against a meaning that is defined without it: the
recursive value of a tree, the address under a placement of the sections, a set of points, a chain of
links, the charge of a kernel.

## Where the code differs from what one would expect

Each of these is proved, with the exact condition under which the code does meet the expectation.

- A ':' emits a deeper unfinished '?' without an error, so `a ? ( b ? c ) : d` is accepted and leaves
  two values (`ParserDepth.UnclosedChoiceIsAccepted`). Accepted text compiles to well-formed code if
  and only if no parenthesis closes over an unfinished '?' (`ParserDepth.WellFormedIffClosed`).
- An ordering comparison of two addresses of one section can change when the addresses wrap around
  (`SectionComparisons.OrderingCanBreak`); it is right if and only if the offsets are equal or both
  or neither wrap (`RelativeSoundness.CompareSound`, `SectionComparisons.ComparisonExact`).
- An evaluation that does not reckon with section differences can give another answer once they are
  prepared: a comparison can turn when an offset wraps around on the way to the first section of its
  space (`PreparedComparisons.PreparationCanTurnOrder`), and an equality can be refused because
  multiples vanish on one side only (`PreparedComparisons.VanishedMultiplesAreRefused`). A comparison
  stays as it is if and only if neither happens (`SectionDifferences.CompareRelated`); an evaluation
  that reckons with the differences always keeps its address
  (`SectionDifferences.PreparationKeepsAddress`).
- A high relocation by signed division stores the wrong half for some negative addresses
  (`LoHiReloc.NegativeAddressLosesHalf`); it is right if and only if the address is not negative or
  is a multiple of 2^32 (`LoHiReloc.RelocationKeepsField`).
- The fast path accepts a sum that an opening parenthesis follows; the parser rejects exactly that
  (`FastExpr.ParenthesisParts`).
- The backward scan for the start of a subexpression takes a symbol for an operator of three operands:
  it stops at the start if and only if the subexpression has no symbols
  (`Subexpressions.StopsAtStart`, `Subexpressions.SymbolTakesOperands`). Its only caller scans
  expressions whose symbols have been resolved.
- A kernel label inside `.kcode` with an empty selection can lose registers
  (`Kcode.LabelCanLoseRegisters`); exactly the other labels keep the accounting exact
  (`Kcode.LabelExact`).
- `Liveness::insert` cuts a range off at the end of the interval that it runs into
  (`Liveness.InsertCanFallShort`); it is set union if and only if it does not overrun that interval
  (`Liveness.InsertIsUnion`).
- The colouring loop keeps picking the front of its queue, whose order never changes, so it colours
  that node at most (`Coloring.OnlyTheFrontIsColored`); of two free nodes one is left uncoloured
  (`Coloring.SecondNodeStays`). All nodes are coloured if and only if all others are real registers
  and the front can be given a colour (`Coloring.AllColoredIff`). The step itself is sound for every
  picking order.
- The search for the code end behind a code start leaves the vector if and only if a kept mark, a
  target, or the place behind a conditional jump or call has no code end above it, as when it is the
  end of the code or lies beyond (`CodeStructure.NoEndBehindStart`, `CodeInputs.TargetBeyondCode`).
- Regions of code overlap, and their code is divided twice, if and only if the kept code start marks are
  not apart: two lie in one region, or one behind a code end is not the first split of its region
  (`CodeRegions.OverlapIffNotApart`). This happens when a kernel begins before its first split
  (`CodeInputs.MarkBeforeLoop`), and without START marks exactly when a code end is marked at offset
  zero and the first split lies behind it in its region (`CodeRegions.OverlapAtTheStart`,
  `CodeInputs.EndAtTheStart`).
- Every region passes over one split more than it uses, so a region behind regions without splits can
  miss some of its own; then a jump target is inside a block (`CodeInputs.SplitIsPassedOver`). Blocks
  are cut at every split if and only if no region with a split behind its start has fewer splits than
  code starts between it and an earlier region (`CodeDivision.LosesSomewhere`, `CodeDivision.Divide`,
  `CodeStructure.CreateCodeStructure`); without kept START marks nothing is missed
  (`CodeDivision.NoMarksLoseNothing`).
- A START mark that stands behind a later one can be dropped although its region has no code start
  (`CodeInputs.MarkOutOfOrder`); marks in the order of their places are always covered
  (`CodeRegions.MarksCovered`).
- A usage comes back from the log unchanged if and only if its flags fit into two bits and its
  alignment is zero or a power of two (`UsageLog.KeptIffPlain`, `UsageLog.PackingLoses`).

## Model

| member | source | states |
|---|---|---|
| Words.WordIdentities | amdasm/AsmExpression.cpp:631-723 | zero and all ones are neutral or absorbing for the 64-bit bitwise operations, on either side |
| Words.BitsLow | amdasm/AsmFormats.cpp:139-143 | the low k bits of a bitwise result depend on the low k bits of the operands only |
| AbsoluteMachine.Evaluate | amdasm/AsmExpression.cpp:212-419 | the loop over operator codes between two positions, whose arguments start where those before it end, gives the result of the postfix program there |
| AbsoluteMachine.Execute | amdasm/AsmExpression.cpp:242-415 | one operator pops its operands and pushes its value, with the errors of division and the trap of INT64_MIN / -1 |
| AbsoluteMachine.RunAppend | amdasm/AsmExpression.cpp:232-415 | a program in two parts acts like the first part followed by the second, which never underflows |
| AbsoluteMachine.FlagsAreSticky | amdasm/AsmExpression.cpp:281-317 | an error is never taken back |
| OperatorMeaning.SignedIs | amdasm/AsmExpression.cpp:286-317 | the signed value of a word is the integer between -2^63 and 2^63 that differs by a multiple of 2^64 |
| OperatorMeaning.SumsModulo | amdasm/AsmExpression.cpp:266-274 | sums, differences and products succeed and are exact modulo 2^64 |
| OperatorMeaning.DivisionErrors | amdasm/AsmExpression.cpp:275-318 | exactly a zero divisor fails, and exactly INT64_MIN by -1 traps in the signed case; every other operator succeeds |
| OperatorMeaning.UnsignedDivision | amdasm/AsmExpression.cpp:275-307 | the quotient q and the remainder r satisfy x = q * y + r with r below y |
| OperatorMeaning.SignedDivision | amdasm/AsmExpression.cpp:286-318 | the signed quotient rounds toward zero; the remainder is smaller than the divisor and zero or of the dividend's sign |
| OperatorMeaning.Shifts | amdasm/AsmExpression.cpp:331-363 | shifting left multiplies by 2^y modulo 2^64; shifting right divides by 2^y and rounds down, of the signed value for the signed shift |
| OperatorMeaning.LongShifts | amdasm/AsmExpression.cpp:331-363 | counts of 64 and more leave zero, and of a signed shift the sign |
| OperatorMeaning.BitwiseOperators | amdasm/AsmExpression.cpp:319-330 | each bit of the result comes from the same bits of the operands; ornot complements the second one |
| OperatorMeaning.LogicalOperators | amdasm/AsmExpression.cpp:364-369 | the logical operators answer with one or zero |
| OperatorMeaning.ComparisonAnswers | amdasm/AsmExpression.cpp:370-399 | a comparison answers with all ones or with zero |
| OperatorMeaning.UnsignedComparisons | amdasm/AsmExpression.cpp:370-399 | below, equal and above follow the order of integers, and the others are their complements |
| OperatorMeaning.SignedComparisons | amdasm/AsmExpression.cpp:376-387 | the signed comparisons are those of the words with the sign bit turned; less, equal and greater exclude each other |
| OperatorMeaning.UnaryOperators | amdasm/AsmExpression.cpp:244-258 | negation is modulo 2^64, the complement turns every bit, the logical one answers with one or zero, plus changes nothing |
| OperatorMeaning.ChoiceOperator | amdasm/AsmExpression.cpp:404-413 | a choice takes its second operand exactly when the first one is not zero |
| OperatorMeaning.NothingComputed | amdasm/AsmExpression.cpp:203-419 | an empty program yields the absolute zero |
| ExprTree.RunPostfix | amdasm/AsmExpression.cpp:232-415 | the postfix of a tree pushes exactly one value, the recursive value of the tree, and raises exactly the tree's errors |
| ExprTree.EvaluatorComputesTree | amdasm/AsmExpression.cpp:212-419 | evaluating a tree's postfix reports the tree's value, or failure exactly when a division in it is by zero |
| ExprTree.PostfixRuns | amdasm/AsmExpression.cpp:232-242 | the postfix of a tree runs on any stack without underflow and leaves one value more |
| LinearForms.Merge | amdasm/AsmExpression.cpp:517-544 | the nested loop adds multipliers section by section and drops those that vanish |
| LinearForms.MergeSum | amdasm/AsmExpression.cpp:517-544 | for all bases the merged relatives amount to the sum of both, modulo 2^64; sections stay distinct and no vanished multiple is left |
| LinearForms.ScaleSum | amdasm/AsmExpression.cpp:545-570 | scaling multiplies the amount for all bases |
| LinearForms.NegateSum | amdasm/AsmExpression.cpp:490-500 | negated multipliers amount to the negated sum for all bases |
| LinearForms.EqualRelatives | amdasm/AsmExpression.cpp:119-147 | the matching loop with its used marks decides equality as multisets, in both directions |
| LinearForms.SumOfMultiset | amdasm/AsmExpression.cpp:119-147 | equal multisets of relatives amount to the same for all bases |
| RelativeSoundness.TranslationKeepsOrder | amdasm/AsmExpression.cpp:802-854 | adding one amount to both sides keeps a comparison if and only if the sides are equal or both or neither wrap |
| RelativeSoundness.CompareSound | amdasm/AsmExpression.cpp:802-854 | an accepted comparison of linear forms is the comparison of the addresses if and only if the order is kept |
| RelativeSoundness.RuleSound | amdasm/AsmExpression.cpp:631-722 | each special case of and, or, xor, ornot and the logical operators gives the right word for every value of the relative operand |
| RelativeSoundness.MaskSound | amdasm/AsmExpression.cpp:631-801 | whatever these operators accept denotes the operator applied to the denoted words, for all bases |
| RelativeSoundness.MultiplySound | amdasm/AsmExpression.cpp:545-570 | an accepted product denotes the product for all bases |
| RelativeSoundness.ShiftSound | amdasm/AsmExpression.cpp:723-741 | an accepted left shift denotes the shifted word for all bases |
| RelativeSoundness.BinarySound | amdasm/AsmExpression.cpp:510-858 | every binary operator that neither fails nor postpones denotes the operator on words, for all bases that keep its order |
| RelativeFailures.UnaryFails | amdasm/AsmExpression.cpp:490-508 | only the logical complement fails, and only on a relative operand |
| RelativeFailures.ArithmeticFails | amdasm/AsmExpression.cpp:517-570 | sums and differences never fail; a product fails exactly with two relative factors, a left shift exactly with a relative count |
| RelativeFailures.WordsFail | amdasm/AsmExpression.cpp:571-769 | quotients, remainders and right shifts fail exactly on a relative operand or a zero divisor |
| RelativeFailures.MasksFail | amdasm/AsmExpression.cpp:631-801 | bitwise and logical operators fail exactly when an operand is relative and no absolute one is a constant that decides |
| RelativeFailures.ComparisonsFail | amdasm/AsmExpression.cpp:802-854 | comparisons fail exactly when the multiples that count differ, and are postponed exactly when those are the same and others wait |
| RelativeFailures.ChoiceFails | amdasm/AsmExpression.cpp:860-881 | a choice fails exactly on a relative condition; otherwise it is one of its arms, relative or not |
| RelativeFailures.FinishReports | amdasm/AsmExpression.cpp:883-957 | exactly when the end of an evaluation is a success, a failure, a postponement or a trap |
| RelativeFailures.ChoiceOfAddresses | amdasm/AsmExpression.cpp:860-946 | a choice between two addresses of a section succeeds with one of them |
| RelativeEvaluation.ArgSound | amdasm/AsmExpression.cpp:458-480 | rebasing an argument to the first section of its relocation space keeps the address |
| RelativeEvaluation.FinishSound | amdasm/AsmExpression.cpp:883-946 | reading off value and section, with the final choice of the section, keeps the address |
| RelativeEvaluation.ProperSectionChoice | amdasm/AsmExpression.cpp:925-946 | the section chosen for an address of a prepared space is the first one that starts exactly there, or else the last one below, or else the first |
| RelativeEvaluation.AnswerIsProper | amdasm/AsmExpression.cpp:888-946 | an answer in a prepared space is reported against that section for the very address that it denotes |
| RelativeEvaluation.RelativeAnswerSound | amdasm/AsmExpression.cpp:420-957 | if the linear-form machine succeeds with value and section, then for every placement of the sections value + base(section) is what the word machine computes from the placed arguments |
| RelativeEvaluation.MachinesAgree | amdasm/AsmExpression.cpp:212-957 | on absolute arguments both machines give the same outcome, errors included |
| RelativeEvaluation.RelFlagsAreSticky | amdasm/AsmExpression.cpp:485-515 | errors and postponements are never taken back |
| RelativeEvaluation.NeverLater | amdasm/AsmExpression.cpp:150-197 | without section differences to come nothing is postponed |
| SectionComparisons.ComparisonExact | amdasm/AsmExpression.cpp:802-854 | evaluating a comparison of two offsets of a section gives what the word machine gives for the addresses if and only if the placement keeps their order |
| SectionComparisons.OrderingCanBreak | amdasm/AsmExpression.cpp:840-851 | with the last address as base the evaluator answers that 0 is below 1, the word machine that base is not below base + 1 |
| SectionDifferences.PreparationKeepsAddress | amdasm/AsmExpression.cpp:461-475 | whatever succeeds while section differences are to come succeeds after the preparation: the same word, or the same distance from the start of the same relocation space |
| SectionDifferences.PlainAnswerStays | amdasm/AsmExpression.cpp:461-475 | a success that did not reckon with section differences is followed by one with the same address, provided every comparison met stays as it is |
| SectionDifferences.BinaryRelated | amdasm/AsmExpression.cpp:510-858 | an operator that neither fails nor postpones before the preparation accepts the moved operands after it, and yields the moved result |
| SectionDifferences.MaskRelated | amdasm/AsmExpression.cpp:631-801 | the special cases of the bitwise and logical operators yield the moved result even where operands became absolute |
| SectionDifferences.CompareRelated | amdasm/AsmExpression.cpp:802-854 | an accepted comparison is accepted with the same answer after the preparation if and only if the same multiples vanish on both sides and the order is kept on the way to the first section |
| SectionDifferences.OpenCompareStays | amdasm/AsmExpression.cpp:155-173 | a comparison accepted while differences are to come always stays as it is |
| SectionDifferences.FinishRelated | amdasm/AsmExpression.cpp:883-946 | moved final forms are read off as the same address |
| PreparedComparisons.PreparedComparisonExact | amdasm/AsmExpression.cpp:461-475 | comparing two offsets of a section gives the same answer before and after the preparation if and only if the distance to the first section keeps their order |
| PreparedComparisons.PreparationCanTurnOrder | amdasm/AsmExpression.cpp:461-475 | 1 is below 2^64 - 8 before, and not below it in a section eight bytes behind the first one after |
| PreparedComparisons.VanishedMultiplesAreRefused | amdasm/AsmExpression.cpp:531-543 | the sum and the difference of two sections, each times 2^63, are equal before the preparation and refused for comparison after it |
| Evaluator.RelativesEqual | amdasm/AsmExpression.cpp:150-173 | relatives inside relocation spaces are set aside while differences are open, the rest is compared as multisets |
| Evaluator.ExecuteBinary | amdasm/AsmExpression.cpp:510-858 | one operator of the linear-form machine with its loops over relatives |
| Evaluator.EvaluateRelative | amdasm/AsmExpression.cpp:420-957 | the loop of the linear-form machine between two positions gives the outcome of the postfix program there |
| Evaluator.TryEvaluate | amdasm/AsmExpression.cpp:201-957 | whichever machine is chosen, the outcome is the linear-form machine's; open symbols are refused |
| Parser.PopLoop | amdasm/AsmExpression.cpp:1749-1790 | the loop that pops operators which give way, and stops at an unfinished '?' |
| Parser.PopChoiceLoop | amdasm/AsmExpression.cpp:1723-1747 | the loop for ':' down to the '?' of its own group |
| Parser.FlushLoop | amdasm/AsmExpression.cpp:1795-1813 | the operators left at the end are emitted from the top; an unfinished '?' is an error |
| Parser.PlaceOperator | amdasm/AsmExpression.cpp:1695-1793 | one operator token pops what gives way and is pushed |
| Parser.Parse | amdasm/AsmExpression.cpp:1387-1813 | the token loop with its stack, parenthesis count and errors |
| ParserRoundTrip.PrintIsEnough | amdasm/AsmExpression.cpp:960-997 | printing with the parentheses of the priority table yields a text that needs no more, and loses nothing of the tree |
| ParserRoundTrip.FeedExpression | amdasm/AsmExpression.cpp:1387-1793 | in any context that does not bind stronger, reading an expression leaves its waiting operators and its emitted code, at any parenthesis depth |
| ParserRoundTrip.ParseInvertsPrint | amdasm/AsmExpression.cpp:1387-1813 | any writing of an expression with enough parentheses parses to exactly its postfix, whatever ends it, and nothing behind it is consumed |
| ParserRoundTrip.ParsePrintedTree | amdasm/AsmExpression.cpp:1387-1813 | printing any tree and parsing the text gives the tree's postfix |
| ParserSoundness.AcceptedIsSentence | amdasm/AsmExpression.cpp:1387-1813 | whatever is accepted, with every '?' closed in its group, is the text of an expression with enough parentheses, and the code is its postfix |
| ParserDepth.WellFormedIffClosed | amdasm/AsmExpression.cpp:1723-1813 | accepted code leaves exactly one value and never underflows if and only if no parenthesis closes over an unfinished '?' |
| ParserDepth.UnclosedChoiceIsAccepted | amdasm/AsmExpression.cpp:1723-1747 | a ? ( b ? c ) : d is accepted and its code leaves two values |
| Precedence.ChainSplits | amdasm/AsmExpression.cpp:960-997 | in a chain of operands and binary operators of any length, the code is that of the part before the last one of the loosest operators, that of the part behind it, and that operator; the classes are sets of operators |
| Precedence.TwoOperators | amdasm/AsmExpression.cpp:960-997 | in x p y q z the operator q is computed first if and only if it is of a tighter class than p |
| Precedence.GroupsFirst | amdasm/AsmExpression.cpp:1402-1421 | parentheses overrule the classes |
| Precedence.UnaryFirst | amdasm/AsmExpression.cpp:1749-1773 | unary operators bind tighter than all binary ones, and the inner one is computed first |
| Precedence.ChoiceLast | amdasm/AsmExpression.cpp:1723-1773 | the choice binds looser than all binary operators, in its condition and in both arms |
| Precedence.ChoicesNest | amdasm/AsmExpression.cpp:1723-1773 | a choice in either arm of a choice needs no parentheses |
| Precedence.NothingElseFollows | amdasm/AsmExpression.cpp:1402-1421 | an opening parenthesis, a '~' or a single '=' behind an expression is an error |
| Precedence.EmptyExpression | amdasm/AsmExpression.cpp:1774-1794 | no text, and text that starts no expression, parse to the empty code |
| Subexpressions.ToTop | amdasm/AsmExpression.cpp:1879-1897 | the backward scan stops at the first place, going back, from which the elements leave one value as it counts operands, or passes the front of the code |
| Subexpressions.StopsAtStart | amdasm/AsmExpression.cpp:1879-1897 | from the last element of a subexpression the scan stops at its first element if and only if the subexpression has no symbols, and otherwise passes it |
| Subexpressions.SymbolTakesOperands | amdasm/AsmExpression.cpp:1879-1897 | from a symbol behind three values the scan stops at the first of these |
| Subexpressions.OneStart | amdasm/AsmExpression.cpp:1879-1897 | only one subexpression ends at a place |
| Subexpressions.EndPieceLacks | amdasm/AsmExpression.cpp:1879-1897 | every proper end piece of a postfix lacks operands |
| HalfOperators.AcceptedIffSelects | amdasm/AsmFormats.cpp:134-163 | for each of the six operators, a constant is accepted if and only if with it the operator never fails and its low 32 bits are the chosen half of every left operand, for signed division of every one that is not negative or is a multiple of 2^32 |
| LoHiReloc.ResolvesIff | amdasm/AsmFormats.cpp:104-172 | an expression is resolved to a half, section and addend if and only if its last operator is one of the six, the second part is an absolute constant that selects that half, and the first part has that address; or the operator is another one, and the whole has it |
| HalfOperators.OperatorSelectsHalf | amdasm/AsmFormats.cpp:134-163 | with an accepted second operand the operator keeps the selected half, for signed division if and only if the address is not negative or a multiple of 2^32 |
| LoHiReloc.NegativeAddressLosesHalf | amdasm/AsmFormats.cpp:149-153 | (section + 1) / 2^32, signed, is accepted as a high relocation, but at the address 2^63 + 1 its low 32 bits are not the high half |
| LoHiReloc.ResolveLoHi | amdasm/AsmFormats.cpp:87-173 | the resolution splits the program at its last operator, evaluates both parts and accepts exactly the stated constants |
| LoHiReloc.RelocationKeepsField | amdasm/AsmFormats.cpp:106-172 | for all section bases the low 32 bits of the whole expression are the chosen half of addend + base, under that exact condition |
| FastExpr.FastEvaluate | amdasm/AsmExpression.cpp:1904-1957 | the loop with its sign flag and running sum gives the stated answer and place |
| FastExpr.NextTokenDecides | amdasm/AsmExpression.cpp:1947-1957 | behind a literal, a token lets the fast path end if and only if the parser ends there too, or it is an opening parenthesis |
| FastExpr.FastAgreesWithSlow | amdasm/AsmExpression.cpp:1904-1957 | whatever the fast path accepts, no '(' following, is parsed up to the same place, and its code evaluates to the same word |
| FastExpr.ParenthesisParts | amdasm/AsmExpression.cpp:1947-1955 | with a '(' following, the parser rejects what the fast path accepts |
| FastExpr.TermAccepted | amdasm/AsmExpression.cpp:1904-1957 | every sum of signed literals that no operator follows is accepted, with its sum |
| Snapshot.MakeSymbolSnapshot | amdasm/AsmExpression.cpp:1065-1209 | the walk ends on every table of definitions, cyclic ones included; it copies only definitions that the symbol uses, each at most once, and finished copies stay; it reports success if and only if no copied definition uses a register symbol or fails to evaluate; on success there is a value if and only if no undefined symbol and no circle can be reached, and it is that of recursive substitution |
| SnapshotCopies.Advance | amdasm/AsmExpression.cpp:1116-1178 | one copy is worked on up to its end or the next uncopied definition, replacing values and counting open symbols; an error means that its definition is not usable |
| SnapshotCopies.CopyMeans | amdasm/AsmExpression.cpp:1179-1192 | a copy with all names replaced evaluates to the meaning of its definition, or the definition fails to evaluate |
| SnapshotCopies.SplitCode | amdasm/AsmExpression.cpp:1026-1047 | operator codes and arguments copied apart give the program back |
| SymbolMeaning.NameKeepsAddress | amdasm/AsmExpression.cpp:1148-1162 | a name is replaced by the address of its symbol, and the section is dropped exactly when its symbols count as absolute |
| SymbolMeaning.MeaningIsNotStuck | amdasm/AsmExpression.cpp:1126-1171 | a symbol with a meaning reaches no undefined symbol and no circle |
| SymbolMeaning.MeaningIsUnique | amdasm/AsmExpression.cpp:1179-1192 | recursive substitution gives at most one value, however deep it goes |
| SymbolMeaning.ValueIsEvaluated | amdasm/AsmExpression.cpp:1179-1192 | a definition has a value if and only if that is the answer of its evaluation with all names replaced |
| SymbolMeaning.FailingIsNotStuck | amdasm/AsmExpression.cpp:1179-1192 | a definition whose evaluation fails reaches no undefined symbol and no circle |
| Liveness.ExpandPoints | amdasm/AsmRegAlloc.h:358-375 | expand(k) adds exactly the points between the end of the last interval starting below k and k, and keeps intervals sorted, disjoint and apart |
| Liveness.InsertPoints | amdasm/AsmRegAlloc.h:377-414 | insert adds exactly the points up to its end, or up to the end of the interval that it overruns |
| Liveness.InsertIsUnion | amdasm/AsmRegAlloc.h:377-414 | insert is set union if and only if the range does not overrun the first interval that it runs into |
| Liveness.InsertCanFallShort | amdasm/AsmRegAlloc.h:384-407 | inserting 2 to 9 before an interval from 4 to 6 does not cover 7 |
| Liveness.Liveness.Expand | amdasm/AsmRegAlloc.h:358-375 | the update in place adds just those points |
| Liveness.Liveness.Insert | amdasm/AsmRegAlloc.h:377-414 | the update in place adds just those points |
| Liveness.Liveness.Contain | amdasm/AsmRegAlloc.h:416-426 | the query is membership in some interval |
| BlockLiveness.RangesAreExact | amdasm/AsmRegAllocLive.cpp:1361-1386 | a version's range holds exactly the points between the definition of a read value and the read, and the point behind each write |
| BlockLoop.ProcessBlock | amdasm/AsmRegAllocLive.cpp:1317-1447 | from empty ranges the loop gives every version of every register exactly the points where it is live: a point is covered if and only if it follows a write that makes the version, the first, the k-th or the last one of the register as the SSA infos say, or lies before a read that finds the version, and behind all earlier writes |
| BlockUsages.EventsAreUses | amdasm/AsmRegAllocLive.cpp:1361-1440 | every register of every usage before the end of the block is accessed once, at the usage's offset, as a write exactly when the usage writes and has a field |
| BlockUsages.LiveByUsages | amdasm/AsmRegAllocLive.cpp:77-93 | the live points of a version by the usages of its register and the version numbers of the SSA infos |
| BlockEvents.WalkProjects | amdasm/AsmRegAllocLive.cpp:1361-1386 | what is stored for a version depends on the accesses to that version alone |
| BlockEvents.CurrentWasAccessed | amdasm/AsmRegAllocLive.cpp:1363-1372 | the first access to a version is a read only when it is the first access to the register |
| BlockEvents.DistinctVersionsExact | amdasm/AsmRegAllocLive.cpp:77-101 | with distinct versions a live-in version is live up to its last read, and a version written in the block right behind its write and from there to its last read |
| Coloring.StepSound | amdasm/AsmRegAlloc.cpp:668-693 | the step keeps the colours of neighbours apart, real registers on their own colours, all colours below the count in use, the count within registers, 1 + degree, and the new colour is the least that no neighbour has |
| Coloring.GivesUpWhenFull | amdasm/AsmRegAlloc.cpp:673-691 | the step gives up if and only if all colours are in use at neighbours and no new one is left |
| Coloring.DegreePreventsGivingUp | amdasm/AsmRegAlloc.cpp:686-691 | with every degree below the number of registers no step gives up |
| Coloring.InitialSound | amdasm/AsmRegAlloc.cpp:660-664 | giving the real registers the first colours is a sound start |
| Coloring.AnyOrderIsSound | amdasm/AsmRegAlloc.cpp:649-693 | for every picking order the result is sound, all picked nodes are coloured, none loses its colour |
| Coloring.OnlyTheFrontIsColored | amdasm/AsmRegAlloc.cpp:666-719 | with neighbours' saturations never changing, the loop as written equals one step at the front of its queue |
| Coloring.AllColoredIff | amdasm/AsmRegAlloc.cpp:649-719 | the loop as written colours all nodes if and only if all but the front of its queue are real registers and the front can be given a colour |
| Coloring.SecondNodeStays | amdasm/AsmRegAlloc.cpp:666-719 | of two nodes without edges, neither a real register, the second one stays uncoloured |
| Coloring.GraphColoring.constructor | amdasm/AsmRegAlloc.cpp:649-664 | all nodes are uncoloured but the real registers |
| Coloring.GraphColoring.ColorNode | amdasm/AsmRegAlloc.cpp:668-693 | the loop over colours and neighbours takes the first free colour |
| Coloring.GraphColoring.ColorAll | amdasm/AsmRegAlloc.cpp:666-719 | the whole loop for any picking order, with the soundness of its result |
| UsageLog.AlignmentReadBack | amdasm/AsmRegAlloc.cpp:70-71 | the stored logarithm fits five bits and reads back as the greatest power of two that is not above |
| UsageLog.KeptIffPlain | amdasm/AsmRegAlloc.cpp:70-74 | a usage survives packing if and only if its flags fit and its alignment is zero or a power of two |
| UsageLog.PackedFits | amdasm/AsmRegAlloc.cpp:57-75 | packed flags, alignment and offset fit 2, 5 and 16 bits; offsets share their upper part exactly when they agree in all but the low 16 bits |
| UsageLog.PackingLoses | amdasm/AsmRegAlloc.cpp:70-74 | an alignment of three comes back as two, and a third flag bit does not come back |
| UsageLog.Handler.PushUsage | amdasm/AsmRegAlloc.cpp:57-75 | pushing appends exactly one usage to the contents of all chunks, and a chunk exactly when the last one has another upper offset |
| UsageLog.Handler.NextUsage | amdasm/AsmRegAlloc.cpp:77-93 | reading gives the usage at the position and moves to the next one, across chunks |
| UsageLog.Handler.HasNext | CLRX/amdasm/Assembler.h:122-124 | there is a next usage if and only if the position is before the end of the contents |
| UsageLog.LogAndRead | amdasm/AsmRegAlloc.cpp:57-93 | any sequence of usages is read back in order, unchanged if and only if all are plain |
| SsaReplaces.BuildGraph | amdasm/AsmRegAlloc.cpp:383-403 | the groups of the sorted replacements become direct links, with the least direct target of every id |
| SsaTraversal.LinkBothWays | amdasm/AsmRegAlloc.cpp:404-446 | the first traversal ends and adds exactly the opposite of every link, whether or not its iterators come across links added behind their back |
| SsaTraversal.SpreadFrom | amdasm/AsmRegAlloc.cpp:454-524 | the second traversal ends, visits exactly the component of its start, and leaves the least id at the start |
| SsaReplaces.Resolve | amdasm/AsmRegAlloc.cpp:376-532 | every id gets the least replacement id of its component |
| SsaReplaces.SameIdIffChained | amdasm/AsmRegAlloc.cpp:454-532 | two ids get the same id if and only if a chain of replacements connects them |
| SsaReplaces.Idempotent | amdasm/AsmRegAlloc.cpp:454-532 | replacing twice is replacing once |
| SsaReplaces.LeastOfComponent | amdasm/AsmRegAlloc.cpp:454-532 | when replacements lead to smaller ids the result is the least id of the component |
| CodePoints.CollectPoints | amdasm/AsmRegAlloc.cpp:167-210 | the marks are those of the START entries in their order; the sorted split points and code ends are those of the flow entries |
| CodePoints.KeptAre | amdasm/AsmRegAlloc.cpp:211-225 | the first mark is kept, and behind the j-th kept mark the next one that is not below the j-th code end; none behind the last code end |
| CodePoints.KeepStarts | amdasm/AsmRegAlloc.cpp:211-225 | every kept mark takes the next code end, and the marks that follow below it are dropped |
| CodeRegions.MarksCovered | amdasm/AsmRegAlloc.cpp:211-225 | a mark, when marks come in order, is dropped only if a kept one begins its region |
| CodeRegions.CodeStarts | amdasm/AsmRegAlloc.cpp:226-242 | code starts at the kept marks and at the first split at or behind every code end |
| CodeRegions.OverlapIffNotApart | amdasm/AsmRegAlloc.cpp:211-246 | two code starts lie in one region if and only if two kept marks do, or a kept mark behind a code end is not the first split of its region |
| CodeRegions.OverlapAtTheStart | amdasm/AsmRegAlloc.cpp:165-246 | when only the start of the code is kept, regions overlap if and only if a code end is at zero and the first split lies behind zero in its region |
| CodeRegions.RegionsDisjoint | amdasm/AsmRegAlloc.cpp:227-246 | with marks apart, the region of a code start ends at or before the next code start |
| CodeRegions.CutFrom | amdasm/AsmRegAlloc.cpp:252-263 | the inner loop tiles a region by blocks that are cut at exactly the splits from its first one on, and takes the split it stops at |
| CodeDivision.DivideRegion | amdasm/AsmRegAlloc.cpp:244-264 | a region is tiled by blocks, which no split cuts if and only if none of its splits behind its start was passed over before |
| CodeDivision.Divide | amdasm/AsmRegAlloc.cpp:243-264 | the blocks are in order, hold exactly the covered places, end on splits and code ends, and no split cuts them if and only if no region loses one |
| CodeDivision.LosesSomewhere | amdasm/AsmRegAlloc.cpp:243-264 | a region loses a split if and only if, from the end of some earlier region up to the start of a region with a further split, there are fewer splits than code starts |
| CodeDivision.NoMarksLoseNothing | amdasm/AsmRegAlloc.cpp:211-264 | when only the start of the code is kept, no region loses a split |
| CodeStructure.ReachableCovered | amdasm/AsmRegAlloc.cpp:211-265 | every instruction that control can reach from a covered one is covered |
| CodeStructure.CreateCodeStructure | amdasm/AsmRegAlloc.cpp:161-339 | with regions apart, blocks are sorted and disjoint, end at splits and code ends, have no code end inside, and hold exactly the covered places, entries and all code reachable from blocks among them; every edge comes from a transfer, and successors are sorted, calls last, without repetition; no split is inside a block if and only if none is passed over, and then targets start blocks and every transfer in a block has its edge from that block |
| CodeInputs.EndAtTheStart | amdasm/AsmRegAlloc.cpp:165-246 | with a code end at 0 and a jump from 4 to 4, both 0 and 4 are code starts of one region |
| CodeInputs.MarkBeforeLoop | amdasm/AsmRegAlloc.cpp:211-246 | a kernel marked at 4 with a jump from 8 to 8 makes 4 and 8 code starts of one region |
| CodeInputs.SplitIsPassedOver | amdasm/AsmRegAlloc.cpp:243-264 | of three kernels at 0, 4 and 8, where only the last one has jumps, the target 12 is passed over |
| CodeInputs.MarkOutOfOrder | amdasm/AsmRegAlloc.cpp:211-225 | of marks at 20 and 12 the second one is dropped, and no code start covers it |
| CodeStructure.NoEndBehindStart | amdasm/AsmRegAlloc.cpp:226-246 | for some code start the search for a code end fails if and only if some split or kept mark has no code end above it, which means at the end of the code or beyond as long as code ends lie in the code |
| CodeInputs.TargetBeyondCode | amdasm/AsmRegAlloc.cpp:226-246 | a jump to 12 in 8 bytes of code makes 12 a code start without a code end |
| Kcode.SelectIsAsked | amdasm/AsmFormats.cpp:319-360 | with a '+' without a name at the end all kernels are selected; otherwise a kernel is selected as the last argument that names it says, or as before when none does |
| Kcode.StepExact | amdasm/AsmFormats.cpp:186-417 | an event keeps every kernel's count equal to the registers used while it was active, if and only if it is not a label that LabelKeeps excludes |
| Kcode.LabelExact | amdasm/AsmFormats.cpp:229-252 | exactly the labels outside .kcode, or under a selection, or with nothing to lose keep the accounting exact |
| Kcode.AccountingIsExact | amdasm/AsmFormats.cpp:186-417 | after any sequence of new kernels, labels, uses, .kcode and .kcodeend every kernel is left with exactly the registers and flags used while it was active |
| Kcode.LabelCanLoseRegisters | amdasm/AsmFormats.cpp:236-247 | a label inside .kcode with nothing selected leaves kernel 0 without its five registers |
| Kcode.KcodeHandler.HandleLabel | amdasm/AsmFormats.cpp:229-252 | the update in place is the step of the state machine; the labelled kernel becomes the current one exactly in code and with nothing selected |
| Kcode.KcodeHandler.UpdateKCodeSel | amdasm/AsmFormats.cpp:258-279 | the counter is joined into each kernel of the selection and starts anew |
| Kcode.KcodeHandler.DoKCode | amdasm/AsmFormats.cpp:309-386 | the update in place is the step of the state machine; the old selection is pushed and the new one, in rising order, is what the arguments ask for, while errors leave both alone |
| Kcode.KcodeHandler.DoKCodeEnd | amdasm/AsmFormats.cpp:388-418 | the update in place is the step of the state machine; the selection before the last .kcode comes back |
| Kcode.KcodeHandler.AddKernel | amdasm/AsmROCmFormat.cpp:163-182 | the kernels grow by one with nothing charged, in place |
| Kcode.KcodeHandler.PrepareKcodeState | amdasm/AsmFormats.cpp:211-227 | the loop closes every open selection |

## Left out

- Lexing, symbol-table lookup, source positions and messages: the parser starts from tokens, and the evaluator from resolved arguments. Operator codes and arguments, two vectors in the source, are one sequence in the parser and in the snapshots; `SnapshotCopies.SplitCode` relates the two.
- FastExpr.FastAgreesWithSlow: literals only; a symbol that is resolved to an absolute value while parsing is not told from a literal.
- ParserSoundness.AcceptedIsSentence: the empty expression, which is accepted with empty code, is not a sentence; text that closes over an unfinished '?' is covered by `ParserDepth.WellFormedIffClosed`.
- RelativeEvaluation.RelativeAnswerSound: the processor exception of INT64_MIN / -1 is an outcome of its own, about which only that both machines agree on absolute arguments is claimed.
- SectionDifferences.PlainAnswerStays: one way only for whole runs, as a changed comparison can be multiplied by zero or not be chosen; for one comparison the condition is exact (`SectionDifferences.CompareRelated`).
- LoHiReloc.ResolveLoHi: fitting of the target field and the section of the target are two flags.
- Snapshot.MakeSymbolSnapshot: occurrences of open symbols in later expressions are not recorded, only counted; the processor exception of INT64_MIN / -1 counts as failure; definitions are postfix programs that never underflow.
- BlockLiveness.RangesAreExact: the limit of two bytes per instruction is not needed for one block's ranges and so not assumed.
- BlockLoop.ProcessBlock: linear dependencies collected in the same loop, the numbering of versions inside a register type, and ranges carried over from other blocks; interval lists are values in a map where the source has container objects, which `Liveness.Liveness` models in place.
- Interprocedural liveness (joins over routines, caches, recursion passes): it rests on the construction of SSA data that is not part of this model.
- Construction of the interference graph: colouring takes any symmetric graph without edges between real registers.
- Coloring.GraphColoring.ColorAll: the saturation-degree order is replaced by an arbitrary order; saturation counts are not stored.
- UsageLog.Handler.NextUsage: searching a position by offset, whose inner variable hides the result, and reading while pushing.
- SsaReplaces.Resolve: sorting and removal of repetitions come before the model; a hash set that is rearranged while an iterator walks it is not modelled; the result is a map instead of a sorted vector, and applying it to the blocks is left out.
- CodeStructure.CreateCodeStructure: entries off instructions and jumps to the code end, where the search for a code end fails (`CodeStructure.NoEndBehindStart`); overlapping regions, whose blocks are out of order for the binary searches (`CodeRegions.OverlapIffNotApart`); the flags haveCalls, haveReturn and haveEnd of a block, and the position of its usages.
- CodeRegions.MarksCovered: one way only, as marks out of order may also be covered.
- Kcode.AccountingIsExact: code regions, code flags and the code start marker of a label; kernel names are resolved, and garbage at the end of a line counts as a malformed argument.
- Skipping of conditional clauses and macros, pseudo-operations of the binary formats, ELF output, the disassembler and the tables of GPU registers.
