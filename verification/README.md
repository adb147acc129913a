# Picat's engine: big integers, the finite-domain store, its propagators and the clause database

Picat's C engine computes with in-place, word-level code: digit arrays with carries, domains that
are a pair of bounds over a bit vector full of stale bits, propagators that stop early, clause
chains that are linked and indexed twice. Each of these has a simple mathematical meaning. This
project models the code in that form (arrays, loops, a memory of cells, trailed writes) and proves
that it has that meaning, on every input and along every run.

* **Big integers** (`Digits`, `UBig`, `Shifts`, `UMulDiv`, `BigInt`, `BigLogic`, `BigShift`,
  `BigText`): base 2^28 digit arrays, least significant digit first, written in place. Every loop is
  proved against the positional value of its array. A term is in canonical form when it is a machine
  word exactly if it fits one; equal numbers then have equal terms.
* **Store** (`Trail`, `Layout`, `Store`, `BitScan`, `Region`, `Holes`, `ToBits`, `Domains`,
  `DomainPairs`, `WordTests`, `Enumeration`, `Runs`): one memory of cells, a value trail and choice
  points. A variable is ten cells and perhaps a block of words; `Shape` says when these describe a
  set, `Domain` is the set of values left. Binding writes the value cell only; the other cells keep
  their old content, and the model keeps it too (`described`), with the kind of the domain (`bits`). The ghost
  `views` are what each variable stands for; `Valid` says that they are right, that no variable disturbs another, and that
  every choice point can get its state back.
* **Propagators**: linear `>=` and `=` (`Linear*`, `Bool*`, `Descents`), multiplication (`Quotients`, `Products`,
  `Multiply`, `Elimination`, `MultiplyInt`), Hall sets (`HallSets`), edge finding (`Schedules`, `Disjunctive`,
  `EdgeFinding`), cut nodes (`Graphs`, `CutNodes`, `CutPruning`) and table constraints (`Tables`,
  `TableArcs`, `TableConstraint`, `SupportBits`, `TableMeasure`, `TableBuild`). All of them run on the
  store above, through its methods.
* **Clause database** (`Chains`, `ClauseDb`): doubly linked chains of cells in one memory, a chain of
  all clauses, and hash buckets that are order-preserving sub-chains of it.

A linear constraint, a table and a net may name one variable at several places. A solution is then a vector over
the places that has one value for each variable (`Agree`, `Root`). Contracts that speak of every value left
(`ExactEq`, `PropagatedGe`) count solutions over the places: of 1 - X - X = 0 both values of X stay.

A main method is proved against a predicate or function that does not mention the code; lemmas then
say what that predicate is worth. `Becomes(v, v', r, ok)` is used throughout the store: the variable
holds exactly the values `r`, and the operation fails exactly when `r` is empty.

## What the proofs found

* AND and XOR of big integers return 0 when the true result is exactly -(2^28)^n, n being the number
  of digits of the longer operand, and are right in every other case (`LogicBig`). OR is always right
  (`OrNeverSignOnly`); XOR goes wrong exactly when the operands are (2^28)^n apart (`XorSignOnly`);
  AND goes wrong exactly when both are negative and share no bit below 28n (`AndSignOnly`), such as
  1-(2^28)^3 and -2 (`AndSignOnlyExample`).
* Decimal printing divides by 10^8 over and over. The number of digits left does not shrink in every round: it
  stays as long as the top digit is 10^8 or more (`SameDigitCount`). The value shrinks, and that is what ends the loop.
* An equation over 0/1 variables with coefficients 1 and -1 can be accepted although it has no solution, when a
  free variable stands in it with both signs, as after unifying two of its variables: for 1 + X + U - X - V = 0
  with U = 1 the propagator binds X and V, reports success and stops watching (`AcceptExample`). When all
  variables are forced, what it leaves solves the equation if and only if no free variable has both signs
  (`EqSignsBool`). It never loses a solution.
* The comment on `EDGE_FINDER01` (emu/domain.c) states a stronger rule than the code: the new latest
  start leaves out the task's own duration. The code is weaker but sound.
* The third loop of the second merge pass of edge finding never runs. The first merge pass writes
  one position past the tasks when their number is even, which is why fewer tasks than the arrays
  have room for are allowed.
* The pair rules of edge finding do not ask whether the window of a free task, the seed and the task before it holds
  all three: starts from 0 to 5 of a task of length 3 keep 0, 1 and 2 although three such tasks do not fit from 0 to 8
  (`ShortWindowExample`). In a window that is too short the step fails exactly when no start leaves the other two
  their time (`ShortWindow`). A fixed start fails exactly when the three do not fit.
* When no value of a factor has a partner, the elimination passes of X*Y = Z do not fail: they take out all values but
  the greatest, and bind the variable to it (`Kept`).
* Once the edge finder has bound a start it goes on with the bounds left behind, and may bind it again.
  That is sound, because a binding is only ever one of the values described.
* In the Hall-set check the exclusion never fails: a domain that would be emptied lies inside D(X), so it
  is counted and not excluded.
* `b_CFD_DOM` restores arc consistency for the value it is told about. When several values leave one
  variable, the others are still owed, and `ExclusionPaid` says how the debt goes down.

## Model

| member | source | states |
|---|---|---|
| Digits.NormalUnique | emu/bigint.c:185-190 | two digit strings without leading zeros that stand for the same number are equal |
| UBig.Inc | emu/bigint.c:313-328 | the number grows by exactly 1, by one digit at most, without leading zeros |
| UBig.Add | emu/bigint.c:330-359 | the result stands for the sum, for operands in either order of length |
| UBig.Dec | emu/bigint.c:361-374 | the number shrinks by exactly 1, also when the top digit carries the imaginary sign bit |
| UBig.Sub | emu/bigint.c:376-394 | the result stands for the difference, normalized; the subtrahend may be the target |
| Shifts.ShiftedValue | emu/bigint.c:399-404 | the digits read through the shifting accessor stand for x * 2^s |
| UMulDiv.Mul | emu/bigint.c:414-440 | value(z) = value(x) * value(y); the carry never leaves the product array, and dropping one zero normalizes |
| UMulDiv.BorrowDecides | emu/bigint.c:482-497 | with zeros above the window, the last borrow alone tells whether the trial difference is negative |
| UMulDiv.TrySubtract | emu/bigint.c:482-497 | the trial subtraction leaves the difference exactly when the shifted divisor goes into the remainder |
| UMulDiv.DivBit | emu/bigint.c:474-503 | one quotient bit keeps x = q*y + r and halves the bound r < y * 2^(28i+i2+1) |
| UMulDiv.Div | emu/bigint.c:458-508 | x = q*y + r with 0 <= r < y, both normalized, dropping at most one leading zero of q |
| BigInt.CanonicalUnique | emu/bigint.c:763-769 | equal numbers have equal canonical terms |
| BigInt.FromInt | emu/bigint.c:195-217 | an integer becomes the digits of its magnitude with its sign |
| BigInt.AddBig | emu/bigint.c:722-770 | canonical term of the sum, for all signs |
| BigInt.SubBig | emu/bigint.c:773-822 | canonical term of the difference, for all signs |
| BigInt.MulBig | emu/bigint.c:824-862 | canonical term of the product, for all signs |
| BigInt.CompareBig | emu/bigint.c:981-1008 | the sign of the difference |
| BigInt.FloorCorrection | emu/bigint.c:866-979 | dividing the decremented magnitude, adding one to the quotient and taking y-1-r gives the floor pair for opposite signs |
| BigInt.DivBig | emu/bigint.c:866-924 | the floor quotient for all signs, including the short cases 0 and -1 |
| BigInt.ModBig | emu/bigint.c:926-979 | the floor remainder for all signs, including the operand that is its own remainder |
| BigInt.FloorPairUnique | emu/bigint.c:866-979 | quotient and remainder are determined by the floor conditions |
| BigInt.DivModIdentity | emu/bigint.c:866-979 | what the two operations return fits together: a = d*b + m, m zero or of the sign of b, smaller than b |
| BigLogic.TwosComplement | emu/bigint.c:605-629 | the digits become the two's complement encoding of -x, sign bit on top |
| BigLogic.Magnitude | emu/bigint.c:631-635 | the magnitude of a negative encoding, except that the encoding of -(2^28)^n comes out as 0 |
| BigLogic.LogicValue | emu/bigint.c:511-551 | an operator applied digit by digit applies to the whole encodings |
| BigLogic.CombinedEncoding | emu/bigint.c:1010-1171 | the combined encoding is that of the infinite two's complement result; it is the bare sign bit exactly in the exceptional case |
| BigLogic.LogicBig | emu/bigint.c:1010-1171 | every bit of the result of AND, OR, XOR is that of the infinite two's complement operands, or the result is 0 and the true one is -(2^28)^n |
| BigLogic.OrNeverSignOnly | emu/bigint.c:1064-1116 | the exception does not exist for OR |
| BigLogic.XorSignOnly | emu/bigint.c:1118-1171 | the exception for XOR: exactly when the operands are (2^28)^n apart |
| BigLogic.AndSignOnly | emu/bigint.c:1010-1063 | the exception for AND: exactly when both operands are negative and no bit below 28n is set in both |
| BigLogic.AndSignOnlyExample | emu/bigint.c:1010-1063 | two operands for which AND returns 0 although the true result is -(2^28)^3 |
| BigShift.ShiftL | emu/bigint.c:553-568 | x * 2^y, normalized |
| BigShift.ShiftR | emu/bigint.c:569-591 | floor(x / 2^y), normalized |
| BigShift.ShiftRTwos | emu/bigint.c:637-661 | shifting an encoding with its sign bit set gives the encoding of the floor quotient |
| BigShift.ShiftRBig | emu/bigint.c:1204-1246 | a right shift of any sign is floor(x / 2^k); a negative count goes left, an enormous one is refused |
| BigShift.ShiftLBig | emu/bigint.c:1173-1202 | a left shift is x * 2^k, with the same conventions |
| BigText.DecimalParses | emu/bigint.c:1358-1411 | decimal text reads back as the number and has no leading zero |
| BigText.SameDigitCount | emu/bigint.c:1358-1411 | a round leaves as many digits exactly when the top digit is 10^8 or more |
| BigText.WriteBigint | emu/bigint.c:1358-1411 | from the returned index to the NUL stands the optional minus and the decimal text; it fails exactly when text and sign do not fit |
| Trail.RecoversWrite | emu/bapi.h:66-88 | overwriting a cell keeps a choice point recoverable when the cell is newer than it or on the trail since |
| Trail.RecoversPush | emu/bapi.h:66-88 | one more entry, also for a cell pushed before, changes nothing that undoing gives back |
| Trail.RecoversCut | emu/bapi.h:90-99 | going back to a newer choice point keeps the older ones recoverable |
| Stores.Store.PushTrail | emu/bapi.h:66-88 | pushes the old content and keeps every choice point recoverable |
| Stores.Store.Update | emu/event.h:46-100 | the guarded trailed write every domain update is made of |
| Stores.Store.UndoTrailing | emu/bapi.h:90-99 | pops down to the mark, writing back in reverse order |
| Stores.Store.Backtrack | emu/bapi.h:90-99 | memory and all variables are exactly what they were when the choice point was created |
| Runs.Speculate | emu/bapi.h:66-99 | after any sequence of creations, updates, choice points, cuts and failures, each of which does what it should, failing back to the first choice point restores the whole store |
| Runs.Narrowing | emu/domain.c:546-597 | what each update in a run does to its variable |
| Region.Assign | emu/event.h:41-44 | binding writes the value cell; the description stays behind |
| Region.DomainRegion | emu/clpfd.h:194-327 | on the described set: exactly the values from..to stay; bound when one is left, false when none; the bounds handed on are those of the result |
| BitScan.DomainNextBv | emu/domain.c:774-788 | the least member at or above a value, found by bytes and words |
| BitScan.DomainPrevBv | emu/domain.c:820-831 | the greatest member at or below a value |
| BitScan.DmTrue | emu/domain.c:891-911 | membership, whatever the stale bits outside the bounds are |
| BitScan.CountDomainElms | emu/domain.c:1035-1055 | the number of members in a range |
| Holes.ExcludeInnerElm | emu/domain.c:688-704 | clears one inner value, if it is there, and nothing else |
| Holes.ExcludeInnerInterval | emu/domain.c:2570-2597 | clears exactly the interval although each word is trailed once only |
| ToBits.ItToBv | emu/domain.c:242-277 | an interval becomes a bit vector that means the same |
| ToBits.ItToBvWithHole | emu/domain.c:278-325 | ... less one value |
| ToBits.ItToBvWithIntervalHoles | emu/domain.c:326-370 | ... less an interval |
| Domains.BoundIffSingle | emu/event.h:41-44 | a variable is bound exactly when one value is left |
| Domains.SetFalse | emu/domain.c:546-597 | removes exactly the value, for bound and unbound variables; fails exactly when nothing is left; an interval becomes a bit vector exactly when the value is inside |
| Domains.ExcludeInterval | emu/domain.c:2599-2622 | removes exactly the interval |
| DomainPairs.ExcludeDom | emu/domain.c:707-727 | what is left of Y is D(Y) less what X describes |
| DomainPairs.DmIntersect | emu/domain.c:1912-1932 | what is left of X is the intersection |
| WordTests.WordApart | emu/domain.c:1977-2022 | the masked AND of two words is zero exactly when they share no value in the range |
| WordTests.DmDisjoint | emu/domain.c:1977-2022 | true exactly when the two domains are disjoint, on the word loop and on the element loop |
| WordTests.DomainInclude | emu/domain.c:431-480 | true exactly when the second domain is a subset of the first |
| LinearTerms.UpDiv | emu/term.h:612-620 | the least v with a*v >= x, from truncating division |
| LinearTerms.LowDiv | emu/term.h:622-629 | the greatest v with a*v <= x |
| LinearTerms.ComputeBounds | emu/clpfd.h:347-455 | the forward pass leaves the bounds of all partial sums |
| LinearGe.NaryGe | emu/clpfd_libs.c:405-736 | no solution is removed, every value left has a solution (also at the early exits), false only without solutions, killed exactly when entailed |
| LinearGe.WorstDecides | emu/clpfd_libs.c:405-736 | whatever values are taken the inequality holds exactly when it holds at the worst bounds |
| LinearGe.ReduceGePos | emu/clpfd.h:938-1047 | keeps exactly the values with enough slack |
| LinearGe.KeptMeaning | emu/clpfd_libs.c:405-736 | keeping exactly the values with enough slack makes every variable's domain supported |
| LinearEq.NaryEq | emu/clpfd_libs.c:37-348 | every solution survives and false means there is none, also when a variable stands at several positions; without repetition each term is cut exactly to what the extremes of the others leave; the values of a variable that stays free fit between the extremes of the other terms at each of its positions; with all variables bound the equation is decided |
| LinearEq.ReduceEqPos | emu/clpfd.h:493-680 | keeps exactly the values that fit between the bounds of the other terms, of those still described when the variable was bound meanwhile |
| LinearEq.HeldStep | emu/clpfd_libs.c:121-348 | narrowing a variable again, bound or not, keeps every solution that gives it one value |
| LinearSweep.SweptSound | emu/clpfd_libs.c:121-348 | that exact effect of the sweep loses no solution |
| LinearSweep.SweptFirst | emu/clpfd_libs.c:121-348 | the variable reduced last keeps exactly the values consistent with the final bounds of all others |
| LinearSweep.IdleRest | emu/clpfd_libs.c:121-141 | the early exit leaves exactly what the whole sweep would |
| BoolPropagators.EqAllMinusOneBool | emu/clpfd_libs.c:142-176 | on 0/1 variables: exactly the values with a solution over the positions stay, and it is killed exactly when nothing is left to do |
| BoolPropagators.EqAllOneBool | emu/clpfd_libs.c:142-176 | the same after turning the constant round |
| BoolPropagators.ExactSound | emu/clpfd_libs.c:142-176 | what is exact for the positions loses no solution for the variables, and killed settles the equation |
| BoolPropagators.EqAllMinusOne | emu/clpfd_libs.c:121-141 | the fall-through from all -1 to all 1 is the general constraint: the same solutions, the same exact sweep without repetition, the same bounds on free variables |
| BoolPropagators.SweptNeg | emu/clpfd_libs.c:121-141 | turning all signs round leaves the exact effect of the sweep the same |
| BoolMixed.EqSignsBool | emu/clpfd_libs.c:208-260 | no solution is lost; without a free variable of both signs the branch is exact; when it binds all variables it is right if and only if there is no such variable; each is bound by the sign of its first position, or nothing is changed |
| BoolMixed.MixedNone | emu/clpfd_libs.c:208-260 | forced, with a free variable of both signs, the equation has no solution |
| BoolMixed.ExampleHasNone | emu/clpfd_libs.c:208-260 | 1 + X + U - X - V = 0 with U = 1 has no solution |
| BoolMixed.AcceptExample | emu/clpfd_libs.c:208-260 | the propagator accepts it all the same and is killed |
| BoolInequalities.GeAllOneBool | emu/clpfd_libs.c:529-552 | the specialised 0/1 branch gives what the general `>=` gives, and is killed exactly when what is left entails the inequality |
| BoolInequalities.GeAllMinusOneBool | emu/clpfd_libs.c:553-575 | the same with coefficients -1 |
| BoolInequalities.GeAllNegBool | emu/clpfd_libs.c:632-650 | the same with any negative coefficients |
| LinearBool.FreeEq | emu/clpfd_libs.c:208-260 | strictly between the extremes both values of every variable have a solution, so nothing may be bound |
| Quotients.Corners | emu/domain.c:3064-3076 | the corner quotients contain every exact quotient when the divisor's interval excludes 0 |
| Quotients.CornerProducts | emu/domain.c:3035-3043 | the corner products bound every product |
| Products.HullCorners | emu/domain.c:3035-3043 | the corner products are the extreme products of members |
| Products.QuotientCorners | emu/domain.c:3064-3076 | the rounded corner quotients are the extreme rounded quotients of members |
| Products.PassedEnd | emu/domain.c:2710-2823 | a pass that ends when one value is left leaves exactly the values to keep, or the greatest |
| Products.OutOfReach | emu/domain.c:3035-3056 | a product beyond all products of small factors is noticed when the sign phase leaves both factors free |
| Products.OutOfReachExample | emu/domain.c:3035-3056 | X and Y in 2..3 and Z = 100 fail |
| Products.UnboundLeft | emu/domain.c:2957-3106 | with both factors free in the end, Z lies between the products of the signed factors and X among the quotients when Y has one sign |
| Elimination.ExcludeUnsupportedY | emu/domain.c:2710-2745 | loses no a*b = c; exactly the values of y with a partner in x stay, or the greatest if there are none, and an interval becomes a bit vector exactly when that makes a hole |
| Elimination.ExcludeUnsupportedYConst | emu/domain.c:2747-2776 | the same with z fixed |
| Elimination.ExcludeUnsupportedZ | emu/domain.c:2778-2823 | loses no a*b = c; exactly the values of z that are products stay, or the greatest if there are none |
| MultiplyInt.ConstFactor | emu/domain.c:2963-2985 | with a factor fixed, z keeps exactly the multiples with the quotient in y; it fails exactly when there are none, and no solution is lost |
| MultiplyInt.BoundQuotient | emu/domain.c:3064-3076 | a factor is cut exactly to the values between the least quotient rounded down and the greatest rounded up, and no solution is lost |
| MultiplyInt.BoundProduct | emu/domain.c:3035-3056 | z is cut exactly to the values between the least and the greatest product; it fails exactly when there are none, and no solution is lost |
| MultiplyInt.ClpfdMultiplyInt | emu/domain.c:2957-3106 | no solution of X*Y = Z is lost over all phases, and failure means there is none; what is left is exactly what the set functions of the phases leave, for two free factors and for a bound one |
| HallSets.ImageSize | emu/domain.c:1765-1839 | different variables take different values (the pigeonhole count) |
| HallSets.TooCrowded | emu/domain.c:1765-1839 | more variables than values inside D(X): no all-different assignment |
| HallSets.Occupied | emu/domain.c:1765-1839 | as many: no other variable takes a value of D(X) |
| HallSets.CheckHallVar | emu/domain.c:1765-1839 | no all-different assignment is lost, and failure means there is none; it fails exactly on more variables inside D(X) than values, takes D(X) from all other free variables on just as many, and does nothing on fewer |
| Schedules.WindowHolds | emu/domain.c:2189-2284 | tasks that do not overlap need a window of at least their total duration |
| Schedules.MustBeFirst | emu/domain.c:2189-2284 | when the group and the task only fit with the task first, it ends before the group begins |
| Schedules.MustBeLast | emu/domain.c:2189-2284 | the same at the other end |
| Disjunctive.EdgeFinder01 | emu/domain.c:2189-2219 | the start is cut exactly by the two rules for the seed and the previous task, and no schedule is lost; a fixed start fails exactly when the three do not fit |
| Disjunctive.EdgeFinder | emu/domain.c:2221-2259 | the start is cut exactly by the two rules for all tasks so far, no schedule is lost, and the work accumulated fits the window accumulated |
| Disjunctive.TooMuchWork | emu/domain.c:2221-2259 | a window shorter than the work in it: no schedule |
| Disjunctive.CutAllowed | emu/domain.c:2189-2259 | cutting by narrower windows excludes at least what the windows at the start exclude |
| Disjunctive.ShortWindow | emu/domain.c:2206-2217 | in a window too short for the three, the pair's step on a free start fails exactly when no start leaves the other two their time |
| Disjunctive.ShortWindowExample | emu/domain.c:2206-2217 | three tasks of length 3 from 0 to 8: the free one keeps the starts 0, 1 and 2 |
| EdgeFinding.ForwardEdgeFinder | emu/domain.c:2261-2284 | one pass loses no schedule and fails only when there is none; success means that every turn cut the start by the rules in the windows accumulated by then (`PassMade`), and so that the first n tasks (n > 2) fit every window that covers their values, that a fixed task fits with the seed and the task before it, and that a free one has only values that both rules allow, for the seed and the task before it and for all tasks before it |
| Disjunctive.TurnLeaves | emu/domain.c:2189-2284 | what a turn in the windows accumulated so far leaves, in terms of the values at the start of the pass |
| EdgeFinding.DisjunctiveTasksEf | emu/domain.c:2286-2397 | all six passes, over the rearranged tasks: every schedule survives, if there is one the result is true, and success means that each pass, in this order, did all that for the values it found, and that no later one undid it |
| CutNodes.CheckReach | emu/domain.c:1453-1577 | the search marks exactly the nodes reachable from the start through nodes that can carry the label |
| Graphs.ClosedReach | emu/domain.c:1453-1577 | a set closed under steps contains all that is reachable |
| CutPruning.UnmarkedNot | emu/domain.c:1347-1401 | an unreachable node does not carry the label in any good labelling |
| CutPruning.CutMust | emu/domain.c:1347-1401 | a node whose removal cuts off the end carries the label in all of them |
| CutPruning.NodeDegree | emu/domain.c:1403-1451 | the number of successors that can carry the label |
| CutPruning.SameSearch | emu/domain.c:1379-1399 | forcing one node does not change what the searches still to come find |
| CutPruning.CheckReachCuts | emu/domain.c:1347-1401 | every good labelling survives, and failure means there is none; exactly the labels of the unreachable nodes lose the color, and then exactly the labels of the cutting nodes are bound to it, also when nodes share label variables; it fails only when an unreachable node is bound to the color |
| Tables.SupportsMutual | emu/cfd.c:404-432 | support is mutual: b supports a exactly when a supports b |
| TableMeasure.MeasureTable | emu/cfd.c:387-432 | the first pass leaves the extremes of every support set, untouched entries for the empty ones |
| SupportBits.NewBits | emu/cfd.c:27-63 | an empty bit vector with crossed bounds, ready for the values lo..hi |
| SupportBits.SetTrue | emu/cfd.c:70-88 | adds exactly one value, keeping size and bounds, by writes that need no trail |
| TableBuild.MakeSlot | emu/cfd.c:490-507 | an empty set gets nothing, one value an integer, two neighbours an interval, everything else an empty bit vector |
| TableBuild.BuildTries | emu/cfd.c:243-297 | every S_ijk is exactly the set of values of column j in the rows with k in column i, be it an integer, an interval or a bit vector; older variables are untouched |
| TableBuild.BuiltConstraint | emu/cfd.c:225-297 | the tries built make a table constraint of any older variables, repeated or not, and the tries of a pair are mutual |
| TableArcs.ExcludeUnsupported | emu/cfd.c:613-648 | what is left of X are exactly its values with a support in Y; when X and Y are one variable, exactly those with a support among the values left when their turn comes |
| TableArcs.SelfedStays | emu/cfd.c:613-648 | a value that supports itself is never lost |
| TableArcs.SelfKeptUnique | emu/cfd.c:613-648 | with one variable at both places the values left are determined |
| TableConstraint.RemoveUnsupported | emu/cfd.c:650-696 | no row of the table is lost and failure means no row fits; every value left stands, for each other column, in a row with a value that column had at the start; without repetition exactly those values are left that are backed by what is left in the columns before and by what was there in the columns after, and it fails exactly when that empties a column; all but the smallest domains become bit vectors |
| TableConstraint.BoundDecides | emu/cfd.c:650-696 | with all variables bound it succeeds exactly when every two of the values stand in one row |
| TableArcs.Instantiated | emu/cfd.c:698-737 | D(Y) is cut to the supports of the value of X |
| TableArcs.InstantiatedArc | emu/cfd.c:698-737 | these are exactly the values of Y supported by X |
| TableArcs.Excluded | emu/cfd.c:740-796 | Y loses exactly the values that the excluded value supported and no value of X does |
| TableArcs.ExclusionPaid | emu/cfd.c:740-796 | handling one exclusion settles it, whatever others are still to be handled |
| TableArcs.LastExclusion | emu/cfd.c:740-796 | with no other exclusion pending, Y is arc consistent again and keeps every supported value |
| Chains.BucketSuffices | emu/assert.c:889-915 | a bucket holds every clause that may match the key, in the order of the whole list |
| Chains.VisibleGrow | emu/emu_inst.h:9093-9107 | a clause born now is seen by exactly the calls made from now on |
| Chains.VisibleStamp | emu/emu_inst.h:9093-9107 | a clause stamped dead now is seen only by the calls made before |
| Chains.VisibleMinus | emu/emu_inst.h:9093-9107 | taking a clause off the list takes it out of every view and nothing else |
| Chains.SubMinus | emu/assert.c:263-373 | removing a clause from the list and from its buckets keeps the buckets sub-chains |
| Chains.AppendInStep | emu/assert.c:760-795 | appending to the list and to the right buckets keeps index, references and live count in step |
| Chains.PrependInStep | emu/assert.c:699-731 | so does prepending |
| Chains.RemoveInStep | emu/assert.c:263-373 | so does removing |
| ClauseDb.Pred.AppendCell | emu/assert.c:733-758 | a chain gets one clause at its end; all chains stay doubly linked |
| ClauseDb.Pred.PrependCell | emu/assert.c:673-697 | a chain gets one clause at its head |
| ClauseDb.Pred.Disconnect | emu/assert.c:342-373 | a cell leaves its chain, wherever it stands |
| ClauseDb.Pred.LocateAndFree | emu/assert.c:291-340 | the clause leaves the list and every bucket, and the index stays right |
| ClauseDb.Pred.RemoveClause | emu/assert.c:263-289 | a clause in use is only stamped dead, and calls made before still see the same clauses in the same order; later ones do not see it; the live count drops by one, once |
| ClauseDb.Pred.Rehash | emu/assert.c:582-645 | a bigger table, the same clauses in the same order on the same cells, the index right |
| ClauseDb.Pred.AssertaInterpreted | emu/assert.c:699-731 | the clause is first in the list, in every bucket it belongs to, and in the view of every call made from now on |
| ClauseDb.Pred.AssertzInterpreted | emu/assert.c:760-795 | the clause is last in the list, in every bucket it belongs to, and in the view of every call made from now on |
| ClauseDb.Pred.Asserta | emu/assert.c:392-421 | the clause is first; the rest is as before, also when the table is rehashed; while the predicate is in use, calls made before see what they saw |
| ClauseDb.Pred.Assertz | emu/assert.c:423-450 | the clause is last; while the predicate is in use, calls made before see what they saw, and calls made afterwards see the new clause |
| ClauseDb.Pred.GetClauses | emu/assert.c:889-915 | the chain handed out misses no clause that may match the key and keeps their order; the call's time is the present |
| ClauseDb.Pred.FilterClauses | emu/emu_inst.h:9093-9126 | the next cell on the chain whose clause the call sees and whose key may match; none before it does |

## Left out

- Greatest common divisor and powers of big integers: gcd calls the divider with an empty divisor when one operand is 0.
- `bp_updiv_bigint_bigint` and `bp_lowdiv_bigint_bigint`: the second returns the quotient without its sign when it is exact and negative.
- The packing of two digits in one 64-bit word, and the scratch area on the stack: arrays of their own stand for it. Failing allocations and `int` truncation of digit counts are not modelled.
- UMulDiv.Mul: the operands are nonzero, as all callers make sure.
- BigLogic.LogicBig: the longer operand has two digits at least; shorter ones are machine words and take another path.
- `bp_math_mod`'s shortcut for machine words, which uses C's `%`.
- Floating point, event triggers, suspension frames, garbage collection and dereferencing chains.
- The saturating arithmetic of constraint type 0. The arithmetic of the model is exact, so the macros for coefficients 1 and -1 and the general ones compute the same.
- LinearEq.NaryEq: of a repeated variable that is bound during the call it is said only that no solution is lost.
- LinearGe.NaryGe and LinearEq.NaryEq take arguments that are all variables of the store; an integer argument is a bound variable.
- Distinct variables are assumed for `>=` (but not in its 0/1 branches with coefficients all 1 or all -1), multiplication, Hall sets and edge finding, and for the two variables of `b_CFD_INS` and `b_CFD_DOM`.
- CutPruning.CheckReachCuts: no variable is both a label and a successor.
- Stores.Store.NewVar: empty and one-value ranges at creation are decided before a variable is made. Copying a domain (`dm_clone`) is left out.
- EdgeFinding.DisjunctiveTasksEf: of a start that is bound within a pass, what is left is described for the later passes only.
- Domains.SetFalse: the variants for variables known to be unbound are the same code without the first test.
- BitScan.DomainNextBv: a word read past the end of a block counts as 0; its bits are never used.
- `check_two_cuts` is commented out in the source. The searches with and without a cut node are one method here, cut node 0 standing for none.
- Tables with negated tuples (the NOTIN variants), forward checking on a hash table, and normalizing the columns: the model starts from normalized rows. The entry of a trie at i, j, k is an element of a three-dimensional array instead of a computed address.
- ClauseDb.Pred.Rehash: the new size is a parameter, not smaller than the old one, because `bp_hsize` looks it up in a table. A table of size 0 is excluded; removal would divide by zero.
- ClauseDb.Pred.RemoveClause, Asserta and Assertz: the time stamp is below its maximum, and freed cells are never used again; nothing is said of a retrieval that is walking a bucket when the table is rehashed.
- `abolish_pred`: it empties all chains at once.
- `emu/assert_bp.c` repeats `emu/assert.c`.
- Labelling heuristics, term copying, registration tables, I/O and foreign calls: they would add easy members only.
