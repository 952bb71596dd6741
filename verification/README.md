# Verified models of ytlib

Dafny 4.11 models of the algorithms and protocols inside ytlib, with proofs that they do what the
library promises. Each group of files follows one source file; loops that update variables stay
loops, objects whose methods update their fields stay classes, and what several threads share is a
state machine over their steps.

| files | source | subject |
|---|---|---|
| Complex, BitReversal, Dft, Fft | ytlib/math/complex.hpp | in-place radix-2 FFT and IFFT |
| SendBuf, SendHistory, LoneSender | ytlib/ytrpc/unifex_rpc/unifex_rpc_client.hpp | hand-off between any number of senders |
| AvlTree | ytlib/container/binary_tree.hpp | AVL tree with father links and cached heights |
| Digits, BigNum, BigDivision, BigText | ytlib/math/big_num.hpp | integers over 32-bit digits in any base |
| Walks, Dijkstra, Floyd, DepthFirst | ytlib/container/graph.hpp | shortest paths and traversal |
| BoolGrammar, ShuntingYard, BoolMachine, BoolEffect, BoolCalculator | ytlib/logic/bool_expression.hpp | checker, compiler and stack machine |
| Kmp, EditDistance | ytlib/string/string_algs.hpp | substring search, edit distance |
| RpcFrame, RpcEncoder, RpcReceiver | ytlib/ytrpc/asio_rpc, ytlib/ytrpc/rpc_util/buffer.hpp | framing of the RPC byte stream |
| Channel, ChannelHistory | ytlib/thread/channel.hpp, ytlib/thread/block_queue.hpp | worker threads on a blocking queue |
| TimingWheel, TimerRuns | ytlib/timer/timer.hpp | one timing wheel with an overflow map |
| ReplaceString, SplitJoin | ytlib/string/string_util.hpp | replacement in place |
| LocalCache | ytlib/cache/local_cache.hpp | cache with time to live and LRU eviction |
| Arithmetic, Memory, Wrappers | | products and divisions, writing into buffers, optional values |

How to read a group: a small specification first (the Fourier sum, the integer that digits denote,
walks in a graph, the grammar, the table of edits, the frames on the wire), then lemmas about it,
then the methods that model the code, each with an `ensures` that ties its result or its new state
to the specification.

Where the code does not do what it is meant for, the model keeps the code and says exactly when it
is right:

- Long division forms a 32-bit product of a digit and the base. It is right for every pair of
  numbers in a base if and only if the base is at most 65536 (`BigDivision.DivisionBound`).
- The translation of boolean expressions is the postfix form of the tree if and only if no two `!`
  stand next to each other (`ShuntingYard.CompilesExactly`). Evaluation looks at an empty stack if
  and only if two `!` stand next to each other before the first key. Otherwise all `!` of a run but
  one are spent on the operand in front of them; the value is right for all values of the keys when
  every run of `!` has odd length (`BoolCalculator.CalcText`). Even runs give wrong values, unless
  they happen to cancel out (`BoolCalculator.JoinNotsRight`, `BoolCalculator.RightByCoincidence`).
- A timed call fires on its own tick if and only if it is less than one round away, or the
  remainders of the current tick and of the distance do not carry into the next round; otherwise it
  fires one round early (`TimingWheel.FiresOnTime`).
- Erasing a node with exactly one child from the AVL tree is right if and only if the node is the
  root, or the child hangs from it on the side on which it hangs from its own father
  (`AvlTree.Node.EraseImp`); `AvlTree.SmallErase` erases such a node on the wrong side.

The hand-off between senders is modelled for submissions of at least one block, which is what its
caller makes (ytlib/ytrpc/unifex_rpc/unifex_rpc_client.hpp:66-67). The reason is
`LoneSender.EmptySubmissionWedges`: a lone submission without blocks would leave the sending flag
set, and nothing would be written after it.

## Model

| member | source | states |
|---|---|---|
| ComplexNumbers.Cell.MulAssign | ytlib/math/complex.hpp:61-66 | in-place product, also when both operands are the same object |
| ComplexNumbers.ImaginaryUnit | ytlib/math/complex.hpp:55-66 | i times i is -1, and its fourth power is 1 |
| ComplexNumbers.ModulusOfProduct | ytlib/math/complex.hpp:55-66 | squared moduli multiply |
| ComplexNumbers.Pow | ytlib/math/complex.hpp:131-139 | repeated squaring computes the n-th power |
| BitReversal.RevInvolution | ytlib/math/complex.hpp:215-226 | bit reversal stays in range and undoes itself |
| BitReversal.CarryDownIsNextRev | ytlib/math/complex.hpp:220-225 | adding one from the top bit down leads from the reversal of i to that of i + 1 |
| Fft.NextReversed | ytlib/math/complex.hpp:220-225 | the inner loop ends, because j is never all ones, and performs that addition |
| Fft.Reorder | ytlib/math/complex.hpp:215-226 | afterwards every entry stands at its bit-reversed index |
| Fft.Stage | ytlib/math/complex.hpp:230-246 | one stage combines every pair of half blocks by butterflies with the right twiddle factor |
| Dft.EvalSplit | ytlib/math/complex.hpp:239-244 | a transform splits into those of the even and the odd samples |
| Dft.StageStep | ytlib/math/complex.hpp:230-246 | after stage m each block of 2^m holds the transform of its decimated samples |
| Fft.FFT | ytlib/math/complex.hpp:209-247 | entry k of the result is the sum of x[n] * w^(n*k), for every power of two N >= 2 and every w with w^(N/2) = -1 |
| Dft.Orthogonality | ytlib/math/complex.hpp:257-264 | the powers of a non-trivial root sum to zero |
| Fft.ConjugateComplex | ytlib/math/complex.hpp:179-184 | every real part stays and every imaginary part changes its sign |
| Fft.IFFT | ytlib/math/complex.hpp:257-264 | the result is the transform with the conjugate root, divided by N; for w of modulus 1, N times entry k is the sum of x[n] * v^(n*k) with v the inverse of w |
| Dft.InverseOfTransform | ytlib/math/complex.hpp:257-264 | the inverse transform of the transform is the signal |
| Dft.TransformOfInverse | ytlib/math/complex.hpp:257-264 | the transform of the inverse transform is the spectrum |
| Fft.TransformAndBack | ytlib/math/complex.hpp:209-264 | FFT then IFFT leave the array as it was |
| Fft.BackAndTransform | ytlib/math/complex.hpp:209-264 | IFFT then FFT leave the array as it was |
| SendBuf.RunKeeps | ytlib/ytrpc/unifex_rpc/unifex_rpc_client.hpp:404-458 | the invariant of flag, mutex, queue and tasks holds after every run, any number of senders interleaved in any way |
| SendBuf.NeverTwoWriters | ytlib/ytrpc/unifex_rpc/unifex_rpc_client.hpp:443-445 | in every reachable state at most one sender writes, submissions go out whole, and none goes out twice |
| SendBuf.EverythingDelivered | ytlib/ytrpc/unifex_rpc/unifex_rpc_client.hpp:404-458 | when nobody is in flight on a running session, the queue is empty, flag and mutex are free, and every submission has been written exactly once |
| SendBuf.SomeoneCanMove | ytlib/ytrpc/unifex_rpc/unifex_rpc_client.hpp:404-458 | no deadlock: while a sender is in flight some sender can take a step |
| SendBuf.RunsEnd | ytlib/ytrpc/unifex_rpc/unifex_rpc_client.hpp:416-455 | without new submissions only boundedly many steps are taken, whatever the schedule |
| SendHistory.SubmittedAre | ytlib/ytrpc/unifex_rpc/unifex_rpc_client.hpp:404-406 | the submissions of a run are those of its events, in order |
| SendHistory.StopsForGood | ytlib/ytrpc/unifex_rpc/unifex_rpc_client.hpp:416 | a session that has been stopped never runs again |
| SendHistory.OneWriteEach | ytlib/ytrpc/unifex_rpc/unifex_rpc_client.hpp:416-455 | after a stop every task completes at most one write, and none if it has not passed the check of the run flag |
| SendHistory.SilentAfterStop | ytlib/ytrpc/unifex_rpc/unifex_rpc_client.hpp:416-455 | when nobody has passed that check, nothing reaches the wire any more in any continuation |
| SendHistory.FailureStops | ytlib/ytrpc/unifex_rpc/unifex_rpc_client.hpp:447-451 | a failed write stops the session: its task is about to do so, or the session is off |
| SendHistory.WireOnlyGrows | ytlib/ytrpc/unifex_rpc/unifex_rpc_client.hpp:442-444 | what is on the wire stays, and more comes behind it |
| SendHistory.NoOvertaking | ytlib/ytrpc/unifex_rpc/unifex_rpc_client.hpp:408-410 | a submission merged behind another one reaches the wire behind it or not at all |
| LoneSender.LoneSubmission | ytlib/ytrpc/unifex_rpc/unifex_rpc_client.hpp:404-458 | after any run that ends quiet, a submission that its own sender brings to its end has its blocks written, and the flag is free if and only if there were any |
| LoneSender.LoneSenderEnds | ytlib/ytrpc/unifex_rpc/unifex_rpc_client.hpp:416-455 | there is such a way to the end |
| LoneSender.EmptySubmissionWedges | ytlib/ytrpc/unifex_rpc/unifex_rpc_client.hpp:434-435 | after a lone submission without blocks the flag stays set and nothing is written in any continuation |
| AvlTree.Node.RotateL | ytlib/container/binary_tree.hpp:366-388 | a right turn below any father: links, heights and order of the nodes around it |
| AvlTree.Node.RotateR | ytlib/container/binary_tree.hpp:390-412 | the mirror image |
| AvlTree.Node.Balance | ytlib/container/binary_tree.hpp:203-219 | one or two rotations balance a node whose sides differ by two, and keep the order of the nodes |
| AvlTree.Node.Rebalance | ytlib/container/binary_tree.hpp:199-230 | the way up ends with a linked, balanced tree of the same nodes in the same order, also where it stops early |
| AvlTree.Node.BinSearch | ytlib/container/binary_tree.hpp:1097-1104 | finds the node with the key if there is one; with n nodes it looks at so few nodes s that Fib(s + 2) is at most n + 1 |
| AvlTree.BalancedSize | ytlib/container/binary_tree.hpp:203-219 | a balanced tree of height h has at least Fib(h + 2) - 1 nodes |
| AvlTree.Node.SetLChild | ytlib/container/binary_tree.hpp:763-801 | links target and child both ways and cuts what they were linked to before |
| AvlTree.Node.SetRChild | ytlib/container/binary_tree.hpp:803-841 | the mirror image |
| AvlTree.Node.BreakFather | ytlib/container/binary_tree.hpp:741-754 | cuts both links between a node and its father and nothing else |
| AvlTree.Node.Insert | ytlib/container/binary_tree.hpp:171-233 | from any AVL tree: throws unless called on a root; a present key changes nothing; otherwise the result is the root of an AVL tree with exactly one node more, which is cut from a father outside the tree |
| AvlTree.Node.EraseTwo | ytlib/container/binary_tree.hpp:296-326 | the predecessor takes the place of a node with two children, and the way up starts where it came from |
| AvlTree.Node.EraseImp | ytlib/container/binary_tree.hpp:261-363 | the result is the root of an AVL tree of the other nodes if and only if the node is not an only-child father on the other side of its own father |
| AvlTree.SmallErase | ytlib/container/binary_tree.hpp:274-291 | in the AVL tree of 1, 2, 3 and 4 with 3 on the left of 4 and 4 on the right of the root, erasing 4 does not take it out |
| AvlTree.Node.Erase | ytlib/container/binary_tree.hpp:249-257 | erasing by key: throws unless called on a root, changes nothing when the key is absent, else as EraseImp |
| Digits.LongerIsLarger | ytlib/math/big_num.hpp:532-533 | of two numbers without leading zeros the one with more digits is larger |
| Digits.NormalUnique | ytlib/math/big_num.hpp:190-208 | numbers without leading zeros are equal only if their digits are |
| BigNumbers.SumDigits | ytlib/math/big_num.hpp:274-296 | long addition with wrapped 32-bit sums gives proper digits of the sum |
| BigNumbers.AddColumn | ytlib/math/big_num.hpp:284-288 | the carry test on the wrapped sum is right in every base below 2^32 |
| BigNumbers.DifferenceDigits | ytlib/math/big_num.hpp:250-273 | long subtraction with borrows gives proper digits of the difference |
| BigNumbers.IsSmaller | ytlib/math/big_num.hpp:234-248 | the test that swaps the operands compares the magnitudes |
| BigNumbers.Sweep | ytlib/math/big_num.hpp:157-162 | one pass divides the number by the new base in place, within 64 bits |
| BigNumbers.ChangeDigits | ytlib/math/big_num.hpp:154-169 | repeated passes end and write the same number in the new base without leading zeros |
| BigNumbers.BigNum.constructor | ytlib/math/big_num.hpp:43-58 | denotes num * base^order |
| BigNumbers.BigNum.AssignU64 | ytlib/math/big_num.hpp:123-136 | denotes num * base^order, with a superfluous zero digit exactly when num is zero |
| BigNumbers.BigNum.ReBase | ytlib/math/big_num.hpp:150-170 | keeps the number; bases below 2 are ignored |
| BigNumbers.BigNum.Plus | ytlib/math/big_num.hpp:226-301 | the integer sum, for every pair of bases and signs, without leading zeros |
| BigNumbers.BigNum.Minus | ytlib/math/big_num.hpp:319-321 | the integer difference |
| BigNumbers.BigNum.Negated | ytlib/math/big_num.hpp:339-343 | the negative |
| BigNumbers.BigNum.Times | ytlib/math/big_num.hpp:345-361 | the integer product, without leading zeros |
| BigNumbers.BigNum.Pow | ytlib/math/big_num.hpp:551-560 | the integer power |
| BigNumbers.BigNum.Compare | ytlib/math/big_num.hpp:525-543 | the order of the integers, also between bases and with zeros of either sign |
| BigNumbers.BigNum.Equals | ytlib/math/big_num.hpp:190-208 | equality of the integers |
| BigNumbers.BigNum.ShiftUp | ytlib/math/big_num.hpp:446-452 | multiplies by a power of the base |
| BigDivision.EstimateIsHead | ytlib/math/big_num.hpp:390-396 | the 32-bit head estimate is the true head of the remainder up to base 65536 |
| BigDivision.DigitInBracket | ytlib/math/big_num.hpp:398-400 | the true quotient digit lies between a / (b + 1) and (a + 1) / b |
| BigDivision.SearchDigit | ytlib/math/big_num.hpp:404-416 | the binary search finds the digit exactly when the bracket holds it, and no bound wraps around |
| BigDivision.DivideLoop | ytlib/math/big_num.hpp:389-417 | the loop over the positions computes LongDivide, missed digits included |
| BigDivision.LongDivideIsDivision | ytlib/math/big_num.hpp:373-428 | up to base 65536 that is the quotient and the remainder |
| BigDivision.AboveTheBound | ytlib/math/big_num.hpp:393 | in every larger base [0, 0, base - 1] divided by [1, base - 1] gives 0 instead of base - 1 |
| BigDivision.DivisionBound | ytlib/math/big_num.hpp:373-428 | division is right on all pairs of numbers in a base if and only if the base is at most 65536 |
| BigDivision.Div | ytlib/math/big_num.hpp:373-428 | throws for a zero divisor; otherwise dividend = quotient * divisor + remainder, the remainder smaller than the divisor and signed like the dividend |
| BigText.PrintedReadsBack | ytlib/math/big_num.hpp:67-110 | what is printed for an integer reads back as that integer |
| BigText.PrintingIsInjective | ytlib/math/big_num.hpp:485-512 | no two integers print alike |
| BigText.Print | ytlib/math/big_num.hpp:485-512 | prints the decimal numeral of the number, in whatever base it is held |
| BigText.DigitCharacters | ytlib/math/big_num.hpp:88-98 | the value of each digit character, in upper and lower case, in every base |
| BigText.NoDigit | ytlib/math/big_num.hpp:88-98 | every other character is no digit |
| BigText.Parse | ytlib/math/big_num.hpp:67-110 | reads an optional sign and the digits up to the first other character, and changes to the wanted base |
| Walks.SplitAt | ytlib/container/graph.hpp:261-275 | a walk through k splits at its first and last visit without gaining weight |
| Dijkstra.LeastOpenIsFinal | ytlib/container/graph.hpp:216-222 | the open node with the least record has its final distance |
| Dijkstra.Relax | ytlib/container/graph.hpp:206-215 | trying the sides of a node in any order keeps every record a walk's weight and relaxes the node |
| Dijkstra.ShortestPaths | ytlib/container/graph.hpp:194-225 | least weights for all nodes and -1 exactly for those out of reach; predecessors form a tree |
| Dijkstra.PathTo | ytlib/container/graph.hpp:233-241 | following the predecessors ends at the source, and the walk found weighs the reported distance |
| Floyd.CreateAdjMatrix | ytlib/container/graph.hpp:105-117 | the weight of each side, 0 on the diagonal unless there is a side to itself, -1 elsewhere |
| Floyd.ImprovedIsThrough | ytlib/container/graph.hpp:266-272 | one comparison turns least weights through nodes below k into those through nodes up to k |
| Floyd.AllDistances | ytlib/container/graph.hpp:250-277 | off the diagonal every entry is the least weight or -1; the path entry is set exactly where there is a path, and is the start of a direct side of that weight or a node through which the distances add up; the diagonal stays as in the adjacency matrix |
| DepthFirst.Dfs | ytlib/container/graph.hpp:149-155 | appends exactly the nodes that can be met without passing a visited one, each once, and marks them; the start comes first, and directly behind every node stand all those that can be met from it past the ones before it |
| BoolGrammar.CheckExp | ytlib/logic/bool_expression.hpp:178-249 | accepts exactly the strings of the grammar (a key, !E, (E), and two expressions joined by either binary operator), and each of them is the text of a tree |
| BoolGrammar.AcceptsExactlyGrammar | ytlib/logic/bool_expression.hpp:178-249 | the same for the automaton with its bracket counter |
| BoolGrammar.TreeUnique | ytlib/logic/bool_expression.hpp:253-267 | the tree, with ! tightest and the two binary operators equal from left to right, is determined by the string |
| ShuntingYard.ShuntCompiles | ytlib/logic/bool_expression.hpp:66-104 | the operator stack never underflows, and what comes out is known for every accepted string |
| ShuntingYard.CompilesExactly | ytlib/logic/bool_expression.hpp:80-89 | it is the postfix form of the tree if and only if no two ! are adjacent |
| ShuntingYard.PreCalc | ytlib/logic/bool_expression.hpp:62-107 | throws exactly for strings outside the grammar, otherwise gives that translation |
| BoolMachine.PostfixRuns | ytlib/logic/bool_expression.hpp:129-168 | on a postfix form the stack never underflows, one entry is left, and its lazy value is the eager value of the tree |
| BoolEffect.LeadingFlips | ytlib/logic/bool_expression.hpp:80-89 | a ! is executed before the first key exactly when two of them stand next to each other before that key |
| BoolEffect.ExpRuns | ytlib/logic/bool_expression.hpp:129-162 | on the translation of any accepted string, with enough on the stack, the machine leaves one more entry, its value given along the tree, after flipping the top entry by the leading ! |
| BoolEffect.AnswerIs | ytlib/logic/bool_expression.hpp:129-168 | what evaluation answers to the translation of any accepted string: an empty stack exactly for two ! before the first key, else a value given along the tree |
| BoolEffect.ExpOdd | ytlib/logic/bool_expression.hpp:80-89 | every run of ! in the string is odd if and only if every chain of negations in the tree is |
| BoolEffect.OddRunsRight | ytlib/logic/bool_expression.hpp:129-168 | with odd runs of ! that value is the value of the tree |
| BoolCalculator.Calc | ytlib/logic/bool_expression.hpp:116-169 | the evaluation loop: the exception for a missing lookup function, the value on postfix forms, and the answer to the translation of any accepted string |
| BoolCalculator.CalcText | ytlib/logic/bool_expression.hpp:52-54 | throws outside the grammar; fails exactly on two ! before the first key; otherwise the value along the tree, which is that of the tree when all runs of ! are odd |
| BoolCalculator.TwoKeys | ytlib/logic/bool_expression.hpp:136-162 | two keys joined by either operator evaluate to the conjunction or the disjunction |
| BoolCalculator.NotKey | ytlib/logic/bool_expression.hpp:131-135 | a key behind ! evaluates to its negation |
| BoolCalculator.ThreeKeys | ytlib/logic/bool_expression.hpp:253-267 | mixed operators are applied from the left, bracketed ones first |
| BoolCalculator.LeadingNeverRight | ytlib/logic/bool_expression.hpp:131-135 | with two ! before the first key it is not right for any values of the keys |
| BoolCalculator.JoinNotsRight | ytlib/logic/bool_expression.hpp:80-89 | j and n times negated k, joined by &, is right for all values of the keys if and only if n is zero or odd |
| BoolCalculator.DoubleNotWrong | ytlib/logic/bool_expression.hpp:80-89 | j&!!k comes out as !j&!k |
| BoolCalculator.DoubleNotUnderflows | ytlib/logic/bool_expression.hpp:131-135 | !!k is accepted and looks at an empty stack |
| BoolCalculator.RightByCoincidence | ytlib/logic/bool_expression.hpp:80-89 | (j&!j)&(k&!!k) has an even run and is right for all values of the keys |
| Kmp.BuildNext | ytlib/string/string_algs.hpp:29-40 | each entry is the longest border not followed by the same character, or -1; the loop ends |
| Kmp.SearchFallsBack | ytlib/string/string_algs.hpp:48 | falling back skips no occurrence, although borders are left out |
| Kmp.Search | ytlib/string/string_algs.hpp:24-51 | the least index of an occurrence, or the text length |
| EditDistance.LeastEdits | ytlib/string/string_algs.hpp:60-93 | the table's recurrence is the least number of insertions, deletions and replacements |
| EditDistance.Symmetric | ytlib/string/string_algs.hpp:62-63 | exchanging the strings changes nothing |
| EditDistance.StrDif | ytlib/string/string_algs.hpp:60-93 | two rows, swapped after each line, give that number |
| RpcFrame.HeaderSeen | ytlib/ytrpc/asio_rpc/asio_rpc_server.hpp:374-378 | eight bytes of a stream show whether a frame starts there, and its lengths |
| RpcFrame.LowestByteFirst | ytlib/ytrpc/asio_rpc/asio_rpc_client.hpp:75-94 | both lengths are little-endian |
| RpcFrame.OnTheWire | ytlib/ytrpc/asio_rpc/asio_rpc_client.hpp:75-94 | the bytes of three small frames |
| RpcEncoder.OutputStream.Next | ytlib/ytrpc/rpc_util/buffer.hpp:73-83 | offers the unused rest of the block, or a new one twice as large |
| RpcEncoder.OutputStream.Write | ytlib/ytrpc/rpc_util/buffer.hpp:66-116 | a serialiser's writes append exactly its bytes, over any number of blocks |
| RpcEncoder.EncodeMessage | ytlib/ytrpc/asio_rpc/asio_rpc_client.hpp:75-94 | the blocks hold exactly the frame of head and body, lengths filled in afterwards |
| RpcReceiver.Receiver.ReadEnds | ytlib/ytrpc/asio_rpc/asio_rpc_server.hpp:345-354 | a read ends exactly when the buffer is full, or its first frame complete or seen to be none |
| RpcReceiver.Receiver.CutFrames | ytlib/ytrpc/asio_rpc/asio_rpc_server.hpp:368-475 | hands on every complete frame that has a head or a body, in order and with its bytes, skips heartbeats, stops at what is too large or no frame, and sizes the next buffer so that the rest fits with room to spare |
| RpcReceiver.Receiver.Handle | ytlib/ytrpc/asio_rpc/asio_rpc_server.hpp:359-486 | no byte is lost between buffers, and messages handed on lie outside the buffer that is written next |
| RpcReceiver.Receive | ytlib/ytrpc/asio_rpc/asio_rpc_server.hpp:341-487 | for any frames in any pieces: when it waits, each completed frame with a head or a body, and nothing else, has been handed on, in order and byte for byte; it fails only at a message that is too large or at bytes that do not start like a frame |
| Channel.RunKeeps | ytlib/thread/channel.hpp:45-74 | mutex, queue, wake-up and once-only invariants hold after every run |
| Channel.HandledAtMostOnce | ytlib/thread/channel.hpp:52-58 | no item is handled twice and none that was not accepted |
| Channel.FirstInFirstOut | ytlib/thread/channel.hpp:53-54 | a worker takes the oldest accepted item that is left |
| Channel.NeverStranded | ytlib/thread/block_queue.hpp:50-58 | while a running channel has items somebody is awake, and nobody sleeps after Stop |
| Channel.NothingLost | ytlib/thread/channel.hpp:67-74 | once all workers are joined every item accepted before Stop has been handled exactly once |
| Channel.SomeoneCanMove | ytlib/thread/channel.hpp:50-61 | with items left, or after Stop until all have left, some worker can take a step |
| Channel.RunsEnd | ytlib/thread/channel.hpp:50-61 | workers take boundedly many steps per enqueue, wake-up and stop |
| ChannelHistory.EnqueueAppends | ytlib/thread/block_queue.hpp:50-58 | an Enqueue that finds room puts its item last in the queue, any other changes nothing |
| ChannelHistory.AcceptedIsRoomFound | ytlib/thread/block_queue.hpp:50-58 | the number of accepted items is the number of Enqueue events that found fewer than the maximal number of items |
| ChannelHistory.RunsUntilStop | ytlib/thread/block_queue.hpp:43-47 | the channel runs until the first Stop and never again |
| ChannelHistory.HandledBeforeStop | ytlib/thread/channel.hpp:67-74 | once all workers have left, every item accepted before the first Stop has been handled exactly once |
| ChannelHistory.OpenToCallers | ytlib/thread/block_queue.hpp:50-58 | while the mutex is free an Enqueue and a Stop are possible |
| TimingWheel.FiresOnTime | ytlib/timer/timer.hpp:163-183 | when a call fires on its own tick, and that otherwise it fires one round early, never late |
| TimingWheel.FiresEarly | ytlib/timer/timer.hpp:163-183 | ten slots, scheduled at tick 5 for tick 20: fires at tick 10 |
| TimingWheel.Timer.ExecuteAt | ytlib/timer/timer.hpp:145-184 | past ticks run at once; others go to the slot or the overflow list from which they fire at FireTick |
| TimingWheel.Timer.Tick | ytlib/timer/timer.hpp:320-331 | a tick gives out exactly the entries that fire now, each once |
| TimingWheel.Timer.Borrow | ytlib/timer/timer.hpp:93-112 | a new round moves its overflow list into the slots and loses none |
| TimerRuns.CallDecides | ytlib/timer/timer.hpp:145-184 | in a run of calls and ticks, a task is late or kept according to the tick of its own call only, and later calls do not change when it fires |
| TimerRuns.Play | ytlib/timer/timer.hpp:279-300 | over any sequence of calls and ticks, every kept task comes out of exactly one tick, the one at its FireTick, every other task is run at once, and nothing else comes out |
| ReplaceString.FindAll | ytlib/string/string_util.hpp:414-419 | the positions of the left-to-right, non-overlapping occurrences |
| ReplaceString.ReplaceSame | ytlib/string/string_util.hpp:422-424 | equal lengths: overwriting gives the replacement |
| ReplaceString.ReplaceShorter | ytlib/string/string_util.hpp:425-435 | shrinking: moving forward gives the replacement, nothing overwritten before it is moved |
| ReplaceString.ReplaceLonger | ytlib/string/string_util.hpp:436-448 | growing: moving backward gives the replacement |
| ReplaceString.Replace | ytlib/string/string_util.hpp:412-451 | all branches leave the left-to-right replacement of the whole string, whose length changes by the difference of the two values for each occurrence |
| SplitJoin.ReplacedIsJoined | ytlib/string/string_util.hpp:412-451 | for every way to cut a string at the old value, each time where it comes first: the replacement is the pieces joined with the new value |
| SplitJoin.EveryStringSplits | ytlib/string/string_util.hpp:414-419 | there is such a way |
| LocalCache.LocalCache.CleanExpired | ytlib/cache/local_cache.hpp:127-142 | a key stays if and only if its load time is at least now minus the time to live |
| LocalCache.LocalCache.Get | ytlib/cache/local_cache.hpp:64-74 | returns a value if and only if the key is there and was loaded within the time to live, and then that value; a hit becomes the most recently used |
| LocalCache.LocalCache.Update | ytlib/cache/local_cache.hpp:85-102 | inserts or reloads, and cleans up at capacity, with a second reading of the clock: what is left are live entries, each used after every live one that is gone, so the size stays below capacity |
| LocalCache.LocalCache.CleanUp | ytlib/cache/local_cache.hpp:148-165 | keeps live entries only, the target number of them if there are more, each used after every live one it drops |
| LocalCache.LocalCache.Del | ytlib/cache/local_cache.hpp:109-121 | removes the key and what has expired, and nothing else |

## Left out

- BigDivision.Div: above base 65536 it is modelled only for quotients of at most two digits, because there a missed digit can leave a remainder for which the 32-bit bounds of the search wrap around and the source's loop need not end.
- BigDivision.DivideLoop: the same restriction.
- BigNumbers.BigNum.constructor: the lowest 64-bit integer, whose negation overflows, is excluded.
- Kmp.Search: texts of 2^31 characters and more are excluded, because the source counts positions in 32-bit signed integers.
- Floating-point rounding: complex numbers and graph weights are exact reals, and the tolerance in the comparison of complex numbers is not used.
- Sine and cosine: the twiddle base of the FFT is a parameter of which only w^(N/2) = -1, and for the inverse |w| = 1, is assumed; array lengths are powers of two, as the FFT needs.
- The rest of complex.hpp: quotients of complex numbers, roots, polar form, printing and the shifted spectrum.
- Ownership of tree nodes: shared and weak pointers are plain references, so the moment at which an unlinked node is freed is not modelled.
- AvlTree.Node.Insert: a node with children of its own is excluded, unless its key is present already; the source would hang the whole subtree below a leaf and count it as one node. So is a node whose father is in the tree without having it as a child.
- Erase by node pointer with its walk to the root, the red-black tree (unfinished), the plain binary trees, the tree checkers and the serialisation of trees.
- Octal and hexadecimal stream formatting of big numbers, shifting down, increments and decrements.
- DepthFirst.Dfs: nodes are numbered by their place in the vector that callers keep, so the visited marks are an array over these numbers instead of fields of the nodes.
- BFS order, copying of graphs, the path matrix read-back floydPath (it takes intermediate nodes for next hops), maximal flow and spanning trees (empty in the source).
- BoolGrammar.CheckExp: the optional key-check callback, which the source never applies to the last key, is taken to be unset.
- BoolCalculator.Calc: key lookup is a pure function; a look at an empty stack, undefined in the source, is a separate outcome.
- LongestSubStrWithoutDup and the other helpers of string_util.hpp: independent of the string algorithms modelled here.
- RpcReceiver.Receive: frames whose lengths contradict each other or exceed 32 bits together with the header, socket errors and stopping of a session; handling of a message after it has been handed on; the client's own receive loop.
- RpcReceiver.Receiver.CutFrames: the same frames are excluded.
- RpcReceiver.Receiver.Handle: the same frames are excluded.
- The output stream's BackUp: a serialiser gives back only what it was offered last, which is how protocol buffers use the stream; the input stream over blocks is not modelled.
- Serialised protocol buffers are arbitrary byte strings; the size limits of 2^31 on blocks are not modelled.
- Channel: consumers other than the workers (Dequeue, BlockDequeue, Clear), handlers that throw, and items accepted after Stop, which may never be handled.
- TimingWheel.Timer.ExecuteAt: only calls made while the wheel position belongs to the current tick; wheels on top of the first, time ratios, sleeping, 64-bit overflow of tick counts and points in time before the start are not modelled.
- TimerRuns.Play: the same restriction; calls and ticks come one after the other, as the tick mutex orders them.
- LocalCache.LocalCache.Update: values are copied, so an argument moved away by a failed emplace is not modelled; the factor 0.9 for the clean size is taken exactly. Clear and Size are left out.
- ReplaceString.Replace: a new value that is a view into the string being replaced is excluded; growing moves to a larger buffer, as a resize may.
