# Gossip-based aggregation: a Dafny model

This project models the sequential core of `py_gossip`. That is a Python 2 daemon and two offline scripts implementing the push-pull averaging protocol of Jelasity, Montresor and Babaoglu ("Gossip-based aggregation in large dynamic networks", ACM TOCS 23(3), 2005). In that protocol, two peers replace their estimates by the mean of the two.

The model covers:

- **the epoch controller** (`GossipEpoch`): a round counter tied to absolute wall-clock deadlines (`epoch.dfy`);
- **the state store** (`GossipState`): the estimate, its append-only history and the lock around an exchange (`state_store.dfy`);
- **the neighbour-file reader** (`read_file_of_neighbours`): turns `<id>,<ip>` lines into a map (`neighbours.dfy`);
- **the error budget of the active role** (`ActiveGossipThread.run`): shown as a loop over the outcome of each pass (`active_role.dfy`);
- **both offline simulations** (`gossip_simulate.py` and `R/simulation/gossip_simulate.py`):
  - `simulation.dfy` reads an adjacency matrix into neighbour-index lists and runs rounds of pairwise averaging over an array;
  - `fixed_simulation.dfy` and `r_simulation.dfy` hold the two scripts' entry points.

Supporting modules:

- `wrappers.dfy`: `Result` and `Outcome`, and `MapAll`, the "process every element, raise at the first bad one" loop that several readers share.
- `text.dfy`: the Python 2 string handling these readers rely on. That is `str.strip()`, `str.split(',')`, `re.split(r',\s?', ...)` and `int()`.
- `aggregation.dfy`: the averaging rule, its left fold, and the sum the simulation keeps.

Modelling choices:

- Every operation is a pure function of an immutable record. Where the Python raises an exception, the model returns a `Result` or an `Outcome` instead.
- The wall clock is a `now: real` argument.
- `random.choice` becomes a draw that is passed in. It is a function `pick(round, node)` whose value, reduced modulo the list length, selects a position in the list.
- Values are exact reals.
- `curr_epoch` is the `epoch` field of `Epoch.Controller`.

## Model

| member | source | states |
|---|---|---|
| Epoch.Create | gossip.py:57-62 | A new controller is at round 0 with the given start time, round count and duration; it has already reached its last round exactly when the round count is at most 0. |
| Epoch.LastEpochReached | gossip.py:89-96 | True exactly when the counter has reached or passed the maximum. |
| Epoch.Start | gossip.py:64-74 | A start time of 0 becomes `now`, and the call succeeds. Otherwise the controller is unchanged, and the call fails exactly when the start time is not in the future. The round counter is never touched. |
| Epoch.NextEpoch | gossip.py:76-87 | The counter goes up by exactly one even when the call fails. It fails exactly when `start_time + epoch * duration - now <= 0`, using the counter's value from before the increment. |
| Epoch.NextEpochsSchedule | gossip.py:76-87 | After a series of calls, call i leaves the counter at its initial value + i + 1. It fails exactly when its instant is at or past the deadline of round `epoch + i`. Earlier late calls do not shift the schedule. |
| Epoch.FirstNextEpochAfterStartFails | gossip.py:64-87 | Right after a successful `start`, the first `next_epoch` made at or after the start time fails, because round 0's deadline is the start time itself. |
| Epoch.Stop | gossip.py:98-100 | The counter jumps to the last round, whatever it was. The last round is then reached, and nothing else changes. |
| Epoch.StopIdempotent | gossip.py:98-100 | A second `stop` changes nothing. |
| StateStore.Create | gossip.py:109-114 | A new store holds the initial estimate, an empty history and a free lock. |
| StateStore.GetAndAcquire | gossip.py:116-120 | On a free lock: returns the estimate, leaves estimate and history unchanged, and holds the lock. |
| StateStore.UpdateAndRelease | gossip.py:122-133 | The new estimate is equidistant from the old one and the received one. Exactly one row is appended, carrying the controller's current round, `now` and the new estimate; earlier rows are untouched. The lock ends free. The call returns the new estimate exactly when the lock was held, and raises otherwise. |
| StateStore.UpdateIgnoresEpochArgument | gossip.py:122-130 | The `epoch` argument has no effect on the outcome. |
| StateStore.Exchanges | gossip.py:116-133 | A series of acquire/update pairs, one per exchange, in order. The lock ends free. |
| StateStore.ExchangesValue | gossip.py:124-130 | After any number of acquire/update pairs, the estimate is the left fold of pairwise averaging over the received values, in order. |
| StateStore.ExchangesFold | gossip.py:122-137 | After n acquire/update pairs, the history is the old history followed by exactly n rows. Row k records exchange k's round and time and the fold of the first k + 1 received values. |
| Aggregation.Average | gossip.py:124-126 | The mean of two estimates is equidistant from both and lies between them. |
| Aggregation.FoldAverageWithin | gossip.py:124-130 | Repeated averaging never leaves the range spanned by the initial estimate and the received values. |
| Wrappers.MapAll | gossip.py:354-363 | An element-by-element loop that raises at the first bad element. It succeeds exactly when every element does, and then returns the results in order. Otherwise it reports the first failing index and its error, and every earlier element succeeded. |
| Text.Strip | gossip.py:356-358 | Everything `strip()` cuts off on either side is whitespace, and the result is empty or begins and ends with non-whitespace; `Text.StripIsSlice` says the result is the middle that remains. |
| Text.StripIsSlice | gossip.py:356-358 | What `strip()` keeps is the contiguous slice of the input that starts right after its leading whitespace. |
| Text.StripIdempotent | gossip.py:356-358 | Stripping twice is stripping once. |
| Text.SplitCount | gossip_simulate.py:21 | `split(',')` yields one field more than there are commas. |
| Text.JoinSplit | gossip_simulate.py:21 | Joining the fields of `split(sep)` with `sep` gives the string back. |
| Text.SplitJoin | gossip_simulate.py:21 | Splitting a join of separator-free fields gives the fields back. |
| Text.SplitCommaSpace | gossip.py:351-358 | `re.split(r',\s?')` gives one field per comma-separated field. Every field after the first loses at most one leading whitespace character, and no field contains a comma. |
| Text.ParseInt | gossip_simulate.py:21 | `int()` succeeds exactly when, after whitespace, an optional sign and more whitespace, the rest is a non-empty run of digits up to trailing whitespace. |
| Text.IntRoundTrip | gossip_simulate.py:21 | `int(str(n)) == n` for every integer. |
| Text.ParseIntZero | gossip_simulate.py:24 | A parsed field is zero, and so is not a neighbour, exactly when all its digits are '0', whatever the sign. |
| Neighbours.ParseLine | gossip.py:356-363 | A line is accepted exactly when its stripped form holds exactly one comma. Otherwise the error gives the number of fields it split into. |
| Neighbours.ParseLineFields | gossip.py:356-358 | The id is the stripped line's text before the comma. The address is the text after it, less one leading whitespace character. Neither holds a comma. |
| Neighbours.ParseFormatLine | testGossip.py:59-63 | A line written as `"%s,%s\n"` reads back as the pair that was written. |
| Neighbours.BuildMapContents | gossip.py:363 | Every id becomes a key, and each key maps to the address of its last pair. |
| Neighbours.MapOfLines | gossip.py:354-363 | When all lines parse, every id is a key and each key maps to the address on the last line naming it. |
| Neighbours.ParseNeighbours | gossip.py:350-368 | The reader fails exactly when some line is ill-formatted, and then it reports the first such line and its field count. |
| Neighbours.ParseNeighboursMap | gossip.py:350-368 | On success, every id of the file is a key, every key comes from a line, and a later duplicate id overwrites an earlier one. |
| Neighbours.TwoLines | testGossip.py:56-63 | Two written lines read back as the map that sends each id to its address, the second line winning on a shared id. |
| Neighbours.NoCommaRejected | testGossip.py:50-54 | A line without a comma, such as `gargl` or a blank line, is rejected as a single field. |
| ActiveRole.Start | gossip.py:154-155 | The loop starts with no error counted and the configured limit. |
| ActiveRole.OnError | gossip.py:184-191 | An error that finds the counter below the limit increments it. The error that finds it at the limit stops the controller. |
| ActiveRole.Iterate | gossip.py:158-191 | A pass that does not fail leaves the counter alone and advances the round. A failing pass spends one unit of budget or, once the budget is spent, stops the controller. Only a failure before `next_epoch` leaves the round where it was. |
| ActiveRole.IterateDecreases | gossip.py:158-191 | Every pass of a running loop decreases a measure: the rounds left plus the budget left. |
| ActiveRole.Run | gossip.py:150-192 | The loop terminates whatever the outcomes, after at most rounds left + budget left + 1 passes. It ends at the last round, counts errors only upward, and never counts beyond the limit. |
| ActiveRole.FailuresWithinBudget | gossip.py:184-187 | While the budget lasts, n failures leave the loop running with exactly n more errors. |
| ActiveRole.BudgetExhaustion | gossip.py:184-191 | With limit L, L consecutive failures leave the loop running, and failure L + 1 stops it. |
| Simulation.ParseFields | gossip_simulate.py:21 | `map(int, fields)` succeeds exactly when every field is an integer, giving them in order. Otherwise it reports the first rejected column. |
| Simulation.ParseRow | gossip_simulate.py:21 | One integer per comma-separated field of the stripped line, each the `int()` of its field. |
| Simulation.ParseFormatRow | gossip_simulate.py:21 | A non-empty row of integers written comma-separated reads back as the same integers. |
| Simulation.NeighbourIndices | gossip_simulate.py:22-25 | Column i is listed exactly when i is below the width and the row's i-th integer is non-zero. The list is strictly increasing and below the width. |
| Simulation.NeighbourIndicesIgnoreExtra | gossip_simulate.py:23-25 | Columns at or past the width never affect the list. |
| Simulation.RowNeighbours | gossip_simulate.py:21-26 | A line yields a list exactly when it parses and reaches the last column read. A row that is too short fails with its length. |
| Simulation.GenNeighList | gossip_simulate.py:20-28 | One neighbour list per line, in line order, each the reading of its line. Otherwise the first line that cannot be read is reported. |
| Simulation.GenNeighListShape | R/simulation/gossip_simulate.py:20-28 | Every list is strictly increasing, lies below the width, and holds exactly the columns with a non-zero entry. |
| Simulation.Dest | gossip_simulate.py:42 | `choice` returns an element of the list, and a draw below the list's length picks that position, so every element can be drawn. |
| Simulation.Step | gossip_simulate.py:43-45 | Both endpoints become the mean of their two values, and every other entry keeps its value. |
| Simulation.StepSelfLoop | gossip_simulate.py:43-45 | A node averaging with itself changes nothing. |
| Simulation.StepConservesSum | R/simulation/gossip_simulate.py:50-52 | A step keeps the sum of all values. |
| Simulation.StepWithin | gossip_simulate.py:43-45 | A step keeps every value within any bounds the old values kept. |
| Simulation.Turns | gossip_simulate.py:41-45 | The nodes take their turns in order 0, 1, .... The round succeeds exactly when every node has a neighbour and the drawn one is a node. Otherwise it reports the first node that cannot step and why. On success it keeps length and sum. |
| Simulation.Round | gossip_simulate.py:41-45 | Every node takes exactly one turn, in order. The round succeeds exactly when every node can take its turn, and then it keeps length and sum. Otherwise it reports the first node that cannot and the round number. |
| Simulation.Rounds | R/simulation/gossip_simulate.py:47-54 | Runs the given number of rounds, writing one row after each. The run completes exactly when every node can take every turn. Otherwise the rows written are exactly those of the rounds before the first failing round, and that round's error is reported. Each row is the previous row after one round, with the initial length and sum. |
| Simulation.RoundOkIndicesInRange | gossip_simulate.py:41-43 | When every neighbour index is a node, a round fails only on a node without neighbours, whatever the draws. |
| Simulation.AllCanStepIndicesInRange | gossip_simulate.py:40-43 | When every neighbour index is a node, a run completes exactly when it has no rounds or every node has a neighbour. |
| Simulation.RoundsIndicesInRange | gossip_simulate.py:40-46 | When every neighbour index is a node, a failing run fails in its first round, before any row is written, on a node without neighbours. |
| Simulation.RoundsWithin | gossip_simulate.py:40-46 | Every value of every round stays within the bounds of the initial values. |
| FixedSimulation.Simulate | gossip_simulate.py:31-47 | An unreadable file raises before any row is written. Otherwise the run completes exactly when every node can take every turn of the 30 rounds, writing 30 rows. If it does not complete, it has written the rows of exactly the rounds before the first failing one. Every row has one value per node and the initial sum. |
| FixedSimulation.EnoughNodes | gossip_simulate.py:23-45 | With at least 8 nodes, a readable file completes exactly when every node has a neighbour. Otherwise it raises in the first round, before any row is written. |
| RSimulation.FileLen | R/simulation/gossip_simulate.py:30-34 | The line count, which must be at least one. An empty file fails. |
| RSimulation.RoundsOf | R/simulation/gossip_simulate.py:47 | `range(0, n)` runs n times, and not at all when n is negative. |
| RSimulation.Simulate | R/simulation/gossip_simulate.py:37-55 | The run fails in the script's order: an empty file, then an unreadable row, then a bad round count, each before any row is written. Then comes the first round some node cannot take its turn in, after the rows of the rounds before it. A completed run writes one row per round, none for a negative count. Every row has one value per node and the initial sum. |
| RSimulation.SquareMatrixNeverOutOfRange | R/simulation/gossip_simulate.py:39-52 | The matrix is as wide as it is long, so a drawn neighbour is always a node. A readable run completes exactly when it has no rounds or every node has a neighbour. Otherwise it raises in its first round, before any row is written. |

## Left out

- Sockets, threads, blocking sleeps and the JSON transport (`create_socket`, `prepare_threads`, `run_threads`, the socket calls of both roles): these are concurrency and I/O. A call to `time.sleep` is taken to return.
- The passive role (`PassiveGossipThread.run`): its error budget is the active role's, without the epoch advance. Its exchange is socket I/O.
- ActiveRole.Iterate models the loop the code evidently intends, with each pass summarised by an outcome. As written, the code never reaches the exchange's success path or its socket-error path:
  - `sock.connect` returns `None`, so `connection.recv` raises an `AttributeError` (gossip.py:167-172);
  - a failing `connect` leaves `connection` unbound inside the `socket.error` handler (gossip.py:175-176);
  - `update_and_release` is called with one argument where it takes two (gossip.py:182).

  Each of these raises after `get_and_acquire` (gossip.py:164) has taken the lock, and nothing releases it. So as written, the pass after such a failure blocks forever in `self._lock.acquire()` (gossip.py:118).
- ActiveRole.Run: its termination bound holds only for the lock-free outcome loop, and so do `ActiveRole.BudgetExhaustion` and `ActiveRole.FailuresWithinBudget`. In gossip.py, a failure raised after `get_and_acquire` leaves the lock held, and the next pass blocks. The intended loop has the same problem after any `SocketFailure`, timeouts included. In gossip.py as written, only failures raised before the acquire can repeat and spend the budget, for example `random.choice` on an empty neighbour table (gossip.py:160). In the intended loop, a missed deadline after a completed exchange can repeat as well: `update_and_release` frees the lock (gossip.py:131) before `next_epoch` raises (gossip.py:84-87, 183).
- Lock safety on error paths: no path releases the lock after a failed exchange, and there is no emergency release. A second `get_and_acquire` on a held lock blocks forever, so it is the precondition of `StateStore.GetAndAcquire`.
- `get_interface_ip_address` (a subprocess and a regular expression library call), `store_results` (file output), `generate_output_files`, `create_logger`, argument and configuration parsing, and signal handling: these are I/O and library wrappers.
- Opening and reading files: every reader takes the lines as `readlines()` or file iteration yields them. An `IOError` is not modelled.
- Float rounding: the daemon's floats, the JSON round trip and the scripts' 32-bit `array('f')` values are exact reals here.
- `randint(0, 1000)` initial values and `random.choice`: both are parameters.
- `save_to_file` and the `print` of each round: the returned trace holds the rows, not their text.
- `load_exp.py` (a configuration wrapper) and `R/util/convert_to_adjmat.py` (a graph-library wrapper) are not part of this model.
- A `Step` precondition: the node and its neighbour must be indices of the array. The rounds check the neighbour first and report `NodeOutOfRange`, where Python raises an `IndexError`. A Python negative index cannot arise, because indices are column numbers.

Facts about the code that the model follows:

- `socket.timeout` is a `socket.error`, and the bare `except:` counts every exception (gossip.py:175-187). So timeouts are counted against the error budget like any other failure.
- The counter is compared with `max_error` before it is incremented (gossip.py:185-191). So with `max_error = L`, it takes L + 1 failures to stop the controller.
- `next_epoch` computes its deadline from the counter before the increment (gossip.py:80-83).
- History rows carry `curr_epoch`; the `epoch` argument of `update_and_release` is unused (gossip.py:122-130).
- No path releases the lock after a failure.
- The active role calls `next_epoch` after the exchange, not before it (gossip.py:177, 183).
