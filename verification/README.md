# MODOI coordination, configuration and database logic in Dafny

MODOI computes minimum-energy paths between two molecular configurations by
curve shortening. A coordinating **SimulationServer** holds the global curve
and hands out nodes. Each **SimulationClient** moves one node at a time by
computing a local geodesic. It splits the metric evaluations of that
geodesic over several **SimulationPotential** workers. The repository also
vendors parts of ASE: the database front end (`ase/db/core.py`) and the
genetic-algorithm population (`ase/ga/population.py`).

This project models the deterministic logic around the numerics. Each
source file becomes one Dafny module of pure functions over immutable
datatypes. Python exceptions become `Result` failures, and `None` becomes
`Option`. Sockets, the wall clock, the EMT calculator, the curve object and
the geodesic solver become parameters: function-typed oracles or input
sequences.

| file | module | models |
|---|---|---|
| `wrappers.dfy` | `Wrappers` | `Option`, `Result` and the Python exceptions raised |
| `comm_codes.dfy` | `CommunicationCodes` | the label-to-code table of the protocol |
| `protocol.dfy` | `Protocol` | the message dictionaries the three programs exchange |
| `metric_values.dfy` | `MetricValues` | `get_metric` partition and reassembly, and `shutdown_metric` |
| `server.dfy` | `SimulationServer` | one pass of `run_simulation`, the node count, and the guarded accessors |
| `client.dfy` | `SimulationClient` | the reply rule and main loop of `start_client` |
| `potential.dfy` | `SimulationPotential` | the request handler of `run_potential_server` |
| `configuration.dfy` | `ConfigurationProcessing` | configuration lines, `int`, and flatten/reshape of atom rows |
| `linear_algebra.dfy` | `LinearAlgebra` | `shifts_to_curve` over exact reals |
| `db_core.dfy` | `DatabaseCore` | `check`, the operator tables, `connect`, `parse_selection`, sort rewriting, `update`, `time_string_to_float` |
| `population.dfy` | `Population` | `count_looks_like`, the initial fill, `__add_candidate__`, `get_two_candidates`, `mass_extinction` |

Floats are modelled as exact reals. The square root of a metric value is
not taken: a value carries the quantity under the root.

Two places in `ase/db/core.py` do not do what they evidently mean (see
"## Findings"). The members of `DatabaseCore` that depend on them take a
`Variant`: `AsWritten` follows the code as written, `Corrected` the
evident intention. `Check`, `RewriteOne`, `RewriteAll`, `ParseSelection`
and `Update` are stated for both.

## Model

| member | source | states |
|---|---|---|
| CommunicationCodes.CommCode | SimulationUtilities/Communication_Codes.py:16-34 | a label gets a code below ten exactly when it is in the table, at its position; any other label gives `None` rather than raising |
| CommunicationCodes.CodesAreZeroToNine | SimulationUtilities/Communication_Codes.py:16-27 | the ten labels carry pairwise distinct codes that together are exactly 0..9 |
| CommunicationCodes.RoundTrip | SimulationUtilities/Communication_Codes.py:16-27 | decoding a label's code gives the label back, and encoding the label of a code gives the code back |
| CommunicationCodes.FixedValues | SimulationUtilities/Communication_Codes.py:16-27 | each label has the integer value the server, client and potential rely on (e.g. KILL = 8, CLIENT_FIRST_CONTACT = 9) |
| MetricValues.TasksPerServer | SimulationClient/MetricValues.py:30 | tasks_per_server is the floor of points / servers |
| MetricValues.RemainderTasks | SimulationClient/MetricValues.py:33 | the remainder is below the number of servers and completes tasks_per_server * servers to the number of points |
| MetricValues.IssueShape | SimulationClient/MetricValues.py:36-57 | server k gets tasks_per_server + 1 points if k < remainder and tasks_per_server otherwise; each chunk starts where the previous one ended, the first at 0, and current_point ends at n + 2 |
| MetricValues.IssueFromClosedForm | SimulationClient/MetricValues.py:39-57 | once extra_jobs is cleared it stays 0, so the extra point goes to exactly the first `remainder` servers |
| MetricValues.PartitionCovers | SimulationClient/MetricValues.py:51-57 | the chunks, concatenated, are exactly the indices 0..n+1 in order, each once |
| MetricValues.ChunkPoints | SimulationClient/MetricValues.py:53-54 | each point of a chunk is sent tagged with its own curve index |
| MetricValues.StoreValues | SimulationClient/MetricValues.py:96-97 | each returned value lands in the slot its tag names (negative tags from the end), a later value overriding an earlier one; an out-of-range tag is an IndexError |
| MetricValues.GetMetric | SimulationClient/MetricValues.py:24-112 | without servers the division raises; a successful result has exactly n + 2 slots |
| MetricValues.UnreachableServerGivesNone | SimulationClient/MetricValues.py:72-78 | one server that cannot be reached in the sending phase makes the whole call return `None` |
| MetricValues.CollectStopsAtUnreachable | SimulationClient/MetricValues.py:103-109 | one server that cannot be reached in the collecting phase makes the collection return `None` |
| MetricValues.GetMetricAssemblesByTag | SimulationClient/MetricValues.py:24-112 | when every server answers its chunk with tagged values, slot i holds the value computed for point i, whatever the order of servers |
| MetricValues.ShutdownMetric | SimulationClient/MetricValues.py:128-145 | one attempt per address, in order; KILL reaches exactly the reachable ones and an unreachable one does not stop the loop |
| SimulationServer.TotalNodesBySegments | SimulationServer/SimulationServer.py:75-76 | g * (l - 1) + 1 equals the count built segment by segment, each segment adding l - 1 nodes after the shared one |
| SimulationServer.Assign | SimulationServer/SimulationServer.py:138-177 | setting a monitor entry sets that name's entry and leaves every other entry alone; the model's list keeps the registered names in place and puts a new name last |
| SimulationServer.AssignKeepsDistinct | SimulationServer/SimulationServer.py:138-177 | the monitor never holds a name twice |
| SimulationServer.ReceiveTouchesOnlySender | SimulationServer/SimulationServer.py:129-138 | taking in a message changes no other client's entry; first contact registers the sender with no task and any other message leaves the monitor alone; the curve moves only for a midpoint from a sender with an outstanding task; a midpoint from a name never registered is the one KeyError; no name is ever held twice |
| SimulationServer.DeadClientIgnored | SimulationServer/SimulationServer.py:132-135 | a midpoint from a client presumed dead changes neither the curve nor the monitor |
| SimulationServer.StepConverges | SimulationServer/SimulationServer.py:129-149 | a pass ends the loop exactly when, after the message is taken in, every node moved and the movement is below tolerance |
| SimulationServer.ExpireTimeouts | SimulationServer/SimulationServer.py:154-160 | every task older than TIMEOUT is set to `None`, the others are kept, and the node of the last late task in the model's registration order is remembered |
| SimulationServer.StepIssues | SimulationServer/SimulationServer.py:154-177 | after a pass that issues node k, the reply carries points k - 1 and k + 1 of the curve, the requester's entry is (now, k), and a timed-out node is the one issued |
| SimulationServer.CallbackKeepsMonitor | SimulationServer/SimulationServer.py:178-180 | a callback reply leaves every monitor entry as the message left it |
| SimulationServer.StepKeepsNames | SimulationServer/SimulationServer.py:129-177 | a pass that replies keeps every registered name and adds the requester only if it was not registered, so the monitor never holds a name twice (the model's list keeps registration order) |
| SimulationServer.RunStopsAtFirstBreak | SimulationServer/SimulationServer.py:115-189 | against a pass-by-pass replay of the messages: FINISHED is set exactly when some pass is the first to break the loop, and the server then holds that pass's curve and monitor; a pass that raises before any break is the error raised; if every pass replied the loop is still waiting with the state after the last one; the output file name never changes |
| SimulationServer.CurveAfterRun | SimulationServer/SimulationServer.py:207-224 | after the loop, `get_curve` gives a curve exactly when some pass broke the loop, and it is that pass's curve; only then does `set_output_file` take effect |
| SimulationServer.GuardsBeforeFinish | SimulationServer/SimulationServer.py:189-224 | while the loop has not broken, `get_curve` gives `None` and `set_output_file` changes nothing |
| SimulationClient.TangentDirection | SimulationClient/SimulationClient.py:159-160 | ln = -1 divides by zero before the points are looked at; otherwise the tangent is (right - left) / (ln + 1) componentwise, a length-1 point broadcast against the other, and lengths that do not broadcast raise ValueError |
| SimulationClient.TangentSpansSegment | SimulationClient/SimulationClient.py:159-160 | ln + 1 tangent steps lead from the left end point to the right one |
| SimulationClient.StartClient | SimulationClient/SimulationClient.py:110-146 | the first message is CLIENT_FIRST_CONTACT with the client ID; an unreachable server ends in `shutdown_metric`; an end of file at first contact raises |
| SimulationClient.Loop | SimulationClient/SimulationClient.py:150-228 | the client sends at most one message per connection and a stop for an unreachable server carries exactly the `shutdown_metric` attempts |
| SimulationClient.LoopSendsOwnId | SimulationClient/SimulationClient.py:150-212 | every message the loop sends carries the client's own ID |
| SimulationClient.ClientSendsOwnId | SimulationClient/SimulationClient.py:110-212 | everything `start_client` sends to the coordinating server, first contact included, carries the client's own ID |
| SimulationClient.SentFollowsRule | SimulationClient/SimulationClient.py:150-212 | message i + 1 is the reply rule applied to reply i and message i |
| SimulationClient.ConnectionFailureShutsDown | SimulationClient/SimulationClient.py:200-228 | after a failed connection nothing more is sent, and the ending is one KILL attempt per potential server, in order, delivered to exactly the reachable ones |
| SimulationClient.GeodesicFailureStops | SimulationClient/SimulationClient.py:176-181 | a `None` from the geodesic solver ends the loop with no reply and no shutdown |
| SimulationPotential.Radicand | SimulationPotential/SimulationPotential.py:120-121 | the quantity under the root is max(E - V, small): never below small, and one of the two |
| SimulationPotential.PointValue | SimulationPotential/SimulationPotential.py:119-122 | a point is reshaped into 3-coordinate rows (any other length raises), its radicand uses E = metric_parameters[0] (IndexError without one) and its forces are flattened |
| SimulationPotential.Evaluate | SimulationPotential/SimulationPotential.py:105-122 | starting from an empty list, one value per received point, in order, each tagged with its point's tag |
| SimulationPotential.ServeStoresLastPoints | SimulationPotential/SimulationPotential.py:96-142 | after connections that raised nothing, the worker still runs exactly when no KILL came; the stored response holds the values of the last points received before the first KILL, or what it held before; one reply went out per request for values before the first KILL |
| SimulationPotential.KillStops | SimulationPotential/SimulationPotential.py:134-142 | after KILL nothing is handled and nothing more is sent |
| SimulationPotential.ProvideAskKill | SimulationPotential/SimulationPotential.py:110-138 | points, a request for values and KILL send exactly one reply: the values of those points |
| SimulationPotential.AsksRepeatStored | SimulationPotential/SimulationPotential.py:125-132 | requests for values repeat the stored response until new points arrive |
| SimulationPotential.ChunkAnswer | SimulationPotential/SimulationPotential.py:118-125 | a worker sent one chunk by `get_metric` stores exactly the tagged values `get_metric` reassembles by tag |
| ConfigurationProcessing.AtomsToVector | SimulationUtilities/Configuration_Processing.py:19-26 | the rows are concatenated in order: the length is the sum of the row lengths and coordinate j of row i sits at the row's offset plus j |
| ConfigurationProcessing.VectorToAtoms | SimulationUtilities/Configuration_Processing.py:29-40 | reshaping succeeds iff the length is a multiple of the dimension (dimension 0 divides by zero), and the rows flatten back to the vector |
| ConfigurationProcessing.ReshapeInvertsFlatten | SimulationUtilities/Configuration_Processing.py:22-40 | reshaping the flattened rows of d coordinates gives the rows back |
| ConfigurationProcessing.ReshapeInvertsFlatten3 | SimulationUtilities/Configuration_Processing.py:29-40 | the same for the default dimension 3 |
| ConfigurationProcessing.Command | SimulationUtilities/Configuration_Processing.py:61 | the command is the first two characters of the raw line, a prefix of it |
| ConfigurationProcessing.RemoveSpacesKeeps | SimulationUtilities/Configuration_Processing.py:64 | removing spaces keeps every other character as often as it occurs |
| ConfigurationProcessing.RemoveSpacesAppend | SimulationUtilities/Configuration_Processing.py:64 | removing spaces from two strings one after the other gives the two results one after the other, so the order of the kept characters is that of the line |
| ConfigurationProcessing.RemoveSpacesSnoc | SimulationUtilities/Configuration_Processing.py:64 | a space at the end is dropped and any other character is kept at the end |
| ConfigurationProcessing.ParseInt | SimulationUtilities/Configuration_Processing.py:86-90 | `int` accepts an optional sign and digits between whitespace, and raises ValueError otherwise |
| ConfigurationProcessing.ParseIntRoundTrip | SimulationUtilities/Configuration_Processing.py:86-90 | `int` reads back what `str` writes, also with the line's trailing newline |
| ConfigurationProcessing.ReadLine | SimulationUtilities/Configuration_Processing.py:61-98 | each command assigns only its own variables ('ln' and 'gn' through `int`); an unrecognised command changes nothing |
| ConfigurationProcessing.LastLineWins | SimulationUtilities/Configuration_Processing.py:58-98 | for every command st, en, ln, gn, pa and to, the variable it sets is read from the value of the last line with that command, and stays unset without one |
| ConfigurationProcessing.UnrecognisedLinesIgnored | SimulationUtilities/Configuration_Processing.py:58-98 | lines with other commands leave every variable as it was |
| ConfigurationProcessing.Finish | SimulationUtilities/Configuration_Processing.py:101-111 | the dictionary is built iff every variable was assigned (NameError otherwise), with dimension = length of the start vector and codimension = dimension - 1 |
| ConfigurationProcessing.MissingCommandFails | SimulationUtilities/Configuration_Processing.py:101-111 | a file without one of st/en/ln/gn/pa/to fails instead of producing a default |
| LinearAlgebra.BroadcastAdd | SimulationClient/LinearAlgebra.py:106 | `np.add` of two one-dimensional arrays succeeds iff their lengths agree or one is 1, with entry k the sum of the operands' entries k, a length-1 array standing for its entry everywhere; otherwise ValueError |
| LinearAlgebra.BroadcastSub | SimulationClient/LinearAlgebra.py:90 | `np.subtract` likewise, with differences |
| LinearAlgebra.BroadcastEqualLengths | SimulationClient/LinearAlgebra.py:90-106 | on arrays of equal length broadcasting is the plain componentwise sum and difference |
| LinearAlgebra.InitialLine | SimulationClient/LinearAlgebra.py:87-94 | n + 2 points, point i = start + i * (end - start) / (n + 1) |
| LinearAlgebra.LineEnds | SimulationClient/LinearAlgebra.py:87-94 | the line starts at the start point and, in exact arithmetic, ends at the end point |
| LinearAlgebra.EvenlySpaced | SimulationClient/LinearAlgebra.py:87-94 | consecutive points differ by the tangent |
| LinearAlgebra.ShiftCount | SimulationClient/LinearAlgebra.py:97 | the number of shifted points is the floor of len(shift) / codimension (none for a negative codimension) |
| LinearAlgebra.ShiftsToCurve | SimulationClient/LinearAlgebra.py:67-108 | succeeds iff start and end broadcast together, the codimension is not 0 (ZeroDivisionError), and, when there are shifts, R has codimension + 1 columns and an image that broadcasts against the points and there are at most n + 1 blocks; then n + 2 points, point 0 the start point, points 1..len(shift)/codim displaced by R(0, block i), all others the line's |
| LinearAlgebra.LineCoordinates | SimulationClient/LinearAlgebra.py:87-94 | coordinate k of line point i is start[k] + i * (end[k] - start[k]) / (n + 1), a length-1 point standing for its entry in every coordinate |
| LinearAlgebra.CurveEndsAtEnd | SimulationClient/LinearAlgebra.py:97-106 | with exactly n blocks of shifts the last point is the end point, broadcast to the curve's dimension |
| LinearAlgebra.ZeroShiftIsLine | SimulationClient/LinearAlgebra.py:93-106 | an all-zero shift vector gives the evenly spaced straight line whenever R's image has the points' dimension or length 1, and otherwise the line's points broadcast to the image's length |
| DatabaseCore.Check | ase/db/core.py:61-66 | in either variant, succeeds iff every pair has a key passing that variant's key test and an int, float, str or bool value; otherwise the first bad pair raises, its key tested before its value |
| DatabaseCore.CheckVariantsDiffer | ase/db/core.py:50-66 | on the pair ("energy\n", 1) the code as written succeeds and the anchored key test raises "Bad key" |
| DatabaseCore.TrailingNewlineKeyAccepted | ase/db/core.py:50-63 | the key test as written accepts "energy\n", which the anchored test refuses |
| DatabaseCore.KeyTestsDiffer | ase/db/core.py:50-63 | the written and the anchored key tests differ only on keys ending in a newline |
| DatabaseCore.ParseSymbol | ase/db/core.py:41-46 | every operator is read back from its symbol |
| DatabaseCore.InvopNegates | ase/db/core.py:48 | `invop` maps each operator to its logical negation and is an involution |
| DatabaseCore.InvopLookup | ase/db/core.py:48 | looking up an operator symbol gives its negation's symbol; any other string is a KeyError |
| DatabaseCore.ConnectByName | ase/db/core.py:86-109 | the backend depends on the name only: "pg://a" selects PostgreSQL at address a for every a, no name selects the plain backend, and "x.json" and "x.db" select the JSON and SQLite backends for every nonempty stem x that does not end in '.' or '/' and does not start with "pg://" (an empty stem, as in ".json", leaves `splitext` no extension) |
| DatabaseCore.BareExtensionUnknown | ase/db/core.py:86-109 | the name ".json" has no extension for `splitext`, so the inferred type is empty and `connect` raises ValueError "Unknown database type: " |
| DatabaseCore.ExtensionOf | ase/db/core.py:92 | the type read from "stem.ext" is "ext" |
| DatabaseCore.UnitsAgree | ase/db/core.py:17-31 | the unit table is consistent: a minute is 60 s, an hour 60 min, a day 24 h, a week 7 d, a year 365.25 d, a month a twelfth of a year |
| DatabaseCore.TimeTermOfCount | ase/db/core.py:464-469 | "<count><unit>" is the integer number of seconds count * seconds[unit] before the division by YEAR |
| DatabaseCore.TimeTermPlural | ase/db/core.py:464-465 | a trailing 's' after a letter is dropped |
| DatabaseCore.TimeTextSum | ase/db/core.py:461-463 | '+'-separated terms are summed, the first failing term raising |
| DatabaseCore.OneDay | ase/db/core.py:458-469 | '1d' stands for 1 / 365.25 years |
| DatabaseCore.Expressions | ase/db/core.py:306-313 | `None` or '' gives no expressions, an int n gives ('id', '=', n), a list is kept, a string gives one text expression per comma-separated piece |
| DatabaseCore.TextExpressions | ase/db/core.py:313 | for a nonempty string, expression k is piece k of the split stripped of surrounding whitespace; the pieces hold no comma and, joined with commas, are the string |
| DatabaseCore.JoinSplit | ase/db/core.py:313 | joining the pieces of a split with the separator gives the string back |
| DatabaseCore.OperatorTokens | ase/db/core.py:329-339 | the first operator of '!=', '<=', '>=', '<', '>', '=' contained in the expression splits it; without one it is an element symbol (symbol > 0) or a bare key |
| DatabaseCore.SingleComparison | ase/db/core.py:329-339 | "key op value" without other operator characters gives exactly (key, op, value) |
| DatabaseCore.ChainedComparison | ase/db/core.py:320-339 | 'a<key<b' gives (key, '>', a) and (key, '<', b); 'a<=key<b' gives (key, '>=', a) and (key, '<', b) |
| DatabaseCore.AgeAsWrittenSelects | ase/db/core.py:346-349 | with `invop`, 'age op t' selects the rows whose age does NOT stand in the converse relation to t |
| DatabaseCore.AgeAsWrittenMissesEqualAge | ase/db/core.py:346-349 | 'age=1d' as written does not select a row exactly one day old |
| DatabaseCore.AgeComparisonMeansAge | ase/db/core.py:346-349 | with the converse operator, 'age op t' selects exactly the rows whose age at `now` stands in relation op to t |
| DatabaseCore.AgeKeySelectsByAge | ase/db/core.py:345-349 | an 'age' comparison that rewrites becomes one condition on ctime; as written it selects the rows whose age does not stand in the converse relation to t, as intended those whose age stands in relation op to t |
| DatabaseCore.Tally | ase/db/core.py:353-355 | the counts of a formula: each atomic number present exactly once, none absent, each with its multiplicity, totalling the number of atoms |
| DatabaseCore.FormulaCounts | ase/db/core.py:350-358 | a formula becomes one (Z, '=', count) per element present, with its multiplicity, and natoms = number of atoms |
| DatabaseCore.PyInt | ase/db/core.py:361 | `int` keeps an int, truncates a float toward zero, parses a string, and raises TypeError for anything else |
| DatabaseCore.RewriteAllAppend | ase/db/core.py:342-368 | rewriting the selection's comparisons followed by the keyword comparisons rewrites each list and joins the results in that order |
| DatabaseCore.RewriteAll | ase/db/core.py:345-367 | the rewrite succeeds iff every comparison does, the first failure raising |
| DatabaseCore.NumericColumnsGetNumbers | ase/db/core.py:364-366 | every rewritten comparison on id, energy, magmom, charge or natoms has a number |
| DatabaseCore.ParseSelection | ase/db/core.py:305-369 | the bare keys are those of tokenising, and a tokenising failure is the call's failure; then the call succeeds iff every comparison of the selection and of the keywords rewrites, the first failing one raising, and the comparisons are the selection's rewritten followed by the keywords' rewritten |
| DatabaseCore.SelectById | ase/db/core.py:308-309 | selecting by an int n gives no keys and the single comparison id = n |
| DatabaseCore.KeywordsAreEqualities | ase/db/core.py:342-343 | each keyword argument becomes one '=' comparison, in order |
| DatabaseCore.SortKey | ase/db/core.py:401-407 | 'age' and '-age' become ctime in the opposite direction; a 'user' column becomes 'username' in the same direction; other keys are kept |
| DatabaseCore.SortKeyIdempotent | ase/db/core.py:401-407 | rewriting a rewritten sort key changes nothing |
| DatabaseCore.BlockCount | ase/db/core.py:443 | (len - 1) // B + 1 blocks: none for no ids, otherwise the least c with len <= c * B |
| DatabaseCore.Blocks | ase/db/core.py:442-447 | a block size of 0 divides by zero; otherwise there are BlockCount blocks |
| DatabaseCore.BlocksPartition | ase/db/core.py:442-447 | the blocks, concatenated, are the ids in order; each has 1..B ids and all but the last exactly B |
| DatabaseCore.Update | ase/db/core.py:424-451 | the pairs are checked first, their error raised; then the call succeeds iff the block size is not 0, and the counts are the backend's counts summed over the blocks |
| DatabaseCore.UpdateAdditive | ase/db/core.py:437-451 | for a backend whose counts add up over joined id lists, `update` with a positive block size reports the counts of one backend call on all the ids |
| DatabaseCore.UpdateOne | ase/db/core.py:439-451 | a single int id is wrapped in a list and updated in one backend call |
| Population.CountLooksLike | ase/ga/population.py:11-19 | counts candidates similar to a, skipping those with a's confid: zero iff none resembles a, all iff every one does |
| Population.CountLooksLikeAppend | ase/ga/population.py:11-19 | counting over two lists adds up |
| Population.SkipsOwnConfid | ase/ga/population.py:15-16 | a candidate with the same confid is never counted |
| Population.SortDesc | ase/ga/population.py:191 | sorting by raw score, best first, keeps every element as often as it occurs |
| Population.SortSorted | ase/ga/population.py:191 | a list already sorted best first is left as it is |
| Population.InitialPopulation | ase/ga/population.py:73-92 | the fill takes candidates best first, never more than pop_size, none looking like an earlier member; a short population took or matched every candidate; every candidate scoring above the last member was taken or resembles a member, so the members are the most stable unique candidates; each member carries its resemblance count |
| Population.AnyLooksLike | ase/ga/population.py:82-86 | the inner loop finds whether some member taken so far looks like the candidate |
| Population.AddCandidate | ase/ga/population.py:159-191 | an empty population raises IndexError; a full one ignores a candidate below its last member; a similar member is replaced only by a strictly better candidate; otherwise a full population drops its last member and the candidate joins |
| Population.AddCandidateSize | ase/ga/population.py:169-190 | the size never exceeds pop_size and is unchanged when the candidate resembles a member |
| Population.AddKeepsValid | ase/ga/population.py:159-191 | every add keeps at most pop_size members, sorted best first |
| Population.AddEvictsLast | ase/ga/population.py:183-191 | a full population evicts its last member for a dissimilar candidate scoring at least as well |
| Population.PairKeySymmetric | ase/ga/population.py:252-254 | a used pair is keyed by (min id, max id), whichever was drawn first |
| Population.GetTwoCandidates | ase/ga/population.py:202-255 | `None` iff fewer than two members; otherwise ZeroDivisionError iff all raw scores are equal (the fitness divides by min - max); a pair returned has different confids or was paired before, and both are members |
| Population.FirstDistinctDrawWins | ase/ga/population.py:202-255 | a first draw of two different candidates is returned at once, unless all raw scores are equal and the fitness computation raises ZeroDivisionError first |
| Population.ScoreRangeZero | ase/ga/population.py:202-209 | the divisor `min(scores) - max(scores)` of the fitness is zero exactly when all raw scores are equal |
| Population.EqualScoresRaise | ase/ga/population.py:202-233 | two dissimilar members with raw score 1.0 each make `get_two_candidates` raise ZeroDivisionError before any draw |
| Population.KillEach | ase/ga/population.py:339-340 | after killing the listed candidates one after the other, the killed candidates are exactly those killed before and the listed ones |
| Population.ExtinctionsCompose | ase/ga/population.py:328-341 | two extinctions in a row equal one over both lists, and repeating an extinction changes nothing |
| Population.AddAfterExtinction | ase/ga/population.py:159-165 | adding to the emptied population raises IndexError |

## Left out

- Sockets, `Listener`/`Client`, `time.sleep`, logging, pickle and XYZ output: each connection is an input (the reply, or the exception raised), and what is sent is part of the result.
- The wall clock (`time.time()`, ASE's `now()`): a parameter of each server pass and of the selection rewrite.
- The curve object of `SimulationUtilities.Curve` is not part of this model: the server is parametric in the operations it calls.
- `find_geodesic_midpoint`, `orthonormal_tangent_basis`, `mass_norm`, CustomBFGS and Geometric are floating-point numerics; the geodesic solver is an oracle that may give `None`.
- The EMT calculator, `ase.io.read` and `numpy.fromstring` for 'pa' lines are oracles.
- SimulationPotential.PointValue: carries max(E - V, small) in place of its square root, because square roots of reals are not modelled.
- Floats are exact reals, so rounding in `shifts_to_curve` and in `time_string_to_float` is not modelled.
- `float(value)` for the 'to' line, `convert_str_to_float_or_str`'s float parsing and `symbols2numbers` are oracles; `atomic_numbers` and `all_properties + all_changes` are parameters.
- Python's Unicode `isalpha`, `isdigit` and `isspace` are restricted to ASCII letters, ASCII digits and the ASCII whitespace characters.
- `float_to_time_string`, `Database` row access, `_select` and `_update` are backend work; `update` calls `_update` through an oracle, and `select` is modelled only for its sort-key rewrite.
- The MPI `parallel` and file `lock` decorators are concurrency plumbing.
- The order in which a dictionary yields `kwargs` and key-value pairs is taken as the order of the input sequence.
- ExpireTimeouts: the timeout scan visits `client_monitor` in the order the names were registered, where the Python 2 dictionary yields them in hash order; with two or more late tasks in one pass the source reissues the node of the last late entry in hash order, so the node remembered by ExpireTimeouts, and hence the one StepIssues issues, can differ from the source's.
- Connect: removing an existing file when `append=False`, and the `create_indices` and `use_lock_file` options, are file-system effects of the backends and are not modelled; only the choice of backend is.
- Fitness (tanh, sqrt), the roulette-wheel draws, `is_uniform`, logfiles, `update`, `get_one_candidate` and `__calc_participation__` of the population: the draws are an input sequence of index pairs, and `get_two_candidates` starts from the population after its `update`.
- Population.InitialPopulation: the database query `get_all_relaxed_candidates` is replaced by its result.
- Tally: a Python 2 `defaultdict` yields its integer keys in hash order; the model lists the element counts in order of first occurrence. The comparisons are joined by AND, so only the order of the conditions differs.
- Python 2 `long` values are not distinguished from `int`: `IntV` holds any integer, whereas a `long` fails the `isinstance` tests in `check` and in the numeric-key test of `parse_selection` and has no `replace` in `time_string_to_float`.
- CollectFrom: a connection closed without a reply (EOFError from `recv`) is not an outcome of the collecting phase; a worker either cannot be reached (socket error) or answers.
- PointValue: `Atoms.set_positions` raises when the number of rows does not match the number of atoms; the calculator oracle accepts any rows.
- ReadLine: a point file that `ase.io.read` cannot read (the reader oracle gives `None`) fails with ValueError, where the reader raises IOError.
- ShiftsToCurve and GetMetric take the number of inner nodes as a natural number; a negative `ln` is not modelled there.
- SortDesc: the contract states order and permutation but not stability; the insertion keeps equal scores in their original order, as Python's sort does.
- Local_Simulation.py, Extract_States_PDB.py and the ASE command-line and I/O modules are process launch and I/O.

## Findings

| source | as written | input that shows it | evidently intended | confidence | as-written member | corrected member |
|---|---|---|---|---|---|---|
| ase/db/core.py:50-63 | `word.match(key)` with the pattern ending in `$`, which also matches just before a final newline | the key "energy\n" passes the key test | a key consisting of an identifier only | high, not executed | DatabaseCore.CheckVariantsDiffer | DatabaseCore.Check |
| ase/db/core.py:346-349 | the 'age' comparison turns `age op t` into `ctime invop[op] now - t`, and `invop` is the negation | 'age=1d' becomes ctime != now - 1d and skips the row exactly one day old; 'age<1d' becomes ctime >= now - 1d and keeps it | the converse operator (< and > swapped, <= and >= swapped, = and != kept), so that the rows selected are those whose age stands in relation op to t | high, not executed | DatabaseCore.AgeAsWrittenMissesEqualAge | DatabaseCore.AgeKeySelectsByAge |
