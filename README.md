# Re-An lnZ of the dimerized Heisenberg chain: a Dafny model

The program estimates ln Z of the periodic dimerized spin-1/2 Heisenberg chain. It runs the
stochastic series expansion (SSE) at a descending ladder of weak couplings
Jw > Jw·α₀ > … > Jw0. The chain at coupling Jw_k measures the ratio Z_{k+1}/Z_k as the mean of
α_k^nw, where nw is the number of weak-bond operators in a configuration. The ratios multiply
into Z(Jw0)/Z(Jw). The reference point contributes ln Z_ref = β·(L/2).

The model has these modules:

- `Lattice`: the ring of L sites. Bond b joins b and (b+1) mod L. Even bonds are weak (Jw) and
  odd bonds strong (1).
- `Operators`: the slot encoding of the operator string. −1 is the identity, 2b a diagonal and
  2b+1 an off-diagonal operator on bond b. The module also holds the two counters n and nw, and
  how the basis state propagates through off-diagonal operators.
- `Vertices`: the linked vertex list. Legs 4p, 4p+1 sit below slot p and 4p+2, 4p+3 above it.
  The predicate `IsVertexList` characterises the list independently of the code that builds it.
- `Loops`: the loop update on sequences. The graph of links and same-side leg pairs (w, w^1), one
  walk round one of its cycles, and the marks the walks leave behind.
- `Engine`: the class `HeisenbergSSE` with the arrays of the C++ class. Its methods are the
  diagonal update, the construction of the vertex list, the loop update, the cut-off adjustment
  and the measurement accumulator. Each method is proved against the functions and predicates of
  the modules above.
- `Division`: the coupling ladder and the clamped step weights of `doDivision`. `pow` is a
  parameter.
- `Batches`: how the driver launches the divisions in batches of nThread.
- `Telescope`: the fold of the ratios into ln(product). A partial product below 1e-10 is flushed
  into the logarithm. `log` is a parameter assumed to be multiplicative (`LogHom`).
- `Timer`: the elapsed-time report, with a 32-bit cast and truncating division.
- `Driver`: one chain per division (`threadFunc`), stated as the trajectory of its sweeps from its initial configuration; one bin; and the whole run.

Pseudo-random numbers are not generated. Every place that consumes a `rand_r` output takes a raw
draw from a caller-supplied sequence instead. `RandBond` and `RandProb` reduce the draw exactly as
`getRandBond` and `getRandProb` do. The Metropolis acceptance tests of the diagonal update, which
compare floating-point weights, are given as booleans, one per slot.

## Model

| member | source | states |
|---|---|---|
| Engine.RandBond | src/heiSSE.hpp:176-178 | A draw reduced modulo nBonds is a bond index in [0, nBonds). |
| Engine.RandProb | src/heiSSE.hpp:172-174 | (draw mod RAND_MAX) / RAND_MAX lies in [0, 1). |
| Engine.PowerInUnit | src/heiSSE.hpp:185-188 | The measured factor α^nw lies in (0, 1] for every α in (0, 1]. |
| Engine.DiagSlot | src/heiSSE.hpp:17-48 | Off-diagonal slots are kept. An identity becomes a diagonal operator only on the drawn bond, only with antiparallel spins, and only when accepted. A diagonal operator becomes the identity only when accepted. Every accepted move happens. |
| Engine.DiagString | src/heiSSE.hpp:16-49 | The diagonal update yields a valid string of the same length, and every off-diagonal slot is unchanged. |
| Engine.HeisenbergSSE.CounterBounds | src/heiSSE.hpp:19-42 | 0 ≤ nw ≤ n ≤ M whenever n and nw are the counts of the string. |
| Engine.HeisenbergSSE.constructor | src/heiSSE.h:61-137 | Parameters stored; n = nw = 0; M = 20; all slots identity; spin i is up exactly when its draw exceeds 1/2; the invariant holds. |
| Engine.HeisenbergSSE.MakeBonds | src/heiSSE.h:92-114 | Bond b joins sites b and (b+1) mod L. Even bonds are weak with coupling Jw. Odd bonds are strong with coupling 1. |
| Engine.HeisenbergSSE.InitialSpins | src/heiSSE.h:119-122 | Every spin is ±1, and up exactly when its draw exceeds 1/2. |
| Engine.HeisenbergSSE.IdentityString | src/heiSSE.h:127-129 | A string of k identity slots. |
| Engine.HeisenbergSSE.DiagUpdate | src/heiSSE.hpp:9-50 | The new string is DiagString of the old string and state. The spins end as the state propagated through all M slots. n and nw stay the counts. |
| Engine.HeisenbergSSE.DiagLoop | src/heiSSE.hpp:16-49 | After the pass over all M slots every slot holds DiagSlot of its old value and the state below it, and the spins are the state propagated through the whole string. |
| Engine.HeisenbergSSE.DiagStep | src/heiSSE.hpp:17-48 | Slot p becomes DiagSlot of its old value and the current state. Spins flip on the operator's bond exactly when the slot is off-diagonal. |
| Engine.HeisenbergSSE.InsertDiagonal | src/heiSSE.hpp:19-30 | The identity slot becomes DiagSlot of the identity. n and nw are updated so that they stay the counts. |
| Engine.HeisenbergSSE.RemoveDiagonal | src/heiSSE.hpp:32-42 | The diagonal slot becomes DiagSlot of its value. n and nw are updated so that they stay the counts. |
| Engine.HeisenbergSSE.FlipSpins | src/heiSSE.hpp:44-48 | Both spins of the bond are reversed, the others are kept, and all stay ±1. |
| Engine.HeisenbergSSE.MakeVertexList | src/heiSSE.hpp:52-104 | The list built is the vertex list of the string (`IsVertexList`). vFirst and vLast hold each site's first lower leg and last upper leg, or −1. |
| Engine.HeisenbergSSE.ScanSlots | src/heiSSE.hpp:65-90 | After the forward scan each lower leg is linked to the previous upper leg on its site. vFirst and vLast are the first and last legs so far. |
| Engine.HeisenbergSSE.ScanSlot | src/heiSSE.hpp:69-88 | Both lower legs of the operator are attached to their site's last leg, or recorded as the site's first leg. vLast moves to the upper legs. |
| Engine.HeisenbergSSE.LinkLeg | src/heiSSE.hpp:76-81 | A two-way link to the site's last leg, or the site's first leg recorded. vLast[s] becomes leg + 2. |
| Engine.HeisenbergSSE.CloseSites | src/heiSSE.hpp:95-103 | The periodic closing carries the scan state over all sites. |
| Engine.HeisenbergSSE.CloseOne | src/heiSSE.hpp:96-102 | Closing site s links its last upper leg to its first lower leg in both directions. |
| Engine.HeisenbergSSE.LoopUpdate | src/heiSSE.hpp:106-146 | Every leg ends marked −1 or −2, and unlinked legs stay −1. A leg, its partner and its mate carry one mark. Each linked leg carries the coin mark of the least even leg of a closed walk through it (`LoopMarks`). A slot's type bit is toggled exactly when one of its sides lies on a flipped loop, so n and nw are kept. A spin flips with its loop's mark, or by its own coin when it is free. |
| Engine.HeisenbergSSE.MarkLoops | src/heiSSE.hpp:109-133 | The loop part alone: every leg marked, each loop by the coin of its least even leg, type bits toggled on flipped loops, spins untouched. |
| Engine.HeisenbergSSE.WalkAll | src/heiSSE.hpp:109-133 | After the main loop every even leg has been visited, the marking and type-bit invariants hold, and every visited leg carries the coin mark of the walk that reached it, whose first leg is the least leg on it (`Coins`). |
| Engine.HeisenbergSSE.VisitLeg | src/heiSSE.hpp:110-132 | One iteration moves the scan past leg v and keeps the marking, type-bit and coin invariants. An unvisited v ends marked −2 when its draw is below 1/2 and −1 otherwise. A visited v changes neither the marks nor the string. |
| Engine.HeisenbergSSE.Walk | src/heiSSE.hpp:113-131 | The walk from v visits a closed loop of unmarked legs containing v, returned as the sequence of legs in walk order (`Cycle`). It marks exactly those legs with −2 or −1. It toggles a slot exactly when one of its sides is on the loop and the loop is flipped. |
| Engine.HeisenbergSSE.StepWalk | src/heiSSE.hpp:117-121 | One step: the head and its mate w^1 are marked, the slot is toggled when flipping, and the next head is the mate's old partner. |
| Engine.HeisenbergSSE.FlipFreeSpins | src/heiSSE.hpp:135-145 | A site with operators flips exactly when its first leg is marked −2. A free site flips exactly when its draw is below 1/2. |
| Engine.HeisenbergSSE.AdjustM | src/heiSSE.hpp:148-164 | M becomes n + n/3 when that exceeds M, and never decreases. The string keeps its slots and is padded with identities, and is exactly `Adjusted` of the old string. The vertex list is reallocated only on growth. n and nw stay the counts. |
| Engine.Adjusted | src/heiSSE.hpp:148-164 | The adjusted string starts with the old one, is padded with identities after it, and is n + n/3 long when that exceeds the old length, else unchanged. |
| Engine.HeisenbergSSE.Grow | src/heiSSE.hpp:150-163 | On growth the string is the old string padded with identities up to the new M. The invariant holds. |
| Engine.HeisenbergSSE.Grown | src/heiSSE.hpp:151-159 | The new array is a copy of the old slots followed by identities. |
| Engine.HeisenbergSSE.UpdateConfig | src/heiSSE.hpp:166-170 | One sweep keeps M and the invariant, and the new string, spins and marks are the ones `Swept` describes: DiagString of the old string, its vertex list's loops each marked by its coin, type bits toggled on flipped loops, and the propagated state with each site flipped with its loop or by its own coin. |
| Engine.SweptIntro | src/heiSSE.hpp:166-170 | The results of the three phases, each as its method leaves it, make up one `Swept` step. |
| Engine.CoinStep | src/heiSSE.hpp:113-131 | Marking one more walked loop (least leg first) with its coin mark extends the coin invariant by that loop. |
| Engine.CoinVisit | src/heiSSE.hpp:109-132 | The walk from the first unvisited even leg v is a loop whose least leg is v, so its marks extend the coin invariant and v gets its own coin mark. |
| Engine.CoinsMarks | src/heiSSE.hpp:109-133 | Once every leg is marked, the coin invariant gives `LoopMarks`: every linked leg carries the coin of its loop's least even leg. |
| Engine.HeisenbergSSE.IniMeasure | src/heiSSE.hpp:180-183 | The accumulator and the measurement count are reset to zero. |
| Engine.HeisenbergSSE.Measure | src/heiSSE.hpp:185-188 | Adds α^nw to the accumulator and counts the measurement. |
| Engine.HeisenbergSSE.Statisticize | src/heiSSE.hpp:190-192 | The accumulator becomes its mean over the measurements. |
| Lattice.BondEndsDistinct | src/heiSSE.h:92-95 | The two sites of a bond are distinct sites of the ring. |
| Lattice.FlipBondKeepsSpins | src/heiSSE.hpp:44-48 | Flipping a bond reverses exactly its two spins and keeps every spin ±1. |
| Operators.ToggleType | src/heiSSE.hpp:117 | `x ^ 1` keeps the bond and swaps diagonal and off-diagonal. |
| Operators.CountUpdate | src/heiSSE.hpp:23-40 | Overwriting a slot changes n and nw by exactly the difference of that slot's contributions. |
| Operators.CountBounds | src/heiSSE.hpp:19-42 | The weak count never exceeds the operator count, which never exceeds the string length. |
| Operators.CountsOfSameShape | src/heiSSE.hpp:117 | Strings that differ only in type bits have the same n and nw. |
| Operators.CountsOfPadding | src/heiSSE.hpp:158-159 | Padding with identities changes neither n nor nw. |
| Operators.ValidOpsPadding | src/heiSSE.hpp:158-159 | Padding a valid string with identities leaves it valid. |
| Operators.PropagateKeepsSpins | src/heiSSE.hpp:44-48 | Propagating the state through the string keeps every spin ±1. |
| Operators.PropagateSameOffDiagonal | src/heiSSE.hpp:19-48 | The propagated state depends only on the off-diagonal slots, so it is unchanged by diagonal insertions and removals. |
| Vertices.LegsOfSite | src/heiSSE.hpp:72-88 | An operator acting on s has a lower leg and an upper leg (lower + 2) on s, both in its slot. |
| Vertices.SiteOfLeg | src/heiSSE.hpp:69-88 | Every leg of an operator belongs to a site that the operator acts on, and is that site's lower or upper leg. |
| Vertices.Before | src/heiSSE.hpp:73-74 | The last earlier slot acting on s, with none in between, or −1. |
| Vertices.FirstIn | src/heiSSE.hpp:79-80 | The first slot acting on s, with none before it, or −1. |
| Vertices.PrevCyc | src/heiSSE.hpp:95-103 | The previous operator on s in periodic imaginary time acts on s. |
| Vertices.VertexListUnique | src/heiSSE.hpp:52-104 | A string has exactly one vertex list, so rebuilding it is idempotent. |
| Vertices.CountLinkedPrefix | src/heiSSE.hpp:65-103 | The first k slots hold four linked legs per operator. |
| Vertices.LinkedLegCount | src/heiSSE.hpp:65-103 | Exactly 4n legs are linked. |
| Vertices.ScanStart | src/heiSSE.hpp:58-63 | After the resets, the scan invariant holds before slot 0. |
| Vertices.ScanOperator | src/heiSSE.hpp:68-89 | Scanning an operator slot advances the scan invariant past it. |
| Vertices.SiteEnds | src/heiSSE.hpp:95-99 | vFirst[s] and vLast[s] are −1 together, exactly when no operator acts on s. |
| Vertices.CloseSite | src/heiSSE.hpp:96-102 | Closing one site extends the closing invariant to it. |
| Vertices.CloseEnd | src/heiSSE.hpp:95-103 | After every site is closed the list is the vertex list of the string. |
| Loops.Mate | src/heiSSE.hpp:119 | `w ^ 1` is the other leg on the same side of the same slot. |
| Loops.VertexListPairing | src/heiSSE.hpp:109-133 | The vertex list is a perfect matching on the operator legs, closed under w^1. A leg is linked exactly when its slot holds an operator. |
| Loops.MateSide | src/heiSSE.hpp:117-119 | A leg and its mate form the lower side or the upper side of their slot. |
| Loops.ToggleTwice | src/heiSSE.hpp:117 | Toggling the type bit twice restores the slot. |
| Loops.TypeBitsSameShape | src/heiSSE.hpp:117 | Toggling type bits keeps the string valid and keeps n and nw. |
| Loops.WalkStart | src/heiSSE.hpp:113-120 | The first step visits v and its mate, and the path invariant holds. |
| Loops.WalkNext | src/heiSSE.hpp:119-122 | Until the walk is back at v, the next head and its mate are unvisited, and the path grows by them. |
| Loops.WalkEnd | src/heiSSE.hpp:122 | Back at v, the visited legs form a closed loop. |
| Loops.MarkPair | src/heiSSE.hpp:118-121 | Marking a head and its tail extends the set of marked legs by them. |
| Loops.EvenDoneStep | src/heiSSE.hpp:109-111 | After a walk through v, or a skip of a visited v, every even leg up to v + 2 is visited. |
| Loops.ToggleSide | src/heiSSE.hpp:117 | Toggling at one more visited side keeps "toggled exactly when one side was visited". |
| Loops.MarkLoop | src/heiSSE.hpp:116-131 | Marking a whole loop with one mark keeps the marking and type-bit invariants. |
| Loops.AllMarked | src/heiSSE.hpp:109-133 | Once every even leg is visited, every leg is marked, with one mark per loop. |
| Loops.PathSnoc | src/heiSSE.hpp:119-120 | A walk grows by the leg linked to its last entry and that leg's mate, and stays a walk. |
| Loops.LeastStart | src/heiSSE.hpp:109-113 | A loop walked from the first unvisited even leg v contains no leg below v. |
| Loops.LoopStart | src/heiSSE.hpp:106-111 | Before the first walk nothing is marked or toggled, and every linked leg belongs to an operator. |
| Division.Clamp | src/main.cpp:24-27 | The clamped weight is the point of [ε, 0.99999] nearest the raw weight. |
| Division.Exponent | src/main.cpp:23 | The exponent 1/(Λ·β·Jw·L) is positive. |
| Division.StepAlpha | src/main.cpp:23-27 | Every step weight lies between min(ε, 0.99999) and max(ε, 0.99999). |
| Division.StepShrinks | src/main.cpp:29 | Each step lowers the coupling by at least (1 − max(ε, 0.99999))·Jw0, so the loop terminates. |
| Division.ScheduleStep | src/main.cpp:20-30 | One pass of the loop keeps the schedule invariant. |
| Division.DoDivision | src/main.cpp:15-38 | The lists are equally long and empty exactly when Jw ≤ Jw0. The first coupling is Jw. Each coupling exceeds Jw0 and is the previous one times its weight. Each weight is the clamped weight of its coupling. The coupling after the last step is at most Jw0. |
| Division.DivisionStep | src/main.cpp:21-29 | One pass records the coupling and its weight, and lowers the termination measure. |
| Division.WeightsInUnit | src/main.cpp:23-28 | Every recorded weight lies inside (0, 1). |
| Division.CouplingsDecrease | src/main.cpp:20-30 | The recorded couplings strictly decrease. |
| Batches.CycleRemain | src/main.cpp:77-78 | nThread·cycle + remain = nDivision with 0 ≤ remain < nThread. |
| Batches.Plan | src/main.cpp:113-131 | The batches, run in order, launch the indices 0 … nDivision−1. There are cycle batches, plus one when remain > 0. Each batch is non-empty and at most nThread long, and only the last can be shorter. |
| Batches.Batch | src/main.cpp:125-127 | The extra batch launches the indices cycle·nThread … nDivision−1 in order. |
| Batches.IotaOnce | src/main.cpp:94-95 | Each division index occurs exactly once, and nothing else occurs. |
| Telescope.LogOne | src/main.cpp:142 | log 1 = 0, so restarting the partial product at 1 loses nothing. |
| Telescope.ProductPositive | src/main.cpp:137-139 | A product of positive ratios is positive. |
| Telescope.ProductInUnit | src/main.cpp:137-139 | A product of ratios in (0, 1] stays in (0, 1]. |
| Telescope.Absorb | src/main.cpp:139-143 | One iteration keeps lnz + log(z) and leaves z at or above 1e-10. |
| Telescope.FoldStep | src/main.cpp:139 | Multiplying one more ratio keeps lnz + log(z) equal to the logarithm of the prefix product. |
| Telescope.LnProduct | src/main.cpp:136-145 | The fold with flushes equals the logarithm of the whole product. |
| Timer.ToInt32 | src/heiSSE.h:151 | The 32-bit cast is congruent modulo 2^32, in range, and the identity on values in range. |
| Timer.Quot | src/heiSSE.h:152-154 | Truncating division: the remainder has the dividend's sign and is smaller than the divisor. |
| Timer.Elapsed | src/heiSSE.h:150-156 | Hours, minutes and seconds add back up to the cast interval. For a non-negative interval min and sec lie in 0…59. For a negative one all parts are ≤ 0 and min, sec > −60. |
| Driver.SumFactorsBounds | src/heiSSE.hpp:185-188 | The accumulated sum lies in (0, k] after k > 0 measurements. |
| Driver.RunChain | src/main.cpp:40-58 | The chain's sweeps from its initial configuration form a trajectory (`ChainRun`). The ratio is the mean of α^nw over the stepStat configurations it measured, nw being the weak-operator count of each, and lies in (0, 1]. |
| Driver.Thermalize | src/main.cpp:44-47 | The stepThm sweeps, each followed by adjustM, are the first stepThm steps of the chain's trajectory from the model's configuration, and the model ends where they end. The invariant holds and M never drops. |
| Driver.ThermalizeStep | src/main.cpp:45-46 | One thermalization sweep and the adjustment after it extend the trajectory by one step that ends in the model's new configuration. |
| Driver.Sample | src/main.cpp:48-52 | The stepStat measurement sweeps continue the trajectory. The j-th measured weight is the weak-operator count of the string sweep stepThm + j left, and the accumulator is the sum of α^nw over those weights. |
| Driver.SampleStep | src/main.cpp:50-51 | One measurement sweep extends the trajectory, and the accumulator grows by α^nw of the string it left. |
| Driver.Sweep | src/main.cpp:45 | A sweep keeps the invariant and M, and takes the configuration as `Swept` says for the draws of that sweep. |
| Driver.ChainedSnoc | src/main.cpp:44-52 | A step taken from where a chain of steps ends extends the chain. |
| Driver.MeasuredSnoc | src/main.cpp:49-52 | One more measured step extends the chain and appends the weight of the string it left. |
| Driver.RunBatch | src/main.cpp:115-117 | Every division of the batch writes a ratio in (0, 1] from its own chain to its own slot. Other slots are untouched. |
| Driver.RunBatches | src/main.cpp:113-131 | After all batches every division's slot holds the ratio of its own chain. |
| Driver.RunBin | src/main.cpp:113-146 | Division i's ratio is the mean of α_i^nw over the configurations its own chain measured (`BinRun`), and lies in (0, 1]. The reported value is β·(L/2) − log of the product of all ratios, and that product lies in (0, 1]. |
| Driver.Run | src/main.cpp:76-147 | The schedule is the one doDivision returns, empty exactly when Jw ≤ Jw0. Each bin's ratios come from chains with that schedule's weights (`BinRun`). Each estimate is β·(L/2) − log of a product in (0, 1]. |

## Left out

- Floating-point arithmetic is modelled on unbounded reals. This covers the Metropolis weights `prob_add_factor` and `prob_remove_factor`, the comparisons against `M − n`, and `pow` and `log`. The acceptance decision of each diagonal slot is a boolean parameter. `pow` is a parameter of `DoDivision`. `log` is a parameter assumed to satisfy log(ab) = log a + log b on positive reals (`LogHom`).
- Engine.HeisenbergSSE.LoopUpdate: the loop coin is taken from a draw indexed by the starting even leg (v / 2). `loopUpdate` consumes one generator output per loop started. The free-site coin is indexed by site. The sequence of generator outputs is therefore not reproduced, only the decisions.
- The generator `rand_r` and its time-based seed are not modelled. Every draw is a caller-supplied raw value.
- Driver.RunChain: the coupling Jw and β reach the chain's dynamics only through the acceptance booleans, so the trajectory it states does not depend on them.
- Driver.RunBin: the threads run one after another. Each chain writes only its own entry of the ratio array, so the order cannot affect the result. `pthread_create` and `pthread_join` are not modelled.
- Console and file output, the command-line parsing, and the clock readings are left out. The timer takes the two readings as integers.
- The destructor is not modelled; memory is managed by Dafny. So is the copying of the vectors into the heap arrays at the end of `doDivision`, since both hold the same values.
- The model requires L ≥ 2 for the ring; with L = 1 bond 0 would join site 0 to itself. `Run` requires stepStat > 0 (otherwise `statisticize` divides by zero) and nThread > 0 (otherwise `nDivision / nThread` is undefined). `DoDivision` requires Jw0 > 0 and 0 < ε < 1: with Jw0 ≤ 0 the loop ends only by floating-point underflow.
- Engine.HeisenbergSSE.Statisticize requires nMeasure > 0, which every call from `threadFunc` with stepStat > 0 meets.
- A vertex-list link is not claimed to join legs of the same parity. Its two ends can lie in different columns, for example after operators on bonds 0 and 1 that share site 1. What is proved instead is that a link joins two legs of the same site on opposite sides (`IsVertexList`).
