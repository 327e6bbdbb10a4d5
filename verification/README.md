# A verified model of AfterMail's core

This project models the parts of AfterMail in which a mistake would be hard to see, and proves what they promise:

- **Threshold key sharing** (`pkg/send/mpc.go`). The hand-written arithmetic of GF(2^8) is proved to be the field of
  section 4.2 of FIPS 197; polynomials, synthetic division, the root count and Lagrange interpolation are developed for
  every field of characteristic two; and from these follow recovery, perfect secrecy, and exactly when recovery fails.
  Group threads and the coordinator sit on top.
- **The dead man's switch** (`pkg/deadman/deadman.go`). A state machine over memory (with its shared, mutable switch
  objects), disk, clock and the list of triggers in flight, whose steps are the critical sections; a class whose methods
  are proved to be these steps; and theorems about all its runs.
- **Presence scheduling** (`pkg/presence/presence.go`). The calendar sweep, and the hold queue that compacts its own array.
- **The SMTP proxy** (`cmd/mailscript/proxy.go`, `cmd/mailscript/grpc_server.go`). Sessions, the DATA reader, what is relayed,
  the action scans and the counters of two entry points.
- **Send time** (`pkg/send/optimize.go`) and the **mbox splitter** (`pkg/importer/mbox.go`, `cmd/mailscript/process.go`).

Loops and updating methods of the source are methods here, each proved against a function or a predicate; the laws are
lemmas about these. Random bytes, clocks, library calls, upstream replies and script results are parameters. A Go panic
is an outcome of its own (`Panic`, `Panicked`).

| file | content |
|---|---|
| `BinaryFields`, `Polynomials` | fields of characteristic two, polynomials and interpolation over them |
| `Gf256`, `CarryLess` | the byte field, and its product as the remainder of the carry-less product |
| `Shamir`, `ShamirTheorems`, `RepeatedShares`, `ShareOrder` | splitting and combining, what they promise, lists with repeated shares, and their order |
| `GroupThreads` | group threads and the share coordinator |
| `DeadmanSwitches`, `DeadmanRuns`, `DeadmanFiring`, `DeadmanDisarm`, `DeadmanExamples`, `DeadmanManager` | the state machine, its runs, that switches fire, how long disarming lasts, runs in which promises fail, and the class that refines it |
| `FreeSlots`, `HoldQueues` | the calendar sweep and the hold queue |
| `TextLines`, `MailData`, `MailFilter`, `SmtpSessions` | lines, DATA and relaying, action scans, sessions and counters |
| `SendTimes`, `Mbox` | send times, the mbox splitter |
| `Results`, `Permutations` | shared result types, sequences with the same elements |

## Where the code and its promises differ

- `pkg/send/mpc_test.go` says that shares below the threshold do not recover the secret. Less than two are refused, and more
  recover it exactly if every polynomial, divided by the product of x - r over the indices r, has the constant term
  zero (`ShamirTheorems.TooFewSharesRecoverIff`); for m - 1 shares, if every leading coefficient is zero
  (`ShamirTheorems.OneShareShort`). For every secret there are such polynomials (`ShamirTheorems.OneShareShortCanRecover`).
- "Any m" shares means m different ones (`RepeatedShares.RecoversIffDistinct`). A longer list with repetitions recovers every
  secret exactly if its indices are balanced (`RepeatedShares.AlwaysRecoversIff`): with one share twice it never does
  (`RepeatedShares.DoubledShareFails`), but with one three times it can (`RepeatedShares.ThreefoldShareRecovers`).
- A trigger call can come before deadline plus grace. Exactly a check-in on a switch in flight that moves its deadline ahead,
  or an arming in flight that computes one ahead, breaks timeliness (`DeadmanRuns.StepTimelyIff`), and then the
  tick may make an early call at once (`DeadmanRuns.RescheduledCanFireEarly`); a run from the start that does so is
  `DeadmanExamples.RearmInFlightFiresEarly`.
- A trigger that ends after its switch was disarmed or replaced can leave memory and disk in disagreement; the exact guard
  is `CleanFinish` (`DeadmanSwitches.CompleteAgreesIff`). Two runs from the start that do so are
  `DeadmanExamples.DisarmUndoneByFailure`, in which a disarmed switch is armed again, and
  `DeadmanExamples.ReplacementOverwritten`, after which a crash loses an armed switch.
- "Permanently cancels" holds for an id of which nothing is in flight (`DeadmanDisarm.DisarmLasts`). A switch that is not
  in flight itself stays cancelled in memory and is not triggered (`DeadmanDisarm.DisarmAtRest`); but if its id is in
  flight, through the switch or through one that it replaced, then the id is disarmed for good exactly if the trigger of the
  switch succeeds, or that of the older one does not succeed while that one is armed again
  (`DeadmanDisarm.DisarmInFlight`). `DeadmanExamples.DisarmedReplacementReturns` is a run from the start after which a disarmed
  switch comes back armed from its file.
- A negative check-in interval is accepted by Arm but ignored by CheckIn (`DeadmanRuns.CheckInKeepsSyncIff`,
  `DeadmanExamples.NegativeIntervalDrifts`).
- `FindNextFree` returns the earliest free time, as its comment says, exactly if all the time that it skips, pauses included,
  is busy (`FreeSlots.EarliestIff`, which `FreeSlots.BusyThroughoutIff` makes computable); after a single meeting it does
  not (`FreeSlots.PauseIsSkipped`). Its result can also depend on the order in which the sort leaves slots that start
  together (`FreeSlots.TiesMatter`), but not unless two of them end at different times at most a pause apart
  (`FreeSlots.TiesDoNotMatter`); two neighbours make a difference exactly if both push (`FreeSlots.NeighboursIff`). What else is
  proved holds for every such order.
- The message limit of the process command is exceeded by one exactly if the file ends inside the message after the
  limit (`Mbox.LimitExceededIff`), as in `Mbox.LimitOneHandlesTwo`.
- MAIL and RCPT panic exactly on lines whose brackets come in the wrong order (`SmtpSessions.PanicsIff`,
  `SmtpSessions.ReversedLinePanics`). MAIL starts without recipients exactly if no RCPT was taken since the last reset
  (`SmtpSessions.MailStartsAfreshIff`). DATA that is processed empties the session exactly if the message is refused or need not
  or can be relayed (`SmtpSessions.DataEmptiesIff`, `SmtpSessions.UnrelayedKeepsEnvelope`). A script error counts as a
  rejection over SMTP and not at all over gRPC (`SmtpSessions.CountedAreJudged`, `SmtpSessions.CountedIff`).
- The DATA reader keeps the leading dots that section 4.5.2 of RFC 5321 has a receiver delete, and relays them, so that a
  standard server upstream reads the client's text (`MailData.RelayUnstuffed`); the stored data are that text
  exactly if no line begins with a dot (`MailData.UnstuffedSameIff`).

## Model

| member | source | states |
|---|---|---|
| Gf256.GfMul | pkg/send/mpc.go:33-47 | the shift-and-reduce loop computes the field product `Mul`, whose meaning the next rows give |
| CarryLessProducts.MulIsRemainder | pkg/send/mpc.go:31-47 | a byte is `Mul(a, b)` if and only if it is a remainder of the carry-less polynomial product of a and b on division by x^8 + x^4 + x^3 + x + 1 |
| CarryLessProducts.DivisionUnique | pkg/send/mpc.go:31-32 | quotient and remainder of that division are determined by the dividend |
| Gf256.MulCommutes | pkg/send/mpc.go:31-47 | the product is commutative, for all bytes |
| Gf256.MulAssociates | pkg/send/mpc.go:31-47 | the product is associative, for all bytes |
| Gf256.MulAddRight | pkg/send/mpc.go:31-47 | the product distributes over XOR |
| Gf256.GfPower | pkg/send/mpc.go:57-67 | the square-and-multiply loop, for any exponent, is repeated multiplication |
| Gf256.GfInv | pkg/send/mpc.go:52-68 | the inverse routine gives a^254, and 0 for 0 |
| Gf256.Power255 | pkg/send/mpc.go:49-51 | Fermat's little theorem: a^255 is 1 for every nonzero byte, and 0 for 0 |
| Gf256.MulInverse | pkg/send/mpc.go:49-68 | what the inverse routine computes is a multiplicative inverse of every nonzero byte |
| Gf256.Gf256IsField | pkg/send/mpc.go:31-68 | bytes with XOR, product and inverse satisfy all field laws, so everything below about fields applies to them |
| BinaryFields.NoZeroDivisors | pkg/send/mpc.go:138-142 | a product is zero if and only if a factor is, so distinct indices give nonzero denominators |
| Polynomials.EvalQuotient | pkg/send/mpc.go:118-119 | synthetic division: p(x) = (x - r) q(x) + p(r) in every field of characteristic two |
| Polynomials.ManyRoots | pkg/send/mpc.go:118-119 | a polynomial with as many distinct roots as coefficients is zero |
| Polynomials.Uniqueness | pkg/send/mpc.go:118-119 | two polynomials with n coefficients that agree at n points are equal |
| Polynomials.InterpolantPasses | pkg/send/mpc.go:128-143 | the polynomial behind Lagrange's formula passes through every point |
| Polynomials.InterpolantUnique | pkg/send/mpc.go:128-143 | a polynomial of degree below the number of points passes through them if and only if it is that polynomial |
| Polynomials.LagrangeInterpolates | pkg/send/mpc.go:128-143 | Lagrange's formula gives, at any argument, the value of every polynomial of low enough degree through the points |
| Polynomials.EvalDivided | pkg/send/mpc.go:118-143 | division by the product of x - r over any points r leaves a quotient and a remainder, as values everywhere |
| Polynomials.ConstantIffDivided | pkg/send/mpc.go:118-143 | interpolating with too few points, however few, gives the right constant if and only if that quotient has the constant term zero |
| Polynomials.ConstantIffNoLeading | pkg/send/mpc.go:118-143 | with one point too few, that is if and only if the leading coefficient is zero |
| Polynomials.RepeatedRoot | pkg/send/mpc.go:118-143 | points with a repetition are all roots of a polynomial one degree lower that is nonzero at 0 |
| Shamir.EvaluateAt | pkg/send/mpc.go:106-111 | the loop over running powers of x gives the polynomial's value at x, which Eval defines by Horner's rule |
| Shamir.FillColumn | pkg/send/mpc.go:104-113 | in every share buffer byte j, and no other byte, becomes the polynomial's value at the share's index |
| Shamir.Split | pkg/send/mpc.go:81-116 | each parameter error, a failing random source, and otherwise n shares whose bytes are the values at 1..n of the polynomials made of the secret bytes and the drawn coefficients, although one coefficient buffer is reused |
| ShamirTheorems.IndexValue | pkg/send/mpc.go:90-91 | the shares' indices are 1, 2, ..., n |
| Shamir.BasisProducts | pkg/send/mpc.go:131-141 | numerator and denominator are the products over all other shares of their index, and of the index difference |
| Shamir.Term | pkg/send/mpc.go:142 | one share contributes its byte times its Lagrange weight at 0 |
| Shamir.CombineByte | pkg/send/mpc.go:128-144 | the byte is Lagrange's sum at 0; there is none exactly if some share has no byte j |
| Shamir.Combine | pkg/send/mpc.go:120-147 | fewer than two shares, and only they, are an error; a share shorter than the first, and only that, is a panic; otherwise every byte is Lagrange's sum at 0 |
| ShamirTheorems.CombineInterpolates | pkg/send/mpc.go:118-147 | for any shares with distinct indices, made by Split or not, byte j of the result is P(0) for the one polynomial P of degree below their number through them |
| ShamirTheorems.CombineRecovers | pkg/send/mpc.go:118-147 | every polynomial of lower degree through the shares has the combined byte as its constant term |
| ShamirTheorems.CombineIgnoresOrder | pkg/send/mpc.go:118-147 | the result does not depend on the order of the shares |
| ShareOrder.CombineIgnoresOrder | pkg/send/mpc.go:118-147 | for every permutation of equally long shares, repeated or not, the result is the same |
| ShamirTheorems.SplitHides | pkg/send/mpc.go:94-102 | Split's polynomials have m coefficients and the secret bytes as constant terms |
| ShamirTheorems.PickCombinable | pkg/send/mpc.go:89-92 | any two or more different shares of a split have distinct indices and equal lengths |
| ShamirTheorems.SplitCombine | pkg/send/mpc.go:79-147 | for every secret, every 2 <= m <= n <= 255 and all coefficients, combining any m or more different shares in any order gives exactly the secret |
| ShamirTheorems.PerfectSecrecy | pkg/send/mpc.go:94-114 | for any m - 1 nonzero indices, any bytes seen there and any candidate secret byte, exactly one polynomial fits |
| ShamirTheorems.EquallyOften | pkg/send/mpc.go:94-114 | for fewer than m shares, the polynomials that fit one secret byte and those that fit another are matched by a map that is its own inverse |
| ShamirTheorems.FewSharesHideTheSecret | pkg/send/mpc.go:94-114 | fewer than m shares of a whole secret are also the same shares of any other secret of that length |
| ShamirTheorems.TooFewSharesRecoverIff | pkg/send/mpc_test.go:33-45 | for any number of shares below the threshold: less than two are refused, and more give the secret if and only if no polynomial, divided by its points, keeps a constant |
| ShamirTheorems.OneShareShort | pkg/send/mpc_test.go:33-45 | m - 1 shares give the secret if and only if m is not 2 and every leading coefficient is zero |
| ShamirTheorems.OneShareShortCanRecover | pkg/send/mpc_test.go:33-45 | for every secret and m > 2 there are polynomials with which m - 1 shares give it back |
| RepeatedShares.AlwaysRecoversIff | pkg/send/mpc.go:118-147 | a list of shares with any repetitions gives every secret back if and only if it has at least two and its indices are balanced: Lagrange's formula gives back the constants of 1, x, ..., x^(m-1) |
| RepeatedShares.RepeatedShareFails | pkg/send/mpc.go:79-80 | for every choice of m shares with a repetition there is a secret they do not give back |
| RepeatedShares.DoubledShareFails | pkg/send/mpc.go:79-80 | for a list of any length in which exactly one share is there twice there is a secret it does not give back |
| RepeatedShares.RecoversIffDistinct | pkg/send/mpc.go:79-80 | m shares, or more of which at most one is there twice, give every secret back if and only if they are different |
| RepeatedShares.ThreefoldShareRecovers | pkg/send/mpc.go:118-147 | a list with one share three times that gives every secret with threshold 2 back |
| GroupThreads.NewGroupThread | pkg/send/mpc.go:218-247 | exactly when a thread is made, each error otherwise, and that the thread carries the body under the key with shares that hide the key |
| GroupThreads.GcmRoundTrip | pkg/send/mpc.go:151-191 | keys of other than 32 bytes are refused both ways, and decrypting undoes encrypting |
| GroupThreads.GcmRefuses | pkg/send/mpc.go:174-191 | data of less than 12 bytes, and data that do not authenticate, are refused |
| GroupThreads.Decrypt | pkg/send/mpc.go:251-272 | the checks in their order, each with its error, and the opened text otherwise; the next two rows say what this amounts to |
| GroupThreads.DecryptSucceedsIffKey | pkg/send/mpc.go:249-272 | for any list of shares, decryption succeeds if and only if they reach the threshold and combine to the group key, and then gives the body |
| GroupThreads.DecryptedIff | pkg/send/mpc.go:251-272 | for any thread, made by this program or not: which shares open it with which text, and that too few shares and a wrong digest are errors |
| GroupThreads.ThresholdDecrypts | pkg/send/mpc.go:249-272 | any participants who reach the threshold, in any order, read the body |
| Coordinators.MpcCoordinator.constructor | pkg/send/mpc.go:283-287 | a new coordinator holds no shares |
| Coordinators.MpcCoordinator.SubmitShare | pkg/send/mpc.go:290-293 | a share is appended under its payload and nothing else changes |
| Coordinators.Parse | pkg/send/mpc.go:302-309 | the first empty share is the error, and otherwise every share is its first byte and the rest |
| Coordinators.MpcCoordinator.Reconstruct | pkg/send/mpc.go:296-318 | fewer submissions than the threshold are an error; otherwise the first empty share, errors of Combine, or the combined bytes, from this payload's shares |
| Coordinators.TooFewSubmissionsRefused | pkg/send/mpc.go:297-300 | after any submissions, fewer than the threshold under the payload are an error, whatever they are |
| Coordinators.ReconstructAnswersIff | pkg/send/mpc.go:296-318 | there is an answer if and only if at least threshold and at least two shares were submitted under the payload, none empty and none shorter than the first |
| Coordinators.EmptySubmissionRefused | pkg/send/mpc.go:304-307 | the first empty submission is the error |
| Coordinators.PayloadsAreSeparate | pkg/send/mpc.go:277-293 | after any interleaving of submissions a payload holds exactly its own, in order |
| Coordinators.ReconstructDependsOnOwn | pkg/send/mpc.go:295-318 | what is submitted under other payloads makes no difference |
| Coordinators.ReconstructRecovers | pkg/send/mpc.go:295-318 | if enough encoded shares of a split secret were submitted under a payload, reconstruction gives the secret |
| DeadmanSwitches.StepKeepsWellFormed | pkg/deadman/deadman.go:106-275 | every step keeps memory, disk and the list in flight consistent: ids match their keys, and no two objects in flight share an id |
| DeadmanSwitches.UpdateKeepsAgreement | pkg/deadman/deadman.go:106-169 | arming, check-in and disarming keep every switch in memory equal to its file, even while triggers are in flight |
| DeadmanSwitches.CollectKeepsAgreement | pkg/deadman/deadman.go:212-222 | marking switches as fired keeps the files equal up to that mark |
| DeadmanSwitches.CompleteAgreesIff | pkg/deadman/deadman.go:224-237 | the end of a trigger keeps memory and disk in agreement if and only if, on success, its switch was not replaced by a different one meanwhile, and, on failure, it was not disarmed |
| DeadmanSwitches.RestartAgrees | pkg/deadman/deadman.go:251-275 | after a crash and reload memory and disk agree, whatever happened before |
| DeadmanRuns.RunKeepsAgreement | pkg/deadman/deadman.go:106-275 | memory and disk agree throughout every run whose triggers end cleanly |
| DeadmanRuns.QuiescentDiskEqualsMemory | pkg/deadman/deadman.go:106-238 | with no trigger in flight, agreement means that each switch equals its record, also after a failed trigger |
| DeadmanRuns.AtomicRunAgrees | pkg/deadman/deadman.go:212-238 | if nothing but a crash interrupts a tick, memory and disk always agree |
| DeadmanRuns.RestartRestoresArmed | pkg/deadman/deadman.go:251-275 | a crash and reload bring back exactly the switches that were armed or in flight, with all their fields |
| DeadmanRuns.RunKeepsFired | pkg/deadman/deadman.go:224-237 | in every run a record that is on disk as fired had a trigger call that succeeded on exactly that record |
| DeadmanRuns.StepTimelyIff | pkg/deadman/deadman.go:107-238 | a step keeps all trigger calls, past and in flight, strictly after deadline plus grace if and only if it does not reschedule an object in flight |
| DeadmanRuns.NoEarlyTrigger | pkg/deadman/deadman.go:212-238 | in every run without such rescheduling, each trigger call comes strictly after deadline plus grace, and after last check-in plus interval plus grace where the deadline was computed from a positive interval |
| DeadmanRuns.RescheduledCanFireEarly | pkg/deadman/deadman.go:107-238 | after every such rescheduling the run can go on to a trigger call that comes too early |
| DeadmanFiring.CollectFiresIff | pkg/deadman/deadman.go:212-222 | the tick lists a switch in memory if and only if its status is armed and the time is strictly after its deadline plus grace, and marks exactly those |
| DeadmanFiring.OverdueFires | pkg/deadman/deadman.go:212-222 | over runs: an armed switch that is left alone is in flight after the first tick strictly after its deadline plus grace, and not before |
| DeadmanFiring.InFlightIsCalled | pkg/deadman/deadman.go:224-237 | in every run without a restart a switch leaves the list in flight only by having its trigger called |
| DeadmanFiring.TriggerSeesArmed | pkg/deadman/deadman.go:107-238 | in every run each trigger call of an armed object sees the id, recipients, message, interval and grace period it was armed with, and its explicit deadline unless a check-in computed another |
| DeadmanFiring.RunKeepsSendable | pkg/deadman/deadman.go:108-116 | in every run each trigger is called with an id and at least one recipient |
| DeadmanFiring.ArmRefusals | pkg/deadman/deadman.go:108-116 | arming is refused exactly without an id, without both deadline and interval, or without recipients, in this order |
| DeadmanFiring.ArmSets | pkg/deadman/deadman.go:118-131 | every field of the armed switch and its file, and that no other switch or file changes |
| DeadmanFiring.CheckInSets | pkg/deadman/deadman.go:136-155 | a check-in succeeds if and only if the switch is in memory and armed; every field after it; a refused one changes nothing |
| DeadmanFiring.DisarmSets | pkg/deadman/deadman.go:158-169 | disarming succeeds if and only if the switch is in memory, and changes its status only |
| DeadmanExamples.RearmInFlightFiresEarly | pkg/deadman/deadman.go:107-238 | a run from the start in which a switch armed again in flight and checked in has its trigger called before its deadline |
| DeadmanExamples.DisarmUndoneByFailure | pkg/deadman/deadman.go:158-238 | a run from the start after which a disarmed switch is armed in memory and cancelled on disk |
| DeadmanExamples.ReplacementOverwritten | pkg/deadman/deadman.go:107-238 | a run from the start after which a switch that replaced one in flight is armed in memory and fired on disk |
| DeadmanExamples.DisarmedReplacementReturns | pkg/deadman/deadman.go:107-275 | a run from the start after which a switch that was disarmed while not in flight, and not armed again, is armed |
| DeadmanRuns.CheckInKeepsSyncIff | pkg/deadman/deadman.go:118-152 | for a switch armed without a deadline, a check-in keeps deadline = last check-in + interval if and only if the interval is positive or no time has passed |
| DeadmanExamples.NegativeIntervalDrifts | pkg/deadman/deadman.go:118-152 | a switch with the interval -1 whose check-in parts the deadline from the last check-in |
| DeadmanRuns.QuietUntilArmed | pkg/deadman/deadman.go:157-238 | until its id is armed again, a switch that is neither armed nor in flight triggers no more in any run, across restarts, and a cancelled one stays cancelled |
| DeadmanDisarm.DisarmLasts | pkg/deadman/deadman.go:157-238 | an id that is disarmed while no object of it is in flight is quiet: it triggers no more in any run, across restarts, until it is armed again |
| DeadmanDisarm.DisarmAtRest | pkg/deadman/deadman.go:157-238 | a switch that is disarmed while it is not in flight itself stays cancelled and is not triggered in any run without a restart or an arming of its id, whatever else of its id is in flight |
| DeadmanRuns.SuccessfulTriggerQuietsIff | pkg/deadman/deadman.go:224-237 | a successful trigger leaves its id neither armed nor in flight if and only if neither its switch nor the one in memory is armed when it ends |
| DeadmanRuns.SuccessLasts | pkg/deadman/deadman.go:224-237 | then the id triggers no more in any run until it is armed again |
| DeadmanDisarm.DisarmStarts | pkg/deadman/deadman.go:158-169 | disarming an id of which some object is in flight, the switch itself or one that it replaced, leads to the state that the next rows start from |
| DeadmanDisarm.DisarmedEndIff | pkg/deadman/deadman.go:224-237 | when the trigger in flight ends, the id is quiet if and only if it was the switch's own and succeeded, or an older object's and did not succeed while that was armed; the switch stays cancelled in memory unless its own trigger failed |
| DeadmanDisarm.DisarmInFlight | pkg/deadman/deadman.go:157-238 | over runs: an id disarmed with an object in flight, wherever that is in the list, stays cancelled up to the end of that trigger, and is quiet from then on, until armed again, if and only if that condition holds |
| DeadmanDisarm.RestartQuietsIff | pkg/deadman/deadman.go:251-275 | a restart makes an id quiet if and only if its file is not armed |
| DeadmanManager.Manager.Arm | pkg/deadman/deadman.go:107-132 | when it is refused, and otherwise exactly the arming step on memory and disk |
| DeadmanManager.Manager.CheckIn | pkg/deadman/deadman.go:136-155 | each refusal, and otherwise exactly the check-in step |
| DeadmanManager.Manager.Disarm | pkg/deadman/deadman.go:158-169 | not found, or exactly the disarming step |
| DeadmanManager.Manager.MarkIfDue | pkg/deadman/deadman.go:217-220 | one switch is marked and listed exactly if it is armed and the time is after deadline plus grace, and the others stay |
| DeadmanManager.Manager.MarkDue | pkg/deadman/deadman.go:215-221 | in whatever order the map yields them, exactly the armed switches past deadline plus grace are marked and listed, each once |
| DeadmanManager.Manager.Collect | pkg/deadman/deadman.go:213-222 | the locked half of a tick lists exactly the armed switches past deadline plus grace, and is the collecting step |
| DeadmanManager.Manager.Complete | pkg/deadman/deadman.go:224-237 | the end of one trigger is the completing step |
| DeadmanManager.Manager.Save | pkg/deadman/deadman.go:242-249 | the file of the switch's id, and no other, holds its record |
| DeadmanManager.Manager.Load | pkg/deadman/deadman.go:251-275 | a new manager holds, for every id that some file has as armed, the record of the last such file, whatever the files are named, in fresh objects |
| DeadmanManager.Manager.LoadedIsRestarted | pkg/deadman/deadman.go:242-275 | where files are named after the ids in them, as saving names them, that is the restarted state of the state machine |
| DeadmanManager.ReadFiles | pkg/deadman/deadman.go:256-273 | exactly the ids of armed records are loaded, each into an object of its own, with the last such record |
| DeadmanManager.LastArmedIff | pkg/deadman/deadman.go:256-273 | the record loaded for an id is that of a file that has it armed and that no later such file follows |
| FreeSlots.SortByStart | pkg/presence/presence.go:392-394 | the slots are permuted in place into order of their starts |
| FreeSlots.FindNextFree | pkg/presence/presence.go:391-403 | the result is no earlier than now and in none of the slots given; it is the sweep of the sorted slots, and if no two slots are close, of the slots in any sorted order |
| FreeSlots.SweepFindsFree | pkg/presence/presence.go:396-402 | the sweep of sorted slots, which may overlap, ends in no slot |
| FreeSlots.SweepSkipsOnlyPadded | pkg/presence/presence.go:397-401 | every instant it skips lies in some slot widened by a second before it and five minutes after it |
| FreeSlots.SweepStays | pkg/presence/presence.go:396-402 | the present is returned if and only if no slot pushes it away |
| FreeSlots.SweepOne | pkg/presence/presence.go:397-401 | one slot moves a time that is before its end and later than a second before its start to five minutes after its end, and no other |
| FreeSlots.SweepAppend | pkg/presence/presence.go:396-402 | slots are swept one after the other |
| FreeSlots.EarliestSweepIsEarliest | pkg/presence/presence.go:390 | a sweep without pauses, the reference, ends at the earliest free time |
| FreeSlots.EarliestIff | pkg/presence/presence.go:390-403 | for all sorted slots the result is the earliest free time if and only if, at every push, the time up to the slot's start and the pause after its end are busy |
| FreeSlots.BusyThroughoutIff | pkg/presence/presence.go:390-403 | whether a stretch of time is busy can be computed by the reference sweep |
| FreeSlots.EarliestIffNotPushed | pkg/presence/presence.go:390-403 | in particular, unless one slot ends exactly five minutes after another, if and only if no slot pushes the present away |
| FreeSlots.PauseIsSkipped | pkg/presence/presence.go:390-403 | during a single meeting the result is five minutes after its end, although its end is free |
| FreeSlots.NeighboursIff | pkg/presence/presence.go:392-401 | the order of two slots that start together makes a difference if and only if both push the candidate and they end at different times at most five minutes apart |
| FreeSlots.TiesDoNotMatter | pkg/presence/presence.go:392-403 | for all calendars without two such slots, every order that the sort may produce gives the same result |
| FreeSlots.TiesMatter | pkg/presence/presence.go:392-394 | two orders of two slots that start together give different results |
| HoldQueues.HoldQueue.constructor | pkg/presence/presence.go:244-248 | a new queue is empty |
| HoldQueues.HoldQueue.Hold | pkg/presence/presence.go:255-266 | the message is appended, also when the array has to grow, with a wait of 24 hours and a score of 0.6 exactly where none was given |
| HoldQueues.WaitingAsHeld | pkg/presence/presence.go:255-310 | in every run, whatever waits or was sent was held, with what it was given and these defaults |
| HoldQueues.HoldQueue.Decide | pkg/presence/presence.go:296-307 | one message is kept at the next place of the front or put into the list to send, and the messages not yet read are untouched |
| HoldQueues.HoldQueue.Dispatch | pkg/presence/presence.go:289-310 | compacting the array while reading it keeps exactly the messages that must wait and returns exactly the others, both in order |
| HoldQueues.SelectMember | pkg/presence/presence.go:295-308 | a message is sent if and only if its wait has passed or its recipient has a report with at least its score |
| HoldQueues.Conservation | pkg/presence/presence.go:255-310 | over every run the messages held so far are exactly those waiting and those sent, with multiplicity |
| HoldQueues.SentForAReason | pkg/presence/presence.go:295-306 | in every run each message sent was overdue or its recipient present enough at that dispatch |
| HoldQueues.DispatchSendsOverdue | pkg/presence/presence.go:295-308 | in every run a dispatch sends each message whose wait has passed or whose recipient is present enough, and no other waits on |
| MailData.ReadDataLoop | cmd/mailscript/proxy.go:352-367 | the read loop computes `ReadData`, which the next row describes; if the connection ends first it stores nothing |
| MailData.ReadDataIff | cmd/mailscript/proxy.go:352-367 | the reader stores given data and leaves a given rest if and only if the data are whole lines, none of them a dot alone, and the input is the data, a line with a dot alone ended by CRLF or LF, and the rest |
| MailData.AcceptedIff | cmd/mailscript/proxy.go:352-367 | the data that can be stored are exactly whole lines of which none ends the data |
| MailData.RelayTransparent | cmd/mailscript/proxy.go:536-538 | what is written upstream for stored data is read by the same loop to its very end, and gives the data plus one CRLF |
| MailData.StrictReaderStopsAtEnd | cmd/mailscript/proxy.go:537-538 | also a reader that waits for CRLF . CRLF, as section 4.1.1.4 of RFC 5321 says, finds it at the very end and nowhere else |
| MailData.RelayUnstuffed | cmd/mailscript/proxy.go:536-538 | the text of such a reader, which deletes leading dots as section 4.5.2 says, is the stored data without them plus one CRLF |
| MailData.UnstuffedSameIff | cmd/mailscript/proxy.go:352-367 | that changes nothing if and only if no line of the data begins with a dot |
| MailFilter.ScanForSession | cmd/mailscript/proxy.go:456-473 | accepted exactly if no action is discard, quarantine, bounce or drop or begins with fileinto:Spam |
| MailFilter.SessionReason | cmd/mailscript/proxy.go:456-473 | the session gives the words that belong to the first such action, one sentence for each action |
| MailFilter.ScanForService | cmd/mailscript/grpc_server.go:48-70 | the service accepts the same messages |
| MailFilter.ServiceReason | cmd/mailscript/grpc_server.go:48-70 | the service gives the words that belong to the last such action |
| MailFilter.AcceptedIffHarmless | cmd/mailscript/grpc_server.go:48-70 | for all lists of actions both entry points accept if and only if no action is one of these |
| MailFilter.RejectionTexts | cmd/mailscript/proxy.go:458-469 | which actions refuse, and with which words |
| MailFilter.DecisionsAgree | cmd/mailscript/grpc_server.go:48-70 | both entry points accept a message if and only if no action refuses it; they differ only in the reason, of the first and of the last refusing action |
| SmtpSessions.Index | cmd/mailscript/proxy.go:320-321 | the position of the first bracket, if there is one |
| SmtpSessions.ProxyStats.Count | cmd/mailscript/proxy.go:372-380 | one more message processed, and one more either accepted or rejected |
| SmtpSessions.SmtpSession.HandleMail | cmd/mailscript/proxy.go:318-329 | sets the sender, refuses a line without brackets, panics on reversed ones; nothing else changes |
| SmtpSessions.SmtpSession.HandleRcpt | cmd/mailscript/proxy.go:331-342 | the same, appending a recipient |
| SmtpSessions.SmtpSession.HandleData | cmd/mailscript/proxy.go:344-400 | session, counters and reply after DATA, in each of its six outcomes |
| SmtpSessions.SmtpSession.HandleRset | cmd/mailscript/proxy.go:557-562 | empties the envelope and the data |
| SmtpSessions.ProcessMessage | cmd/mailscript/grpc_server.go:21-104 | counters and response of a service call; a script error is not counted |
| SmtpSessions.CountersBalance | cmd/mailscript/proxy.go:164-173 | however sessions and service calls interleave, the counters are the numbers of accepting and refusing outcomes, processed = accepted + rejected, and the bytes are those of the SMTP messages judged |
| SmtpSessions.EnvelopeIsSinceReset | cmd/mailscript/proxy.go:318-400 | in every run each session's envelope is its last accepted MAIL address and its accepted RCPT addresses, in order, since its last reset |
| SmtpSessions.ProcessedIff | cmd/mailscript/proxy.go:344-380 | in every run a command counts a message if and only if it is DATA with complete data, the last MAIL since the session's last reset gave a nonempty address, and a RCPT since then was taken |
| SmtpSessions.AcceptedReplyIff | cmd/mailscript/proxy.go:344-391 | DATA gets 250 if and only if envelope and data are complete, the script ran, no action refuses, and relaying succeeds where it is needed |
| SmtpSessions.DataReplies | cmd/mailscript/proxy.go:344-400 | each reply to DATA if and only if its condition holds, with the reason and the counters, and nothing changes where no message was judged |
| SmtpSessions.DiscardIsRefused | cmd/mailscript/proxy.go:457-460 | a message whose first refusing action is discard gets 550 with the words for that |
| SmtpSessions.ServiceAnswers | cmd/mailscript/grpc_server.go:39-103 | the service accepts if and only if the script ran, no action refuses, and forwarding succeeds where asked and possible; the reason of each answer, and the counters, which count a message that cannot be forwarded as accepted |
| SmtpSessions.AddressIsTaken | cmd/mailscript/proxy.go:318-342 | MAIL and RCPT take what stands between the first < and the first >, whatever stands around it |
| SmtpSessions.SyntaxErrorIff | cmd/mailscript/proxy.go:320-337 | 501 if and only if a MAIL or RCPT line lacks one of the brackets |
| SmtpSessions.ResetAndOthers | cmd/mailscript/proxy.go:557-562 | RSET empties the session, and other commands change nothing |
| SmtpSessions.PanicsIff | cmd/mailscript/proxy.go:318-342 | the program panics if and only if a MAIL or RCPT line has a > with no < before it and a < after it |
| SmtpSessions.ReversedLinePanics | cmd/mailscript/proxy.go:318-329 | the line >< makes MAIL panic |
| SmtpSessions.MailStartsAfreshIff | cmd/mailscript/proxy.go:318-342 | in every run an accepted MAIL keeps the recipients taken since the last reset, and so starts without any if and only if there were none |
| SmtpSessions.DataEmptiesIff | cmd/mailscript/proxy.go:382-399 | processed DATA empties the session if and only if the message is refused, or need not or can be relayed |
| SmtpSessions.UnrelayedKeepsEnvelope | cmd/mailscript/proxy.go:382-390 | an empty message that is accepted and cannot be relayed keeps its envelope |
| SmtpSessions.CountedAreJudged | cmd/mailscript/grpc_server.go:40-80 | in every run the number of messages processed is the number of DATA commands judged and of service calls whose script ran |
| SmtpSessions.CountedIff | cmd/mailscript/grpc_server.go:40-80 | the session counts every judged message, the service if and only if the script ran |
| SendTimes.NextOccurrence | pkg/send/optimize.go:212-224 | terminates with the least time from the given one on that has the weekday and the exact hour, less than seven days away |
| SendTimes.CountSlots | pkg/send/optimize.go:69-91 | the arrays count the messages sent in each slot, and those replied to within three days |
| SendTimes.InSlotIff | pkg/send/optimize.go:80-90 | which messages count for a slot, and which of them as replied: later than sent, by less than 72 hours |
| SendTimes.CountIsCardinality | pkg/send/optimize.go:75-104 | a count is the number of records that count |
| SendTimes.Weekdays | pkg/send/optimize.go:81 | the weekday of two known dates, and that a weekday lasts a day and is followed by the next |
| SendTimes.HourOfIff | pkg/send/optimize.go:80 | the hour of the day counts full hours since midnight |
| SendTimes.Weigh | pkg/send/optimize.go:114-125 | each weight times the messages sent is the replies, 0 without messages, and the best slot is the first of the highest weight |
| SendTimes.BestSlot | pkg/send/optimize.go:114-138 | in the counts: no slot has more replies for its messages than the best one, and none before it as many |
| SendTimes.BuildProfile | pkg/send/optimize.go:62-147 | the profile names the first hour and the first weekday with the most replies for their messages, and holds all reply rates; with fewer than three records it is empty |
| SendTimes.SuggestSendTime | pkg/send/optimize.go:151-195 | for every profile that names an hour and a weekday the time is now or the first time on the hour in that hour and weekday, at least 30 minutes and less than seven days away |
| Mbox.ParseMbox | pkg/importer/mbox.go:33-79 | the importer emits exactly `Messages(text)`, and its two counters count what could be injected and what could not |
| Mbox.CountIsCardinality | pkg/importer/mbox.go:51-56 | the importer's count is the number of messages that could be injected |
| Mbox.EnvelopeIff | pkg/importer/mbox.go:41-49 | an envelope line begins with From and a space, and a From: header is none |
| Mbox.FromHeaderIsKept | pkg/importer/mbox.go:41-49 | a message that begins with a From: header is split off as it is |
| Mbox.ProcessMbox | cmd/mailscript/process.go:145-189 | the process command handles the same messages, numbered from 1, cut off by the limit |
| Mbox.MessagesNonempty | pkg/importer/mbox.go:41-78 | every emitted message is nonempty |
| Mbox.MessagesConcat | pkg/importer/mbox.go:33-79 | the messages together are the file with exactly its envelope lines removed |
| Mbox.MessagesAreRuns | pkg/importer/mbox.go:33-79 | the messages are, in order, all the maximal runs of lines that are not envelope lines |
| Mbox.CopiesAgreeIff | cmd/mailscript/process.go:147-187 | both copies emit the same messages if and only if there is no limit or it admits all messages that an envelope line ends |
| Mbox.LimitExceededIff | cmd/mailscript/process.go:164-186 | the limit is exceeded if and only if the file ends inside the message after it, and then by one |
| Mbox.LimitedIsPrefix | cmd/mailscript/process.go:164-186 | the messages handled are the first ones, all without a limit or within it, and as many as the limit if there are enough |
| Mbox.RenderedExceedsLimit | cmd/mailscript/process.go:164-186 | every rendered list of two or more messages is handled completely with a limit of one less |
| Mbox.SplitRender | pkg/importer/mbox.go:33-79 | splitting the envelope-line rendering (Appendix A of RFC 4155) of newline-ended messages without envelope lines gives the list back |

## Left out

- AES-GCM, SHA-256 and the random source: parameters; opening undoes sealing and digests do not collide (`GroupThreads.Sound`, which `GroupThreads.SoundCryptoExists` shows can be met), and any bytes can be drawn. The probability distribution of the draws is not modelled; secrecy is stated as an exact matching of coefficient choices.
- Shamir.Split and Shamir.Combine: return their buffers as values, so a caller that writes into a returned share is not modelled.
- Coordinators.MpcCoordinator.SubmitShare: copies the share, so a caller that changes the slice it submitted is not modelled.
- DeadmanManager.Manager.Arm: one step, although the source writes the fields before it takes the lock and the file after it releases it.
- DeadmanManager.Manager.Complete: a trigger call is one instant, at which it begins and ends; other steps come before or after it. A nil trigger is a successful one.
- DeadmanManager.Switch: keeps its fields in one record, with label, subject, body and script as one message; callers that change a switch they handed over are not modelled.
- Files of the dead man's switch: a map from names to records; the JSON codec, file names as paths, unreadable files and failed writes are not modelled, and the runs of the state machine start from files that are named after the ids in them.
- Clocks: parameters, in unbounded nanoseconds; overflow of times and durations is not modelled. The dead man's switch clock does not go backwards.
- FreeSlots.SortByStart: an insertion sort stands for the library's sort; only the order of starts is promised.
- HoldQueues.HoldQueue.Dispatch: the presence scores are a map parameter and the sends themselves are not modelled; entries of the array beyond the compacted length are not described.
- SendTimes.BuildProfile: median response time and time zone offset are not modelled, hours and weekdays are counted in two passes, and rates are exact reals instead of rounded floats.
- SendTimes.SuggestSendTime: gives the time only, without reason and confidence, in UTC.
- SmtpSessions.SmtpSession.HandleData: header parsing and the script engine are one script result, and connecting upstream is one yes or no.
- SmtpSessions.ProcessMessage: the response has no actions, logs, headers and times, and the texts of errors are not modelled.
- SmtpSessions.SmtpSession.HandleMail: the end of the program after a panic is not modelled; the sessions of a run go on, so that what holds for runs holds in particular up to there.
- Sockets, TLS, command parsing, HELO, NOOP and QUIT, connection counters: plumbing around the sessions.
- Mbox.ParseMbox: parsing and storing a message are one function of its text; read errors other than the end of the file are not modelled.
- Text is a sequence of characters that stand for bytes.
- `pkg/send/undo.go`: its cancel check is made outside its lock, so that a cancelled message can still be sent.
- `pkg/send/scheduler.go`, `pkg/stakemail`: state machines like the hold queue and the switch, but easier.
- `pkg/reputation`, `pkg/fingerprint`: floating-point scores. `internal/gui`, the commands, the daemon and the generated code: interface and plumbing.
