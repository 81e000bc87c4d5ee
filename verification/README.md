# A verified model of oasis-core's state machines

This project models, in Dafny, the parts of the repository where several
functions have to work together for a promise to hold, and proves those
promises for every input and every run.

**CHURP secret sharing** (`secret-sharing/srcchurp`). A committee shares a
secret through a bivariate polynomial and hands it over, again and again, to
new committees. The model covers dealers, shares and their verification, the
dimension switch with its two accumulators, the three kinds of handoff, and
the player that recovers the secret.

- The field is the integers modulo an arbitrary prime: `Field.P` is a constant
  of a subset type without a value, so every proof is for all primes. The
  commitment group is represented by its exponents, as multiples of an
  arbitrary non-zero generator, which makes a commitment binding and additive.
  The crate's `poly` and `vss` modules are not part of this model; their
  operations are defined mathematically (evaluation, Lagrange interpolation,
  verification of polynomials and points) and their laws are proved here.
  Interpolation through n points yields a polynomial with n coefficients,
  leading zeros included.
- `SwitchModel` and `HandoffModel` are the ideal state machines over values;
  the classes in `Switches` and `Handoffs` are the imperative code, proved to
  take exactly the same steps. `SwitchTheory` and `HandoffTheory` prove what
  holds over all runs.
- `Completeness` follows one member whose inputs come from honest nodes: the
  switch points it gets are those that the senders compute from their own
  shares. `Committees` follows a whole committee, in which every member is also
  a dealer and asks whom it likes in the order it likes.
- The methods that a handoff kind does not implement return `InvalidKind`, as
  the trait's default methods do. Each call holds the mutex, so calls are
  atomic and runs are sequences of calls.
- What the members of a committee have to agree on is the matrix of the last
  handoff and one matrix per dealer. The enclave enforces that by comparing
  checksums with consensus state (`keymanager/src/churp/handler.rs:604-746`);
  here it is `HandoffTheory.Agreement`, and `Conforms` says which calls pass
  that comparison. Switch points need no agreement at all.
- A random number generator is an arbitrary stream of scalars.
- `Secrecy` says exactly what shares below the threshold reveal, and
  `Coalitions` why a dealing phase needs t + 2 dealers. Both count polynomials;
  what the published commitments reveal to a node that can compute discrete
  logarithms is not considered. `Recovery` connects this with the player: it
  answers exactly on shares that determine the secret.
- `Existence` shows that the histories which the main theorem speaks of exist:
  for every threshold and every sequence of large enough committees with
  distinct non-zero identities, who are the dealers, and for handoffs that keep
  or change the committee in any order.

**Runtime registry** (`go/registry/api`). Deployment schedules, the rules for
changing them, and per-entity admission limits. Versions are compared through
an injective encoding as integers; decoding of SGX constraints, node lookup
and the list of all roles are parameters.

**Upgrade manager** (`go/upgrade/upgrade.go`). The list of pending upgrades in
memory against its copy in a store that may fail at any operation, with
restarts, panics and migration handlers that may fail. `UpgradeModel` is the
state machine, `UpgradeManagers` the class over shared records, `UpgradeTheory`
and `UpgradeStages` the runs, `UpgradeCauses` and `UpgradeRetention` which calls
give an upgrade its startup stage and which take its record away. Handlers, the running binary and the store's
failures are parameters. A panic is an outcome that ends the process. Stages
are none, startup and consensus; an upgrade is completed at consensus.

Two promises one would expect are false of the code.

- A stored upgrade height can change. If an upgrade completes and deleting it
  from the store fails, it is gone from memory but still stored, and submitting
  the same descriptor again overwrites the stored height
  (`StoredHeightCanChange`). If the store refuses that write too, a later write,
  for example for another descriptor, loses the height (`RefusedThenLost`).
  `StoredHeightsExactly` says, over all runs up to and including the first such
  submission, exactly which calls lose a height, and `HeightsLostExactly`, over
  all runs, exactly which writes do; `StoredHeightsNeverChange` proves the
  promise for all runs without such a submission, whatever the store does.
- A stage can be pushed out of order. If the write at the height where an
  upgrade is reached fails and the node goes on, the next block panics
  (`StageCanPanic`). `PanicsExactly` gives the condition on the state before a
  consensus call and the store's answers to it, and `DisciplinedNeverPanics`
  proves that a node which completes its startup upgrades after every start, and
  stops when a consensus call fails, never panics.

**Peer management** (`go/p2p/peermgmt`). The ticket protocol and single-flight
dialling of the connector, the discovery loop with its one-slot signal, and
the peer registry with its inverse indexes. Goroutines are modelled as steps
of a state machine in any interleaving; iteration over Go maps is in any
order.

**Governance** (`go/governance/api`). Tallying, pending upgrades, and the
genesis checks. Quantities are natural numbers, so adding them cannot fail.

**CHURP status** (`go/keymanager/churp/status.go`). Which kind of handoff comes
next and how many applicants it needs, connected with the handoff model.

Every lemma switches automatic induction off, so that its body is its whole
proof.

Where code and documentation differ, the code is followed. The documentation
of `CloseProposal` says that a proposal passes if the percentage of yes votes
reaches the threshold; with a threshold of zero and no yes votes the code
rejects it. The documentation of `verifyNodeCountWithRoleForRuntime` does not
mention that with a limit of zero it refuses only if it meets a relevant node.

## Model

| member | source | states |
|---|---|---|
| Field.Inverse | secret-sharing/srcchurp/player.rs:22-40 | Every non-zero scalar has an inverse, found by Euclid's algorithm modulo an arbitrary prime; recovery divides by differences of identities. |
| Polynomials.InterpolationUnique | secret-sharing/srcchurp/switch.rs:458-478 | Two polynomials of size n that agree at n distinct scalars are equal, so interpolation has only one answer. |
| Lagrange.Interpolate | secret-sharing/srcchurp/switch.rs:468-470 | The interpolating polynomial has one coefficient per point and passes through all of them. |
| Lagrange.WeightedSumRecovers | secret-sharing/srcchurp/player.rs:22-40 | The Lagrange-weighted sum of values of f at distinct scalars is f(0), as soon as there are as many as f has coefficients. |
| Bivariate.EvaluationOrder | secret-sharing/srcchurp/dealer.rs:118-126 | Restricting B to x and evaluating at y gives B(x, y); with the definition by columns, both orders of evaluation agree. |
| Vss.VerifyXMeaning | secret-sharing/srcchurp/shareholder.rs:263-283 | A matrix accepts a full share's polynomial if and only if it is B(x, y) for the polynomial B it commits to. |
| Vss.VerifyYMeaning | secret-sharing/srcchurp/shareholder.rs:263-283 | A matrix accepts a reduced share's polynomial if and only if it is B(x, y) restricted to y. |
| Vss.VerifyPointMeaning | secret-sharing/srcchurp/switch.rs:433-452 | A precomputed verification vector accepts a switch point if and only if it lies on the polynomial committed to. |
| Vss.CommittedAdd | secret-sharing/srcchurp/shareholder.rs:317-326 | The sum of two matrices commits to the sum of their polynomials. |
| Shares.VerifyMeaning | secret-sharing/srcchurp/shareholder.rs:218-283 | Verification succeeds if and only if dimensions fit, no leading term vanishes, the secret is zero exactly when asked for, and the share is the committed polynomial's restriction. |
| Shares.ProactivizeExactly | secret-sharing/srcchurp/shareholder.rs:57-79 | Exactly matrices of the same dimensions that commit to a zero secret can be added to a shareholder; the committed secret stays and a genuine share stays genuine. |
| Shares.AddSharesGenuine | secret-sharing/srcchurp/shareholder.rs:153-171 | The sum of two genuine shares of one holder is the genuine share of the summed matrix. |
| Dealers.GenerateBivariatePolynomial | secret-sharing/srcchurp/dealer.rs:136-165 | Returns the first of at most five drawn candidates whose secret and leading terms are non-zero, having drawn exactly that much; fails exactly for thresholds above 127 or if all five are unsuitable. |
| Dealers.NewDealer | secret-sharing/srcchurp/dealer.rs:56-59 | Succeeds exactly if one of five candidates is suitable; the dealer's matrix commits to its polynomial. |
| Dealers.NewProactiveDealer | secret-sharing/srcchurp/dealer.rs:76-80 | The same for zero-hole polynomials: a suitable polynomial whose secret has been replaced by zero. |
| Dealers.HonestShareAccepted | secret-sharing/srcchurp/dealer.rs:56-126 | Whatever suitable polynomial was drawn, for every threshold, holder and kind of handoff the dealt share passes every check of its receiver. |
| Players.DistinctShares | secret-sharing/srcchurp/player.rs:52-63 | The pairwise scan answers whether all holders are distinct. |
| Players.RecoverSecret | secret-sharing/srcchurp/player.rs:22-49 | Fails exactly on too few or repeated holders; returns the interpolant at zero, and on shares of one polynomial B of either sort it returns B(0, 0), whichever shares were chosen. |
| Players.SharesRecover | secret-sharing/srcchurp/player.rs:22-40 | Any t + 1 full or 2t + 1 reduced shares of B determine B(0, 0). |
| Players.DealerPlayerRoundTrip | secret-sharing/srcchurp/dealer.rs:109-126 | Shares made for any sufficiently long list of distinct holders recover the dealer's secret. |
| Recovery.RecoverAfterHandoffs | keymanager/src/client/remote.rs:252-321 | After any history of handoffs recovery answers on t + 1 current members' shares, and with the secret that the dealing phase has fixed. |
| Recovery.RecoverExactly | secret-sharing/srcchurp/player.rs:22-49 | For every kind, over a field with more than three elements, recovery answers on shares of distinct non-zero holders if and only if no other suitable polynomial with another secret gives the same shares; the answer is then the secret. |
| Secrecy.AtThresholdExactly | secret-sharing/srcchurp/dealer.rs:38-46 | Of a polynomial as dealers select and receivers accept them, t full shares, or 2t reduced ones, of distinct holders leave a secret possible if and only if it is not zero and not the value at zero of the polynomial of lower degree through them. |
| Secrecy.BelowThresholdExactly | secret-sharing/srcchurp/dealer.rs:38-46 | Fewer shares leave every secret possible but zero. |
| Secrecy.ThresholdExact | secret-sharing/srcchurp/dealer.rs:38-46 | Among the polynomials that could have been dealt, the shares of distinct holders determine the secret if and only if there are more than t full or more than 2t reduced ones, over every field with more than three elements. |
| Secrecy.GuessMeaning | secret-sharing/srcchurp/dealer.rs:128-130 | The holders of t full or 2t reduced shares would guess the secret exactly if the leading term of B(x, 0) or B(0, y) vanished, which is what the selection excludes. |
| Secrecy.ServedIsSuitable | secret-sharing/srcchurp/switch.rs:612-616 | Every share that passes the final check belongs to such a polynomial. |
| Secrecy.BelowThresholdAnySecret | secret-sharing/srcchurp/dealer.rs:128-130 | Without the selection, t full or 2t reduced shares would leave every secret possible. |
| Coalitions.CombinedStaysUnknown | secret-sharing/srcchurp/handoff.rs:180-187 | With the t + 2 distinct dealers that a dealing phase demands, a node that knows the polynomials of t + 1 of them, and its share from all, cannot tell the combined secret: other suitable polynomials look the same to it and combine to a different, acceptable one; for t > 0 and more than five scalars. |
| Coalitions.AllKnown | secret-sharing/srcchurp/handoff.rs:20-26 | If all dealers' polynomials are known, so is the combined one. |
| MatrixSums.SumPermutation | secret-sharing/srcchurp/switch.rs:576-580 | The sum of the dealers' matrices does not depend on the order in which they arrive. |
| SwitchTheory.FinishOutcome | secret-sharing/srcchurp/switch.rs:595-619 | After merging onto a genuine share the final check fails if and only if the secret is zero or a leading term vanished, never on the match of share and matrix; otherwise the result is the merged polynomial's share and the secret is kept. |
| SwitchTheory.TotalGenuine | secret-sharing/srcchurp/switch.rs:558-591 | Whatever verified shares have been merged, their sum is the genuine share of the sum of their matrices. |
| SwitchTheory.AddSwitchPointInv | secret-sharing/srcchurp/switch.rs:227-258 | Accumulated points stay distinct and on the committed polynomial; the last one needed turns them into exactly the committed share, which is merged or served. |
| SwitchTheory.AddBivariateShareInv | secret-sharing/srcchurp/switch.rs:304-323 | While merging, pending and accepted senders together are exactly the shareholders; the call reports completion if and only if it starts serving, and what it serves verifies. |
| SwitchTheory.PreparationProgress | secret-sharing/srcchurp/switch.rs:184-286 | Every successful preparing call decreases the work left; a failed one changes nothing. |
| SwitchTheory.SwitchPointProgress | secret-sharing/srcchurp/switch.rs:227-258 | Every accepted switch point decreases the work left; a refused one changes nothing. |
| SwitchTheory.BivariateShareProgress | secret-sharing/srcchurp/switch.rs:304-323 | Every admitted bivariate share decreases the work left, even if the final check then fails; a refused one changes nothing. |
| SwitchTheory.ChangesBounded | secret-sharing/srcchurp/switch.rs:184-323 | In every run of calls in any order, at most as many calls change a switch as its dealers and points allow. |
| SwitchTheory.FailedCheckIsFinal | secret-sharing/srcchurp/switch.rs:304-323 | A switch whose final check failed is stuck in merging with no sender left and refuses every further share. |
| SwitchTheory.RefusedExactly | secret-sharing/srcchurp/switch.rs:545-591 | With distinct dealers a contribution is refused, each reason exactly when it applies: a stranger's, one of a dealer who has contributed, one for another node, and one that does not verify; all others are accepted. |
| SwitchTheory.PointExactly | secret-sharing/srcchurp/switch.rs:433-452 | A switch point is refused exactly if its sender has sent one or it is off the committed polynomial, without any effect; the accumulation is complete exactly with point 2t + 1, or t + 1 for reduced shares. |
| SwitchTheory.MergedIsRefreshed | secret-sharing/srcchurp/switch.rs:558-619 | Once every dealer has contributed, the merged matrix is the source plus the sum of all published matrices, in whatever order they came. |
| Switches.SwitchPoints.Create | secret-sharing/srcchurp/switch.rs:376-412 | Succeeds exactly on a matrix of the right dimensions and starts without points. |
| Switches.SwitchPoints.NeedsPoint | secret-sharing/srcchurp/switch.rs:415-427 | A point is needed exactly from a sender that has sent none, while there are too few. |
| Switches.SwitchPoints.AddPoint | secret-sharing/srcchurp/switch.rs:433-452 | The point is kept if and only if there is room, its sender is new and it lies on the polynomial that the full matrix commits to; each refusal has its own error. |
| Switches.SwitchPoints.ReconstructShareholder | secret-sharing/srcchurp/switch.rs:458-478 | Any n accepted points, from any senders in any order, yield the share that the matrix commits to, once. |
| Switches.BivariateShares.Create | secret-sharing/srcchurp/switch.rs:518-542 | Succeeds exactly if there are shareholders, all of them pending. |
| Switches.BivariateShares.AddBivariateShare | secret-sharing/srcchurp/switch.rs:558-591 | Admits exactly a verified share for this holder from a pending sender; the combined share is the sum of the accepted ones and the sender is struck off. |
| Switches.BivariateShares.ProactivizeShareholder | secret-sharing/srcchurp/switch.rs:595-619 | Works once, when nothing is pending, and returns the verified result of merging all accepted shares. |
| Switches.DimensionSwitch.SkipAccumulating | secret-sharing/srcchurp/switch.rs:184-193 | The step of the ideal switch, allowed only while it waits for a matrix. |
| Switches.DimensionSwitch.StartAccumulating | secret-sharing/srcchurp/switch.rs:197-208 | The step of the ideal switch; a matrix of wrong dimensions leaves it waiting. |
| Switches.DimensionSwitch.NeedsSwitchPoint | secret-sharing/srcchurp/switch.rs:211-221 | Before the matrix every point is needed, afterwards exactly those of new senders. |
| Switches.DimensionSwitch.AddSwitchPoint | secret-sharing/srcchurp/switch.rs:227-258 | The step of the ideal switch, which serves or merges the share committed to by the matrix. |
| Switches.DimensionSwitch.StartMerging | secret-sharing/srcchurp/switch.rs:268-286 | The step of the ideal switch, allowed only while it waits for a shareholder. |
| Switches.DimensionSwitch.NeedsBivariateShare | secret-sharing/srcchurp/switch.rs:289-298 | While merging, shares are needed exactly from pending senders. |
| Switches.DimensionSwitch.AddBivariateShare | secret-sharing/srcchurp/switch.rs:304-323 | The step of the ideal switch; with the last share the merged and checked share is served. |
| Switches.DimensionSwitch.GetShareholder | secret-sharing/srcchurp/switch.rs:326-334 | A shareholder is handed out exactly while serving. |
| HandoffModel.Create | secret-sharing/srcchurp/handoff.rs:180-197 | Whatever handoff is created, of any kind, starts in the invariant that every call keeps. |
| HandoffModel.CreateExactly | secret-sharing/srcchurp/handoff.rs:180-255 | A handoff is created if and only if there are more than t dealers, and more than t + 1 in the dealing phase. |
| HandoffModel.WrongKind | secret-sharing/srcchurp/handoff.rs:93-159 | A matrix or a switch point is refused as of the wrong kind if and only if the committee did not change, an old share if and only if the kind is not unchanged; a refused call changes nothing. |
| HandoffModel.StepInv | secret-sharing/srcchurp/handoff.rs:327-394 | Every call on every kind keeps the invariant: both switches are consistent, what they serve verifies, and distribution runs only after reduction serves and from its matrix. |
| HandoffTheory.ServedSharesVerify | secret-sharing/srcchurp/handoff.rs:200-394 | After any calls in any order, every share handed out passes verification against its own matrix, and a full share after a changed committee has the matrix of the reduced share. |
| HandoffTheory.MemberOutcome | secret-sharing/srcchurp/handoff.rs:327-394 | Whoever completes a handoff on agreed matrices holds its restriction of one and the same refreshed polynomial, which has the old secret. |
| HandoffTheory.CompletesKeepsSecret | secret-sharing/srcchurp/handoff.rs:13-84 | A completed handoff leaves a matrix that commits to the same secret as before. |
| HandoffTheory.SecretSurvives | secret-sharing/srcchurp/handoff.rs:327-394 | After a dealing phase and any number of handoffs of either kind between any committees, any t + 1 members of the current committee recover the secret that the dealing phase fixed. |
| Existence.HistoryExists | keymanager/src/churp/handler.rs:976-1000 | For every threshold and every sequence of large enough committees with distinct non-zero identities, changing or not, there is a history with these committees as members and dealers, in which every member holds a share after every handoff. |
| Handoffs.SingleHandoff.Create | secret-sharing/srcchurp/handoff.rs:180-255 | Dealing and unchanged-committee handoffs start like the ideal ones, with the same errors. |
| Handoffs.SingleHandoff.SetShareholder | secret-sharing/srcchurp/handoff.rs:257-268 | The step of the ideal handoff; refused in the dealing phase. |
| Handoffs.SingleHandoff.AddBivariateShare | secret-sharing/srcchurp/handoff.rs:205-283 | The step of the ideal handoff. |
| Handoffs.SingleHandoff.GetFullShareholder | secret-sharing/srcchurp/handoff.rs:218-287 | What is handed out verifies as a full share. |
| Handoffs.DoubleHandoff.Create | secret-sharing/srcchurp/handoff.rs:309-324 | Changed-committee handoffs start like the ideal ones, with disjoint switches. |
| Handoffs.DoubleHandoff.SetVerificationMatrix | secret-sharing/srcchurp/handoff.rs:336-338 | The step of the ideal handoff on its reduction switch. |
| Handoffs.DoubleHandoff.AddShareReductionSwitchPoint | secret-sharing/srcchurp/handoff.rs:344-346 | The step of the ideal handoff on its reduction switch. |
| Handoffs.DoubleHandoff.AddFullShareDistributionSwitchPoint | secret-sharing/srcchurp/handoff.rs:352-357 | The step of the ideal handoff on its distribution switch. |
| Handoffs.DoubleHandoff.AddBivariateShare | secret-sharing/srcchurp/handoff.rs:363-385 | The step of the ideal handoff; the last share also starts distribution from the reduced shareholder's matrix. |
| Handoffs.DoubleHandoff.GetReducedShareholder | secret-sharing/srcchurp/handoff.rs:387-389 | What is handed out verifies as a reduced share. |
| Handoffs.DoubleHandoff.GetFullShareholder | secret-sharing/srcchurp/handoff.rs:391-393 | What is handed out verifies as a full share. |
| Completeness.SwitchPointsMeet | secret-sharing/srcchurp/shareholder.rs:51-54 | What a holder of B(j, y) computes for a node lies on that node's B(x, me), and what a holder of B(x, j) computes lies on its B(me, y). |
| Completeness.SentPointsFit | keymanager/src/churp/handler.rs:614-658 | The points sent by any distinct holders of shares of one dimension lie on the receiver's polynomial of the other dimension. |
| Completeness.ReducedShare | keymanager/src/churp/handler.rs:1266-1290 | Whoever serves after reduction, in any run on agreed matrices, sends from its reduced share of the one target, and the target is secure. |
| Completeness.HonestHandoffCompletes | secret-sharing/srcchurp/handoff.rs:327-394 | With the points sent by any t + 1 distinct holders of the old secret, one verified share per dealer in any order, and the points sent by any 2t + 1 distinct members whose own reduction serves, a member of a changed committee ends with its share, if and only if the refreshed polynomial is secure. |
| Completeness.SingleHandoffCompletes | secret-sharing/srcchurp/handoff.rs:200-287 | With one verified share per dealer, the same for the dealing phase and for an unchanged committee. |
| Committees.HonestDealers | secret-sharing/srcchurp/dealer.rs:109-126 | Dealers with suitable polynomials supply one verified share each for every member, under the matrices they have published. |
| Committees.CommitteeCompletes | keymanager/src/churp/handler.rs:600-746 | If every dealer deals honestly and all holders and members send from their own shares, every member of the new committee ends with its share, whomever it asks and in whatever order, if and only if the refreshed polynomial is secure; for all three kinds of handoff. |
| Committees.HandoverCompletes | keymanager/src/churp/handler.rs:600-746 | An honest committee completes its handoff with a given matrix if and only if that matrix is the refreshed one and secure. |
| Committees.HonestHistory | secret-sharing/srcchurp/handoff.rs:13-84 | Honest handoffs with secure results, one after another and of any kinds, form a history. |
| Committees.TooFewSenders | secret-sharing/srcchurp/switch.rs:433-478 | Whatever is called in whatever order, no member of a changed committee gets a full share from fewer than 2t + 1 senders. |
| ChurpStatus.UnchangedExactly | go/keymanager/churp/status.go:145-161 | For a committee without duplicates the handoff is of kind unchanged if and only if the committee is not empty and equals the set of applicants. |
| ChurpStatus.KindExactly | go/keymanager/churp/status.go:145-161 | Secrets are dealt if and only if there is no committee; without duplicates the committee changes if and only if there is one and it differs from the set of applicants. |
| ChurpStatus.DuplicatesNeverMatch | go/keymanager/churp/status.go:145-161 | With duplicates the comparison is wrong about a committee that applies again, and answers unchanged exactly for a proper superset as large as the list. |
| ChurpStatus.EnoughApplicants | go/keymanager/churp/status.go:172-192 | With at least the minimum of distinct applicants, and an old matrix exactly if there is a committee, the handoff of the status' kind can be created, and the applicants' own switch points give every applicant its share, if and only if the refreshed polynomial is secure. |
| ChurpStatus.TooFewApplicants | go/keymanager/churp/status.go:172-192 | With fewer, the handoff cannot be created, or no calls with points from the applicants ever complete it, or, over a field with more than three elements, the shares of whoever is left after losing the extra ones no longer determine the secret, whatever was dealt. |
| ChurpStatus.SurvivesLoss | go/keymanager/churp/status.go:163-168 | A committee of the minimum size that loses its extra shares still recovers the secret. |
| Deployments.ActiveDeployment | go/registry/api/runtime.go:483-500 | Finds the deployment in force that started last. |
| Deployments.ActiveIsFirst | go/registry/api/runtime.go:483-500 | Of several that started last, it is the first one listed. |
| Deployments.NextDeployment | go/registry/api/runtime.go:503-515 | Finds the future deployment that starts first, the last listed of several; none exactly if there is no future one. |
| Deployments.ValidateDeployments | go/registry/api/runtime.go:529-617 | Comparing neighbours after sorting by version accepts exactly the schedules whose versions are distinct, start in the order of their versions, hold acceptable enclave data, and have at most one future entry. |
| Deployments.ValidExactly | go/registry/api/runtime.go:529-617 | Of any two entries of a valid schedule, and of no other, both versions and starts differ, the lower version starts first and at most one is in the future; there are at most two entries or the parameter's number, with checksums of 0 or 32 bytes and TEE data that fits the hardware. |
| RuntimeUpdates.VerifyRuntimeUpdate | go/registry/api/api.go:1213-1348 | Accepts exactly the updates that keep identity, kind, genesis, key manager and governance, whose schedule is valid, and which change nothing that is in force; panics exactly on an invalid schedule in state. |
| RuntimeUpdates.AcceptedExactly | go/registry/api/api.go:1213-1348 | The accepted updates field by field: identifier, kind and genesis, a key manager once set, governance only from entity to runtime and then only of a compute runtime; every entry in force was listed before with the same version, start, TEE data and bundle checksum, and the active one stays. |
| RuntimeUpdates.VerifyRuntimeNew | go/registry/api/api.go:1199-1210 | Outside genesis and debugging a new runtime is accepted exactly if no deployment is in force yet. |
| RuntimeUpdates.ValidLater | go/registry/api/runtime.go:529-617 | A schedule valid at one epoch is valid at every later one. |
| RuntimeUpdates.ActiveIsHighest | go/registry/api/runtime.go:483-617 | In a valid schedule the active deployment has the highest version in force, and there is at most one future deployment, of a higher version. |
| RuntimeUpdates.RunSafe | go/registry/api/api.go:1213-1348 | In every run of epochs and updates after a registration the schedule in state is valid, the panic is unreachable, and every deployment was announced strictly before it came into force. |
| RuntimeUpdates.RunMonotone | go/registry/api/api.go:1213-1348 | Between any two states of a run the active version never decreases and an active deployment never disappears. |
| RuntimeUpdates.RunSettled | go/registry/api/api.go:1285-1348 | Once a version has been active, every entry up to that version in any later schedule was listed then, with the same start, TEE data and checksum: nothing in force is altered, brought back or slipped in. |
| RuntimeUpdates.ActiveNeverAltered | go/registry/api/runtime.go:662-682 | If one version is active in two states of a run, its start, TEE bytes (absent counted as empty) and bundle checksum are the same in both. |
| RuntimeUpdates.RunIdentity | go/registry/api/api.go:1213-1265 | Between any two states of a run identifier, kind, genesis and a key manager once set are the same, and governance is the same or has passed from an entity to a compute runtime. |
| Admission.VerifyNodeCount | go/registry/api/admission.go:252-289 | The loop that leaves early decides on the full count for every limit of at least one; with limit zero it refuses exactly if there is a relevant node. |
| Admission.VerifyWhitelist | go/registry/api/admission.go:122-164 | Admits exactly a listed entity whose nodes stay within the limit of every role of the new node. |
| Admission.VerifyRole | go/registry/api/admission.go:226-249 | Admits exactly if the entity's nodes with the role stay within its limit. |
| Admission.Verify | go/registry/api/admission.go:57-88 | Admits exactly if the whitelist and the policy of each of the node's roles do. |
| Admission.CountMeaning | go/registry/api/admission.go:252-289 | The count is the number of the entity's other unexpired nodes for the runtime with the role. |
| Admission.AdmitsMeaning | go/registry/api/admission.go:57-88 | The decision on the list that the lookup returns is the decision on the registry itself. |
| Admission.AdmittedExactly | go/registry/api/admission.go:57-249 | The decision in terms of the policy's tables: a whitelist admits only entities it lists, and if it limits one at all then only in roles that it mentions, below their limit; a per-role list takes zero for no limit. |
| Admission.RunWithinLimits | go/registry/api/admission.go:122-289 | In every run of epochs, registrations decided on the looked-up nodes, and removals, no entity ever exceeds a limit. |
| Admission.RunWithinTables | go/registry/api/admission.go:57-289 | The same in terms of the tables: in every run an entity that is not listed has no unexpired node, and one that is listed has at most what is allowed for the role, none for a role that its limits do not mention. |
| UpgradeManagers.UpgradeManager.SubmitDescriptor | go/upgrade/upgrade.go:40-66 | The step of the model: refused if missing or pending, else listed and saved. |
| UpgradeManagers.UpgradeManager.CancelUpgrade | go/upgrade/upgrade.go:95-125 | The step of the model: refused once in progress; a failed save restores the list. |
| UpgradeManagers.UpgradeManager.CheckStatus | go/upgrade/upgrade.go:144-198 | The step of the model: loads the stored list, and refuses a binary that cannot carry out an upgrade that has been reached. |
| UpgradeManagers.UpgradeManager.FlushDescriptor | go/upgrade/upgrade.go:201-224 | Completed records leave memory; the store gets the rest, or loses its key if there is none. |
| UpgradeManagers.UpgradeManager.StartupUpgrade | go/upgrade/upgrade.go:227-258 | The step of the model over shared records, stopping at the first handler that fails. |
| UpgradeManagers.UpgradeManager.ConsensusUpgrade | go/upgrade/upgrade.go:261-335 | The step of the model, although flushing in the middle of the loop may drop records that the loop still walks over. |
| UpgradeTheory.FlushMeaning | go/upgrade/upgrade.go:201-224 | A successful flush leaves memory and store equal without completed upgrades; a failed one leaves the store alone. |
| UpgradeTheory.CancelGood | go/upgrade/upgrade.go:95-125 | A cancellation that fails leaves a non-empty list as it was; one that succeeds leaves memory and store equal. |
| UpgradeTheory.NextGood | go/upgrade/upgrade.go:40-335 | Every call keeps pending descriptors distinct and heights in the past, in memory and in the store; one that returns no error leaves the two equal; none finds a height in the future. |
| UpgradeTheory.RunSafe | go/upgrade/upgrade.go:40-343 | The same after every run of submissions, cancellations, startups, blocks of non-decreasing positive height, restarts and closings, whatever the store does: the panic about a future height is unreachable. |
| UpgradeTheory.StoredHeightsNeverChange | go/upgrade/upgrade.go:40-335 | In every run in which no descriptor is submitted that the store still holds as reached, no call changes the height of a stored upgrade. |
| UpgradeWrites.WritesAreAll | go/upgrade/upgrade.go:40-335 | The lists that a call hands to the store, in order, account for everything it does to the store, also in the middle of the consensus loop. |
| UpgradeWrites.HeightsLostExactly | go/upgrade/upgrade.go:40-343 | After every run, whatever was submitted or refused before, a write loses a stored height if and only if the store accepts it and it holds a record of that upgrade with another height; starting a process loses none. |
| UpgradeTheory.StoredHeightsExactly | go/upgrade/upgrade.go:40-335 | In every run without such a submission before the last call, that call keeps the stored heights if and only if it is not such a submission itself, or the store refuses its write. |
| UpgradeTheory.ResubmissionLosesHeight | go/upgrade/upgrade.go:40-66 | The same for one submission in any state whose memory agrees with the heights in its store. |
| UpgradeFailures.StoredHeightCanChange | go/upgrade/upgrade.go:261-335 | A run of five calls with one store failure in which a stored height is lost. |
| UpgradeFailures.RefusedThenLost | go/upgrade/upgrade.go:40-66 | A run in which the second submission is refused by the store and the height is lost by submitting another descriptor. |
| UpgradeFailures.StageCanPanic | go/upgrade/upgrade.go:271-312 | A run in which a refused write at the upgrade height makes the next block panic over the order of stages. |
| UpgradeStages.PanicsExactly | go/upgrade/upgrade.go:261-335 | A consensus call panics over the order of stages if and only if, in the state before it and given the store's answers, every record up to some record lets the loop go on, and that one is past its height without exactly the startup stage, or is reached in place with a stage already. |
| UpgradeStages.ConsensusEndsExactly | go/upgrade/upgrade.go:261-335 | For any list, binary, block and store a consensus call ends with the verdict on the first record that does not let the loop go on, each record judged alone, and succeeds exactly if all do and the last write is accepted. |
| UpgradeStages.StopsExactly | go/upgrade/upgrade.go:267-303 | A consensus call stops the node, and raises its flag, if and only if the flag was up or the loop comes to an upgrade whose height has just been saved and whose binary is incompatible, has no handler, or has a handler with a startup stage. |
| UpgradeCauses.StagesHaveCauses | go/upgrade/upgrade.go:227-306 | Every stage that memory or the store records after a run was given, to a record without one, by a startup call for a reached upgrade whose handler succeeded, or by a consensus call at its epoch on a compatible binary whose handler has no startup stage. |
| UpgradeCauses.NextStaged | go/upgrade/upgrade.go:40-335 | The same for one call from any state. |
| UpgradeRetention.CancelExactly | go/upgrade/upgrade.go:95-125 | Cancelling is refused if and only if the upgrade has been reached or has a stage, without any effect; if it succeeds exactly that record is gone; if the store fails memory and store are as before. |
| UpgradeRetention.SubmitExactly | go/upgrade/upgrade.go:40-66 | A submission is refused if and only if a record of the upgrade is pending, without any effect; otherwise exactly a record without height and stage is added, and the call succeeds exactly if the store accepts the write. |
| UpgradeRetention.StartupExactly | go/upgrade/upgrade.go:227-258 | A startup call fails over a handler if and only if some reached upgrade without a stage has none or its handler fails; if it succeeds exactly those upgrades have moved to the startup stage. |
| UpgradeRetention.RestartExactly | go/upgrade/upgrade.go:144-198 | A new process refuses its binary if and only if a stored upgrade has been reached and the binary is incompatible or lacks its handler; a process that starts has exactly the stored upgrades in memory. |
| UpgradeRetention.KeptUntilEnded | go/upgrade/upgrade.go:40-343 | After an accepted submission, through any restarts, panics and failing writes, memory and store have the upgrade until it is cancelled before being reached, or a consensus call past its height completes it. |
| UpgradeStages.DisciplinedNeverPanics | go/upgrade/upgrade.go:227-335 | In every run in which each consensus call follows a completed startup since the last start and no failed consensus call, no stage is pushed out of order, whatever the store, the handlers and the binary do. |
| UpgradeStages.StartupThenConsensus | go/upgrade/upgrade.go:227-335 | After a startup that completes, the next consensus call never pushes a stage out of order. |
| Tickets.RunSafe | go/p2p/peermgmt/connector.go:61-120 | In every interleaving no attempt blocks on putting its ticket back, successes and running attempts never exceed the maximum, and a loop that waits for a ticket has one coming. |
| Tickets.AtMostMax | go/p2p/peermgmt/connector.go:61-120 | Every attempt that succeeds is accounted for by exactly one ticket, so at most the maximum succeed. |
| Tickets.SatisfiedExactly | go/p2p/peermgmt/connector.go:93-111 | A loop that returns satisfied has exactly the maximum of successes and leaves no attempt and no ticket behind. |
| Tickets.EveryPeerDialled | go/p2p/peermgmt/connector.go:80-119 | In every interleaving each peer taken from the list has been dialled, except one in hand while the loop waits for a ticket; tickets of successes in between do not lose it. |
| SingleFlight.OneDialPerPeer | go/p2p/peermgmt/connector.go:123-152 | In every interleaving two callers never dial one peer at the same time. |
| SingleFlight.CallersGetTheResult | go/p2p/peermgmt/connector.go:123-152 | Every caller returns the result of the one dial of the request it joined. |
| SingleFlight.JoinedRequest | go/p2p/peermgmt/connector.go:125-133 | The request a caller joins is for the peer it asked for and stays so. |
| SingleFlight.WaiterNotStuck | go/p2p/peermgmt/connector.go:135-151 | A waiting caller can return, or the owner of its request can move on. |
| Discovery.NoLostWakeup | go/p2p/peermgmt/discovery.go:90-187 | In every interleaving, if the loop waits, the signal slot is empty and no caller is about to send, exactly the wanted namespaces are advertised; a context is in use exactly until it is cancelled. |
| Discovery.WantedExactly | go/p2p/peermgmt/discovery.go:88-119 | In every state of every run a namespace is wanted if and only if some call started it and no later call stopped it. |
| Discovery.AdvertisesWhatWasAsked | go/p2p/peermgmt/discovery.go:88-187 | A quiet loop advertises a namespace if and only if the last call about it asked for that. |
| Discovery.EveryCallSignals | go/p2p/peermgmt/discovery.go:88-187 | In every run the calls made are the signals raised plus those about to be, and every wake-up is followed by one reconciliation. |
| Discovery.OneTurnSettles | go/p2p/peermgmt/discovery.go:138-187 | One turn takes the signal, advertises exactly what is wanted, keeps what was ongoing and wanted, and cancels the rest. |
| Discovery.CancelRemoved | go/p2p/peermgmt/discovery.go:150-162 | In any order, exactly the contexts of unwanted namespaces are cancelled. |
| Discovery.StartAdded | go/p2p/peermgmt/discovery.go:164-184 | In any order, exactly the new namespaces get fresh contexts, one each, and the others keep theirs. |
| Discovery.ReconcileAll | go/p2p/peermgmt/discovery.go:145-185 | Both passes together are a reconciling step of the state machine. |
| PeerRegistry.Registry.ClearNodes | go/p2p/peermgmt/registry.go:176-184 | Keeps the indexes exact after a reset. |
| PeerRegistry.Registry.Update | go/p2p/peermgmt/registry.go:217-247 | Replaces what one peer supports and keeps the indexes inverse to it. |
| PeerRegistry.Registry.HandleNodes | go/p2p/peermgmt/registry.go:187-248 | Keeps the indexes exact after a batch, in any order of iteration; the last usable descriptor of a peer counts. |
| PeerRegistry.Registry.IndexExact | go/p2p/peermgmt/registry.go:176-267 | After any sequence of resets and batches a peer is listed under a protocol or topic if and only if its latest descriptor since the last reset supports it, and it then has its latest address. |
| PeerRegistry.Registry.ListedExactly | go/p2p/peermgmt/registry.go:176-267 | On the events and nodes themselves: a peer is listed under a protocol, or a topic, if and only if the last usable node about it, in a batch after the last reset, has that protocol, or topic, and its address is that node's. |
| Governance.VotedSum | go/governance/api/proposal.go:106-114 | Adding the votes up in any order gives their sum. |
| Governance.Ballot.CloseProposal | go/governance/api/proposal.go:122-169 | Closes exactly an active proposal with results within a non-zero total; it passes if and only if there is a yes vote and 100 times the yes stake reaches the threshold times the total, despite the truncating division. |
| Governance.ClosesExactly | go/governance/api/proposal.go:122-169 | What closing means: exactly active proposals with results within a positive total can be closed, and they pass if and only if vote 1 has stake and its truncated percentage of the total reaches the threshold. |
| Governance.PassedBySupermajority | go/governance/api/sanity_check.go:17-24 | Under a sane threshold a proposal passes exactly at the threshold, and then has more than twice as much stake for it as all other recorded stake. |
| Governance.PendingUpgradesFromProposals | go/governance/api/proposal.go:233-278 | Returns descriptors and identifiers, in step, of what is left after every passed cancellation has removed one upgrade. |
| Governance.PendingExactly | go/governance/api/proposal.go:233-278 | With distinct identifiers these are exactly the passed upgrades at or after the epoch that no passed proposal cancels, in input order. |
| Governance.PendingMeans | go/governance/api/proposal.go:233-278 | As a set: with distinct identifiers a proposal is pending if and only if it passed, upgrades at or after the epoch, and no passed proposal cancels its identifier. |
| GovernanceGenesis.CheckProposals | go/governance/api/sanity_check.go:51-99 | Accepts exactly if every proposal is sane and the deposits of active proposals add up to the governance deposit. |
| GovernanceGenesis.CheckPendingUpgrades | go/governance/api/sanity_check.go:112-141 | Comparing sorted neighbours accepts exactly if all upgrades are valid and to come, and every two of them are far enough apart. |
| GovernanceGenesis.ApartPermutation | go/governance/api/sanity_check.go:123-138 | Whether every two entries are far enough apart does not depend on their order. |
| GovernanceGenesis.SanityCheck | go/governance/api/sanity_check.go:144-161 | Accepts exactly the documents that pass all of the checks. |
| GovernanceGenesis.AcceptsExactly | go/governance/api/sanity_check.go:17-161 | With distinct identifiers a document is accepted if and only if the threshold is 67 to 100, voting ends before both minimum distances, every proposal's dates, results and invalid votes fit its state, active deposits add up, and the upgrades still to come are valid and pairwise far enough apart. |
| GovernanceGenesis.DepositsMove | go/governance/api/sanity_check.go:51-99 | Changing one proposal moves the sum of active deposits by what that proposal stops or starts to hold, and it is zero if none is active. |
| GovernanceGenesis.UpgradesApart | go/governance/api/sanity_check.go:112-161 | In an accepted document with distinct identifiers any two upgrades still to come are at least the minimum apart, which exceeds the voting period. |

## Left out

- Curve arithmetic, hashing to the field, signatures, quotes and CBOR: foreign code; only the algebraic laws are modelled.
- Zeroization, constant-time evaluation and the quality of random sampling: not functional behaviour.
- The crate's own `poly` and `vss` code: not part of this model; a polynomial here never drops leading zeros, so the size check after interpolation always succeeds and that error is not modelled.
- Aliasing of shareholders handed out by reference: they are immutable values here, as they are never changed after they are shared.
- The `needs_` queries of handoffs: they only forward to the switches, whose queries are modelled.
- Deployments.ValidateDeployments: does not tell its errors apart, because every caller only asks whether there is one, and leaves out missing entries, which it refuses before looking at any other.
- RuntimeUpdates.VerifyRuntimeUpdate: gives one refusal for all reasons, as the code returns one error for them.
- Admission.VerifyWhitelist: requires a whitelist and the list of all roles to contain the node's roles; both are so at its only call.
- Admission.VerifyRole: requires a policy for the role, as at its only call.
- Policy and descriptor syntax checks (`ValidateBasic`), and the rest of node and entity registration: long but flat.
- The upgrade manager's read-only queries (`PendingUpgrades`, `HasPendingUpgradeAt`, `GetUpgrade`): easy. `GetUpgrade` also hands out a record that its caller could change; nothing in this model does.
- Starting the upgrade manager without loading its store: a mode in which nothing is read.
- Discovery without seeds, where every call returns at once, and its retry timing; dialling, back-off and gating of connections: clocks and library behaviour.
- Leaving the loop of the ticket protocol because the peer channel is closed or the context is done is one step that may happen at any time.
- Inspecting a node for its protocols and topics: a union over registered handlers, given with the node here.
- Votes and addresses of proposals: their validity is a parameter of the genesis checks.
- RPC, metrics, configuration and command line: plumbing.
