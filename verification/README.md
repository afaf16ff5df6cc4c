# way-displays, verified

A Dafny model of way-displays: the control loop that compares what the compositor has with what the
configuration asks for, and drives the displays there one configuration at a time; the containers that
it rests on; and the configuration itself, merged by IPC requests and kept in a YAML file.

`dafny verify dfyconfig.toml` checks the whole project.

## How it is built

Each piece of code that updates its data in place is a class or a method with loops, in the form of the
source, and is proved equal to a function on values. The results are then lemmas about those functions.

| files | what |
|---|---|
| `Plist`, `PPmap`, `Pset` | the array containers of alex-c, with growth, shifting and iterators, as classes |
| `Seqs`, `ShellSort`, `OrderedMap`, `OrderedSet` | the sequences, maps and sets that they hold |
| `Names`, `Modes`, `Scale`, `AutoScaleLaws`, `Order`, `Layout` | matching, choosing a mode, scales, the order of displays, positions |
| `Config`, `Merge`, `Ipc`, `CfgObject` | conditions, equality, defaults, validation, merges, the IPC filter |
| `MergeLaws`, `EntryLaws` | what a file and each request make of every field; what the entries mean for displays |
| `Reconcile`, `Heads` | `desire()`, `act()` and what events do to a head, on values |
| `HeadObject`, `Displ` | the same as objects that are updated in place |
| `FixedPoint`, `Convergence`, `Runs`, `RunLaws`, `Placement`, `PlacementRuns`, `DesiredLaws`, `ReapplyLaws`, `FailureLaws` | what holds of `desire()` and of whole runs |
| `RunExamples` | runs from the start in which what is surprising does happen |
| `YamlText`, `YamlElements`, `Yaml`, `YamlLoops`, `YamlRoundTrip`, `YamlSound`, `YamlReads` | the configuration as a tree of YAML nodes |

Main results:

- `desire()` is idempotent, for every configuration and every set of heads.
- Against a compositor that does not undo what it was asked, each answer makes a lexicographic measure
  drop, so every run comes to rest; if nothing but modes and VRR is refused, with every head as desired.
  There are such compositors: those that do what they are asked and refuse what they like of these two.
- Over all runs of events in any order: one configuration in flight, no mode lost or invented, no failed
  mode requested before a reapply, no request that its head could not carry, at most five re-sends.
- A reapply ends with every head as desired, and on the way every head is disabled and has its mode set again.
- The size of every display is that of its mode, turned and scaled; sizes do not overlap, and leave no gap.
- The shell sort, the iterators that survive removal, and the one-directional equality checks are what
  they are used as.
- Toggling, merging and validating keep every reachable configuration valid, and protect conditional
  DISABLED entries; equality of such configurations is an equivalence; a written one reads back field by field.
- In every run, under every configuration that files and requests lead to, displays are never desired to overlap.

Taken as they come: regular expressions (`Regex`), number formatting (`Codec`), the compositor
(`Compositor`, and the events of `Runs`), the lid. Doubles are real numbers; 32 bit overflow is not modelled.

## Findings

Where the code does not do what its names or tests suggest, the model follows the code, and a lemma says
exactly when it does.

- `head_release_mode` forgets a withdrawn mode only when it had not failed; a failed one stays aside and
  the next reapply makes it available again (`Heads.ReleaseForgetsIff`; a run: `RunExamples.WithdrawnModeReturns`).
- The auto scale divides the DPI base by SCALE_ROUND_TO as an integer. A given minimum is respected for every
  DPI exactly when what that loses of it is made up for by the rounding (`AutoScaleLaws.AutoScaleMinIff`); with
  a DPI base of 100 and steps of an eighth, the default minimum of 1 is lost rounding down, though not to the
  nearest (`AutoScaleLaws.DefaultMinLost`). Every minimum is respected exactly when SCALE_ROUND_TO divides the
  DPI base (`Scale.AutoScaleAllMinsIff`).
- A small positive scale becomes 0: exactly when, for each strategy, is `Scale.ScalePositiveIff`; a SCALE of
  0.001 does even when rounding up (`Scale.ScaleUpLost`).
- Toggling a request twice gives the same configuration exactly when the DISABLED entries that both have
  are equal (`Merge.ToggleTwice`, `Merge.ToggleTwiceDiffers`).
- A MODE that asks for MAX and for anything else, or that has been warned about, does not read back
  (`YamlRoundTrip.ModeReadsBackIff`, `YamlRoundTrip.ModeDoesNotReadBack`,
  `YamlRoundTrip.RoundTripIff`).
- A preferred mode that is available gives way to one that is not (`Heads.PreferredGivesWayIff`), such as one
  that has failed (a run: `RunExamples.FailedModePreferred`).
- A mode that is withdrawn while its change is in flight, and whose change succeeds, becomes the current mode
  of a head that no longer has it (`RunLaws.SuccessNamesWithdrawnIff`; a run: `RunExamples.WithdrawnModeSucceeds`).
- When `act()` gives up after too many cancellations, the waiting client is told that it is done though heads
  may differ (`RunLaws.DoneIff`; a run: `RunExamples.DoneThoughDiffering`).
- `condition_equal` is no equality of conditions that have a name twice (`Config.SameConditionNotSymmetric`). It is
  one of conditions without (`Config.SameConditionEquivalence`), and no other is ever read (`YamlSound.ReadSound`).
- A SET request with an invalid MODE removes the MODE of that name, since the merge overwrites it before it is
  fixed (`Merge.SetInvalidModeRemoves`; from trees: `YamlSound.SetInvalidModeRun`).

- A display whose VRR has failed once is never asked for VRR again, not even after a reapply
  (`FailureLaws.VrrFailedForever`).
- A SET request that only changes the order of the ORDER names is dropped, since they are compared as sets
  (`MergeLaws.SetOrderAdoptedIff`, `MergeLaws.SetOrderPermuted`).

## Model

| member | source | states |
|---|---|---|
| `Plists.Plist.Insert` | lib/alex-c/src/plist.c:63-96 | inserts before the index, shifting what follows up, across growth; an index past the end appends; NULL is refused and changes nothing |
| `Plists.Plist.RemoveAt` | lib/alex-c/src/plist.c:131-164 | removes exactly the element at the index, closing the gap |
| `Plists.Plist.RemoveIn` | lib/alex-c/src/plist.c:166-202 | leaves exactly the elements that match none of the other list, and counts the removed |
| `Plists.Plist.FreeVals` | lib/alex-c/src/plist.c:204-230 | frees every distinct pointer of the list, and none twice |
| `Plists.PlistIt.Next` | lib/alex-c/src/plist.c:434-466 | moves to the next element that passes the filter, also after a removal at the first position |
| `Plists.PlistIt.Remove` | lib/alex-c/src/plist.c:242-268 | removes the element that was reached; the next step begins where it was |
| `Plists.Traverse` | lib/alex-c/src/plist.c:434-466 | a traversal that removes any of what it visits visits each passing element once, in order, and leaves exactly the others |
| `Plists.Plist.Sort` | lib/alex-c/src/plist.c:643-659 | the in-place loops compute the gap-sequence sort |
| `ShellSort.SortPermutes` | lib/alex-c/src/plist.c:643-659 | the sort permutes its input for every comparator, lawful or not |
| `ShellSort.SortSorts` | lib/alex-c/src/plist.c:643-659 | and sorts it for every strict weak order |
| `PPmaps.PPmap.PutVal` | lib/alex-c/src/ppmap.c:79-134 | overwrites in place or appends across growth; answers the earlier value; refuses NULL |
| `PPmaps.PPmap.RemoveKey` | lib/alex-c/src/ppmap.c:220-272 | closes the gap in both arrays and clears the last slot |
| `PPmaps.PPmap.PutEvery` | lib/alex-c/src/ppmap.c:136-169 | override-union, with the exact number of overwritten keys |
| `PPmaps.PPmap.RemoveEvery` | lib/alex-c/src/ppmap.c:285-317 | key difference, with the exact number of removed keys |
| `PPmaps.PPmap.FirstKeyOf` | lib/alex-c/src/ppmap.c:489-500 | the key of the first entry with the value |
| `PPmaps.PPmap.EqualTo` | lib/alex-c/src/ppmap.c:719-735 | decides the one-directional comparison |
| `PPmaps.PPmapIt.Remove` | lib/alex-c/src/ppmap.c:319-341 | removes the entry that was reached; the next step begins where it was |
| `PPmaps.Traverse` | lib/alex-c/src/ppmap.c:539-572 | a traversal that removes any of what it visits visits each passing entry once, in order, and leaves exactly the others |
| `OrderedMap.PutKeys` | lib/alex-c/src/ppmap.c:79-134 | overwriting keeps every position, a new key comes last, keys stay unique |
| `OrderedMap.PutGet` | lib/alex-c/src/ppmap.c:79-134 | a put changes the value of its key and of no other |
| `OrderedMap.PutAllGet` | lib/alex-c/src/ppmap.c:136-169 | put_all looks up as override-union |
| `OrderedMap.PutAllKeys` | lib/alex-c/src/ppmap.c:136-169 | put_all keeps the order it had and appends the new keys in the order they came |
| `OrderedMap.RemoveInFilters` | lib/alex-c/src/ppmap.c:285-317 | remove_in is the filter of the entries whose key is not in the other, in order |
| `OrderedMap.EqualIsSameMap` | lib/alex-c/src/ppmap.c:719-735 | the one-directional check holds iff keys and values are the same (pigeonhole) |
| `Psets.Pset.AddVal` | lib/alex-c/src/pset.c:62-87 | adds unless an equal element is there, across growth |
| `Psets.Pset.RemoveVal` | lib/alex-c/src/pset.c:89-122 | removes the equal element, closing the gap |
| `OrderedSet.AddGrows` | lib/alex-c/src/pset.c:62-87 | adding keeps elements pairwise unequal, and adds exactly one class, for every equality of the elements at hand |
| `OrderedSet.RemoveShrinks` | lib/alex-c/src/pset.c:89-122 | removing keeps elements pairwise unequal, and removes exactly one class, likewise |
| `OrderedSet.EqualIsSameSet` | lib/alex-c/src/pset.c:432-443 | the one-directional check holds iff the sets are the same (pigeonhole), hence is symmetric, for every equality of the elements of the two |
| `OrderedSet.EqualTransitive` | lib/alex-c/src/pset.c:432-443 | equality of sets is transitive, likewise |
| `Names.MatchesIff` | src/head.c:277-312 | what a NAME_DESC matches: a part of name or description in any case, or with a leading ! a regular expression, or just that name |
| `Modes.GreaterIsStrictWeakOrder` | src/mode.c:88-110 | the comparator of modes is lawful for the sort |
| `Modes.BestIsBest` | src/mode.c:194-216 | the best mode is an exact match if there is one, else the greatest that satisfies, and none iff none satisfies |
| `Modes.MaxIsMax` | src/mode.c:218-245 | the maximum has the largest area, and the highest refresh of its resolution |
| `Modes.FindModeFinds` | src/head.c:405-474 | a mode is found iff there is any, and it is one of the head's |
| `Modes.FindModeChooses` | src/head.c:405-474 | which mode is found: the best that satisfies the user MODE; else the highest refresh of the preferred resolution if asked for; else the preferred; else a maximum |
| `Modes.MaxRefreshIsHighest` | src/mode.c:177-192 | of the modes with the resolution of the target, the highest refresh; none iff there is none |
| `Modes.BestIsBestOf` | src/mode.c:194-216 | without an exact match, the widest that satisfies, of these the highest, of these the highest refresh |
| `Modes.SatisfiesIs` | src/mode.c:153-165 | a MODE is satisfied by its resolution and, if it has one, a refresh of the same rounded Hz |
| `Modes.HeadFindMode` | src/head.c:405-474 | the search, with sorted lists and an updating loop, finds the specified mode |
| `Modes.TriesDescend` | src/mode.c:194-216 | of fewer modes, the best is not greater |
| `Scale.QuantiseIsNear` | src/head.c:347-366 | the fixed scale is a multiple of the quantum, within half of one (NEAREST) or one-sided within one (UP, DOWN) |
| `Scale.NearestHalves` | src/head.c:347-366 | NEAREST takes a scale halfway between two steps away from zero |
| `Scale.QuantiseIdempotent` | src/head.c:347-366 | quantising again, by any strategy, changes nothing |
| `Scale.QuantiseMonotone` | src/head.c:347-366 | a larger scale is not quantised to a smaller one |
| `Scale.ScalePositiveIff` | src/head.c:347-366 | exactly which positive scales (doubles) stay positive, by strategy and base |
| `Scale.ScaleUpLost` | src/head.c:347-366 | a SCALE of 0.001 becomes 0 even when rounding up |
| `Scale.ScaledLengthTruncates` | src/desire.c:154-163 | the +0.5 truncation recovers the quotient, so the logical length L of n has L*s <= 256*n < (L+1)*s |
| `AutoScaleLaws.AutoScaleFollows` | src/head.c:368-403 | between the quantised limits the result is the DPI by the DPI base, within the rounding and on its side; outside, that of the limit; a maximum below the minimum is none |
| `AutoScaleLaws.AutoScaleMonotone` | src/head.c:368-403 | a higher DPI is never given a smaller scale |
| `AutoScaleLaws.DpiMinLeast` | src/head.c:387-392 | the lower limit is the least whole number of steps, at least one, that is the minimum or more |
| `AutoScaleLaws.DpiMaxSteps` | src/head.c:387-392 | the upper limit is the greatest whole number of steps that is not above the maximum |
| `AutoScaleLaws.TwiceIsTwo` | src/head.c:368-403 | with the defaults, twice the DPI base gives a scale of 2 |
| `DesiredLaws.DpiIsMean` | src/mode.c:167-175 | the DPI is midway between those of the two axes, and 0 when a length is not known |
| `Scale.AutoScaleMin` | src/head.c:368-403 | at least the minimum and one quantum, for every strategy, when the base divides the DPI base |
| `Scale.AutoScaleAllMinsIff` | src/head.c:368-403 | every minimum at once is respected, and one quantum, iff the base divides the DPI base |
| `AutoScaleLaws.AutoScaleMinIff` | src/head.c:368-403 | a given minimum is respected, and one quantum, for whatever DPI and maximum, iff what the division of the DPI base loses of it is within the bound of the rounding strategy |
| `AutoScaleLaws.DefaultMinLost` | src/head.c:368-403 | with a DPI base of 100 and steps of an eighth, a minimum of 1 is lost rounding down and kept rounding to the nearest |
| `Scale.AutoScaleMax` | src/head.c:368-403 | at most the maximum whenever that is not below the quantised minimum |
| `Order.OrderedSorts` | src/desire.c:202-234 | the order is a permutation of the heads, by first ORDER name of the strongest kind that matches any, kind, and discovery; unmatched last |
| `EntryLaws.OrderGoesBy` | src/desire.c:202-234 | of one ORDER name, exact matches go before those of its regular expression and these before fuzzy ones; displays go by their names, and those without come last |
| `Order.OrderUnique` | src/desire.c:202-234 | there is only one such sequence |
| `Order.FillOrderBuckets` | src/desire.c:191-200 | one pass moves exactly the pending matches of its kind into the bucket of their first name |
| `Order.DesireOrder` | src/desire.c:202-234 | the three passes with removal while iterating produce that order |
| `Layout.RowPacks` | src/desire.c:236-302 | in a row, displays follow each other without overlap or gap, from 0 |
| `Layout.RowInsideBox` | src/desire.c:236-302 | all lie inside the sum of widths by the tallest, whatever the alignment |
| `Layout.MiddleCentres` | src/desire.c:291-293 | MIDDLE is centred to within one |
| `Layout.EdgesAligned` | src/desire.c:261-299 | TOP and LEFT are at 0, BOTTOM and RIGHT end at the extent |
| `Layout.ColIsRowTurned` | src/desire.c:261-279 | a column is a row with the axes swapped |
| `Config.SameConditionIff` | src/cfg/condition.c:16-20 | conditions are equal iff they want the same of the lid and name the same displays |
| `Config.SameConditionEquivalence` | src/cfg/condition.c:16-20 | equality of conditions is an equivalence of conditions without a name given twice |
| `Config.SameConditionNotSymmetric` | src/cfg/condition.c:16-20 | of others it is not symmetric |
| `Config.SameDisabledEquivalence` | src/cfg/disabled.c:18-23 | equality of DISABLED values is an equivalence of sets of such conditions |
| `Config.CfgEqualSymmetric` | src/cfg/cfg.c:144-164 | equality of configurations without duplicates is symmetric |
| `Config.CfgEqualTransitive` | src/cfg/cfg.c:144-164 | and transitive |
| `Config.CfgConditionMet` | src/cfg/condition.c:64-107 | the early exits decide: all plugged match, no unplugged does, and the lid is as wanted |
| `Config.CfgDisabledAppliesToHead` | src/cfg/disabled.c:104-129 | some entry names the head and is unconditional or has a condition that is met |
| `EntryLaws.ConditionMetIff` | src/cfg/condition.c:64-107 | each lid state spelled out: CLOSED only when closed and not the only display, OPEN only when open, NOT_PRESENT only without a lid |
| `EntryLaws.EnabledIff` | src/desire.c:47-72 | without an override, a display with a mode is enabled iff no entry that names it is unconditional or has a condition that is met |
| `EntryLaws.LidDisablesIff` | src/desire.c:47-72 | the default condition disables the display it names iff the lid is closed and it is not the only one |
| `EntryLaws.LidConditionDefault` | src/cfg/cfg.c:166-183 | that condition is there for eDP displays iff the file does not mention DISABLED |
| `MergeLaws.FileYields` | src/cfg/file.c:164-231 | every field after a file has been read or read again; an unreadable one changes nothing later |
| `MergeLaws.ModeValidIff` | src/cfg/cfg.c:58-92 | which MODE is kept: positive dimensions, and a size unless it asks for a maximum |
| `Merge.FixedIsValid` | src/cfg/cfg.c:457-495 | fixing makes a configuration valid, changes none that is, and is idempotent |
| `Merge.FixedModes` | src/cfg/cfg.c:457-495 | fixing removes exactly the invalid modes |
| `Merge.MergeAdopted` | src/cfg/cfg.c:304-336 | what a merge yields is valid, complete and without duplicates; only SET can need fixing |
| `MergeLaws.SetYields` | src/cfg/cfg.c:338-369 | every field after a SET: what is given, else what was; ORDER replaced, VRR_OFF added to, maps overridden key by key |
| `MergeLaws.DelYields` | src/cfg/cfg.c:371-391 | every field after a DEL: exactly the named entries go |
| `MergeLaws.ToggleYields` | src/cfg/cfg.c:397-431 | every field after a TOGGLE: SCALING turns iff SCALING is asked for, AUTO_SCALE iff that is, names and entries flip |
| `MergeLaws.SetOrderAdoptedIff` | src/cfg/cfg.c:321-333 | a SET of ORDER alone is adopted iff some name differs |
| `MergeLaws.SetOrderPermuted` | src/cfg/cfg.c:321-333 | a configuration and a request that permutes its ORDER, which is dropped |
| `Merge.SetChangesIff` | src/cfg/cfg.c:338-369 | SET yields a configuration iff it brings a value, a valid MODE, a name or an ORDER that differs, a MODE that removes one, or an alignment that is not put back |
| `Merge.SetInvalidModeRemoves` | src/cfg/cfg.c:338-369 | SET of an invalid MODE removes the MODE of that name |
| `Merge.DelChangesIff` | src/cfg/cfg.c:371-391 | DEL yields a configuration iff something that it names is there |
| `Merge.ToggleChangesIff` | src/cfg/cfg.c:397-431 | TOGGLE yields a configuration iff it asks for anything |
| `Merge.ToggleNamesMember` | src/cfg/cfg.c:416-421 | toggling VRR_OFF flips exactly the given names |
| `Merge.ToggleKeysGet` | src/cfg/cfg.c:423-428 | toggling DISABLED removes exactly the given entries that are there and puts exactly the others |
| `Merge.ToggleTwice` | src/cfg/cfg.c:397-431 | toggling twice gives an equal configuration iff the shared DISABLED entries are equal |
| `Merge.ToggleRequestsTwice` | src/cfg/cfg.c:245-263 | the same of two requests as they are adopted or dropped |
| `Merge.ToggleTwiceDiffers` | src/cfg/cfg.c:423-428 | an unconditional entry toggled twice by a request that gives it a condition gains the condition |
| `CfgObjects.CfgObject.ApplyDefaults` | src/cfg/cfg.c:166-183 | fills exactly what is not set; the lid condition only when DISABLED was not given |
| `CfgObjects.CfgObject.RemoveInvalidModes` | src/cfg/cfg.c:490-494 | the removal while iterating leaves exactly the valid modes, in order |
| `CfgObjects.CfgObject.MergeWith` | src/cfg/cfg.c:304-336 | clones, merges, fixes and compares; the original object is not touched |
| `Ipc.ConditionalsUntouched` | src/ipc.c:87-103 | for every SET, DEL and TOGGLE request, filter, merge and fix leave every conditional DISABLED entry as it was |
| `Ipc.FilteredToggleTwice` | src/cfg/cfg.c:397-431 | the two merges of an unconditional, filtered request give an equal configuration |
| `Ipc.FilteredRequestsTwice` | src/ipc.c:87-103 | an unconditional request, each time filtered and then adopted or dropped, twice gives an equal configuration |
| `Ipc.HeadOverridden` | src/head.c:127-152 | the nested loops collect exactly the requested entries that name a conditionally disabled head |
| `Displs.Displ.IpcRequestFilter` | src/ipc.c:87-103 | one pass over the heads overrides exactly those it concerns; what is left of the request names no conditionally disabled head and clashes with no conditional entry |
| `Heads.OverrideChangesIff` | src/head.c:127-175 | the override changes iff the head is conditionally disabled, the request names it, and its command asks for a turn |
| `Heads.RequestTurns` | src/head.c:127-175 | such a request turns, disables or enables the head, and leaves what is wanted of every other head |
| `Ipc.FilterConditionalClashes` | src/cfg/disabled.c:82-102 | removes exactly the entries that clash with a conditional one |
| `EntryLaws.PassesIff` | src/cfg/disabled.c:63-102 | what passes the filter: no display it names is conditionally disabled, and no conditional entry has it as a part, is part of it, or matches it either way as a regular expression |
| `Reconcile.DesireHeadIs` | src/desire.c:26-39 | what is desired of one head, in one step: enabled iff wanted, with a mode and not to be reapplied; another only loses enabled |
| `FixedPoint.DesireIdempotent` | src/desire.c:24-45 | with every cur replaced by its des, the whole pipeline desires the same again, for every head |
| `FixedPoint.SettledIsFixed` | src/desire.c:24-45 | the same when disabled heads only lost enabled |
| `Placement.DesiredApart` | src/desire.c:236-302 | through the whole pipeline, no two displays that take part overlap along the axis, and ORDER decides which comes first |
| `DesiredLaws.DesiredSize` | src/desire.c:154-184 | the size of a display is that of its mode, sides swapped for an odd transform, by its scale, truncated |
| `DesiredLaws.DesiredApartBySize` | src/desire.c:236-302 | the display that comes first ends, by that size, where the other starts or before it |
| `DesiredLaws.DesiredPacked` | src/desire.c:236-302 | the first display starts at 0 and each next one where the one before it ends |
| `DesiredLaws.DesiredAligned` | src/desire.c:261-299 | across the axis: 0, the end of the largest, or its middle to within one |
| `DesiredLaws.DesiredFollowsEntries` | src/desire.c:92-152 | SCALING OFF gives 1, else the first SCALE that matches, else auto, else 1; the first TRANSFORM or none; VRR unless a VRR_OFF name matches or it has failed |
| `PlacementRuns.AlwaysApart` | src/desire.c:236-302 | the same in every run, under every configuration that is reached, when the compositor tells of no negative size or scale |
| `PlacementRuns.AlwaysApartBySize` | src/desire.c:236-302 | and by the sizes of their modes |
| `Placement.ScaleForQuantised` | src/desire.c:92-118 | every desired scale is quantised and not negative |
| `Placement.OthersKeepPosition` | src/desire.c:256-258 | a display that does not take part keeps its position |
| `Convergence.AnswerProgresses` | src/act.c:235-274 | every answer makes the measure drop: reapplies, modes, wrong modes, wrong VRR, anything differing, patience |
| `Convergence.EveryRunEnds` | src/act.c:235-274 | every run comes to rest: done, given up after cancellations, or a fatal failure |
| `Convergence.EveryRunConverges` | src/act.c:235-274 | when, of what is sent, nothing but modes and VRR fails, it comes to rest idle with every head as desired |
| `Convergence.ObligingConverges` | src/act.c:235-274 | every compositor that does what it is asked but refuses any modes and VRR it likes meets those conditions |
| `Heads.FailureKeeps` | src/act.c:82-96 | a failed mode is moved aside with its value, and no other is touched |
| `FailureLaws.FailureAsksAgain` | src/act.c:82-96 | after a mode has failed, act() goes on at once with another mode, or with what is to be reapplied, if the head is wanted and has one |
| `FailureLaws.VrrFailedForever` | src/act.c:98-110 | VRR that failed, or succeeded without effect, is never requested of that display again, a reapply or not |
| `Heads.ReapplyRestores` | src/head.c:219-261 | a reapply makes every failed mode available again, after the others |
| `ReapplyLaws.ReapplyDisables` | src/head.c:219-261 | after a reapply the next act() disables the first head, unless an answer is to come or act() stops |
| `ReapplyLaws.ReapplyReaches` | src/act.c:145-190 | after a reapply, with an honest and willing compositor that sets no mode unasked, every head is disabled and has its mode set, if it is to have one, before all is as desired |
| `ReapplyLaws.ObligingReapplies` | src/act.c:145-190 | so it is with every obliging compositor |
| `Heads.ReleaseForgetsIff` | src/head.c:92-106 | a withdrawn mode is forgotten iff it had not failed |
| `Heads.ReleaseUnnames` | src/head.c:92-106 | a withdrawn mode is no longer preferred, current or desired, and nothing else changes |
| `RunExamples.WithdrawnModeReturns` | src/head.c:92-106 | a run in which a mode fails, is withdrawn, and comes back with a reapply |
| `Heads.DesireLetsStand` | src/desire.c:53-59 | after desire() an override stands only against the automatic state |
| `Heads.ToggleTurns` | src/head.c:109-125 | a toggled override turns what is wanted, and toggled again turns it back |
| `Heads.SetDelOverride` | src/head.c:154-170 | SET disables and DEL enables a conditionally disabled head, and neither changes one that already is so |
| `Heads.DesiredNamesIff` | src/desire.c:74-90 | what is desired names a mode that the head does not have iff the head has it as current mode and is not usable |
| `Runs.AlwaysSafe` | src/act.c:235-274 | the invariant of displays, answers and modes holds after every run of events |
| `RunLaws.OneInFlight` | src/act.c:248-250 | at most one configuration is unanswered, act() sends none until then, and at most five are sent again between successes |
| `RunLaws.FrozenWhileOutstanding` | src/listener/zwlr_output_configuration.c:13-43 | while outstanding, only the answer ends it, and desired state changes only by the withdrawal of a desired mode |
| `RunLaws.EveryRequestReasonable` | src/act.c:123-233 | mode and VRR requests are of a head desired enabled, with an available mode that has not failed; arrangements change no mode or VRR |
| `RunLaws.FailedNeverAgain` | src/act.c:82-96 | act() requests a mode, the answer is that it failed: from the next act() on that mode of that head is never requested again before a reapply, whatever else happens |
| `RunLaws.SearchDescends` | src/head.c:405-474 | of two requests for a head under one user MODE without an exact match, in one run between reapplies: when the later satisfies the MODE so does the first, and the later is not greater |
| `RunLaws.SuccessNamesWithdrawnIff` | src/act.c:31-35 | a successful mode change makes the head's current mode what was asked, and one that the head no longer has iff it was withdrawn while in flight |
| `RunExamples.WithdrawnModeSucceeds` | src/act.c:31-35 | a run in which it is withdrawn, and the head ends with a current mode that it does not have |
| `RunLaws.ModesConserved` | src/listener/zwlr_output_head.c:43-51 | from its advertisement to its withdrawal, a mode is in exactly one of modes and modes_failed with its value |
| `RunLaws.IdleMeansDone` | src/server.c:177-184 | an act() that gets to apply ends idle, which is reported as done, iff no head differs from desired |
| `RunLaws.DoneIff` | src/server.c:177-184 | after any act() the state is idle iff it gave up, or nothing was unanswered and no head differs; when it gave up the heads are as they were |
| `RunExamples.DoneThoughDiffering` | src/act.c:257-264 | a run of six cancellations that ends idle with a head that differs |
| `HeadObjects.Head.ReleaseMode` | src/head.c:92-106 | the object forgets the mode in modes, preferred, cur and des |
| `Heads.FirstPreferredStays` | src/head.c:193-217 | of available modes, the first that is named stays preferred however many follow |
| `Heads.PreferredGivesWayIff` | src/head.c:197-216 | an available preferred mode is displaced iff the mode named is not available |
| `RunExamples.FailedModePreferred` | src/head.c:197-216 | a run in which a mode that has failed displaces an available preferred one |
| `HeadObjects.Head.Reapply` | src/head.c:226-260 | the loop moves the failed modes back, and marks the head |
| `HeadObjects.Head.OverrideDisableds` | src/head.c:154-170 | the override changes as the command asks |
| `HeadObjects.Head.DesireAll` | src/desire.c:29-37 | the seven steps on the object give what is desired of the head |
| `HeadObjects.Head.PlaceAt` | src/desire.c:260-300 | the switches place one display, and move x or y on |
| `Displs.Displ.Desire` | src/desire.c:24-45 | desire() on the objects, with its three loops, is the specified pipeline |
| `Displs.Displ.DesirePositions` | src/desire.c:236-302 | the accumulators of the two loops place every display where the layout puts it |
| `Displs.Displ.HandleSuccess` | src/act.c:25-55 | a success sets the mode, or finds that VRR did not take |
| `Displs.Displ.HandleFailure` | src/act.c:78-121 | a failure moves the mode aside, marks VRR, or is fatal |
| `Displs.Displ.ActApply` | src/act.c:123-233 | reapply first, then a single mode, then a single VRR, then everything else, or nothing |
| `Displs.Displ.Act` | src/act.c:235-274 | act() on the objects, which alias the delta, is the specified step |
| `Displs.Displ.Turn` | src/server.c:112-188 | an answer, then act(), then whether the waiting client is told that it is done |
| `Displs.Displ.AddHead` | src/displ.c:124-136 | a new head comes last, without modes, and nothing else changes |
| `Displs.Displ.HeadsReapply` | src/head.c:219-261 | every head is to be reapplied with all its modes |
| `YamlText.AlignReadsBack` | src/enum.c:146-157 | each alignment's name is read as that alignment, though any prefix would do |
| `YamlText.RoundToReadsBack` | src/enum.c:302-314 | the truncated reciprocal of each quantum is its base |
| `YamlElements.ElementReadsBack` | src/enum.c:133-144 | each top level key is read as its own element |
| `YamlLoops.MapFromCfg` | src/yaml/marshal-types.c:111-140 | the eighteen additions and the loops of maps and sets write the specified tree |
| `YamlLoops.MapToCfg` | src/yaml/unmarshal-types.c:126-256 | the loop, its switch and the scalar readers with their defaults read the specified configuration |
| `YamlSound.IntoMapGet` | src/yaml/unmarshal-types.c:533-670 | of a map without equal keys exactly the valid entries are read, each by itself; an entry that is there is kept or overwritten |
| `YamlSound.ReadSound` | src/yaml/unmarshal-types.c:126-256 | any tree, malformed ones included, reads without duplicates, with names that compile, scales not negative, named transforms, and conditions with content |
| `YamlSound.AlwaysReachedActive` | src/cfg/file.c:164-231 | from the start on, whatever trees are loaded, reloaded, or requested and filtered, the active configuration is valid, complete and without duplicates, in its conditions too |
| `YamlSound.ReachedEquality` | src/cfg/cfg.c:144-164 | equality of any configurations that are so reached is an equivalence |
| `YamlSound.SetInvalidModeRun` | src/cfg/cfg.c:338-369 | a file gives a MODE and a SET request removes it by giving an invalid one |
| `YamlReads.NamesRead` | src/yaml/unmarshal-types.c:745-766 | exactly the names that are listed and compile are read |
| `YamlReads.ModeRead` | src/yaml/unmarshal-types.c:273-323 | what a MODE is read as, field by field; it is refused iff some field is malformed |
| `YamlReads.ConditionRead` | src/yaml/unmarshal-types.c:341-380 | what a condition is read as; it is refused iff LID is no state or it has no content |
| `YamlReads.DisabledRead` | src/yaml/unmarshal-types.c:553-617 | a scalar is unconditional, an IF with a condition that is read gives exactly those that are, anything else is refused |
| `YamlReads.MalformedIsDefault` | src/yaml/unmarshal-types.c:126-256 | a sequence where a scalar is due is read as the default |
| `YamlReads.OnOffValIs` | src/enum.c:214-216 | on and off are read in three spellings each |
| `YamlReads.AlignBeginning` | src/enum.c:202-204 | any beginning of the name of an alignment is read as it |
| `YamlReads.RoundToValIff` | src/enum.c:302-314 | SCALE_ROUND_TO is read as a base iff its reciprocal is that base and less than one more |
| `YamlLoops.MapInto` | src/yaml/unmarshal-types.c:533-670 | invalid entries are skipped, and the first or the last of equal names counts |
| `YamlLoops.SeqIntoConditions` | src/yaml/unmarshal-primitives.c:147-161 | conditions without content are skipped, equal ones are added once |
| `YamlRoundTrip.ModeReadsBackIff` | src/yaml/unmarshal-types.c:273-323 | a written mode reads back iff it is canonical |
| `YamlRoundTrip.ModeDoesNotReadBack` | src/yaml/marshal-types.c:159-162 | a valid MODE with MAX and a size does not |
| `YamlRoundTrip.ConditionReadsBack` | src/yaml/unmarshal-types.c:341-380 | a condition with content reads back |
| `YamlRoundTrip.RoundTrip` | src/yaml/marshal-types.c:111-140 | a writable configuration reads back the same in every field, an empty DISABLED map marked as given |
| `YamlRoundTrip.RoundTripIff` | src/yaml/marshal-types.c:111-177 | an otherwise writable configuration reads back equal iff every mode is canonical, and in any case with its modes as they are written |
| `YamlRoundTrip.ReloadKeeps` | src/cfg/file.c:204-231 | reloading the written file keeps the active configuration; defaults and fixes add nothing, DISABLED stays empty |

## Left out

- The departure of a head: a head is named by its place in discovery order, and the delta of an outstanding
  configuration is not defined once its head has gone.
- Configuration handles of heads, serials, log lines, callbacks and human texts, and the flags that only
  stop a warning from being repeated. One of them, in a MODE, is compared by `mode_equal`; the model keeps
  it in `Mode` but does not set it in the search.
- The heads of `Displ` and the maps of a head and of the configuration are sequences and ordered maps, which
  is what the container classes are proved to hold; the wrappers that key by string are the same maps.
- Container parameters for cloning and freeing values, backward iteration, iterators and the sort of Pset
  (the same code as that of Plist), `plist_equal`, and a container given to itself.
- Convergence.EveryRunEnds: assumes a compositor that, of the requests that act() sends, leaves the modes of
  other heads alone when it changes one, and modes and VRR alone afterwards, and that has done the arrangement
  that it says has succeeded (`Honest`); of other compositors it says nothing.
- Scale.ScaledLengthTruncates: of a positive scale; with a scale that was quantised to 0 the code leaves the size as it was.
- YamlRoundTrip.RoundTrip: asks of each number that formatting and scanning keep it (`Writable`), since
  printf and scanf are not part of this model.
- The readers of the version 1 schema (src/yaml/unmarshal-types-v1.c) and LAPTOP_DISPLAY_PREFIX, which add
  only other spellings of the same entries; keys of maps that are not scalars.
- The YAML of IPC requests, responses and state, the IPC operation of src/server.c beyond when it is done,
  and its result code.
- Overflow of 32 bit products and sums, and the rounding of doubles.
- Wayland, libinput, inotify, sockets, files, processes, logging, printing and the command line.
