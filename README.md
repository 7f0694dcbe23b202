# A/B-test traffic logic of a short link

This project models, in Dafny, the two pieces of a short link's A/B test
that carry real logic:

- **The editor's rebalancer and save.** The editor keeps an ordered list of
  variants, each a destination url with an integer share of traffic.
  - "Add URL" appends an empty-url variant. An even list is re-split evenly
    and the new entry takes the rounding remainder. Otherwise the last entry
    that can be halved is halved.
  - "Remove" drops a variant. An even list is re-split evenly and the last
    survivor takes the remainder. Otherwise the removed share goes in full to
    the last survivor.
  - The submit handler checks the list: the total must be 100 and every url
    filled. It then writes the list, the completion date, the link's primary
    url (the first variant's) and, once only, the start time into the link's
    form.
  - The submit button is gated by field validation and a completion-date
    window. A status label is shown on the link builder.
- **The request-time selector.** It returns no test destination once the
  test is complete. It rejects a variant count outside [2, MAX_TEST_COUNT]
  and honours a sticky cookie that names a current variant. Otherwise it
  draws by cumulative weight, picking the first weight strictly greater than
  the sample. Every failure is caught and yields no destination, so the
  caller uses the link's own url.

Files:

- `link_tests.dfy` (module `LinkTests`): the `Variant` value and the two
  limits. It also holds sums over percentages and the lemmas about them.
- `rebalance.dfy` (module `Rebalance`): `AddTestUrl` and `RemoveTestUrl` as
  pure functions with an explicit `Edit` result: no change, a whole new
  list, or a throw. Lemmas cover each branch.
- `ab_testing_modal.dfy` (module `ABTestingModal`):
  - the url-field rule and the submit-button predicate;
  - the save decision and `LinkForm.Save`, the link form's fields updated in
    place;
  - the editor's own form, `EditForm`, with its defaults and dirty flag,
    whose methods apply the rebalancers, the slider's per-index writes and
    the completion-date writes;
  - the status label, and lemmas that tie the editor to the save and the
    label to the selector.
- `test_destination.dfy` (module `TestDestination`):
  - `GetTestDestinationUrl`, a method that fills a `weights` array in place
    and scans it with a shared index;
  - the reference function `Destination` it is proved equal to;
  - lemmas about `Destination` and the draw `Pick`.

Modelling choices:

- `MAX_TEST_COUNT` and `MIN_TEST_PERCENTAGE` are defined by the link schema,
  which is not part of this model. Both are declared without a value, typed
  only as at least 2 and at least 1. Every proof therefore holds for any such
  limits. For the worked examples, `Rebalance.Examples` requires MIN = 10.
- Time is an integer. `differenceInDays(completeAt, now)` is an integer
  argument. `isValidUrl` is a predicate argument.
- The `dub_test_url` cookie is an `Option<string>` argument. The selector only
  reads it. An empty cookie is falsy in the source, so it never counts as
  sticky.
- `Math.random()` is an argument `u` with 0 ≤ u < 1. The sample is the exact
  real `u * total` (`TestDestination.Sample`), so a total of 0 gives the
  sample 0, as in the source.
- A thrown error that the source catches becomes `None` in the selector. In
  the editor, where nothing catches it, it becomes the `Throws` result of an
  `Edit`.

Where the code differs from what one might expect, the model follows the
code:

- After completion the selector returns no destination: it does not return a
  winner url. The winner is the link's primary url, which the save sets to
  the first variant's url.
- Removing from a two-entry list is not refused, but the one-entry result
  fails the url field's count check, so the submit button stays disabled
  (`RemoveAtTwoCannotSubmit`). The test then ends only through "Remove A/B
  test" or "End A/B test". The submit handler's clearing branch is reached
  only for an empty or missing list.
- Adding to an uneven list with no splittable entry throws, because
  `findLastIndex` gives -1. It is not rejected cleanly.
- "All equal" means every percentage is within 1 of the first entry's, not
  of each other. For removal it is judged on the list before removal.
- The completion-date window is enforced only by the submit button's
  `disabled`. The submit handler itself writes whatever date it gets.
- The label reports "Test Complete" only when `now > completeAt`, while the
  selector stops at `now >= completeAt`. At the completion instant the two
  disagree (`DeadlineInstant`).

## Model

| member | source | states |
|---|---|---|
| `Rebalance.LastSplittable` | apps/web/ui/modals/link-builder/ab-testing/ab-testing-modal.tsx:157-159 | the result is -1 or an index whose percentage is at least 2·MIN, and no later index qualifies |
| `Rebalance.AddTestUrl` | apps/web/ui/modals/link-builder/ab-testing/ab-testing-modal.tsx:137-179 | no change exactly when the list is empty or holds MAX_TEST_COUNT entries; a throw exactly when the list is uneven and nothing is splittable; a new list has n+1 entries whose urls are the old urls in order followed by "" |
| `Rebalance.AddEvenSplit` | apps/web/ui/modals/link-builder/ab-testing/ab-testing-modal.tsx:140-154 | on an even list every old entry keeps its url with floor(100/(n+1)), the new entry gets 100 − n·floor(100/(n+1)), and the total is exactly 100 whatever it was before |
| `Rebalance.AddUnevenSplit` | apps/web/ui/modals/link-builder/ab-testing/ab-testing-modal.tsx:155-178 | on an uneven list only the last splittable entry k changes, to floor(p/2); the new entry gets p − floor(p/2); both are at least MIN; every other entry is untouched; the total is preserved |
| `Rebalance.AddNothingToSplit` | apps/web/ui/modals/link-builder/ab-testing/ab-testing-modal.tsx:157-161 | on an uneven list the add throws if and only if no entry has percentage at least 2·MIN |
| `Rebalance.AddKeepsTotal` | apps/web/ui/modals/link-builder/ab-testing/ab-testing-modal.tsx:144-178 | a list totalling 100 still totals 100 after any add that writes |
| `Rebalance.AllEqual` | apps/web/ui/modals/link-builder/ab-testing/ab-testing-modal.tsx:140-142 | a list whose entries are pairwise within one point is even; an even list has its entries pairwise within two points |
| `Rebalance.EvenIsRelativeToFirst` | apps/web/ui/modals/link-builder/ab-testing/ab-testing-modal.tsx:140-142 | {50, 51, 49} is even while the same entries in the order {51, 49, 50} are not |
| `Rebalance.Without` | apps/web/ui/modals/link-builder/ab-testing/ab-testing-modal.tsx:195-196 | for an index in range, the result is the other n−1 entries in their order (entry i is old entry i or i+1); an index out of range filters nothing |
| `Rebalance.RemoveTestUrl` | apps/web/ui/modals/link-builder/ab-testing/ab-testing-modal.tsx:181-225 | no change exactly when fewer than 2 entries (two are not refused); a throw exactly when the list is uneven and the index is outside it; a new list has the survivors' urls in order |
| `Rebalance.RemoveEvenSplit` | apps/web/ui/modals/link-builder/ab-testing/ab-testing-modal.tsx:184-204 | on a list even before removal the first n−2 survivors get floor(100/(n−1)), the last survivor 100 − (n−2)·floor(100/(n−1)), urls kept, total exactly 100 |
| `Rebalance.RemoveUnevenSplit` | apps/web/ui/modals/link-builder/ab-testing/ab-testing-modal.tsx:205-224 | on an uneven list the removed percentage is added in full to the last survivor, every other survivor is unchanged, and the total is preserved |
| `Rebalance.RemoveKeepsTotal` | apps/web/ui/modals/link-builder/ab-testing/ab-testing-modal.tsx:181-225 | removing a listed entry from a list of at least two that totals 100 writes a list that totals 100 |
| `Rebalance.Examples` | apps/web/ui/modals/link-builder/ab-testing/ab-testing-modal.tsx:137-225 | with MIN = 10: [50,50] → [33,33,34]; [70,30] → [70,15,15]; [33,33,34] without index 0 → [50,50]; [70,15,15] without index 1 → [70,30]; [33,33,34] without index 2 → [50,50] |
| `ABTestingModal.EditForm.constructor` | apps/web/ui/modals/link-builder/ab-testing/ab-testing-modal.tsx:119-126 | the defaults are the link's list (else one entry with the link's url at 100) and the link's completion date (else the module-level `inTwoWeeks` date, computed once when the module loads); the form starts on its defaults and clean |
| `ABTestingModal.EditForm.AddUrl` | apps/web/ui/modals/link-builder/ab-testing/ab-testing-modal.tsx:137-179 | the editor's list becomes the add's new list and the dirty flag becomes "values differ from the defaults"; on an early return or a throw the list and the flag are unchanged; the completion date is untouched; an exact flag stays exact |
| `ABTestingModal.EditForm.RemoveUrl` | apps/web/ui/modals/link-builder/ab-testing/ab-testing-modal.tsx:181-225 | the editor's list becomes the removal's new list and the dirty flag becomes "values differ from the defaults"; on an early return or a throw the list and the flag are unchanged; the completion date is untouched; an exact flag stays exact |
| `ABTestingModal.EditForm.SetSplit` | apps/web/ui/modals/link-builder/ab-testing/ab-testing-modal.tsx:405-411 | after the per-index writes the percentages are exactly the slider's, urls and order are unchanged, and the dirty flag is "values differ from the defaults" (unchanged when nothing was written) |
| `ABTestingModal.EditForm.SetCompleteAt` | apps/web/ui/modals/link-builder/ab-testing/ab-testing-modal.tsx:445-467 | either date input's write: the completion date becomes the written date, the list is unchanged, and the dirty flag is "values differ from the defaults" |
| `ABTestingModal.AddThenRemoveIsClean` | apps/web/ui/modals/link-builder/ab-testing/ab-testing-modal.tsx:120-126 | with MIN = 10, adding to the default {50, 50} leaves the form dirty and removing the new entry again leaves it clean |
| `ABTestingModal.UrlFieldError` | apps/web/ui/modals/link-builder/ab-testing/ab-testing-modal.tsx:346-356 | a url field passes if and only if it is non-empty, a valid url, and the list holds between 2 and MAX_TEST_COUNT entries |
| `ABTestingModal.FormValid` | apps/web/ui/modals/link-builder/ab-testing/ab-testing-modal.tsx:346-356 | the form is valid if and only if the list is empty or has 2 to MAX_TEST_COUNT entries, and every url is non-empty and valid |
| `ABTestingModal.SubmitDisabled` | apps/web/ui/modals/link-builder/ab-testing/ab-testing-modal.tsx:528-537 | the submit button is enabled if and only if the form is dirty and valid and any completion date is from 1 day before to 42 days after now |
| `ABTestingModal.SaveDecision` | apps/web/ui/modals/link-builder/ab-testing/ab-testing-modal.tsx:237-261 | a missing list or one of at most one entry clears; a total rejection is exactly a list of two or more not totalling 100; an empty-url rejection is exactly a list of two or more totalling 100 with some url empty; an accepted save is exactly a list of two or more that totals 100 with every url filled |
| `ABTestingModal.LinkForm.Save` | apps/web/ui/modals/link-builder/ab-testing/ab-testing-modal.tsx:234-273 | clearing nulls tests and completion date only; a rejection writes nothing; an accepted save sets the url to the first variant's, turns on conversion tracking, writes the list and completion date, and sets the start time only if unset |
| `ABTestingModal.SaveKeepsStart` | apps/web/ui/modals/link-builder/ab-testing/ab-testing-modal.tsx:269-272 | a start time that is already set is never changed by a save |
| `ABTestingModal.LinkForm.RemoveUnsavedTest` | apps/web/ui/modals/link-builder/ab-testing/ab-testing-modal.tsx:496-499 | removing the test of an unsaved link nulls tests and the completion date and nothing else |
| `ABTestingModal.AddedVariantBlocksSave` | apps/web/ui/modals/link-builder/ab-testing/ab-testing-modal.tsx:257-261 | after an add to a list totalling 100, the save is rejected for the new empty url, never for the total |
| `ABTestingModal.RemoveKeepsSaveable` | apps/web/ui/modals/link-builder/ab-testing/ab-testing-modal.tsx:181-225 | removing any entry from an accepted list of three or more yields a list the save accepts again |
| `ABTestingModal.RemoveAtTwoThenSaveClears` | apps/web/ui/modals/link-builder/ab-testing/ab-testing-modal.tsx:237-244 | removal from two entries is not refused, and the handler's decision for its one-entry result is Cleared |
| `ABTestingModal.RemoveAtTwoCannotSubmit` | apps/web/ui/modals/link-builder/ab-testing/ab-testing-modal.tsx:346-356 | removal from two entries writes a one-entry list, which fails validation, so the submit button is disabled whatever the dirty flag and date |
| `ABTestingModal.ABTestingLabel` | apps/web/ui/modals/link-builder/ab-testing/ab-testing-modal.tsx:599-609 | "Test Complete" exactly when now is past the completion date, whatever tests holds; "<n> URLs", n the list's length, exactly when not complete and both list and date are set; otherwise "A/B Test" |
| `ABTestingModal.CompleteLabelMeansSelectorOff` | apps/web/ui/modals/link-builder/ab-testing/ab-testing-modal.tsx:605-606 | whenever the label says "Test Complete" the selector gives no destination, for every cookie and sample |
| `ABTestingModal.DeadlineInstant` | apps/web/ui/modals/link-builder/ab-testing/ab-testing-modal.tsx:605-608 | at now = completion date the label still counts urls while the selector already gives no destination |
| `TestDestination.GetTestDestinationUrl` | apps/web/lib/middleware/utils/get-test-destination-url.ts:8-51 | the method, filling the weights array in place and scanning it with a shared index, returns exactly the reference destination for every input |
| `TestDestination.ScanFrom` | apps/web/lib/middleware/utils/get-test-destination-url.ts:42 | the scan from i stops at the first index at or after i whose cumulative weight is strictly greater than the sample, or at the length when there is none |
| `TestDestination.Pick` | apps/web/lib/middleware/utils/get-test-destination-url.ts:39-45 | the drawn index is the first whose cumulative weight is strictly greater than the sample, or the length when none is |
| `TestDestination.WeightStep` | apps/web/lib/middleware/utils/get-test-destination-url.ts:35-36 | the cumulative weight at k+1 is the weight at k plus percentage k+1 |
| `TestDestination.CompletedGivesNone` | apps/web/lib/middleware/utils/get-test-destination-url.ts:16-21 | once now is at or past the completion date there is no destination, for every list, cookie and sample |
| `TestDestination.BadCountGivesNone` | apps/web/lib/middleware/utils/get-test-destination-url.ts:23-24 | a count outside [2, MAX_TEST_COUNT] gives no destination, even when the cookie names a variant |
| `TestDestination.StickyIsKept` | apps/web/lib/middleware/utils/get-test-destination-url.ts:27-29 | for a running test with a valid count, a non-empty cookie that names a variant is returned unchanged, for every sample |
| `TestDestination.Destination` | apps/web/lib/middleware/utils/get-test-destination-url.ts:15-50 | a destination is given only for a running test with a count in [2, MAX_TEST_COUNT], and it is always the url of one of the given variants |
| `TestDestination.WeightedDraw` | apps/web/lib/middleware/utils/get-test-destination-url.ts:31-50 | no destination exactly when no cumulative weight exceeds `u · total`; otherwise the url of the first variant whose cumulative weight exceeds it |
| `TestDestination.SampleInRange` | apps/web/lib/middleware/utils/get-test-destination-url.ts:39 | for a positive total, `Math.random() * total` lies in [0, total) |
| `TestDestination.PickIsPositive` | apps/web/lib/middleware/utils/get-test-destination-url.ts:42-45 | with non-negative percentages and a sample in [0, total), the drawn index is in range and its percentage is positive |
| `TestDestination.BoundaryGoesToNext` | apps/web/lib/middleware/utils/get-test-destination-url.ts:42 | a sample exactly on the boundary weight k goes to index k+1 when that has positive weight |
| `TestDestination.SixtyFortyDraws` | apps/web/lib/middleware/utils/get-test-destination-url.ts:42 | for {60, 40}: sample 0 → index 0, 60 → index 1, 99.999 → index 1 |
| `TestDestination.RunningTestRoutes` | apps/web/lib/middleware/utils/get-test-destination-url.ts:31-45 | with no sticky cookie, a running test with valid count, non-negative percentages and a positive total always yields a variant of positive weight |
| `TestDestination.ZeroTotalGivesNone` | apps/web/lib/middleware/utils/get-test-destination-url.ts:42-50 | with non-negative percentages totalling 0 the scan runs off the end and the caught error gives no destination |

## Left out

- React rendering is not modelled. This covers modals, tooltips, the
  keyboard shortcut, toasts, the "A/B test complete" view and the switch that
  chooses it (line 76), the Cancel button's reset, and the End-test modal.
- Of react-hook-form, the model keeps the values, their defaults and the
  `isDirty` flag, recomputed on each write as "the values differ from the
  defaults". Field-level dirty and touched state, the re-sync when the
  `values` option changes, and validation scheduling are not modelled.
  `handleSubmit` runs the save only when `FormValid` holds, and that link is
  argued in prose, not by a method.
- EditForm.SetCompleteAt: models only a write of a parsed date. An empty or
  unparseable entry in the text input writes nothing (lines 445-453), and
  that branch lives in `parseDateTime`, which is not modelled.
- The `TrafficSplitSlider` component is not part of this model.
- The completion-date inputs (`parseDateTime`, `formatDateTime`,
  `getDateTimeLocal`) are not modelled. `differenceInDays` is an integer
  argument.
- `isValidUrl` is a predicate argument.
- The zod schemas `LinkTestsSchema` and `ABTestVariantsSchema`, and
  `parseTests`, live in a file that is not part of this model. Percentages
  are unbounded integers, not schema-checked JavaScript numbers.
- Non-integer percentages, invalid (`NaN`) dates, and a non-array truthy
  `tests` value are not modelled.
- Floating point in `Math.random() * total` is not modelled. The sample is
  exact.
- `cookies()` and `console.error` are not modelled. The cookie is an
  argument, and logging has no effect on the result.
- EditForm.SetSplit: requires one slider value per variant, because the
  slider that produces the values is not part of this model. A write past the
  end of the list is not modelled.
- The link card, the payout-confirmed email template, and the payout and
  commission tables are presentation only and are not modelled.
