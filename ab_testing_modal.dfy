/**
 * The A/B-testing editor: the editor's own form state (the variant list the
 * rebalancers rewrite and the traffic-split slider adjusts), the validation
 * that gates its submit button, the save that copies an accepted list into
 * the link's form, and the status label shown on the link builder.
 *
 * Time is an integer; `differenceInDays(completeAt, now)` is passed in as an
 * integer; url syntax (`isValidUrl`) is a predicate parameter.
 */
module ABTestingModal {
  import opened LinkTests
  import opened Rebalance
  import TestDestination

  // ---------------------------------------------------------------------
  // Field validation and the submit button

  /** Why one url field rejects its value. */
  datatype FieldError = UrlRequired | InvalidUrl | BadCount

  /**
   * The `validate` rule registered on every url field: a value is required,
   * must be a valid url, and the list must hold between 2 and
   * MAX_TEST_COUNT entries.
   */
  function UrlFieldError(value: string, count: nat, isValidUrl: string -> bool): (e: Option<FieldError>)
    ensures e.None? <==> value != "" && isValidUrl(value) && 1 < count <= MAX_TEST_COUNT
  {
    if value == "" then Some(UrlRequired)
    else if !isValidUrl(value) then Some(InvalidUrl)
    else if !(1 < count <= MAX_TEST_COUNT) then Some(BadCount)
    else None
  }

  /**
   * The form's `isValid`: every url field passes its rule. An empty list has
   * no field and is valid; any other list passes exactly when it is a real
   * test with every url filled in and valid.
   */
  predicate FormValid(tests: seq<Variant>, isValidUrl: string -> bool)
    ensures FormValid(tests, isValidUrl) <==>
      (tests == [] || 2 <= |tests| <= MAX_TEST_COUNT) &&
      forall i :: 0 <= i < |tests| ==> tests[i].url != "" && isValidUrl(tests[i].url)
  {
    // the count is checked by every field's rule, so by the first one's
    assert tests != [] ==> (UrlFieldError(tests[0].url, |tests|, isValidUrl).None? ==> 1 < |tests| <= MAX_TEST_COUNT);
    forall i :: 0 <= i < |tests| ==> UrlFieldError(tests[i].url, |tests|, isValidUrl).None?
  }

  /** The completion date may lie from one day before now to six weeks after. */
  predicate InCompletionWindow(days: int)
  {
    -1 <= days <= 6 * 7
  }

  /**
   * The submit button's `disabled`: no edits yet, an invalid field, or a
   * completion date (`days` after now, when one is set) outside the window.
   */
  function SubmitDisabled(isDirty: bool, isValid: bool, completeAtDays: Option<int>): (disabled: bool)
    ensures !disabled <==> isDirty && isValid && (completeAtDays.Some? ==> InCompletionWindow(completeAtDays.value))
  {
    !isDirty || !isValid || (completeAtDays.Some? && (completeAtDays.value > 6 * 7 || completeAtDays.value < -1))
  }

  // ---------------------------------------------------------------------
  // The save

  /** What the submit handler does with the editor's list. */
  datatype SaveOutcome = Cleared | RejectedTotal | RejectedEmptyUrl | Saved

  /** The submit handler's checks, in the order the source makes them. */
  function SaveDecision(current: Option<seq<Variant>>): (r: SaveOutcome)
    ensures r == Cleared <==> current.None? || |current.value| <= 1
    ensures r == Saved <==> current.Some? && |current.value| > 1 && Total(current.value) == 100
                            && forall i :: 0 <= i < |current.value| ==> current.value[i].url != ""
    ensures r == RejectedTotal <==> current.Some? && |current.value| > 1 && Total(current.value) != 100
    ensures r == RejectedEmptyUrl <==> current.Some? && |current.value| > 1 && Total(current.value) == 100
                                       && exists i :: 0 <= i < |current.value| && current.value[i].url == ""
  {
    if current.None? || |current.value| <= 1 then Cleared
    else if Total(current.value) != 100 then RejectedTotal
    else if exists i :: 0 <= i < |current.value| && current.value[i].url == "" then RejectedEmptyUrl
    else Saved
  }

  /** The fields of the link's form that the A/B-test editor writes. */
  class LinkForm {
    var url: string
    var trackConversion: bool
    var tests: Option<seq<Variant>>
    var testsCompleteAt: Option<int>
    var testsStartedAt: Option<int>

    constructor (url: string, tests: Option<seq<Variant>>, testsCompleteAt: Option<int>,
                 testsStartedAt: Option<int>)
      ensures this.url == url && !trackConversion && this.tests == tests
      ensures this.testsCompleteAt == testsCompleteAt && this.testsStartedAt == testsStartedAt
    {
      this.url := url;
      this.trackConversion := false;
      this.tests := tests;
      this.testsCompleteAt := testsCompleteAt;
      this.testsStartedAt := testsStartedAt;
    }

    /**
     * The submit handler. Zero or one entries clear the test; a total other
     * than 100 or an empty url rejects the save with nothing written; an
     * accepted list becomes the link's test, its first url the link's url,
     * and the start time is set only if the test had none.
     */
    method Save(current: Option<seq<Variant>>, completeAt: Option<int>, now: int)
      returns (outcome: SaveOutcome)
      modifies this
      ensures outcome == SaveDecision(current)
      ensures outcome == Cleared ==>
        && tests == None && testsCompleteAt == None
        && url == old(url) && trackConversion == old(trackConversion) && testsStartedAt == old(testsStartedAt)
      ensures outcome == RejectedTotal || outcome == RejectedEmptyUrl ==>
        && url == old(url) && trackConversion == old(trackConversion) && tests == old(tests)
        && testsCompleteAt == old(testsCompleteAt) && testsStartedAt == old(testsStartedAt)
      ensures outcome == Saved ==>
        && url == current.value[0].url && trackConversion
        && tests == current && testsCompleteAt == completeAt
        && testsStartedAt == (if old(testsStartedAt).None? then Some(now) else old(testsStartedAt))
    {
      if current.None? || |current.value| <= 1 {
        tests := None;
        testsCompleteAt := None;
        return Cleared;
      }
      var list := current.value;
      if Total(list) != 100 {
        return RejectedTotal;
      }
      if exists i :: 0 <= i < |list| && list[i].url == "" {
        return RejectedEmptyUrl;
      }
      url := list[0].url;
      trackConversion := true;
      tests := current;
      testsCompleteAt := completeAt;
      if testsStartedAt.None? {
        testsStartedAt := Some(now);
      }
      return Saved;
    }

    /** "Remove A/B test" on a link that was never saved: both fields are cleared. */
    method RemoveUnsavedTest()
      modifies this
      ensures tests == None && testsCompleteAt == None
      ensures url == old(url) && trackConversion == old(trackConversion) && testsStartedAt == old(testsStartedAt)
    {
      tests := None;
      testsCompleteAt := None;
    }
  }

  /** A start time, once set, survives every later save. */
  method SaveKeepsStart(form: LinkForm, current: Option<seq<Variant>>, completeAt: Option<int>, now: int)
    requires form.testsStartedAt.Some?
    modifies form
    ensures form.testsStartedAt == old(form.testsStartedAt)
  {
    var _ := form.Save(current, completeAt, now);
  }

  // ---------------------------------------------------------------------
  // The editor's own form state

  /**
   * The editor's local form. Its defaults are taken once, from the link's
   * form: the link's list when it has one, else a single entry holding the
   * link's url at 100; the link's completion date, else the module-level `inTwoWeeks` date
   * (computed once, when the module loads).
   * Every write is made with `shouldDirty`, which recomputes `isDirty` as
   * "the values differ from the defaults", so undoing an edit makes the form
   * clean again.
   */
  class EditForm {
    const defaultTests: seq<Variant>
    const defaultCompleteAt: int
    var tests: seq<Variant>
    var testsCompleteAt: int
    var isDirty: bool

    /** Whether the current values differ from the defaults. */
    predicate Edited()
      reads this
    {
      tests != defaultTests || testsCompleteAt != defaultCompleteAt
    }

    /** The dirty flag agrees with the values. */
    predicate DirtyIsExact()
      reads this
    {
      isDirty == Edited()
    }

    constructor (parentTests: Option<seq<Variant>>, parentUrl: string, parentCompleteAt: Option<int>,
                 inTwoWeeks: int)
      ensures defaultTests == (if parentTests.Some? then parentTests.value else [Variant(parentUrl, 100)])
      ensures defaultCompleteAt == (if parentCompleteAt.Some? then parentCompleteAt.value else inTwoWeeks)
      ensures tests == defaultTests && testsCompleteAt == defaultCompleteAt && !isDirty
      ensures DirtyIsExact()
    {
      defaultTests := if parentTests.Some? then parentTests.value else [Variant(parentUrl, 100)];
      defaultCompleteAt := if parentCompleteAt.Some? then parentCompleteAt.value else inTwoWeeks;
      tests := defaultTests;
      testsCompleteAt := defaultCompleteAt;
      isDirty := false;
    }

    /**
     * "Add URL": the list is rewritten only when `addTestUrl` gets to its
     * write, and that write recomputes the dirty flag.
     */
    method AddUrl() returns (threw: bool)
      modifies this
      ensures threw <==> AddTestUrl(old(tests)).Throws?
      ensures testsCompleteAt == old(testsCompleteAt)
      ensures AddTestUrl(old(tests)).Replace? ==> tests == AddTestUrl(old(tests)).tests && DirtyIsExact()
      ensures !AddTestUrl(old(tests)).Replace? ==> tests == old(tests) && isDirty == old(isDirty)
      ensures old(DirtyIsExact()) ==> DirtyIsExact()
    {
      match AddTestUrl(tests)
      case NoChange => threw := false;
      case Throws => threw := true;
      case Replace(next) =>
        tests := next;
        isDirty := Edited();
        threw := false;
    }

    /** The remove button of entry `index`. */
    method RemoveUrl(index: int) returns (threw: bool)
      modifies this
      ensures threw <==> RemoveTestUrl(old(tests), index).Throws?
      ensures testsCompleteAt == old(testsCompleteAt)
      ensures RemoveTestUrl(old(tests), index).Replace? ==>
        tests == RemoveTestUrl(old(tests), index).tests && DirtyIsExact()
      ensures !RemoveTestUrl(old(tests), index).Replace? ==> tests == old(tests) && isDirty == old(isDirty)
      ensures old(DirtyIsExact()) ==> DirtyIsExact()
    {
      match RemoveTestUrl(tests, index)
      case NoChange => threw := false;
      case Throws => threw := true;
      case Replace(next) =>
        tests := next;
        isDirty := Edited();
        threw := false;
    }

    /**
     * The traffic-split slider's callback: one write per index. Urls and
     * order stay; the percentages become exactly the slider's; each write
     * recomputes the dirty flag.
     */
    method SetSplit(percentages: seq<int>)
      requires |percentages| == |tests|
      modifies this
      ensures Urls(tests) == old(Urls(tests))
      ensures Percentages(tests) == percentages
      ensures testsCompleteAt == old(testsCompleteAt)
      ensures isDirty == (if |percentages| > 0 then Edited() else old(isDirty))
      ensures old(DirtyIsExact()) ==> DirtyIsExact()
    {
      var index := 0;
      while index < |percentages|
        invariant 0 <= index <= |percentages| == |tests|
        invariant Urls(tests) == old(Urls(tests))
        invariant forall k :: 0 <= k < index ==> tests[k].percentage == percentages[k]
        invariant forall k :: index <= k < |tests| ==> tests[k] == old(tests)[k]
        invariant testsCompleteAt == old(testsCompleteAt)
        invariant isDirty == (if index > 0 then Edited() else old(isDirty))
      {
        tests := tests[index := tests[index].(percentage := percentages[index])];
        isDirty := Edited();
        index := index + 1;
      }
    }

    /** Either completion-date input, once it has a date to write. */
    method SetCompleteAt(completeAt: int)
      modifies this
      ensures testsCompleteAt == completeAt && tests == old(tests)
      ensures DirtyIsExact()
    {
      testsCompleteAt := completeAt;
      isDirty := Edited();
    }
  }

  /**
   * Adding a url to the default {50, 50} split and removing it again gives
   * back the defaults, so the form is dirty after the add and clean after
   * the removal.
   */
  method AddThenRemoveIsClean(inTwoWeeks: int) returns (dirtyAfterAdd: bool, dirtyAfterRemove: bool)
    requires MAX_TEST_COUNT >= 3 && MIN_TEST_PERCENTAGE == 10
    ensures dirtyAfterAdd && !dirtyAfterRemove
  {
    Examples();
    var defaults := [Variant("a", 50), Variant("b", 50)];
    var form := new EditForm(Some(defaults), "", None, inTwoWeeks);
    var _ := form.AddUrl();
    dirtyAfterAdd := form.isDirty;
    var _ := form.RemoveUrl(2);
    dirtyAfterRemove := form.isDirty;
  }

  // ---------------------------------------------------------------------
  // How the editor's actions meet the save

  /** A just-added variant has an empty url, so the save is refused until it is filled. */
  lemma AddedVariantBlocksSave(tests: seq<Variant>)
    requires Total(tests) == 100
    requires AddTestUrl(tests).Replace?
    ensures SaveDecision(Some(AddTestUrl(tests).tests)) == RejectedEmptyUrl
  {
    AddKeepsTotal(tests);
    var r := AddTestUrl(tests).tests;
    assert Urls(r)[|tests|] == "";
  }

  /** Removing an entry from a saved list of three or more leaves a list that saves again. */
  lemma RemoveKeepsSaveable(tests: seq<Variant>, index: nat)
    requires SaveDecision(Some(tests)) == Saved
    requires 3 <= |tests| && index < |tests|
    ensures RemoveTestUrl(tests, index).Replace?
    ensures SaveDecision(Some(RemoveTestUrl(tests, index).tests)) == Saved
  {
    RemoveKeepsTotal(tests, index);
    var r := RemoveTestUrl(tests, index).tests;
    var rest := Without(tests, index);
    forall i | 0 <= i < |r|
      ensures r[i].url != ""
    {
      assert Urls(r)[i] == Urls(rest)[i];
    }
  }

  /**
   * Removing from a two-entry list is not refused, and the handler's
   * decision for the one-entry result is Cleared.
   */
  lemma RemoveAtTwoThenSaveClears(tests: seq<Variant>, index: nat)
    requires |tests| == 2 && index < 2
    ensures RemoveTestUrl(tests, index).Replace?
    ensures SaveDecision(Some(RemoveTestUrl(tests, index).tests)) == Cleared
  {
    assert |Urls(RemoveTestUrl(tests, index).tests)| == 1;
  }

  /**
   * The one-entry result of removing from two entries fails its url field's
   * count check, so the form is invalid and the submit button is disabled:
   * the handler is never reached with it.
   */
  lemma RemoveAtTwoCannotSubmit(tests: seq<Variant>, index: nat, isValidUrl: string -> bool,
                                isDirty: bool, completeAtDays: Option<int>)
    requires |tests| == 2 && index < 2
    ensures RemoveTestUrl(tests, index).Replace?
    ensures var rest := RemoveTestUrl(tests, index).tests;
      |rest| == 1 && !FormValid(rest, isValidUrl) && SubmitDisabled(isDirty, FormValid(rest, isValidUrl), completeAtDays)
  {
    var rest := RemoveTestUrl(tests, index).tests;
    assert |Urls(rest)| == 1;
    assert UrlFieldError(rest[0].url, 1, isValidUrl).Some?;
  }

  // ---------------------------------------------------------------------
  // The status label

  datatype Label = TestComplete | UrlCount(count: nat) | ABTest

  /**
   * `getABTestingLabel`: "Test Complete" once `now` is past the completion
   * date (whatever `tests` holds); otherwise "<n> URLs" when both a list and
   * a completion date are set; otherwise "A/B Test".
   */
  function ABTestingLabel(tests: Option<seq<Variant>>, testsCompleteAt: Option<int>, now: int): (shown: Label)
    ensures shown == TestComplete <==> testsCompleteAt.Some? && now > testsCompleteAt.value
    ensures shown.UrlCount? <==> tests.Some? && testsCompleteAt.Some? && now <= testsCompleteAt.value
    ensures shown.UrlCount? ==> shown.count == |tests.value|
  {
    if testsCompleteAt.Some? && now > testsCompleteAt.value then TestComplete
    else if tests.Some? && testsCompleteAt.Some? then UrlCount(|tests.value|)
    else ABTest
  }

  /** Whenever the label says the test is complete, the selector no longer routes to a variant. */
  lemma CompleteLabelMeansSelectorOff(tests: Option<seq<Variant>>, testsCompleteAt: Option<int>, now: int,
                                      cookie: Option<string>, u: real)
    requires ABTestingLabel(tests, testsCompleteAt, now) == TestComplete
    ensures TestDestination.Destination(tests, testsCompleteAt, now, cookie, u) == None
  {
  }

  /**
   * At the completion instant itself the label still counts urls while the
   * selector has already stopped: the label tests `now > completeAt`, the
   * selector `completeAt > now`.
   */
  lemma DeadlineInstant(tests: seq<Variant>, completeAt: int, cookie: Option<string>, u: real)
    ensures ABTestingLabel(Some(tests), Some(completeAt), completeAt) == UrlCount(|tests|)
    ensures TestDestination.Destination(Some(tests), Some(completeAt), completeAt, cookie, u) == None
  {
  }
}
