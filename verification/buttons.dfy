/**
 * Choosing the element to click after the fields are filled: the first
 * structural selector that matches anything wins; only when none does,
 * the first button whose label carries an action word.
 */
module Buttons {
  import opened Wrappers
  import Text

  /**
   * An element of the rendered page, in document order. Which CSS
   * selectors it matches and its rendered text (`innerText`) are taken as given.
   */
  datatype Control = Control(isButton: bool, caption: string, selectors: set<string>)

  predicate Matches(c: Control, selector: string) {
    selector in c.selectors
  }

  /** The structural selectors, tried in this order. */
  const SubmitSelectors: seq<string> :=
    ["button[type=submit]", ".btn-create", "#submit", ".create-button"]

  /** The label test `/create|generate|make/i`. */
  predicate HasActionWord(caption: string) {
    || Text.ContainsIgnoringCase(caption, "create")
    || Text.ContainsIgnoringCase(caption, "generate")
    || Text.ContainsIgnoringCase(caption, "make")
  }

  /** A `button` element that the label fallback would accept. */
  predicate IsActionButton(c: Control) {
    c.isButton && HasActionWord(c.caption)
  }

  /** `page.$(selector)` from position `i` on: the first matching element in document order. */
  function QueryFirstFrom(controls: seq<Control>, selector: string, i: nat): (r: Option<nat>)
    requires i <= |controls|
    ensures r.Some? ==>
      && i <= r.value < |controls|
      && Matches(controls[r.value], selector)
      && forall j :: i <= j < r.value ==> !Matches(controls[j], selector)
    ensures r.None? ==> forall j :: i <= j < |controls| ==> !Matches(controls[j], selector)
    decreases |controls| - i
  {
    if i == |controls| then None
    else if Matches(controls[i], selector) then Some(i)
    else QueryFirstFrom(controls, selector, i + 1)
  }

  function QueryFirst(controls: seq<Control>, selector: string): Option<nat> {
    QueryFirstFrom(controls, selector, 0)
  }

  /** Selector `k` of `selectors` matches element `j`. */
  predicate Hit(controls: seq<Control>, selectors: seq<string>, k: int, j: int) {
    0 <= k < |selectors| && 0 <= j < |controls| && Matches(controls[j], selectors[k])
  }

  /**
   * The selector loop from selector `k` on; it stops at the first selector
   * that matches something. The result pairs the selector's rank with the
   * element clicked.
   */
  function FirstSelectorHitFrom(controls: seq<Control>, selectors: seq<string>, k: nat): (r: Option<(nat, nat)>)
    requires k <= |selectors|
    ensures r.Some? ==>
      && k <= r.value.0
      && Hit(controls, selectors, r.value.0, r.value.1)
      && (forall j :: 0 <= j < r.value.1 ==> !Hit(controls, selectors, r.value.0, j))
      && (forall k', j :: k <= k' < r.value.0 ==> !Hit(controls, selectors, k', j))
    ensures r.None? ==> forall k', j :: k <= k' ==> !Hit(controls, selectors, k', j)
    decreases |selectors| - k
  {
    if k == |selectors| then None
    else match QueryFirst(controls, selectors[k])
      case Some(t) => Some((k, t))
      case None => FirstSelectorHitFrom(controls, selectors, k + 1)
  }

  /** `[...document.querySelectorAll("button")].find(...)` from position `i` on. */
  function FirstActionButtonFrom(controls: seq<Control>, i: nat): (r: Option<nat>)
    requires i <= |controls|
    ensures r.Some? ==>
      && i <= r.value < |controls|
      && IsActionButton(controls[r.value])
      && forall j :: i <= j < r.value ==> !IsActionButton(controls[j])
    ensures r.None? ==> forall j :: i <= j < |controls| ==> !IsActionButton(controls[j])
    decreases |controls| - i
  {
    if i == |controls| then None
    else if IsActionButton(controls[i]) then Some(i)
    else FirstActionButtonFrom(controls, i + 1)
  }

  /** What was clicked: an element found by selector `rank`, a button found by its label, or nothing. */
  datatype Click =
    | BySelector(rank: nat, target: nat)
    | ByLabel(target: nat)
    | NoClick

  /** Some structural selector matches some element of the page. */
  predicate AnySelectorHit(controls: seq<Control>) {
    exists k, j :: 0 <= k < |SubmitSelectors| && 0 <= j < |controls| && Hit(controls, SubmitSelectors, k, j)
  }

  /**
   * The button step. At most one element is clicked (the result names one
   * target or none). A selector click goes to the first element matching
   * the earliest selector that matches anything, and happens exactly when
   * some selector matches; otherwise the first action button is clicked,
   * and nothing when there is no such button.
   */
  function ChooseButton(controls: seq<Control>): (c: Click)
    ensures c.BySelector? <==> AnySelectorHit(controls)
    ensures c.BySelector? ==>
      && Hit(controls, SubmitSelectors, c.rank, c.target)
      && (forall k, j :: 0 <= k < c.rank ==> !Hit(controls, SubmitSelectors, k, j))
      && (forall j :: 0 <= j < c.target ==> !Hit(controls, SubmitSelectors, c.rank, j))
    ensures c.ByLabel? ==>
      && !AnySelectorHit(controls)
      && c.target < |controls|
      && IsActionButton(controls[c.target])
      && forall j :: 0 <= j < c.target ==> !IsActionButton(controls[j])
    ensures c.NoClick? <==>
      !AnySelectorHit(controls) && forall j :: 0 <= j < |controls| ==> !IsActionButton(controls[j])
  {
    match FirstSelectorHitFrom(controls, SubmitSelectors, 0)
    case Some((k, t)) => BySelector(k, t)
    case None =>
      match FirstActionButtonFrom(controls, 0)
      case Some(t) => ByLabel(t)
      case None => NoClick
  }

  /**
   * Labels never matter while a selector matches: relabelling the page's
   * elements leaves a selector click unchanged.
   */
  lemma LabelsIgnoredWhenSelectorMatches(controls: seq<Control>, relabelled: seq<Control>)
    requires |controls| == |relabelled|
    requires forall j :: 0 <= j < |controls| ==> controls[j].selectors == relabelled[j].selectors
    requires AnySelectorHit(controls)
    ensures ChooseButton(relabelled) == ChooseButton(controls)
  {
    assert forall k, j :: Hit(controls, SubmitSelectors, k, j) <==> Hit(relabelled, SubmitSelectors, k, j);
  }
}
