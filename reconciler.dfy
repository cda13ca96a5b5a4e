/**
 * `applyVariant(test, variantSuffix)`: makes the `view` query parameter of the
 * page agree with the suffix resolved for a test. The navigation
 * (`window.location.replace`) is returned as a decision instead of being
 * performed. A missing `view` parameter (`searchParams.get` gives `null`) is
 * the empty string here; both are falsy, as is an empty suffix.
 */
module Reconciler {

  /** What `applyVariant` does to the URL: nothing, `set("view", s)` or `delete("view")`, each followed by a replace. */
  datatype ViewAction = NoOp | SetView(suffix: string) | DeleteView

  /** The four guarded returns of `applyVariant`, in the order the source tests them. */
  function ApplyVariant(view: string, suffix: string): (a: ViewAction)
    ensures a == NoOp <==> view == suffix
    ensures a == DeleteView <==> view != "" && suffix == ""
    ensures a.SetView? <==> view != suffix && suffix != ""
    ensures a.SetView? ==> a.suffix == suffix
  {
    if view == "" && suffix == "" then NoOp
    else if view == "" && suffix != "" then SetView(suffix)
    else if view != "" && suffix == "" then DeleteView
    else if view != suffix then SetView(suffix)
    else NoOp
  }

  /** The `view` parameter of the URL the page is left at ("" when the parameter is absent). */
  function ViewAfter(view: string, a: ViewAction): (after: string) {
    match a
    case NoOp => view
    case SetView(s) => s
    case DeleteView => ""
  }

  /**
   * Whatever the decision, the page ends up with `view` equal to the suffix,
   * and on the reloaded page the reconciler has nothing left to do.
   */
  lemma ReconcileConverges(view: string, suffix: string)
    ensures ViewAfter(view, ApplyVariant(view, suffix)) == suffix
    ensures ApplyVariant(ViewAfter(view, ApplyVariant(view, suffix)), suffix) == NoOp
  {
  }

  /**
   * The decisions for the tests of a page, in order. Navigation does not stop
   * the loop of `applyTests`, and `window.location.href` keeps the old URL
   * until the page unloads, so every test is compared with the same `view`.
   */
  function Actions(view: string, suffixes: seq<string>): (r: seq<ViewAction>)
    ensures |r| == |suffixes|
    ensures forall i :: 0 <= i < |r| ==> r[i] == ApplyVariant(view, suffixes[i])
  {
    if suffixes == [] then []
    else Actions(view, suffixes[..|suffixes| - 1]) + [ApplyVariant(view, suffixes[|suffixes| - 1])]
  }
}
