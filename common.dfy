/**
 * The records the tracking snippet passes around: tests from the shop's
 * catalogue, the visitor record kept in the browser's local storage, and the
 * values the snippet reads from the browser when it creates a visitor.
 */
module Common {

  datatype Option<+T> = None | Some(value: T)

  /** The device class of a visitor (`device.type`). */
  datatype Device = Mobile | Tablet | Desktop

  /** The `deviceType` of a test: `"all"` or one device class. */
  datatype Audience = AllDevices | Only(device: Device)

  /** One arm of a test; its suffix is what the `view` query parameter carries. */
  datatype Variant = Variant(id: int, suffix: string)

  /** A test (experiment) of the shop's catalogue; `category` is a template name. */
  datatype Test = Test(id: int, category: string, deviceType: Audience, variants: seq<Variant>)

  /** The record binding the visitor to the variant chosen for one test. */
  datatype Assignment = Assignment(testId: int, variantSuffix: string, assignedAt: string)

  datatype Viewport = Viewport(width: int, height: int)

  /** The visitor record, as saved under the local-storage key `ab.one_visitor`. */
  datatype Visitor = Visitor(
    id: string,
    createdAt: string,
    shopifyClientId: string,
    device: Device,
    viewport: Viewport,
    utmParams: map<string, string>,
    referrer: string,
    referringDomain: string,
    currency: string,
    assignments: seq<Assignment>)

  /**
   * What the browser tells the snippet when it builds a fresh visitor: the
   * outcome of the two user-agent tests, the window size, the query string of
   * the page (the first value of each parameter), `document.referrer`, the
   * host name `new URL(referrer)` yields, `document.cookie`, the shop's active
   * currency and the ISO timestamp of `new Date()`.
   */
  datatype Environment = Environment(
    tabletAgent: bool,
    mobileAgent: bool,
    innerWidth: int,
    innerHeight: int,
    query: map<string, string>,
    referrer: string,
    referrerHostname: string,
    cookie: string,
    currency: string,
    now: string)

  /** The ids of the tests the assignments cover. */
  function AssignedIds(a: seq<Assignment>): set<int> {
    set e | e in a :: e.testId
  }

  /** The invariant of the visitor record: at most one assignment per test. */
  predicate UniqueTestIds(a: seq<Assignment>) {
    forall i, j :: 0 <= i < j < |a| ==> a[i].testId != a[j].testId
  }

  /** The suffixes a test offers. */
  function Suffixes(vs: seq<Variant>): set<string> {
    set v | v in vs :: v.suffix
  }
}
