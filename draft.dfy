/**
 * The TypeScript source `src/main.ts`, an earlier stage of the snippet: its
 * visitor record keeps a `tests` list instead of `assignments`, and its
 * `init` stops after selecting tests, without assigning or applying any.
 */
module Draft {
  import opened Common
  import opened Uuid
  import Context
  import Selector
  import Identity

  /** The `Visitor` of `src/main.ts`: the same fields, with `tests` in place of `assignments`. */
  datatype DraftVisitor = DraftVisitor(
    id: string,
    createdAt: string,
    shopifyClientId: string,
    device: Device,
    viewport: Viewport,
    utmParams: map<string, string>,
    referrer: string,
    referringDomain: string,
    currency: string,
    tests: seq<Test>)

  /** The stored `src/main.ts` record has an id: see `Identity.HasStoredId`. */
  predicate HasId(stored: Option<DraftVisitor>) {
    Identity.HasStoredId(if stored.Some? then Some(stored.value.id) else None)
  }

  /** The record `loadVisitor` of `src/main.ts` builds when none is stored: no tests yet. */
  function FreshDraftVisitor(env: Environment, draws: seq<Nibble>): (v: DraftVisitor)
    requires |draws| == Draws
    ensures IsUuid(v.id) && v.id != ""
    ensures v.tests == [] && v.createdAt == env.now
    ensures v.device != Tablet
    ensures v.utmParams.Keys <= set k | k in Context.UtmKeys
  {
    DraftVisitor(
      GenerateUuid(draws),
      env.now,
      Identity.ShopifyClientId(env.cookie),
      Context.DeviceType(env.tabletAgent, env.mobileAgent),
      Viewport(env.innerWidth, env.innerHeight),
      Context.UtmParameters(env.query),
      env.referrer,
      Context.ReferringDomain(env.referrer, env.referrerHostname),
      env.currency,
      [])
  }

  /** `loadVisitor()` of `src/main.ts`: the stored record when it has an id, a fresh one otherwise. */
  method LoadDraftVisitor(stored: Option<DraftVisitor>, env: Environment, draws: seq<Nibble>)
    returns (visitor: DraftVisitor, found: bool)
    requires |draws| == Draws
    ensures found <==> HasId(stored)
    ensures found ==> visitor == stored.value
    ensures !found ==> visitor == FreshDraftVisitor(env, draws)
  {
    found := true;
    if !HasId(stored) {
      found := false;
      visitor := FreshDraftVisitor(env, draws);
    } else {
      visitor := stored.value;
    }
  }

  /**
   * `abone.init` of `src/main.ts` (outside design mode): the tests it ends
   * with are selected from the visitor's own `tests`, not from the catalogue
   * (whose selection is computed and dropped). A new visitor therefore gets
   * no test at all, and every test selected is one the visitor already had.
   */
  method DraftInit(stored: Option<DraftVisitor>, tests: seq<Test>, templateName: string,
                   env: Environment, draws: seq<Nibble>)
    returns (relevantTests: seq<Test>)
    requires |draws| == Draws
    ensures var v := if HasId(stored) then stored.value else FreshDraftVisitor(env, draws);
      && relevantTests == Selector.RelevantTests(v.tests, templateName, v.device)
      && (forall t :: t in relevantTests ==> t in v.tests && t.category == templateName)
    ensures !HasId(stored) ==> relevantTests == []
  {
    var visitor, found := LoadDraftVisitor(stored, env, draws);
    var test := Selector.RelevantTests(tests, templateName, visitor.device);
    relevantTests := Selector.RelevantTests(visitor.tests, templateName, visitor.device);
  }
}
