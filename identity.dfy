/**
 * `loadVisitor` of the snippet in `dist/output.js` and the record it creates.
 */
module Identity {
  import opened Common
  import opened Uuid
  import Context
  import Cookies

  /**
   * `!visitor.id` is false for a parsed record whose id is `id`: the record
   * has a non-empty id and is reused. An empty slot, parsed from `"{}"`, has
   * no id (`None`); a generated id counts.
   */
  predicate HasStoredId(id: Option<string>)
    ensures id.None? ==> !HasStoredId(id)
    ensures id.Some? && IsUuid(id.value) ==> HasStoredId(id)
  {
    id.Some? && id.value != ""
  }

  /** The stored record has an id: see `HasStoredId`. */
  predicate HasId(stored: Option<Visitor>) {
    HasStoredId(if stored.Some? then Some(stored.value.id) else None)
  }

  /** The cookie `_shopify_y`, or `""` when `getCookie` returns `null` or an empty value. */
  function ShopifyClientId(cookie: string): (id: string)
    ensures var c := Cookies.CookieValue(cookie, "_shopify_y");
      (c.Some? ==> id == c.value) && (c.None? ==> id == "")
  {
    match Cookies.CookieValue(cookie, "_shopify_y")
    case Some(c) => c
    case None => ""
  }

  /**
   * The record `loadVisitor` builds when none is stored: a generated UUID, the
   * creation time, the device class (never a tablet), the UTM parameters of
   * the page, the referrer and no assignments.
   */
  function FreshVisitor(env: Environment, draws: seq<Nibble>): (v: Visitor)
    requires |draws| == Draws
    ensures IsUuid(v.id) && v.id != ""
    ensures v.assignments == [] && v.createdAt == env.now
    ensures v.device != Tablet
    ensures v.utmParams.Keys <= set k | k in Context.UtmKeys
    ensures v.referrer == "" ==> v.referringDomain == ""
    ensures v.shopifyClientId == ShopifyClientId(env.cookie)
  {
    Visitor(
      GenerateUuid(draws),
      env.now,
      ShopifyClientId(env.cookie),
      Context.DeviceType(env.tabletAgent, env.mobileAgent),
      Viewport(env.innerWidth, env.innerHeight),
      Context.UtmParameters(env.query),
      env.referrer,
      Context.ReferringDomain(env.referrer, env.referrerHostname),
      env.currency,
      [])
  }

  /**
   * `loadVisitor()`: the stored record, unchanged, when it has an id; a fresh
   * record otherwise. The fresh record is not saved here.
   */
  method LoadVisitor(stored: Option<Visitor>, env: Environment, draws: seq<Nibble>) returns (visitor: Visitor, found: bool)
    requires |draws| == Draws
    ensures found <==> HasId(stored)
    ensures found ==> visitor == stored.value
    ensures !found ==> visitor == FreshVisitor(env, draws)
  {
    found := true;
    if !HasId(stored) {
      found := false;
      visitor := FreshVisitor(env, draws);
    } else {
      visitor := stored.value;
    }
  }
}
