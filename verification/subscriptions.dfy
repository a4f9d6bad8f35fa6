/** The subscription registry: endpoint URL to subscription, as kept by the push controller. */
module Subscriptions {

  /** The browser's encryption keys: the P-256 public key and the authentication secret, base64url text. */
  datatype Keys = Keys(p256dh: string, auth: string)

  /** A browser push subscription; its endpoint is its identity. */
  datatype Subscription = Subscription(endpoint: string, keys: Keys)

  type Registry = map<string, Subscription>

  /** Every entry is stored under its own endpoint. */
  ghost predicate WellKeyed(reg: Registry) {
    forall e :: e in reg ==> reg[e].endpoint == e
  }

  /** Registers `sub` under its endpoint, replacing an earlier subscription for the same endpoint. */
  function Subscribe(reg: Registry, sub: Subscription): (r: Registry)
    ensures sub.endpoint in r && r[sub.endpoint] == sub
    ensures r.Keys == reg.Keys + {sub.endpoint}
    ensures forall e :: e in reg && e != sub.endpoint ==> r[e] == reg[e]
  {
    reg[sub.endpoint := sub]
  }

  /** Forgets the subscription for `endpoint`, if there is one. */
  function Unsubscribe(reg: Registry, endpoint: string): (r: Registry)
    ensures r.Keys == reg.Keys - {endpoint}
    ensures forall e :: e in r ==> r[e] == reg[e]
  {
    reg - {endpoint}
  }

  /** Whether a subscription is registered for `endpoint`: in a well-keyed registry, whether
      some stored subscription has that endpoint. */
  function IsSubscribed(reg: Registry, endpoint: string): (b: bool)
    ensures WellKeyed(reg) ==> (b <==> exists s :: s in reg.Values && s.endpoint == endpoint)
  {
    if endpoint in reg then
      assert reg[endpoint] in reg.Values;
      true
    else
      false
  }

  /** Forgets every endpoint of `endpoints` at once. */
  function RemoveAll(reg: Registry, endpoints: set<string>): (r: Registry)
    ensures r.Keys == reg.Keys - endpoints
    ensures forall e :: e in r ==> r[e] == reg[e]
  {
    reg - endpoints
  }

  /** Unsubscribes the endpoints one after another, in the given order: the same as removing
      them all at once, whatever the order. */
  function UnsubscribeEach(reg: Registry, endpoints: seq<string>): (r: Registry)
    ensures r == RemoveAll(reg, set e | e in endpoints)
    decreases |endpoints|
  {
    if |endpoints| == 0 then reg
    else
      var rest := endpoints[1..];
      assert (set e | e in endpoints) == {endpoints[0]} + (set e | e in rest) by {
        assert endpoints == [endpoints[0]] + rest;
      }
      UnsubscribeEach(Unsubscribe(reg, endpoints[0]), rest)
  }

  lemma MembershipAfterSubscribe(reg: Registry, sub: Subscription, e: string)
    ensures IsSubscribed(Subscribe(reg, sub), e) <==> e == sub.endpoint || IsSubscribed(reg, e)
  {
  }

  lemma MembershipAfterUnsubscribe(reg: Registry, endpoint: string, e: string)
    ensures IsSubscribed(Unsubscribe(reg, endpoint), e) <==> e != endpoint && IsSubscribed(reg, e)
  {
  }

  lemma UnsubscribeIdempotent(reg: Registry, endpoint: string)
    ensures Unsubscribe(Unsubscribe(reg, endpoint), endpoint) == Unsubscribe(reg, endpoint)
    ensures !IsSubscribed(reg, endpoint) ==> Unsubscribe(reg, endpoint) == reg
  {
  }

  /** Unsubscribing a freshly subscribed endpoint gives back the registry from before. */
  lemma UnsubscribeUndoesSubscribe(reg: Registry, sub: Subscription)
    requires !IsSubscribed(reg, sub.endpoint)
    ensures Unsubscribe(Subscribe(reg, sub), sub.endpoint) == reg
  {
  }

  lemma SubscribeKeepsWellKeyed(reg: Registry, sub: Subscription)
    requires WellKeyed(reg)
    ensures WellKeyed(Subscribe(reg, sub))
  {
  }

  lemma RemoveAllKeepsWellKeyed(reg: Registry, endpoints: set<string>)
    requires WellKeyed(reg)
    ensures WellKeyed(RemoveAll(reg, endpoints))
  {
  }

  /** `snap` lists registry entries, each once: the sequence a walk over the registry's values yields. */
  ghost predicate IsSnapshot(reg: Registry, snap: seq<Subscription>) {
    && (forall i :: 0 <= i < |snap| ==> snap[i].endpoint in reg && reg[snap[i].endpoint] == snap[i])
    && (forall i, j :: 0 <= i < j < |snap| ==> snap[i].endpoint != snap[j].endpoint)
    && (forall e :: e in reg ==> exists i :: 0 <= i < |snap| && snap[i].endpoint == e)
  }
}
