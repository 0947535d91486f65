/**
 * Routing of an incoming MQTT_EVENT_DATA message: the first entry of the
 * subscription table whose topic agrees with the message topic over the
 * shorter of the two lengths gets the payload.
 */
module Dispatch {
  import opened Wrappers
  import opened LedTypes
  import opened CText

  /** The handler an entry of `subscription_list` points to. */
  datatype Command = PowerCmnd | HueCmnd | HsbCmnd | ModeCmnd

  datatype Subscription = Subscription(topic: string, handler: Command)

  /** `subscription_list`, in table order. */
  const SUBSCRIPTIONS: seq<Subscription> := [
    Subscription(TOPIC_CMND_POWER, PowerCmnd),
    Subscription(TOPIC_CMND_HUE, HueCmnd),
    Subscription(TOPIC_CMND_HSB, HsbCmnd),
    Subscription(TOPIC_CMND_MODE, ModeCmnd)
  ]

  /** The loop's test for entry `sub`: `strncmp` of the entry's topic and
      the message topic over the shorter length. */
  predicate TopicAgrees(sub: string, topic: string) {
    StrnEqual(sub, topic, if |sub| < |topic| then |sub| else |topic|)
  }

  predicate PrefixRelated(a: string, b: string) {
    a <= b || b <= a
  }

  lemma SubscriptionTopicsNulFree(i: nat)
    requires i < |SUBSCRIPTIONS|
    ensures NulFree(SUBSCRIPTIONS[i].topic)
  {
  }

  /** For the table's topics the test is: one topic is a prefix of the other. */
  lemma TopicAgreesMeaning(i: nat, topic: string)
    requires i < |SUBSCRIPTIONS|
    ensures TopicAgrees(SUBSCRIPTIONS[i].topic, topic) <==> PrefixRelated(SUBSCRIPTIONS[i].topic, topic)
  {
    SubscriptionTopicsNulFree(i);
    StrnEqualShorter(SUBSCRIPTIONS[i].topic, topic);
  }

  /** The index of the first entry from `i` on whose topic is prefix-related
      to the message topic, or the table size when there is none. */
  function FirstMatchFrom(topic: string, i: nat): (j: nat)
    requires i <= |SUBSCRIPTIONS|
    ensures i <= j <= |SUBSCRIPTIONS|
    ensures forall m :: i <= m < j ==> !PrefixRelated(SUBSCRIPTIONS[m].topic, topic)
    ensures j < |SUBSCRIPTIONS| ==> PrefixRelated(SUBSCRIPTIONS[j].topic, topic)
    decreases |SUBSCRIPTIONS| - i
  {
    if i == |SUBSCRIPTIONS| then i
    else if PrefixRelated(SUBSCRIPTIONS[i].topic, topic) then i
    else FirstMatchFrom(topic, i + 1)
  }

  /** The handler a message topic is routed to, if any. */
  function Route(topic: string): (c: Option<Command>)
    ensures c.None? <==> forall m :: 0 <= m < |SUBSCRIPTIONS| ==> !PrefixRelated(SUBSCRIPTIONS[m].topic, topic)
  {
    var j := FirstMatchFrom(topic, 0);
    if j < |SUBSCRIPTIONS| then Some(SUBSCRIPTIONS[j].handler) else None
  }

  /** The dispatch loop: scan the table in order and stop at the first
      entry whose topic agrees. The result is that entry's index, or the
      table size when no entry agrees. */
  method FindSubscription(topic: string) returns (i: nat)
    ensures i <= |SUBSCRIPTIONS|
    ensures forall m :: 0 <= m < i ==> !PrefixRelated(SUBSCRIPTIONS[m].topic, topic)
    ensures i < |SUBSCRIPTIONS| ==> PrefixRelated(SUBSCRIPTIONS[i].topic, topic)
    ensures i == FirstMatchFrom(topic, 0)
    ensures Route(topic) == if i < |SUBSCRIPTIONS| then Some(SUBSCRIPTIONS[i].handler) else None
  {
    i := 0;
    while i < |SUBSCRIPTIONS|
      invariant i <= |SUBSCRIPTIONS|
      invariant forall m :: 0 <= m < i ==> !PrefixRelated(SUBSCRIPTIONS[m].topic, topic)
      invariant FirstMatchFrom(topic, 0) == FirstMatchFrom(topic, i)
    {
      var sub := SUBSCRIPTIONS[i].topic;
      var len := |sub|;
      TopicAgreesMeaning(i, topic);
      if StrnEqual(sub, topic, if len < |topic| then len else |topic|) {
        break;
      }
      i := i + 1;
    }
  }

  // ---------------------------------------------------------------------
  // Properties

  /** Every command topic is routed to its own handler. */
  lemma RoutesOwnTopics()
    ensures Route(TOPIC_CMND_POWER) == Some(PowerCmnd)
    ensures Route(TOPIC_CMND_HUE) == Some(HueCmnd)
    ensures Route(TOPIC_CMND_HSB) == Some(HsbCmnd)
    ensures Route(TOPIC_CMND_MODE) == Some(ModeCmnd)
  {
    assert TOPIC_CMND_HUE[9] != TOPIC_CMND_POWER[9];
    assert TOPIC_CMND_HSB[9] != TOPIC_CMND_POWER[9] && TOPIC_CMND_HSB[10] != TOPIC_CMND_HUE[10];
    assert TOPIC_CMND_MODE[9] != TOPIC_CMND_POWER[9] && TOPIC_CMND_MODE[9] != TOPIC_CMND_HUE[9];
    assert TOPIC_CMND_MODE[9] != TOPIC_CMND_HSB[9];
  }

  /** The shorter-length comparison routes any prefix of the command topics,
      the empty topic included, to the power handler, which comes first; a
      topic that extends a command topic goes to that command; a status
      topic goes nowhere. */
  lemma RoutesPrefixes()
    ensures Route("") == Some(PowerCmnd)
    ensures Route("cmnd/led/") == Some(PowerCmnd)
    ensures Route("cmnd/led/hsb/extra") == Some(HsbCmnd)
    ensures Route(TOPIC_STAT_POWER) == None
  {
    assert "cmnd/led/" <= TOPIC_CMND_POWER;
    var x := "cmnd/led/hsb/extra";
    assert x[9] != TOPIC_CMND_POWER[9] && x[10] != TOPIC_CMND_HUE[10];
    assert TOPIC_CMND_HSB <= x;
    forall m | 0 <= m < |SUBSCRIPTIONS|
      ensures !PrefixRelated(SUBSCRIPTIONS[m].topic, TOPIC_STAT_POWER)
    {
      assert SUBSCRIPTIONS[m].topic[0] != TOPIC_STAT_POWER[0];
    }
  }
}
