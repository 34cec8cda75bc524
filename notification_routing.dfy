/**
 * The notification service's broker topology: one queue bound to the user
 * exchange under one routing key. A direct exchange delivers a message to every
 * queue whose binding key equals the message's routing key exactly (section
 * 3.1.3.1 of the AMQP 0-9-1 specification); a message no binding matches is
 * routed nowhere.
 */
module NotificationRouting {
  import UserEvents

  const EXCHANGE_NAME := "user.exchange"
  const QUEUE_NAME := "user.created.queue"
  const ROUTING_KEY := "user.created"

  /** The queue the failure listener subscribes to; the configuration shown neither declares nor binds it. */
  const FAILURE_LISTENER_QUEUE := "user.creation.failed.queue"

  datatype Binding = Binding(queue: string, exchange: string, routingKey: string)

  /** Every binding the notification service declares. */
  const Bindings: seq<Binding> := [Binding(QUEUE_NAME, EXCHANGE_NAME, ROUTING_KEY)]

  /** The queues a message published to `exchange` with `key` reaches, in binding order. */
  function Route(bindings: seq<Binding>, exchange: string, key: string): (queues: seq<string>)
    ensures forall q :: q in queues <==>
      exists b :: b in bindings && b.exchange == exchange && b.routingKey == key && b.queue == q
  {
    if bindings == [] then []
    else
      var b := bindings[0];
      var rest := Route(bindings[1..], exchange, key);
      assert forall x :: x in bindings <==> x == b || x in bindings[1..];
      if b.exchange == exchange && b.routingKey == key then [b.queue] + rest else rest
  }

  /** A user-created event published by the user service reaches exactly the declared queue. */
  lemma CreatedEventReachesQueue(e: UserEvents.Event)
    requires e.UserCreated?
    ensures Route(Bindings, UserEvents.Envelope(e).exchange, UserEvents.Envelope(e).routingKey) == [QUEUE_NAME]
  {
  }

  /** A creation-failed event matches no binding: the exchange drops it. */
  lemma FailedEventIsUnroutable(e: UserEvents.Event)
    requires e.UserCreationFailed?
    ensures Route(Bindings, UserEvents.Envelope(e).exchange, UserEvents.Envelope(e).routingKey) == []
  {
    assert UserEvents.ROUTING_KEY_FAILURE != ROUTING_KEY by {
      assert |UserEvents.ROUTING_KEY_FAILURE| != |ROUTING_KEY|;
    }
  }

  /** Whatever the user service publishes, the failure listener's queue receives nothing. */
  lemma FailureListenerQueueNeverFed(e: UserEvents.Event)
    ensures FAILURE_LISTENER_QUEUE !in Route(Bindings, UserEvents.Envelope(e).exchange, UserEvents.Envelope(e).routingKey)
  {
    assert |FAILURE_LISTENER_QUEUE| != |QUEUE_NAME|;
  }
}
