/**
 * The events the user service publishes and the publisher that hands them to
 * the broker. The broker client (`RabbitTemplate`) is modelled as an
 * append-only log of outbound messages; serialisation is left out, so a
 * message carries the event value itself.
 */
module UserEvents {

  /** The user service's broker configuration. */
  const EXCHANGE_NAME := "user.exchange"
  const ROUTING_KEY := "user.created"
  const ROUTING_KEY_FAILURE := "user.created.failed"

  /** `UserCreatedEvent` and `UserCreationFailedEvent`, as one tagged union. */
  datatype Event =
    | UserCreated(name: string, email: string)
    | UserCreationFailed(attemptedEmail: string, reason: string)

  /** One `convertAndSend(exchange, routingKey, payload)` call. */
  datatype Message = Message(exchange: string, routingKey: string, payload: Event)

  /** The routing key the publisher chooses for an event: determined by its variant. */
  function RoutingKeyOf(e: Event): (k: string)
    ensures k == ROUTING_KEY <==> e.UserCreated?
    ensures k == ROUTING_KEY_FAILURE <==> e.UserCreationFailed?
  {
    match e
    case UserCreated(_, _) => ROUTING_KEY
    case UserCreationFailed(_, _) => ROUTING_KEY_FAILURE
  }

  /** The message the publisher sends for an event. */
  function Envelope(e: Event): (m: Message)
    ensures m.exchange == EXCHANGE_NAME
    ensures m.payload == e
  {
    Message(EXCHANGE_NAME, RoutingKeyOf(e), e)
  }

  /** The two routing keys differ, so the key alone tells which variant was sent. */
  lemma RoutingKeyDeterminesVariant(e1: Event, e2: Event)
    ensures RoutingKeyOf(e1) == RoutingKeyOf(e2) <==> e1.UserCreated? == e2.UserCreated?
  {
    assert |ROUTING_KEY| != |ROUTING_KEY_FAILURE|;
  }

  /** The broker client: everything sent through it, in order. */
  class RabbitTemplate {
    var sent: seq<Message>

    constructor ()
      ensures sent == []
    {
      sent := [];
    }

    method ConvertAndSend(exchange: string, routingKey: string, payload: Event)
      modifies this
      ensures sent == old(sent) + [Message(exchange, routingKey, payload)]
    {
      sent := sent + [Message(exchange, routingKey, payload)];
    }
  }

  /**
   * The publisher keeps no mutable state of its own: its one field is the broker
   * client it was built with, and each call appends exactly one message there.
   */
  class UserEventPublisher {
    const rabbitTemplate: RabbitTemplate

    constructor (rabbitTemplate: RabbitTemplate)
      ensures this.rabbitTemplate == rabbitTemplate
    {
      this.rabbitTemplate := rabbitTemplate;
    }

    method PublishUserCreatedEvent(event: Event)
      requires event.UserCreated?
      modifies rabbitTemplate
      ensures rabbitTemplate.sent == old(rabbitTemplate.sent) + [Message(EXCHANGE_NAME, ROUTING_KEY, event)]
      ensures rabbitTemplate.sent == old(rabbitTemplate.sent) + [Envelope(event)]
    {
      rabbitTemplate.ConvertAndSend(EXCHANGE_NAME, ROUTING_KEY, event);
    }

    method PublishUserCreationFailedEvent(event: Event)
      requires event.UserCreationFailed?
      modifies rabbitTemplate
      ensures rabbitTemplate.sent == old(rabbitTemplate.sent) + [Message(EXCHANGE_NAME, ROUTING_KEY_FAILURE, event)]
      ensures rabbitTemplate.sent == old(rabbitTemplate.sent) + [Envelope(event)]
    {
      rabbitTemplate.ConvertAndSend(EXCHANGE_NAME, ROUTING_KEY_FAILURE, event);
    }
  }
}
