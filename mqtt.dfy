/** The broker connection as the core sees it: a record of what was published and
    subscribed, and how often the client was polled. Connecting, reconnecting and the
    wire protocol belong to the MQTT client library and are not modelled. */
module Mqtt {
  import opened Common

  /** What a publication carries. Protobuf-encoded payloads are kept as the message
      they encode. */
  datatype Payload =
    | Text(text: string)
    | RegisterResponse(requestId: string, uid: seq<byte>)
    | RelayStateSync
    | ClimateData(sensorId: byte)
    | LdrData(sensorId: byte, value: uint32)
    | RelayState(relayType: byte, port: byte, level: byte)

  datatype Publication = Publication(topic: string, payload: Payload)

  class MqttManager {
    var published: seq<Publication>
    var subscriptions: seq<string>
    var polls: nat

    constructor ()
      ensures published == [] && subscriptions == [] && polls == 0
    {
      published, subscriptions, polls := [], [], 0;
    }

    method Publish(topic: string, payload: Payload)
      modifies this
      ensures published == old(published) + [Publication(topic, payload)]
      ensures subscriptions == old(subscriptions) && polls == old(polls)
    {
      published := published + [Publication(topic, payload)];
    }

    method Subscribe(topic: string)
      modifies this
      ensures subscriptions == old(subscriptions) + [topic]
      ensures published == old(published) && polls == old(polls)
    {
      subscriptions := subscriptions + [topic];
    }

    /** One poll of the client (`mqtt->update()`); inbound messages it delivers are
        modelled as separate calls of the monitor's message handler. */
    method Update()
      modifies this
      ensures polls == old(polls) + 1
      ensures published == old(published) && subscriptions == old(subscriptions)
    {
      polls := polls + 1;
    }
  }
}
