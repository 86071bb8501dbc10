/** Relay control: commands for the relay board are packed 4-byte records sent over a
    serial link. The link's send and receive results arrive as parameters; the frames
    handed to it are recorded. */
module Relays {
  import opened Common

  const TOGGLE_RELAY: byte := 1
  const GET_RELAY_STATE: byte := 2

  /** Relay types: 10 A with four switches, and 30 A with two. */
  const LOW_DUTY: byte := 1
  const HEAVY_DUTY: byte := 2

  /** The packed record, in wire order. */
  datatype RelayCommand = RelayCommand(command: byte, relayType: byte, port: byte, state: byte)

  /** The four bytes of a command as the packed struct lays them out. */
  function Encode(c: RelayCommand): (b: seq<byte>)
    ensures |b| == 4
  {
    [c.command, c.relayType, c.port, c.state]
  }

  function Decode(b: seq<byte>): RelayCommand
    requires |b| == 4
  {
    RelayCommand(b[0], b[1], b[2], b[3])
  }

  lemma DecodeEncode(c: RelayCommand)
    ensures Decode(Encode(c)) == c
  {
  }

  lemma EncodeDecode(b: seq<byte>)
    requires |b| == 4
    ensures Encode(Decode(b)) == b
  {
  }

  class RelayControl {
    var hasSerialModule: bool
    var initialized: bool
    /** Frames handed to the serial link, oldest first. */
    var sent: seq<seq<byte>>

    constructor ()
      ensures !hasSerialModule && !initialized && sent == []
    {
      hasSerialModule, initialized, sent := false, false, [];
    }

    /** Takes the serial module; a missing one is refused and nothing changes. */
    method Init(modulePresent: bool) returns (ok: bool)
      modifies this
      ensures ok == modulePresent
      ensures ok ==> hasSerialModule && initialized
      ensures !ok ==> hasSerialModule == old(hasSerialModule) && initialized == old(initialized)
      ensures sent == old(sent)
    {
      if !modulePresent {
        return false;
      }
      hasSerialModule := true;
      initialized := true;
      return true;
    }

    /** Sends {TOGGLE_RELAY, type, port, state}; the answer is the link's (`sendOk`).
        Before `init` nothing is sent and the answer is false. */
    method ToggleRelay(relayType: byte, port: byte, state: byte, sendOk: bool) returns (ok: bool)
      modifies this
      ensures !old(initialized) ==> !ok && sent == old(sent)
      ensures old(initialized) ==>
                ok == sendOk && sent == old(sent) + [Encode(RelayCommand(TOGGLE_RELAY, relayType, port, state))]
      ensures hasSerialModule == old(hasSerialModule) && initialized == old(initialized)
    {
      if !initialized {
        return false;
      }
      var cmd := RelayCommand(TOGGLE_RELAY, relayType, port, state);
      sent := sent + [Encode(cmd)];
      return sendOk;
    }

    /** Sends {GET_RELAY_STATE, type, port, 0}. */
    method GetRelayState(relayType: byte, port: byte, sendOk: bool) returns (ok: bool)
      modifies this
      ensures !old(initialized) ==> !ok && sent == old(sent)
      ensures old(initialized) ==>
                ok == sendOk && sent == old(sent) + [Encode(RelayCommand(GET_RELAY_STATE, relayType, port, 0))]
      ensures hasSerialModule == old(hasSerialModule) && initialized == old(initialized)
    {
      if !initialized {
        return false;
      }
      var cmd := RelayCommand(GET_RELAY_STATE, relayType, port, 0);
      sent := sent + [Encode(cmd)];
      return sendOk;
    }

    /** Takes one response if the link has one: true for any response received, whatever
        its command. */
    method HandleResponses(available: bool, received: Option<seq<byte>>) returns (handled: bool)
      requires received.Some? ==> |received.value| == 4
      ensures handled <==> initialized && available && received.Some?
    {
      if !initialized || !available {
        return false;
      }
      if received.Some? {
        var response := Decode(received.value);
        if response.command == GET_RELAY_STATE {
          return true;
        }
        return true;
      }
      return false;
    }
  }

  /** The relay board reads back exactly the toggle that was requested. */
  lemma ToggleFrameCarriesRequest(relayType: byte, port: byte, state: byte)
    ensures var c := Decode(Encode(RelayCommand(TOGGLE_RELAY, relayType, port, state)));
            c.command == TOGGLE_RELAY && c.relayType == relayType && c.port == port && c.state == state
  {
    DecodeEncode(RelayCommand(TOGGLE_RELAY, relayType, port, state));
  }
}
