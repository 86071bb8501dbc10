/** The RFID whitelist service: it holds the UID most recently read from a card and, on
    its next update, either answers whether that UID is whitelisted (authentication mode)
    or stores it and announces the registration (registration mode, for one card only). */
module WhitelistManager {
  import opened Common
  import opened WhitelistStore
  import opened Mqtt

  const AUTH_TOPIC: string := "device/uid/authenticated"

  datatype WhiteListMode = AUTHENTICATION | REGISTRATION

  /** The topic a registration is announced on. */
  function RegistrationTopic(deviceUid: string): string {
    "arduino/" + deviceUid + "/rfid"
  }

  class WhiteListManager {
    var deviceUid: string
    var registrationRequestId: string
    var mqtt: MqttManager?
    var mode: WhiteListMode
    const uidBuffer: array<byte>
    var uidLength: nat
    var newUidReceived: bool
    var awaitingResponse: bool

    /** The buffer holds `MAX_UID_LENGTH` bytes, and `update` clears the "awaiting response"
        flag in the same call that sets it, so no caller ever sees it set. */
    ghost predicate Valid()
      reads this
    {
      uidBuffer.Length == MAX_UID_LENGTH && uidLength <= MAX_UID_LENGTH && !awaitingResponse
    }

    /** The UID waiting to be handled by `Update`. */
    function PendingUid(): seq<byte>
      requires Valid()
      reads this, uidBuffer
    {
      uidBuffer[..uidLength]
    }

    constructor ()
      ensures Valid() && fresh(uidBuffer)
      ensures deviceUid == "" && registrationRequestId == "" && mqtt == null
      ensures mode == AUTHENTICATION && uidLength == 0 && !newUidReceived
    {
      deviceUid, registrationRequestId, mqtt := "", "", null;
      mode := AUTHENTICATION;
      uidBuffer := new byte[MAX_UID_LENGTH](_ => 0);
      uidLength, newUidReceived, awaitingResponse := 0, false, false;
    }

    method Init(mqttManager: MqttManager, uid: string)
      requires Valid()
      modifies this
      ensures Valid() && mqtt == mqttManager && deviceUid == uid
      ensures registrationRequestId == old(registrationRequestId) && mode == old(mode)
      ensures uidLength == old(uidLength) && newUidReceived == old(newUidReceived)
    {
      deviceUid := uid;
      mqtt := mqttManager;
    }

    method SetModeRegistration()
      requires Valid()
      modifies this
      ensures Valid() && mode == REGISTRATION
      ensures deviceUid == old(deviceUid) && registrationRequestId == old(registrationRequestId)
      ensures mqtt == old(mqtt) && uidLength == old(uidLength) && newUidReceived == old(newUidReceived)
    {
      mode := REGISTRATION;
    }

    /** Takes a UID read from a card: a UID longer than `MAX_UID_LENGTH` is ignored;
        otherwise it is copied into the buffer and marked for the next update. */
    method SetUid(uid: seq<byte>)
      requires Valid()
      modifies this, uidBuffer
      ensures Valid()
      ensures |uid| > MAX_UID_LENGTH ==>
                uidBuffer[..] == old(uidBuffer[..]) && uidLength == old(uidLength)
                && newUidReceived == old(newUidReceived)
      ensures |uid| <= MAX_UID_LENGTH ==>
                PendingUid() == uid && newUidReceived
                && uidBuffer[|uid|..] == old(uidBuffer[|uid|..])
      ensures deviceUid == old(deviceUid) && registrationRequestId == old(registrationRequestId)
      ensures mqtt == old(mqtt) && mode == old(mode)
    {
      if |uid| > MAX_UID_LENGTH {
        return;
      }
      forall i | 0 <= i < |uid| {
        uidBuffer[i] := uid[i];
      }
      uidLength := |uid|;
      newUidReceived := true;
    }

    method ResetResponse()
      requires Valid()
      modifies this
      ensures Valid() && !awaitingResponse
      ensures deviceUid == old(deviceUid) && registrationRequestId == old(registrationRequestId)
      ensures mqtt == old(mqtt) && mode == old(mode)
      ensures uidLength == old(uidLength) && newUidReceived == old(newUidReceived)
    {
      awaitingResponse := false;
    }

    method SetRegistrationRequestId(id: string)
      requires Valid()
      modifies this
      ensures Valid() && registrationRequestId == id
      ensures deviceUid == old(deviceUid) && mqtt == old(mqtt) && mode == old(mode)
      ensures uidLength == old(uidLength) && newUidReceived == old(newUidReceived)
    {
      registrationRequestId := id;
    }

    /** Whether a registration is waiting for its answer: never, between calls. */
    function GetResponse(): (r: bool)
      requires Valid()
      reads this
      ensures !r
    {
      awaitingResponse
    }

    function GetMode(): WhiteListMode
      reads this
    {
      mode
    }

    /** Handles the pending UID, if any. In authentication mode it publishes "true" or
        "false" on the authentication topic. In registration mode a UID already whitelisted
        is left alone; any other is saved (when there is room) and announced on the
        device's RFID topic, unless encoding the announcement fails. Either way the mode
        returns to authentication and the UID stops being pending. */
    method Update(ee: Eeprom, encodeOk: bool)
      requires Valid() && ee.Valid()
      requires newUidReceived ==> mqtt != null
      modifies this, ee, mqtt
      ensures Valid() && ee.Valid() && !newUidReceived
      ensures uidBuffer[..] == old(uidBuffer[..]) && uidLength == old(uidLength)
      ensures deviceUid == old(deviceUid) && registrationRequestId == old(registrationRequestId)
      ensures mqtt == old(mqtt)
      ensures mqtt != null ==> mqtt.subscriptions == old(mqtt.subscriptions) && mqtt.polls == old(mqtt.polls)
      ensures !old(newUidReceived) ==>
                mode == old(mode) && ee.data == old(ee.data)
                && (mqtt != null ==> mqtt.published == old(mqtt.published))
      ensures old(newUidReceived) && old(mode) == AUTHENTICATION ==>
                mode == AUTHENTICATION && ee.data == old(ee.data)
                && mqtt.published == old(mqtt.published) + [Publication(AUTH_TOPIC,
                     Text(if Whitelisted(old(ee.data), PendingUid()) then "true" else "false"))]
      ensures old(newUidReceived) && old(mode) == REGISTRATION ==>
                mode == AUTHENTICATION
                && (Whitelisted(old(ee.data), PendingUid()) ==>
                      ee.data == old(ee.data) && mqtt.published == old(mqtt.published))
                && (!Whitelisted(old(ee.data), PendingUid()) ==>
                      ee.data == Insert(old(ee.data), PendingUid())
                      && mqtt.published == old(mqtt.published)
                           + (if encodeOk
                              then [Publication(RegistrationTopic(deviceUid),
                                                RegisterResponse(registrationRequestId, PendingUid()))]
                              else []))
    {
      if !newUidReceived {
        return;
      }
      var uid := uidBuffer[..uidLength];
      match mode {
        case AUTHENTICATION =>
          var known := IsWhitelisted(ee, uid);
          if known {
            mqtt.Publish(AUTH_TOPIC, Text("true"));
          } else {
            mqtt.Publish(AUTH_TOPIC, Text("false"));
          }
        case REGISTRATION =>
          awaitingResponse := true;
          var known := IsWhitelisted(ee, uid);
          if known {
            mode := AUTHENTICATION;
            awaitingResponse := false;
          } else {
            SaveToEeprom(ee, uid);
            PublishUidForRegistration(encodeOk);
            mode := AUTHENTICATION;
            awaitingResponse := false;
          }
      }
      newUidReceived := false;
    }

    /** Publishes the pending UID with the registration request id; `encodeOk` is whether
        the protobuf encoding into the 256-byte buffer succeeded. */
    method PublishUidForRegistration(encodeOk: bool)
      requires uidBuffer.Length == MAX_UID_LENGTH && uidLength <= MAX_UID_LENGTH && mqtt != null
      modifies mqtt
      ensures mqtt.published == old(mqtt.published)
                + (if encodeOk
                   then [Publication(RegistrationTopic(deviceUid),
                                     RegisterResponse(registrationRequestId, uidBuffer[..uidLength]))]
                   else [])
      ensures mqtt.subscriptions == old(mqtt.subscriptions) && mqtt.polls == old(mqtt.polls)
    {
      if !encodeOk {
        return;
      }
      mqtt.Publish(RegistrationTopic(deviceUid),
                   RegisterResponse(registrationRequestId, uidBuffer[..uidLength]));
    }
  }
}
