/** The door security service: a card read starts an asynchronous authentication, a
    registration request starts an asynchronous registration, and `Handle` ends each of
    them when the authenticator answers or 5000 ms have passed, unlocking or locking the
    door on success. The reader, the lock and the authenticator are collaborators whose
    answers arrive as parameters; the calls made on the lock are recorded. */
module SecurityService {
  import opened Common

  /** Milliseconds after which a pending operation is given up waiting for. */
  const TIMEOUT: uint32 := 5000

  /** A call made on the lock. `NullLock` stands for a call through a lock pointer that
      was never set, which the firmware makes when reader initialisation failed. */
  datatype LockCall = LockHandle | Unlock | Lock | NullLock

  /** Whether a pending operation ends now: it is pending, and either the answer is there
      or the unsigned 32-bit time since the shared start time has reached the timeout. */
  predicate Ends(pending: bool, responseAvailable: bool, now: uint32, start: uint32) {
    pending && (responseAvailable || Elapsed(now, start) >= TIMEOUT)
  }

  /** The calls one `handle` makes on the lock: the lock's own `handle` when there is a
      lock, then an unlock for an authentication that ends successfully, then a lock for a
      registration that ends successfully, each through the missing lock when there is none. */
  function HandleCalls(hasLock: bool, auth: bool, register: bool, start: uint32, now: uint32,
                       authAvailable: bool, registerAvailable: bool, authOk: bool, registerOk: bool)
    : (r: seq<LockCall>)
    ensures |r| <= 3
    ensures LockHandle in r <==> hasLock
    ensures Unlock in r <==> hasLock && Ends(auth, authAvailable, now, start) && authOk
    ensures Lock in r <==> hasLock && Ends(register, registerAvailable, now, start) && registerOk
    ensures NullLock in r <==> !hasLock && ((Ends(auth, authAvailable, now, start) && authOk)
                                            || (Ends(register, registerAvailable, now, start) && registerOk))
  {
    (if hasLock then [LockHandle] else [])
    + (if Ends(auth, authAvailable, now, start) && authOk then [if hasLock then Unlock else NullLock] else [])
    + (if Ends(register, registerAvailable, now, start) && registerOk then [if hasLock then Lock else NullLock]
       else [])
  }

  class Security {
    var hasRfid: bool
    var hasLock: bool
    var hasAuthenticator: bool
    var awaitingAuth: bool
    var awaitingRegister: bool
    var startTime: uint32
    var lockCalls: seq<LockCall>

    /** An operation is only ever pending with a reader and an authenticator in place. */
    ghost predicate Valid()
      reads this
    {
      (awaitingAuth || awaitingRegister) ==> hasRfid && hasAuthenticator
    }

    constructor ()
      ensures Valid()
      ensures !hasRfid && !hasLock && !hasAuthenticator
      ensures !awaitingAuth && !awaitingRegister && startTime == 0 && lockCalls == []
    {
      hasRfid, hasLock, hasAuthenticator := false, false, false;
      awaitingAuth, awaitingRegister, startTime := false, false, 0;
      lockCalls := [];
    }

    /** Takes the authenticator, then creates and initialises the reader and the lock.
        It stops at the first failure: a missing authenticator leaves everything as it
        was, and a reader that fails to start leaves the lock never created. */
    method Init(authenticatorPresent: bool, rfidInitOk: bool, lockInitOk: bool) returns (ok: bool)
      requires Valid()
      modifies this
      ensures Valid()
      ensures ok <==> authenticatorPresent && rfidInitOk && lockInitOk
      ensures !authenticatorPresent ==>
                hasRfid == old(hasRfid) && hasLock == old(hasLock) && hasAuthenticator == old(hasAuthenticator)
      ensures authenticatorPresent ==>
                hasAuthenticator && hasRfid && (hasLock <==> rfidInitOk || old(hasLock))
      ensures awaitingAuth == old(awaitingAuth) && awaitingRegister == old(awaitingRegister)
      ensures startTime == old(startTime) && lockCalls == old(lockCalls)
    {
      if !authenticatorPresent {
        return false;
      }
      hasAuthenticator := true;
      hasRfid := true;
      if !rfidInitOk {
        return false;
      }
      hasLock := true;
      return lockInitOk;
    }

    /** Polls the reader. With a reader and an authenticator and nothing pending, a card
        read starts an authentication at `now` and answers true, whatever the
        authenticator said about the card (`accepted`). */
    method ReadCard(now: uint32, cardRead: bool, accepted: bool) returns (started: bool)
      requires Valid()
      modifies this
      ensures Valid()
      ensures started <==> hasRfid && hasAuthenticator && !old(awaitingAuth) && !old(awaitingRegister) && cardRead
      ensures started ==> awaitingAuth && startTime == now
      ensures !started ==> awaitingAuth == old(awaitingAuth) && startTime == old(startTime)
      ensures awaitingRegister == old(awaitingRegister) && lockCalls == old(lockCalls)
      ensures hasRfid == old(hasRfid) && hasLock == old(hasLock) && hasAuthenticator == old(hasAuthenticator)
    {
      if !hasRfid || !hasAuthenticator || awaitingAuth || awaitingRegister {
        return false;
      }
      if cardRead {
        if accepted {
          awaitingAuth := true;
          startTime := now;
          return true;
        }
        awaitingAuth := true;
        startTime := now;
        return true;
      }
      return false;
    }

    /** Polls the reader for a card to register. Only a pending registration blocks it,
        so it may start while an authentication is pending, and then restarts the shared
        start time for both. */
    method RegisterUid(now: uint32, cardRead: bool, accepted: bool)
      requires Valid()
      modifies this
      ensures Valid()
      ensures var starts := hasRfid && hasAuthenticator && !old(awaitingRegister) && cardRead && accepted;
              (starts ==> awaitingRegister && startTime == now)
              && (!starts ==> awaitingRegister == old(awaitingRegister) && startTime == old(startTime))
      ensures awaitingAuth == old(awaitingAuth) && lockCalls == old(lockCalls)
      ensures hasRfid == old(hasRfid) && hasLock == old(hasLock) && hasAuthenticator == old(hasAuthenticator)
    {
      if !hasRfid || !hasAuthenticator || awaitingRegister {
        return;
      }
      if cardRead {
        if accepted {
          awaitingRegister := true;
          startTime := now;
        }
      }
    }

    /** Lets the lock run, then ends each pending operation whose answer is there or whose
        time is up: a successful authentication unlocks the door, a successful
        registration locks it. It never starts an operation. */
    method Handle(now: uint32, authResponseAvailable: bool, registerResponseAvailable: bool,
                  lastAuthOk: bool, lastRegisterOk: bool)
      requires Valid()
      modifies this
      ensures Valid()
      ensures awaitingAuth == (old(awaitingAuth) && !Ends(old(awaitingAuth), authResponseAvailable, now, startTime))
      ensures awaitingRegister == (old(awaitingRegister)
                                   && !Ends(old(awaitingRegister), registerResponseAvailable, now, startTime))
      ensures lockCalls == old(lockCalls)
                + HandleCalls(hasLock, old(awaitingAuth), old(awaitingRegister), startTime, now,
                              authResponseAvailable, registerResponseAvailable, lastAuthOk, lastRegisterOk)
      ensures startTime == old(startTime)
      ensures hasRfid == old(hasRfid) && hasLock == old(hasLock) && hasAuthenticator == old(hasAuthenticator)
    {
      ghost var handleCall: seq<LockCall> := if hasLock then [LockHandle] else [];
      ghost var unlockCall: seq<LockCall> :=
        if Ends(awaitingAuth, authResponseAvailable, now, startTime) && lastAuthOk
        then [if hasLock then Unlock else NullLock] else [];
      ghost var lockCall: seq<LockCall> :=
        if Ends(awaitingRegister, registerResponseAvailable, now, startTime) && lastRegisterOk
        then [if hasLock then Lock else NullLock] else [];
      if hasLock {
        lockCalls := lockCalls + [LockHandle];
      }
      assert lockCalls == old(lockCalls) + handleCall;
      if awaitingAuth {
        if authResponseAvailable || Elapsed(now, startTime) >= TIMEOUT {
          awaitingAuth := false;
          if lastAuthOk {
            lockCalls := lockCalls + [if hasLock then Unlock else NullLock];
          }
        }
      }
      if awaitingRegister {
        if registerResponseAvailable || Elapsed(now, startTime) >= TIMEOUT {
          awaitingRegister := false;
          if lastRegisterOk {
            lockCalls := lockCalls + [if hasLock then Lock else NullLock];
          }
        }
      }
      assert lockCalls == old(lockCalls) + handleCall + unlockCall + lockCall;
      AppendAssoc(old(lockCalls), handleCall, unlockCall);
      AppendAssoc(old(lockCalls), handleCall + unlockCall, lockCall);
      assert HandleCalls(hasLock, old(awaitingAuth), old(awaitingRegister), startTime, now, authResponseAvailable,
                         registerResponseAvailable, lastAuthOk, lastRegisterOk)
          == handleCall + unlockCall + lockCall;
    }
  }

  /** With the reader up, a card read and then a registration request leave both
      operations pending at once: nothing in the firmware keeps them exclusive. */
  method BothOperationsPending(now: uint32) returns (auth: bool, register: bool)
    ensures auth && register
  {
    var s := new Security();
    var ok := s.Init(true, true, true);
    var started := s.ReadCard(now, true, false);
    s.RegisterUid(now, true, true);
    auth, register := s.awaitingAuth, s.awaitingRegister;
  }

  /** A registration started 1000 ms after an authentication moves the authentication's
      deadline too: 5000 ms after the card read, the authentication is still pending. */
  method RegistrationDelaysAuthTimeout(t: uint32) returns (stillPending: bool)
    requires t + 5000 < UINT32_MODULUS
    ensures stillPending
  {
    var s := new Security();
    var ok := s.Init(true, true, true);
    var started := s.ReadCard(t, true, true);
    s.RegisterUid(t + 1000, true, true);
    s.Handle(t + 5000, false, false, true, true);
    stillPending := s.awaitingAuth;
  }

  /** When the reader fails to start, the lock is never created, yet a card read can still
      start an authentication, and its success then makes a call through the missing lock. */
  method UnlockWithoutLock(t: uint32) returns (calls: seq<LockCall>)
    ensures calls == [NullLock]
  {
    var s := new Security();
    var ok := s.Init(true, false, true);
    var started := s.ReadCard(t, true, true);
    s.Handle(t, true, false, true, false);
    calls := s.lockCalls;
  }
}
