/** The analog/digital multiplexer: `n` select pins choose one of `2^n` channels, and the
    signal pin reads or writes the chosen channel. Pin operations on the board are
    recorded as events; `digitalRead` is a parameter. */
module Multiplexer {

  datatype MuxMode = DIGITAL | ANALOG
  datatype SignalMode = MUX_INPUT | MUX_OUTPUT

  /** A call into the board's pin API. */
  datatype PinEvent =
    | PinMode(pin: int, output: bool)
    | DigitalWrite(pin: int, level: int)
    | AnalogWrite(pin: int, value: int)

  /** `2^n`, what `pow(2, n)` computes exactly for the small `n` used. */
  function Pow2(n: nat): (r: nat)
    ensures r >= 1
  {
    if n == 0 then 1 else 2 * Pow2(n - 1)
  }

  /** `channel >> i` for a non-negative channel. */
  function Shr(ch: nat, i: nat): nat {
    if i == 0 then ch else Shr(ch, i - 1) / 2
  }

  /** `(channel >> i) & 1`. */
  function Bit(ch: nat, i: nat): (b: nat)
    ensures b <= 1
  {
    Shr(ch, i) % 2
  }

  /** The levels written to the select pins for channel `ch`, pin 0 first. */
  function SelectLevels(ch: nat, n: nat): (r: seq<nat>)
    ensures |r| == n
  {
    seq(n, i requires 0 <= i < n => Bit(ch, i))
  }

  /** The channel a pattern of select levels chooses: pin `i` has weight `2^i`. */
  function Channel(levels: seq<nat>): nat {
    if levels == [] then 0 else levels[0] + 2 * Channel(levels[1..])
  }

  /** Shifting by one more is shifting the halved channel. */
  lemma {:induction false} ShrOfHalf(ch: nat, i: nat)
    ensures Shr(ch / 2, i) == Shr(ch, i + 1)
  {
    if i > 0 {
      ShrOfHalf(ch, i - 1);
    }
  }

  /** The select levels of `ch` are its lowest bit followed by the select levels of `ch / 2`. */
  lemma SelectLevelsStep(ch: nat, n: nat)
    requires n > 0
    ensures SelectLevels(ch, n)[1..] == SelectLevels(ch / 2, n - 1)
  {
    forall i | 0 <= i < n - 1
      ensures SelectLevels(ch, n)[1..][i] == SelectLevels(ch / 2, n - 1)[i]
    {
      ShrOfHalf(ch, i);
    }
  }

  /** The pins spell out the channel in binary: reading them back gives the channel. */
  lemma {:induction false} SelectLevelsEncodeChannel(ch: nat, n: nat)
    requires ch < Pow2(n)
    ensures Channel(SelectLevels(ch, n)) == ch
  {
    if n > 0 {
      SelectLevelsStep(ch, n);
      SelectLevelsEncodeChannel(ch / 2, n - 1);
      assert SelectLevels(ch, n)[0] == ch % 2;
    }
  }

  /** Two different channels never drive the select pins alike. */
  lemma DistinctChannelsDistinctLevels(a: nat, b: nat, n: nat)
    requires a < Pow2(n) && b < Pow2(n) && a != b
    ensures SelectLevels(a, n) != SelectLevels(b, n)
  {
    SelectLevelsEncodeChannel(a, n);
    SelectLevelsEncodeChannel(b, n);
  }

  /** The events of `channel(ch)`: one digital write per select pin, pin 0 first. */
  function SelectWrites(pins: seq<int>, ch: nat, n: nat): (r: seq<PinEvent>)
    requires n <= |pins|
    ensures |r| == n
    ensures forall i :: 0 <= i < n ==> r[i] == DigitalWrite(pins[i], SelectLevels(ch, n)[i])
  {
    seq(n, i requires 0 <= i < n => DigitalWrite(pins[i], Bit(ch, i)))
  }

  /** What a mux is wired to and how far it is set up: the part of its state that selecting
      a channel, changing modes and writing leave alone. */
  datatype Wiring = Wiring(initialized: bool, muxSize: nat, pins: seq<int>, pinsSize: nat, signalPin: int)

  class Mux {
    var signalPin: int
    var selectionPins: seq<int>
    var selectionPinsSize: nat
    var selectedChannel: int
    var muxSize: nat
    var initialized: bool
    var mode: MuxMode
    var signal: SignalMode
    var events: seq<PinEvent>

    ghost predicate Valid()
      reads this
    {
      selectionPinsSize <= |selectionPins|
    }

    constructor ()
      ensures Valid() && !initialized && selectedChannel == -1 && muxSize == 0
      ensures signalPin == -1 && selectionPins == [] && selectionPinsSize == 0 && events == []
    {
      signalPin, selectionPins, selectionPinsSize := -1, [], 0;
      selectedChannel, muxSize, initialized := -1, 0, false;
      mode, signal := DIGITAL, MUX_INPUT;
      events := [];
    }

    /** Takes the pins and modes, makes the signal pin an output only for a digital output
        and every select pin an output, and enables `2^size` channels. */
    method Init(signalPin: int, selectionPins: seq<int>, size: nat, mode: MuxMode, signal: SignalMode)
      requires size <= |selectionPins|
      modifies this
      ensures Valid() && initialized && muxSize == Pow2(size)
      ensures this.signalPin == signalPin && this.selectionPins == selectionPins
      ensures selectionPinsSize == size && this.mode == mode && this.signal == signal
      ensures selectedChannel == old(selectedChannel)
      ensures events == old(events)
                + [PinMode(signalPin, mode == DIGITAL && signal == MUX_OUTPUT)]
                + seq(size, i requires 0 <= i < size => PinMode(selectionPins[i], true))
    {
      this.signalPin := signalPin;
      this.selectionPins := selectionPins;
      this.selectionPinsSize := size;
      this.mode := mode;
      this.signal := signal;
      muxSize := Pow2(size);
      if mode == DIGITAL && signal == MUX_OUTPUT {
        events := events + [PinMode(signalPin, true)];
      } else {
        events := events + [PinMode(signalPin, false)];
      }
      ghost var before := events;
      var i := 0;
      while i < size
        invariant 0 <= i <= size
        invariant events == before + seq(i, k requires 0 <= k < i => PinMode(selectionPins[k], true))
        invariant selectedChannel == old(selectedChannel) && muxSize == Pow2(size)
        invariant this.signalPin == signalPin && this.selectionPins == selectionPins
        invariant selectionPinsSize == size && this.mode == mode && this.signal == signal
      {
        events := events + [PinMode(selectionPins[i], true)];
        i := i + 1;
      }
      initialized := true;
    }

    /** Selects `ch` when initialised and `0 <= ch < 2^n`, writing its binary digits to the
        select pins; otherwise nothing happens. */
    method SelectChannel(ch: int)
      requires Valid()
      modifies this
      ensures Valid()
      ensures (!initialized || ch < 0 || ch >= muxSize) ==>
                selectedChannel == old(selectedChannel) && events == old(events)
      ensures (initialized && 0 <= ch < muxSize) ==>
                selectedChannel == ch
                && events == old(events) + SelectWrites(selectionPins, ch, selectionPinsSize)
      ensures signalPin == old(signalPin) && selectionPins == old(selectionPins)
      ensures selectionPinsSize == old(selectionPinsSize) && muxSize == old(muxSize)
      ensures initialized == old(initialized) && mode == old(mode) && signal == old(signal)
    {
      if !initialized || ch < 0 || ch >= muxSize {
        return;
      }
      selectedChannel := ch;
      var i := 0;
      while i < selectionPinsSize
        invariant 0 <= i <= selectionPinsSize
        invariant signalPin == old(signalPin) && selectionPins == old(selectionPins)
        invariant selectionPinsSize == old(selectionPinsSize) && muxSize == old(muxSize)
        invariant events == old(events) + SelectWrites(selectionPins, ch, i)
        invariant selectedChannel == ch && initialized
        invariant mode == old(mode) && signal == old(signal)
      {
        var bit := Shr(ch, i) % 2;
        events := events + [DigitalWrite(selectionPins[i], bit)];
        i := i + 1;
      }
    }

    method MMode(m: MuxMode)
      modifies this
      ensures mode == m
      ensures signal == old(signal) && initialized == old(initialized) && selectedChannel == old(selectedChannel)
      ensures signalPin == old(signalPin) && selectionPins == old(selectionPins)
      ensures selectionPinsSize == old(selectionPinsSize) && muxSize == old(muxSize) && events == old(events)
    {
      mode := m;
    }

    method SMode(s: SignalMode)
      modifies this
      ensures signal == s
      ensures mode == old(mode) && initialized == old(initialized) && selectedChannel == old(selectedChannel)
      ensures signalPin == old(signalPin) && selectionPins == old(selectionPins)
      ensures selectionPinsSize == old(selectionPinsSize) && muxSize == old(muxSize) && events == old(events)
    {
      signal := s;
    }

    /** Reads the signal pin (whose level is `pinLevel`) only for an initialised digital
        input; 0 otherwise. */
    method Read(pinLevel: int) returns (r: int)
      ensures r == (if initialized && mode == DIGITAL && signal == MUX_INPUT then pinLevel else 0)
    {
      if !initialized || mode != DIGITAL || signal != MUX_INPUT {
        return 0;
      }
      return pinLevel;
    }

    /** Writes `value` to the signal pin: a digital write for a digital output, an analog
        write in every other mode; nothing before `init`. */
    method Write(value: int)
      modifies this
      ensures !initialized ==> events == old(events)
      ensures initialized ==>
                events == old(events) + [if mode == DIGITAL && signal == MUX_OUTPUT
                                         then DigitalWrite(signalPin, value)
                                         else AnalogWrite(signalPin, value)]
      ensures signal == old(signal) && mode == old(mode) && initialized == old(initialized)
      ensures selectedChannel == old(selectedChannel) && signalPin == old(signalPin)
      ensures selectionPins == old(selectionPins) && selectionPinsSize == old(selectionPinsSize)
      ensures muxSize == old(muxSize)
    {
      if !initialized {
        return;
      }
      if mode == DIGITAL && signal == MUX_OUTPUT {
        events := events + [DigitalWrite(signalPin, value)];
      } else {
        events := events + [AnalogWrite(signalPin, value)];
      }
    }

    function CurrentWiring(): (w: Wiring)
      reads this
      ensures Valid() ==> w.pinsSize <= |w.pins|
    {
      Wiring(initialized, muxSize, selectionPins, selectionPinsSize, signalPin)
    }

    function GetSelectedChannel(): int
      reads this
    {
      selectedChannel
    }

    function GetSignalPin(): int
      reads this
    {
      signalPin
    }
  }
}
