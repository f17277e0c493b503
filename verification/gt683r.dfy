/**
 * The MSI GT683R LED driver: three panels with a brightness each, a device
 * mode exposed through a sysfs attribute, and the work step that turns both
 * into a "set leds" and a "set mode" buffer.
 *
 * The buffers are handed to the message routine, which is not part of this
 * model: it never reads the buffer it is handed and sends hard-coded and
 * randomised exploratory packets instead. Its constant return value 0 is
 * modelled. Buffer allocation may fail, so whether
 * each `kzalloc` succeeds is a parameter.
 */
module Gt683r {
  import opened Wrappers
  import opened Bytes

  /** `GT683R_BUFFER_SIZE` */
  const BufferSize: nat := 8

  /** `GT683R_LED_COUNT`: the back, side and front panels. */
  const PanelCount: nat := 3

  const EINVAL: int := 22
  const ENOMEM: int := 12

  /** `enum gt683r_led_mode`, with the values the device expects. */
  datatype Mode = Off | Audio | Breathing | Normal {

    function Value(): uint8 {
      match this
      case Off => 0
      case Audio => 2
      case Breathing => 3
      case Normal => 5
    }
  }

  /** Driver state: the brightness of each panel, indexed by `enum gt683r_panels`, and the mode. */
  datatype State = State(brightnesses: seq<nat>, mode: Mode)

  predicate Valid(s: State) {
    |s.brightnesses| == PanelCount
  }

  /** State after probe: zeroed brightnesses and the normal mode. */
  function Probe(): (s: State)
    ensures Valid(s) && s.mode == Normal
    ensures forall i :: 0 <= i < PanelCount ==> s.brightnesses[i] == 0
  {
    State([0, 0, 0], Normal)
  }

  /**
   * `gt683r_brightness_set`: record the brightness of the panel whose class
   * device was passed (its index); a device that matches no panel changes nothing.
   */
  function BrightnessSet(s: State, cdev: int, brightness: nat): (r: State)
    requires Valid(s)
    ensures Valid(r) && r.mode == s.mode
    ensures 0 <= cdev < PanelCount ==> r.brightnesses[cdev] == brightness
    ensures forall i :: 0 <= i < PanelCount && i != cdev ==> r.brightnesses[i] == s.brightnesses[i]
    ensures !(0 <= cdev < PanelCount) ==> r == s
  {
    if 0 <= cdev < PanelCount then s.(brightnesses := s.brightnesses[cdev := brightness]) else s
  }

  /** `mode_show`: the sysfs value of a mode; every mode other than normal and audio reads as 2. */
  function ModeShow(m: Mode): (v: uint8)
    ensures v <= 2
    ensures v == 0 <==> m == Normal
    ensures v == 1 <==> m == Audio
  {
    if m == Normal then 0 else if m == Audio then 1 else 2
  }

  /** Repeated sets of one panel before a work step: the last write wins. */
  lemma BrightnessSetLastWriteWins(s: State, cdev: int, first: nat, second: nat)
    requires Valid(s)
    ensures BrightnessSet(BrightnessSet(s, cdev, first), cdev, second) == BrightnessSet(s, cdev, second)
  {
  }

  /** Sets of two different panels commute. */
  lemma BrightnessSetCommutes(s: State, i: int, j: int, a: nat, b: nat)
    requires Valid(s) && i != j
    ensures BrightnessSet(BrightnessSet(s, i, a), j, b) == BrightnessSet(BrightnessSet(s, j, b), i, a)
  {
  }

  /** The mode `mode_store` selects for an accepted sysfs value. */
  function ModeOfSysfs(v: uint8): (m: Mode)
    requires v <= 2
    ensures m != Off
    ensures v == 0 ==> m == Normal
    ensures v == 1 ==> m == Audio
    ensures v == 2 ==> m == Breathing
  {
    if v == 0 then Normal else if v == 1 then Audio else Breathing
  }

  /** The sysfs values 0, 1 and 2 select the device modes 5, 2 and 3. */
  lemma SysfsModeValues()
    ensures ModeOfSysfs(0) == Normal && ModeOfSysfs(0).Value() == 5
    ensures ModeOfSysfs(1) == Audio && ModeOfSysfs(1).Value() == 2
    ensures ModeOfSysfs(2) == Breathing && ModeOfSysfs(2).Value() == 3
  {
  }

  /** Reading back a stored value gives that value. */
  lemma ShowAfterStore(v: uint8)
    requires v <= 2
    ensures ModeShow(ModeOfSysfs(v)) == v
  {
  }

  /** Storing the shown value restores the mode exactly when the mode is not off. */
  lemma StoreAfterShow(m: Mode)
    ensures ModeOfSysfs(ModeShow(m)) == m <==> m != Off
  {
  }

  /** What `mode_store` leaves behind and returns. */
  datatype StoreResult = StoreResult(state: State, ret: int)

  /**
   * `mode_store`: `parsed` is the result of the decimal parse (`None` when
   * it fails). A failed parse or a value above 2 is rejected with `-EINVAL`
   * and changes nothing; otherwise the mode is set and the whole input
   * (`count` bytes) is consumed.
   */
  function ModeStore(s: State, parsed: Option<uint8>, count: nat): (r: StoreResult)
    ensures parsed.None? || parsed.value > 2 ==> r == StoreResult(s, -EINVAL)
    ensures parsed.Some? && parsed.value <= 2 ==>
              r.ret == count && r.state.brightnesses == s.brightnesses && r.state.mode != Off
              && ModeShow(r.state.mode) == parsed.value
  {
    match parsed
    case None => StoreResult(s, -EINVAL)
    case Some(v) =>
      if v > 2 then StoreResult(s, -EINVAL)
      else StoreResult(s.(mode := ModeOfSysfs(v)), count)
  }

  /** Bit `i` of `n`. */
  function Bit(n: nat, i: nat): bool {
    if i == 0 then n % 2 == 1 else Bit(n / 2, i - 1)
  }

  /** 2 to the power `i`. */
  function Pow2(i: nat): (p: nat)
    ensures p >= 1
  {
    if i == 0 then 1 else 2 * Pow2(i - 1)
  }

  /**
   * The `leds` mask of `gt683r_led_work`: `BIT(i)` for every panel `i` with a
   * non-zero brightness. The bits are disjoint, so or-ing them is adding them.
   */
  function PanelMask(br: seq<nat>): (m: nat)
    ensures m < Pow2(|br|)
  {
    if |br| == 0 then 0 else (if br[0] != 0 then 1 else 0) + 2 * PanelMask(br[1..])
  }

  /** Bit `i` of the mask is set exactly when panel `i` is lit. */
  lemma {:induction false} PanelMaskBits(br: seq<nat>, i: nat)
    requires i < |br|
    ensures Bit(PanelMask(br), i) <==> br[i] != 0
  {
    var m := PanelMask(br);
    var b := if br[0] != 0 then 1 else 0;
    assert m == b + 2 * PanelMask(br[1..]);
    if i == 0 {
      assert m % 2 == b;
    } else {
      assert m / 2 == PanelMask(br[1..]);
      PanelMaskBits(br[1..], i - 1);
    }
  }

  /** The mask is zero exactly when no panel is lit. */
  lemma {:induction false} PanelMaskZero(br: seq<nat>)
    ensures PanelMask(br) == 0 <==> forall i :: 0 <= i < |br| ==> br[i] == 0
  {
    if |br| > 0 {
      PanelMaskZero(br[1..]);
      if br[0] == 0 && PanelMask(br[1..]) == 0 {
        forall i | 0 <= i < |br| ensures br[i] == 0 {
          if i > 0 {
            assert br[i] == br[1..][i - 1];
          }
        }
      }
    }
  }

  /** The two commands the work step builds. */
  datatype GtCommand = SetLeds(leds: uint8) | SetMode(mode: uint8)

  /**
   * The 8-byte buffer for a command, zero-filled except for the written bytes:
   * `01 02 30 <leds> 00 00 00 00` or `01 02 20 <mode> 01 00 00 00`.
   */
  function EncodeGt(c: GtCommand): (p: seq<uint8>)
    ensures |p| == BufferSize && p[0] == 0x01 && p[1] == 0x02
    ensures p[2] == (if c.SetLeds? then 0x30 else 0x20)
    ensures p[4] == (if c.SetLeds? then 0x00 else 0x01)
    ensures p[3] == (match c case SetLeds(l) => l case SetMode(m) => m)
    ensures forall k :: 5 <= k < BufferSize ==> p[k] == 0
  {
    match c
    case SetLeds(leds) => [0x01, 0x02, 0x30, leds, 0x00, 0x00, 0x00, 0x00]
    case SetMode(mode) => [0x01, 0x02, 0x20, mode, 0x01, 0x00, 0x00, 0x00]
  }

  /** Reads a buffer back as a command; `None` for anything the builders cannot produce. */
  function DecodeGt(p: seq<uint8>): Option<GtCommand> {
    if |p| != BufferSize || p[0] != 0x01 || p[1] != 0x02 || p[5] != 0 || p[6] != 0 || p[7] != 0 then None
    else if p[2] == 0x30 && p[4] == 0x00 then Some(SetLeds(p[3]))
    else if p[2] == 0x20 && p[4] == 0x01 then Some(SetMode(p[3]))
    else None
  }

  /** Every command survives encoding and decoding. */
  lemma DecodeEncodeGt(c: GtCommand)
    ensures DecodeGt(EncodeGt(c)) == Some(c)
  {
  }

  /** Every buffer that decodes is the encoding of its command. */
  lemma EncodeDecodeGt(p: seq<uint8>)
    requires DecodeGt(p).Some?
    ensures EncodeGt(DecodeGt(p).value) == p
  {
  }

  /** Whether a `kzalloc` of a buffer succeeds. */
  datatype Alloc = Allocated | OutOfMemory

  /** A builder call: its return value and the buffer it handed to the message routine, if any. */
  datatype Call = Call(ret: int, msg: Option<seq<uint8>>)

  /**
   * `gt683r_leds_set` / `gt683r_mode_set`: allocate a zeroed buffer, fill it
   * and hand it over; `-ENOMEM` and nothing handed over when the allocation fails.
   */
  function HandOver(c: GtCommand, alloc: Alloc): (r: Call)
    ensures r.ret == 0 <==> alloc == Allocated
    ensures r.ret == 0 <==> r.msg.Some?
    ensures alloc == OutOfMemory ==> r.ret == -ENOMEM && r.msg == None
    ensures r.msg.Some? ==> r.msg.value == EncodeGt(c) && DecodeGt(r.msg.value) == Some(c)
  {
    DecodeEncodeGt(c);
    match alloc
    case Allocated => Call(0, Some(EncodeGt(c)))
    case OutOfMemory => Call(-ENOMEM, None)
  }

  /** What one work step computes, and the buffers it hands to the message routine. */
  datatype WorkOutcome = WorkOutcome(
    leds: uint8,                 // the mask of lit panels
    modeArg: Option<uint8>,      // the mode passed to the mode builder, if it was called
    msgs: seq<seq<uint8>>)       // the buffers handed to the message routine, in order

  /**
   * `gt683r_led_work`: the buffer with the mask of lit panels is built and
   * handed over first; if that call fails the mode call is skipped, otherwise
   * the mode handed over is off when no panel is lit and the stored mode
   * otherwise.
   */
  function Work(s: State, ledsAlloc: Alloc, modeAlloc: Alloc): (r: WorkOutcome)
    requires Valid(s)
    ensures r.leds < 8
    ensures forall i :: 0 <= i < PanelCount ==> (Bit(r.leds, i) <==> s.brightnesses[i] != 0)
    ensures r.leds == 0 <==> forall i :: 0 <= i < PanelCount ==> s.brightnesses[i] == 0
    ensures ledsAlloc == OutOfMemory ==> r.modeArg == None && r.msgs == []
    ensures ledsAlloc == Allocated ==>
              && r.modeArg == Some(if r.leds == 0 then Off.Value() else s.mode.Value())
              && |r.msgs| == (if modeAlloc == Allocated then 2 else 1)
              && DecodeGt(r.msgs[0]) == Some(SetLeds(r.leds))
              && (modeAlloc == Allocated ==> DecodeGt(r.msgs[1]) == Some(SetMode(r.modeArg.value)))
  {
    forall i | 0 <= i < PanelCount
      ensures Bit(PanelMask(s.brightnesses), i) <==> s.brightnesses[i] != 0
    {
      PanelMaskBits(s.brightnesses, i);
    }
    PanelMaskZero(s.brightnesses);
    var leds := PanelMask(s.brightnesses);
    var ledsCall := HandOver(SetLeds(leds), ledsAlloc);
    if ledsCall.ret != 0 then
      WorkOutcome(leds, None, [])
    else
      var mode := if leds != 0 then s.mode.Value() else Off.Value();
      var modeCall := HandOver(SetMode(mode), modeAlloc);
      var handed := [ledsCall.msg.value] + (if modeCall.msg.Some? then [modeCall.msg.value] else []);
      WorkOutcome(leds, Some(mode), handed)
  }

  /**
   * A work step right after probe, with both buffers allocated: no panel is
   * lit, so the mask is 0 and the mode buffer handed over carries off.
   */
  lemma ProbeWorkTurnsOff()
    ensures Work(Probe(), Allocated, Allocated)
            == WorkOutcome(0, Some(0), [[0x01, 0x02, 0x30, 0x00, 0x00, 0x00, 0x00, 0x00],
                                        [0x01, 0x02, 0x20, 0x00, 0x01, 0x00, 0x00, 0x00]])
  {
  }
}
