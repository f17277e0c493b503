/**
 * The AlienFX zone table: the static M11x zone descriptors, their per-zone
 * pending colour slot, the initialisation done at probe time and the LED
 * core's "set brightness" callback.
 *
 * A zone's LED class device is embedded in its table entry, so the pointer
 * the LED core passes back identifies a table position; `cdev` below is that
 * position, and any other value matches no zone.
 */
module AlienFxZones {

  /** Brightness range the LED core delivers for these zones (`max_brightness`). */
  const MaxBrightness: int := 65535

  type Brightness = b: int | 0 <= b <= MaxBrightness

  /** The `color` slot value that means "nothing pending". */
  const NoColor: int := -1

  /** One table entry: name, protocol id (`unsigned int`) and the pending colour slot. */
  datatype Zone = Zone(name: string, id: bv32, color: int) {

    /** A zone takes part in the next run when its slot is non-negative. */
    predicate Pending() {
      color >= 0
    }
  }

  /**
   * `m11x_leds` as linked into the module, before probe: the `color` fields
   * of the static array are zero-initialised.
   */
  const M11xLeds: seq<Zone> := [
    Zone("keyboard", 0x0001, 0),
    Zone("speaker-left", 0x0020, 0),
    Zone("speaker-right", 0x0040, 0),
    Zone("logo", 0x0100, 0),
    Zone("media-bar", 0x0800, 0),
    Zone("power-button", 0x2000, 0),
    Zone("power-button-eyes", 0x4000, 0),
    Zone("power-reset-state", 0x8000, 0),
    Zone("all-but-power", 0x0961, 0),
    Zone("all", 0xe961, 0)
  ]

  /** The colour slots a running driver can hold: the sentinel or a brightness. */
  predicate ColorsValid(zones: seq<Zone>) {
    forall i :: 0 <= i < |zones| ==> zones[i].color == NoColor || 0 <= zones[i].color <= MaxBrightness
  }

  /** No zone has a colour waiting for the next run. */
  predicate NonePending(zones: seq<Zone>) {
    forall i :: 0 <= i < |zones| ==> !zones[i].Pending()
  }

  /** Per-zone initialisation in `alienfx_probe`: every slot starts at "nothing pending". */
  function Probe(zones: seq<Zone>): (r: seq<Zone>)
    ensures |r| == |zones|
    ensures forall i :: 0 <= i < |zones| ==> r[i].name == zones[i].name && r[i].id == zones[i].id
    ensures forall i :: 0 <= i < |r| ==> r[i].color == NoColor
    ensures NonePending(r) && ColorsValid(r)
  {
    seq(|zones|, i requires 0 <= i < |zones| => zones[i].(color := NoColor))
  }

  /**
   * `alienfx_color_set`: store the requested colour in the slot of the zone
   * whose class device was passed; a device that matches no zone changes nothing.
   */
  function ColorSet(zones: seq<Zone>, cdev: int, color: Brightness): (r: seq<Zone>)
    ensures |r| == |zones|
    ensures 0 <= cdev < |zones| ==> r[cdev].color == color && r[cdev].Pending()
    ensures forall i :: 0 <= i < |zones| ==> r[i].name == zones[i].name && r[i].id == zones[i].id
    ensures forall i :: 0 <= i < |zones| && i != cdev ==> r[i] == zones[i]
    ensures !(0 <= cdev < |zones|) ==> r == zones
    ensures ColorsValid(zones) ==> ColorsValid(r)
  {
    if 0 <= cdev < |zones| then zones[cdev := zones[cdev].(color := color)] else zones
  }

  /** Repeated sets of one zone before a run: the last write wins. */
  lemma ColorSetLastWriteWins(zones: seq<Zone>, cdev: int, first: Brightness, second: Brightness)
    ensures ColorSet(ColorSet(zones, cdev, first), cdev, second) == ColorSet(zones, cdev, second)
  {
  }

  /** Sets of two different zones commute: arrival order does not matter. */
  lemma ColorSetCommutes(zones: seq<Zone>, i: int, j: int, a: Brightness, b: Brightness)
    requires i != j
    ensures ColorSet(ColorSet(zones, i, a), j, b) == ColorSet(ColorSet(zones, j, b), i, a)
  {
  }

  /** The protocol ids of the M11x table are pairwise distinct. */
  lemma M11xIdsDistinct()
    ensures forall i, j :: 0 <= i < j < |M11xLeds| ==> M11xLeds[i].id != M11xLeds[j].id
  {
  }

  /**
   * The two group zones are unions of single zones: "all-but-power" is the
   * five non-power zones, "all" is all eight single zones.
   */
  lemma M11xGroupMasks()
    ensures M11xLeds[8].id == M11xLeds[0].id | M11xLeds[1].id | M11xLeds[2].id | M11xLeds[3].id | M11xLeds[4].id
    ensures M11xLeds[9].id == M11xLeds[8].id | M11xLeds[5].id | M11xLeds[6].id | M11xLeds[7].id
    ensures M11xLeds[9].id == M11xLeds[0].id | M11xLeds[1].id | M11xLeds[2].id | M11xLeds[3].id | M11xLeds[4].id
                           | M11xLeds[5].id | M11xLeds[6].id | M11xLeds[7].id
  {
  }
}
