/**
 * The AlienFX work run: `alienfx_work` turns the zone table into one device
 * transaction (reset, a set-colour/loop pair per pending zone in table order,
 * execute) and clears every consumed slot.
 *
 * The run is a function from driver state to (new state, packets sent). The
 * lock, the deferred-work scheduling and the 1 ms settle delay are not
 * modelled; each run is one atomic step. Sending is appending a packet to the
 * output, since the driver's send routine always returns 0 and the run ignores
 * its result anyway.
 *
 * The driver clears a zone's slot (hid-alienfx.c:138) before passing that slot
 * to the encoder (hid-alienfx.c:139), so every set-colour packet it emits
 * carries the sentinel -1. `ReadOrder` selects between that order, as written,
 * and the evidently intended one that reads the colour first.
 */
module AlienFxWork {
  import opened Bytes
  import opened AlienFxCodec
  import opened AlienFxZones

  /** The driver state a run reads and writes: the zone table and the global `CMD_SET_COL` buffer. */
  datatype AlienFx = AlienFx(zones: seq<Zone>, setCol: Packet)

  /** The state a running driver keeps: the buffer in shape and every slot the sentinel or a brightness. */
  predicate Valid(d: AlienFx) {
    SetColShape(d.setCol) && ColorsValid(d.zones)
  }

  /** Driver state right after a successful probe of an M11x device. */
  function Attach(): (d: AlienFx)
    ensures Valid(d) && NonePending(d.zones)
    ensures |d.zones| == |M11xLeds|
  {
    AlienFx(Probe(M11xLeds), CmdSetColInit)
  }

  /** One zone's contribution to a transaction: its protocol id and the colour encoded for it. */
  datatype Setting = Setting(region: int, color: int)

  /** The pending zones as (id, colour), in table order: what the next run consumes. */
  function Pending(zones: seq<Zone>): (p: seq<Setting>)
    ensures |p| <= |zones|
    ensures forall k :: 0 <= k < |p| ==> p[k].color >= 0
  {
    if |zones| == 0 then []
    else
      (if zones[0].Pending() then [Setting(zones[0].id as int, zones[0].color)] else [])
      + Pending(zones[1..])
  }

  /** The same settings with every colour replaced by the sentinel. */
  function Cleared(settings: seq<Setting>): (r: seq<Setting>)
    ensures |r| == |settings|
    ensures forall k :: 0 <= k < |r| ==> r[k] == Setting(settings[k].region, NoColor)
  {
    if |settings| == 0 then [] else [Setting(settings[0].region, NoColor)] + Cleared(settings[1..])
  }

  /** A set-colour packet followed by a loop mark for each setting, in order. */
  function SetColorPairs(settings: seq<Setting>): (t: seq<Packet>)
    ensures |t| == 2 * |settings|
  {
    if |settings| == 0 then []
    else [EncodeSetColor(settings[0].region, settings[0].color), CmdLoop] + SetColorPairs(settings[1..])
  }

  /** Position 2k of the pairs is setting k's set-colour packet, position 2k+1 a loop mark. */
  lemma {:induction false} SetColorPairsAt(settings: seq<Setting>, k: int)
    requires 0 <= k < |settings|
    ensures SetColorPairs(settings)[2 * k] == EncodeSetColor(settings[k].region, settings[k].color)
    ensures SetColorPairs(settings)[2 * k + 1] == CmdLoop
  {
    if k > 0 {
      SetColorPairsAt(settings[1..], k - 1);
    }
  }

  /** The transaction for a list of settings: reset, the set-colour/loop pairs, execute. */
  function Transaction(settings: seq<Setting>): (t: seq<Packet>)
    ensures |t| == 2 * |settings| + 2
    ensures t[0] == CmdReset && t[|t| - 1] == CmdTrExec
  {
    [CmdReset] + SetColorPairs(settings) + [CmdTrExec]
  }

  /**
   * The transaction holds, for the k-th setting, its set-colour packet at
   * position 2k+1 followed by a loop mark; nothing else sits between reset and execute.
   */
  lemma TransactionAt(settings: seq<Setting>, k: int)
    requires 0 <= k < |settings|
    ensures Transaction(settings)[2 * k + 1] == EncodeSetColor(settings[k].region, settings[k].color)
    ensures Transaction(settings)[2 * k + 2] == CmdLoop
  {
    SetColorPairsAt(settings, k);
  }

  /** Whether a run clears a slot before reading it (as written) or after (as intended). */
  datatype ReadOrder = ClearThenRead | ReadThenClear

  /** The colour the encoder is handed for a pending zone. */
  function EncodedColor(z: Zone, order: ReadOrder): int {
    match order
    case ClearThenRead => NoColor
    case ReadThenClear => z.color
  }

  /** The settings a run with the given read order encodes. */
  function Consumed(zones: seq<Zone>, order: ReadOrder): seq<Setting> {
    match order
    case ClearThenRead => Cleared(Pending(zones))
    case ReadThenClear => Pending(zones)
  }

  /** One step of `Consumed`: the first zone contributes a setting exactly when it is pending. */
  lemma ConsumedStep(zones: seq<Zone>, order: ReadOrder)
    requires |zones| > 0
    ensures Consumed(zones, order)
            == (if zones[0].Pending() then [Setting(zones[0].id as int, EncodedColor(zones[0], order))] else [])
               + Consumed(zones[1..], order)
  {
    var head := if zones[0].Pending() then [Setting(zones[0].id as int, zones[0].color)] else [];
    var rest := Pending(zones[1..]);
    assert Pending(zones) == head + rest;
    if order == ClearThenRead && zones[0].Pending() {
      assert (head + rest)[1..] == rest;
    } else if order == ClearThenRead {
      assert head + rest == rest;
    }
  }

  /** What the zone loop leaves behind: the table, the global buffer and the packets sent. */
  datatype Emission = Emission(zones: seq<Zone>, setCol: Packet, sent: seq<Packet>)

  /**
   * The zone loop of `alienfx_work`: for each pending zone, clear the slot,
   * fill the global buffer with (id, colour), send it, send a loop mark, and
   * count the block.
   */
  function EmitZones(zones: seq<Zone>, setCol: Packet, block: int, order: ReadOrder): (e: Emission)
    requires SetColShape(setCol)
    ensures SetColShape(e.setCol)
    ensures |e.zones| == |zones|
    ensures forall i :: 0 <= i < |zones| ==>
              e.zones[i].name == zones[i].name && e.zones[i].id == zones[i].id && !e.zones[i].Pending()
    ensures forall i :: 0 <= i < |zones| ==> zones[i].Pending() || e.zones[i] == zones[i]
    ensures forall i :: 0 <= i < |zones| ==> !zones[i].Pending() || e.zones[i].color == NoColor
    decreases |zones|
  {
    if |zones| == 0 then Emission([], setCol, [])
    else
      var z := zones[0];
      if z.Pending() then
        var cleared := z.(color := NoColor);
        var buf := WriteSetColor(setCol, z.id as int, block, EncodedColor(z, order));
        SetColorBufferNoLeak(setCol, z.id as int, block, EncodedColor(z, order));
        var rest := EmitZones(zones[1..], buf, block + 1, order);
        Emission([cleared] + rest.zones, rest.setCol, [buf, CmdLoop] + rest.sent)
      else
        var rest := EmitZones(zones[1..], setCol, block, order);
        Emission([z] + rest.zones, rest.setCol, rest.sent)
  }

  /**
   * The packets of the zone loop are the set-colour/loop pairs of the consumed
   * settings, whatever the buffer held before, and the buffer stays in shape.
   */
  lemma {:induction false} EmitZonesSends(zones: seq<Zone>, setCol: Packet, block: int, order: ReadOrder)
    requires SetColShape(setCol)
    ensures EmitZones(zones, setCol, block, order).sent == SetColorPairs(Consumed(zones, order))
    decreases |zones|
  {
    if |zones| > 0 {
      var z := zones[0];
      ConsumedStep(zones, order);
      if z.Pending() {
        var color := EncodedColor(z, order);
        var buf := WriteSetColor(setCol, z.id as int, block, color);
        SetColorBufferNoLeak(setCol, z.id as int, block, color);
        EmitZonesSends(zones[1..], buf, block + 1, order);
        var settings := [Setting(z.id as int, color)] + Consumed(zones[1..], order);
        assert settings[1..] == Consumed(zones[1..], order);
        assert SetColorPairs(settings) == [buf, CmdLoop] + SetColorPairs(Consumed(zones[1..], order));
      } else {
        EmitZonesSends(zones[1..], setCol, block, order);
        assert Consumed(zones, order) == Consumed(zones[1..], order);
      }
    }
  }

  /** What a run leaves behind: the new driver state and the packets sent. */
  datatype Outcome = Outcome(after: AlienFx, sent: seq<Packet>)

  /** `alienfx_work` with the given read order: reset, the zone loop, execute. */
  function WorkRun(d: AlienFx, order: ReadOrder): (r: Outcome)
    requires Valid(d)
    ensures Valid(r.after) && NonePending(r.after.zones)
    ensures |r.after.zones| == |d.zones|
    ensures forall i :: 0 <= i < |d.zones| ==>
              r.after.zones[i].name == d.zones[i].name && r.after.zones[i].id == d.zones[i].id
              && r.after.zones[i].color == NoColor
    ensures r.sent == Transaction(Consumed(d.zones, order))
  {
    var e := EmitZones(d.zones, d.setCol, 0, order);
    EmitZonesSends(d.zones, d.setCol, 0, order);
    Outcome(AlienFx(e.zones, e.setCol), [CmdReset] + e.sent + [CmdTrExec])
  }

  /** Every packet is 9 bytes long and every set-colour packet among them has colour bytes `b6 b7`. */
  predicate SetColorsCarry(t: seq<Packet>, b6: uint8, b7: uint8) {
    forall k :: 0 <= k < |t| ==>
      |t[k]| == PacketSize && (t[k][1] == OpSetColor ==> t[k][6] == b6 && t[k][7] == b7)
  }

  /** Every set-colour packet of a cleared transaction carries colour bytes `FF F0`. */
  lemma ClearedTransactionColorBytes(settings: seq<Setting>)
    ensures SetColorsCarry(Transaction(Cleared(settings)), 0xff, 0xf0)
  {
    var c := Cleared(settings);
    var t := Transaction(c);
    SentinelColorBytes();
    forall k | 0 <= k < |t|
      ensures |t[k]| == PacketSize && (t[k][1] == OpSetColor ==> t[k][6] == 0xff && t[k][7] == 0xf0)
    {
      if k == 0 {
        assert t[k] == CmdReset;
      } else if k == |t| - 1 {
        assert t[k] == CmdTrExec;
      } else {
        var j := (k - 1) / 2;
        assert 0 <= j < |c|;
        TransactionAt(c, j);
        if k == 2 * j + 2 {
          assert t[k] == CmdLoop;
        } else {
          assert t[k] == EncodeSetColor(c[j].region, NoColor);
        }
      }
    }
  }

  /**
   * `alienfx_work` as written: the transaction names every pending zone in
   * table order, but each set-colour packet encodes the already-cleared slot,
   * so its colour bytes are always `FF F0`.
   */
  function Work(d: AlienFx): (r: Outcome)
    requires Valid(d)
    ensures Valid(r.after) && NonePending(r.after.zones)
    ensures |r.after.zones| == |d.zones|
    ensures forall i :: 0 <= i < |d.zones| ==>
              r.after.zones[i].name == d.zones[i].name && r.after.zones[i].id == d.zones[i].id
              && r.after.zones[i].color == NoColor
    ensures r.sent == Transaction(Cleared(Pending(d.zones)))
    ensures SetColorsCarry(r.sent, 0xff, 0xf0)
  {
    ClearedTransactionColorBytes(Pending(d.zones));
    WorkRun(d, ClearThenRead)
  }

  /**
   * The evidently intended run, which reads each pending colour before clearing
   * the slot: the transaction carries every pending (id, colour) in table order.
   */
  function WorkIntended(d: AlienFx): (r: Outcome)
    requires Valid(d)
    ensures Valid(r.after) && NonePending(r.after.zones)
    ensures |r.after.zones| == |d.zones|
    ensures forall i :: 0 <= i < |d.zones| ==>
              r.after.zones[i].name == d.zones[i].name && r.after.zones[i].id == d.zones[i].id
              && r.after.zones[i].color == NoColor
    ensures r.sent == Transaction(Pending(d.zones))
  {
    WorkRun(d, ReadThenClear)
  }

  /** A table has nothing pending exactly when the pending list is empty. */
  lemma {:induction false} PendingEmpty(zones: seq<Zone>)
    ensures NonePending(zones) <==> Pending(zones) == []
  {
    if |zones| > 0 {
      PendingEmpty(zones[1..]);
      if zones[0].Pending() {
        assert Pending(zones)[0].color >= 0;
      } else {
        assert Pending(zones) == Pending(zones[1..]);
        if NonePending(zones[1..]) {
          assert NonePending(zones) by {
            forall i | 0 <= i < |zones| ensures !zones[i].Pending() {
              if i > 0 {
                assert zones[i] == zones[1..][i - 1];
              }
            }
          }
        } else {
          var i :| 0 <= i < |zones[1..]| && zones[1..][i].Pending();
          assert zones[i + 1].Pending();
        }
      }
    }
  }

  /** The pending list of a table split in two is the two lists concatenated. */
  lemma {:induction false} PendingAppend(a: seq<Zone>, b: seq<Zone>)
    ensures Pending(a + b) == Pending(a) + Pending(b)
  {
    if |a| > 0 {
      assert (a + b)[1..] == a[1..] + b;
      PendingAppend(a[1..], b);
    } else {
      assert a + b == b;
    }
  }

  /** A run with nothing pending sends only reset and execute. */
  lemma EmptyRun(d: AlienFx, order: ReadOrder)
    requires Valid(d) && NonePending(d.zones)
    ensures WorkRun(d, order).sent == [CmdReset, CmdTrExec]
  {
    PendingEmpty(d.zones);
  }

  /** A second run with no set in between sends only reset and execute. */
  lemma SecondRunEmpty(d: AlienFx, first: ReadOrder, second: ReadOrder)
    requires Valid(d)
    ensures WorkRun(WorkRun(d, first).after, second).sent == [CmdReset, CmdTrExec]
  {
    EmptyRun(WorkRun(d, first).after, second);
  }

  /** Right after probe, a run sends only reset and execute. */
  lemma AttachRunEmpty(order: ReadOrder)
    ensures WorkRun(Attach(), order).sent == [CmdReset, CmdTrExec]
  {
    EmptyRun(Attach(), order);
  }

  /** A table where only zone `i` is pending makes the run consume exactly that zone. */
  lemma {:induction false} PendingOnly(zones: seq<Zone>, i: int)
    requires 0 <= i < |zones| && zones[i].Pending()
    requires forall k :: 0 <= k < |zones| && k != i ==> !zones[k].Pending()
    ensures Pending(zones) == [Setting(zones[i].id as int, zones[i].color)]
  {
    var tail := zones[1..];
    if i == 0 {
      assert NonePending(tail) by {
        forall k | 0 <= k < |tail| ensures !tail[k].Pending() {
          assert tail[k] == zones[k + 1];
        }
      }
      PendingEmpty(tail);
    } else {
      assert !zones[0].Pending();
      assert forall k :: 0 <= k < |tail| && k != i - 1 ==> !tail[k].Pending() by {
        forall k | 0 <= k < |tail| && k != i - 1 ensures !tail[k].Pending() {
          assert tail[k] == zones[k + 1];
        }
      }
      PendingOnly(tail, i - 1);
    }
  }

  /** The pending list of a table is that of its first `j` zones followed by that of the rest. */
  lemma PendingSplit(zones: seq<Zone>, j: int)
    requires 0 <= j <= |zones|
    ensures Pending(zones) == Pending(zones[..j]) + Pending(zones[j..])
  {
    assert zones == zones[..j] + zones[j..];
    PendingAppend(zones[..j], zones[j..]);
  }

  /** The part of the table before `j`, with only zone `i` pending there, contributes zone `i` alone. */
  lemma PendingBefore(zones: seq<Zone>, i: int, j: int)
    requires 0 <= i < j <= |zones| && zones[i].Pending()
    requires forall k :: 0 <= k < j && k != i ==> !zones[k].Pending()
    ensures Pending(zones[..j]) == [Setting(zones[i].id as int, zones[i].color)]
  {
    var left := zones[..j];
    forall k | 0 <= k < |left| && k != i ensures !left[k].Pending() {
      assert left[k] == zones[k];
    }
    PendingOnly(left, i);
  }

  /** The part of the table from `j` on, with only zone `j` pending there, contributes zone `j` alone. */
  lemma PendingFrom(zones: seq<Zone>, j: int)
    requires 0 <= j < |zones| && zones[j].Pending()
    requires forall k :: j < k < |zones| ==> !zones[k].Pending()
    ensures Pending(zones[j..]) == [Setting(zones[j].id as int, zones[j].color)]
  {
    var right := zones[j..];
    forall k | 0 <= k < |right| && k != 0 ensures !right[k].Pending() {
      assert right[k] == zones[j + k];
    }
    PendingOnly(right, 0);
  }

  /** A table where exactly zones `i < j` are pending makes the run consume those two, in table order. */
  lemma PendingTwo(zones: seq<Zone>, i: int, j: int)
    requires 0 <= i < j < |zones| && zones[i].Pending() && zones[j].Pending()
    requires forall k :: 0 <= k < |zones| && k != i && k != j ==> !zones[k].Pending()
    ensures Pending(zones)
            == [Setting(zones[i].id as int, zones[i].color), Setting(zones[j].id as int, zones[j].color)]
  {
    var si, sj := Setting(zones[i].id as int, zones[i].color), Setting(zones[j].id as int, zones[j].color);
    assert Pending(zones[..j]) == [si] by {
      PendingBefore(zones, i, j);
    }
    assert Pending(zones[j..]) == [sj] by {
      PendingFrom(zones, j);
    }
    PendingSplit(zones, j);
  }

  /**
   * Two sets of different zones on an idle table, in either order, make the
   * next run consume exactly those two zones, in table order.
   */
  lemma PendingAfterTwoSets(zones: seq<Zone>, i: int, j: int, a: Brightness, b: Brightness)
    requires NonePending(zones)
    requires 0 <= i < j < |zones|
    ensures Pending(ColorSet(ColorSet(zones, i, a), j, b))
            == [Setting(zones[i].id as int, a), Setting(zones[j].id as int, b)]
    ensures ColorSet(ColorSet(zones, i, a), j, b) == ColorSet(ColorSet(zones, j, b), i, a)
  {
    ColorSetCommutes(zones, i, j, a, b);
    var z := ColorSet(ColorSet(zones, i, a), j, b);
    assert z[i].color == a && z[i].id == zones[i].id;
    assert z[j].color == b && z[j].id == zones[j].id;
    PendingTwo(z, i, j);
  }

  /** The device state after the LED core sets "keyboard" to 0x0fff and then "logo" to 0. */
  function KeyboardAndLogo(): (d: AlienFx)
    ensures Valid(d)
    ensures Pending(d.zones) == [Setting(0x0001, 0x0fff), Setting(0x0100, 0)]
  {
    var d := Attach();
    PendingAfterTwoSets(d.zones, 0, 3, 0x0fff, 0);
    AlienFx(ColorSet(ColorSet(d.zones, 0, 0x0fff), 3, 0), d.setCol)
  }

  /** The pairs for two settings, spelled out. */
  lemma TwoPairs(s0: Setting, s1: Setting)
    ensures SetColorPairs([s0, s1])
            == [EncodeSetColor(s0.region, s0.color), CmdLoop, EncodeSetColor(s1.region, s1.color), CmdLoop]
  {
    assert [s0, s1][1..] == [s1];
    assert [s1][1..] == [];
  }

  /** Clearing two settings, spelled out. */
  lemma ClearedOfTwo(s0: Setting, s1: Setting)
    ensures Cleared([s0, s1]) == [Setting(s0.region, NoColor), Setting(s1.region, NoColor)]
  {
  }

  /** The transaction for two settings, spelled out. */
  lemma TransactionOfTwo(s0: Setting, s1: Setting)
    ensures Transaction([s0, s1])
            == [CmdReset, EncodeSetColor(s0.region, s0.color), CmdLoop,
                EncodeSetColor(s1.region, s1.color), CmdLoop, CmdTrExec]
  {
    TwoPairs(s0, s1);
  }

  /** The set-colour packets of the scenario, byte by byte. */
  lemma ScenarioPackets()
    ensures EncodeSetColor(0x0001, 0x0fff) == [0x02, 0x03, 0x00, 0x00, 0x00, 0x01, 0xff, 0xf0, 0x00]
    ensures EncodeSetColor(0x0100, 0) == [0x02, 0x03, 0x00, 0x00, 0x01, 0x00, 0x00, 0x00, 0x00]
    ensures EncodeSetColor(0x0001, NoColor) == [0x02, 0x03, 0x00, 0x00, 0x00, 0x01, 0xff, 0xf0, 0x00]
    ensures EncodeSetColor(0x0100, NoColor) == [0x02, 0x03, 0x00, 0x00, 0x01, 0x00, 0xff, 0xf0, 0x00]
  {
    RegionFields();
    ColorFields();
    EncodeSetColorBytes(0x0001, 0x0fff);
    EncodeSetColorBytes(0x0100, 0);
    EncodeSetColorBytes(0x0001, NoColor);
    EncodeSetColorBytes(0x0100, NoColor);
  }

  lemma RegionFields()
    ensures RegionHi(0x0001) == 0 && RegionMid(0x0001) == 0 && RegionLo(0x0001) == 1
    ensures RegionHi(0x0100) == 0 && RegionMid(0x0100) == 1 && RegionLo(0x0100) == 0
  {
  }

  lemma ColorFields()
    ensures ColorHi(0x0fff) == 0xff && ColorLo(0x0fff) == 0xf0
    ensures ColorHi(0) == 0 && ColorLo(0) == 0
    ensures ColorHi(NoColor) == 0xff && ColorLo(NoColor) == 0xf0
  {
    SentinelColorBytes();
  }

  /** The intended run for keyboard 0x0fff and logo 0 sends these six packets. */
  lemma IntendedKeyboardAndLogo()
    ensures WorkIntended(KeyboardAndLogo()).sent == [
      CmdReset,
      [0x02, 0x03, 0x00, 0x00, 0x00, 0x01, 0xff, 0xf0, 0x00],
      CmdLoop,
      [0x02, 0x03, 0x00, 0x00, 0x01, 0x00, 0x00, 0x00, 0x00],
      CmdLoop,
      CmdTrExec]
  {
    var p := [Setting(0x0001, 0x0fff), Setting(0x0100, 0)];
    assert WorkIntended(KeyboardAndLogo()).sent == Transaction(p);
    TransactionOfTwo(p[0], p[1]);
    ScenarioPackets();
  }

  /**
   * The run as written for the same state: logo's colour 0 goes out as `FF F0`,
   * the encoding of the cleared slot, instead of `00 00`.
   */
  lemma AsWrittenKeyboardAndLogo()
    ensures Work(KeyboardAndLogo()).sent == [
      CmdReset,
      [0x02, 0x03, 0x00, 0x00, 0x00, 0x01, 0xff, 0xf0, 0x00],
      CmdLoop,
      [0x02, 0x03, 0x00, 0x00, 0x01, 0x00, 0xff, 0xf0, 0x00],
      CmdLoop,
      CmdTrExec]
    ensures Work(KeyboardAndLogo()).sent != WorkIntended(KeyboardAndLogo()).sent
  {
    var p := [Setting(0x0001, NoColor), Setting(0x0100, NoColor)];
    ClearedOfTwo(Setting(0x0001, 0x0fff), Setting(0x0100, 0));
    assert Work(KeyboardAndLogo()).sent == Transaction(p);
    TransactionOfTwo(p[0], p[1]);
    ScenarioPackets();
    IntendedKeyboardAndLogo();
    assert Work(KeyboardAndLogo()).sent[3][6] != WorkIntended(KeyboardAndLogo()).sent[3][6];
  }
}
