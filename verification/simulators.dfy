/**
 * The two Raspberry Pi simulators: one sends telemetry frames carrying five
 * device words (optionally auto-incremented after every frame), the other
 * sends relay-control frames chosen by a typed command.
 */
module Simulators {
  import opened Bytes
  import opened Wrappers

  const Sync0: byte := 0xA5
  const Sync1: byte := 0x99
  const AutoIncrementStep: int := 100

  /** The five header bytes: sync pair and three zero discretes. */
  const DeviceHeader: seq<byte> := [Sync0, Sync1, 0, 0, 0]

  /** `create_packet(device_values)` of the telemetry simulator: the header,
      then each value as `(v >> 8) & 0xFF, v & 0xFF`. */
  function CreateDevicePacket(values: seq<int>): (p: seq<byte>)
    ensures |p| == |DeviceHeader| + 2 * |values|
    ensures p[..|DeviceHeader|] == DeviceHeader
    ensures forall i :: 0 <= i < |values| ==> p[5 + 2 * i] == Msb(values[i]) && p[6 + 2 * i] == Lsb(values[i])
    decreases |values|
  {
    if values == [] then DeviceHeader
    else
      var init := values[..|values| - 1];
      var v := values[|values| - 1];
      var p := CreateDevicePacket(init);
      assert forall i :: 0 <= i < |init| ==> init[i] == values[i];
      p + [Msb(v), Lsb(v)]
  }

  /** Each device word of a packet built from 16-bit values reassembles, MSB
      first, to the value it was built from. */
  lemma {:induction false} DeviceWordsRoundTrip(values: seq<int>, i: nat)
    requires i < |values| && 0 <= values[i] < 0x1_0000
    ensures var p := CreateDevicePacket(values);
      Word16(p[5 + 2 * i], p[6 + 2 * i]) == values[i]
  {
    WordOfSplit(values[i]);
  }

  /** One auto-increment of every device value: `(v + 100) % 65536`. */
  function AutoIncrement(values: seq<int>): (r: seq<int>)
    ensures |r| == |values|
    ensures forall i :: 0 <= i < |r| ==> 0 <= r[i] < 0x1_0000
    ensures forall i :: 0 <= i < |r| ==> r[i] == (values[i] + AutoIncrementStep) % 0x1_0000
  {
    seq(|values|, i requires 0 <= i < |values| => (values[i] + AutoIncrementStep) % 0x1_0000)
  }

  /** The values of the `n`-th frame sent in auto-increment mode. */
  function ValuesAfter(start: seq<int>, n: nat): (r: seq<int>)
    ensures |r| == |start|
  {
    if n == 0 then start else AutoIncrement(ValuesAfter(start, n - 1))
  }

  /** After `n` increments each device value is its start value advanced by
      `100 n` modulo 65536, so the values cycle and never leave 16 bits. */
  lemma {:induction false} ValuesAfterWrap(start: seq<int>, n: nat, i: nat)
    requires i < |start|
    ensures n > 0 ==> 0 <= ValuesAfter(start, n)[i] < 0x1_0000
    ensures ValuesAfter(start, n)[i] % 0x1_0000 == (start[i] + AutoIncrementStep * n) % 0x1_0000
  {
    if n > 0 {
      ValuesAfterWrap(start, n - 1, i);
      var prev := ValuesAfter(start, n - 1)[i];
      assert ValuesAfter(start, n)[i] == (prev + AutoIncrementStep) % 0x1_0000;
      ModAddCongruent(prev, start[i] + AutoIncrementStep * (n - 1), AutoIncrementStep);
    }
  }

  /** Adding the same amount keeps two numbers congruent modulo 65536. */
  lemma ModAddCongruent(a: int, b: int, d: int)
    requires a % 0x1_0000 == b % 0x1_0000
    ensures (a + d) % 0x1_0000 == (b + d) % 0x1_0000
  {
    assert a - b == (a / 0x1_0000 - b / 0x1_0000) * 0x1_0000;
    assert (a + d) - (b + d) == (a / 0x1_0000 - b / 0x1_0000) * 0x1_0000;
  }

  /** `create_packet(relay_a, relay_b, relay_c)` of the relay-control
      simulator: the sync pair, the three relay bytes, ten zeros. */
  function CreateRelayPacket(a: byte, b: byte, c: byte): (p: seq<byte>)
    ensures |p| == 15
    ensures p[..5] == [Sync0, Sync1, a, b, c]
    ensures forall k :: 5 <= k < 15 ==> p[k] == 0
  {
    [Sync0, Sync1, a, b, c] + seq(10, _ => 0)
  }

  /** What the relay-control simulator does with one command line (already
      stripped and lower-cased). */
  datatype Action = Quit | Send(packet: seq<byte>) | NotRecognised

  /** `1` lights the odd relays (0x55 in each relay byte), `0` clears them all,
      `q` stops; anything else is rejected. */
  function CommandAction(cmd: string): (a: Action)
    ensures a.Send? <==> cmd == "1" || cmd == "0"
    ensures cmd == "1" ==> a == Send(CreateRelayPacket(0x55, 0x55, 0x55))
    ensures cmd == "0" ==> a == Send(CreateRelayPacket(0, 0, 0))
    ensures a == Quit <==> cmd == "q"
  {
    if cmd == "q" then Quit
    else if cmd == "1" then Send(CreateRelayPacket(0x55, 0x55, 0x55))
    else if cmd == "0" then Send(CreateRelayPacket(0, 0, 0))
    else NotRecognised
  }
}
