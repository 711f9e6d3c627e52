/** The serial protocol between the driver (drivers/msp430/msp_main.c) and the MSP430
  * microcontroller that measures the supply voltages (drivers/msp430/adc/msp_adc.c).
  *
  * Every exchange of bytes is started by the driver and sends back what the slave had put in
  * its transmit register before, so each reply is one exchange late. */
module SerialProtocol {
  import opened Words

  const CONV_START: nat := 0x10
  const CONV_IN_PROGRESS: nat := 0xef
  const CONV_TEST: nat := 0xa5
  const PROTO_RESET: nat := 0xaa

  const ADC_RANGE: nat := 4096
  const ADC_VREF: nat := 2500

  // ---------- The data of one conversion ----------

  /** The eight words of one conversion. */
  type Conversion = w: seq<nat> | |w| == 8 && forall i :: 0 <= i < 8 ==> w[i] < ADC_RANGE
    witness [0, 0, 0, 0, 0, 0, 0, 0]

  /** The slave's view of the words as bytes: its processor is little endian. */
  function Bytes(w: Conversion): (b: seq<nat>)
    ensures |b| == 16
  {
    seq(16, k requires 0 <= k < 16 => if k % 2 == 0 then w[k / 2] % 256 else w[k / 2] / 256)
  }

  // ---------- The slave ----------

  /** Where the slave's main loop is: asleep; awake with noData not set again yet; waiting for
    * the converter, which takes so many more periods; done, about to go to sleep. */
  datatype Phase = Asleep | Woken | Converting(periods: nat) | Ready

  /** What the receive interrupt leaves in the transmit register. */
  function Reply(noData: bool, byteData: seq<nat>, received: nat): (tx: nat)
    requires |byteData| == 16
  {
    if noData then CONV_IN_PROGRESS
    else if received < 16 then byteData[received]
    else if received == 16 then CONV_IN_PROGRESS
    else (received + 1) % 256
  }

  class Slave {
    var noData: bool
    var byteData: seq<nat>
    var txbuf: nat
    var phase: Phase

    // How many exchanges the driver's hardware has shown no reply to; how many conversions
    // were started, and the results of those that are over.
    ghost var unanswered: nat
    ghost var started: nat
    ghost var converted: seq<Conversion>

    ghost predicate Valid()
      reads this
    {
      && converted != []
      && started == |converted| + (if phase.Woken? || phase.Converting? then 1 else 0)
      && |byteData| == 16
      && (noData <==> phase.Converting?)
      && (!phase.Converting? ==> byteData == Bytes(converted[|converted| - 1]))
    }

    /** The state between transfers. */
    ghost predicate Idle()
      reads this
    {
      Valid() && phase == Asleep && txbuf == PROTO_RESET
    }

    /** The periods left before the conversion going on is over. */
    ghost function Periods(): nat
      reads this
    {
      if phase.Converting? then phase.periods + 1 else 0
    }

    /** The slave after a reset, its first conversion being over. */
    constructor (w: Conversion)
      ensures Idle() && converted == [w] && unanswered == 0
    {
      noData, byteData, txbuf, phase := false, Bytes(w), PROTO_RESET, Asleep;
      started, converted, unanswered := 1, [w], 0;
    }

    method Reset()
      requires Valid()
      modifies this
      ensures Idle() && old(converted) < converted && |converted| == |old(converted)| + 1
      ensures unanswered == old(unanswered)
    {
      var w: Conversion := *;
      noData, byteData, txbuf, phase := false, Bytes(w), PROTO_RESET, Asleep;
      converted := converted + [w];
      started := |converted|;
    }

    /** Whether a byte received now starts a conversion: the interrupt can only end a sleep
      * that has begun. */
    predicate Wakes(received: nat)
      reads this
    {
      !noData && received == CONV_START && phase == Asleep
    }

    /** The receive interrupt. */
    method RxIsr(received: nat)
      requires Valid()
      modifies this`txbuf, this`phase, this`started
      ensures Valid()
      ensures txbuf == Reply(noData, byteData, received)
      ensures if old(Wakes(received)) then phase == Woken && started == old(started) + 1
              else phase == old(phase) && started == old(started)
    {
      if noData {
        txbuf := CONV_IN_PROGRESS;
      } else if received < 16 {
        txbuf := byteData[received];
      } else if received == CONV_START {
        txbuf := CONV_IN_PROGRESS;
        if phase == Asleep {
          phase := Woken;
          started := started + 1;
        }
      } else {
        txbuf := (received + 1) % 256;
      }
    }

    /** One step of the main loop. The converter's results are arbitrary. */
    method MainStep()
      requires Valid()
      modifies this`noData, this`byteData, this`phase, this`converted
      ensures Valid() && old(converted) <= converted && phase != Woken
      ensures old(phase) in {Asleep, Ready} ==> phase == Asleep
      ensures old(phase).Converting? ==> Periods() < old(Periods())
    {
      match phase
      case Asleep =>
      case Ready =>
        phase := Asleep;
      case Woken =>
        var n: nat := *;
        noData, phase := true, Converting(n);
      case Converting(n) =>
        if n > 0 {
          phase := Converting(n - 1);
        } else {
          var w: Conversion := *;
          byteData := Bytes(w);
          converted := converted + [w];
          noData, phase := false, Ready;
        }
    }

    /** The delays between exchanges leave time for any number of steps, and for at least
      * one. */
    method RunMain()
      requires Valid()
      modifies this`noData, this`byteData, this`phase, this`converted
      ensures Valid() && old(converted) <= converted && phase != Woken
      ensures old(phase) in {Asleep, Ready} ==> phase == Asleep
      ensures old(phase).Converting? ==> Periods() < old(Periods())
    {
      MainStep();
      var n: nat := *;
      while n > 0
        invariant Valid() && old(converted) <= converted && phase != Woken
        invariant old(phase) in {Asleep, Ready} ==> phase == Asleep
        invariant old(phase).Converting? ==> Periods() < old(Periods())
      {
        MainStep();
        n := n - 1;
      }
    }
  }

  // ---------- The driver ----------

  datatype Result = Volts(atom: seq<int>) | NoResponse | ProtocolError

  /** Exchanges one byte, the slave handling it during the delays. When the hardware shows no
    * reply, the driver resets the slave. */
  method Exchange(s: Slave, tx: nat) returns (ok: bool, rx: nat)
    requires s.Valid() && s.phase != Woken
    modifies s
    ensures s.Valid() && s.phase != Woken && old(s.converted) <= s.converted
    ensures ok ==> rx == old(s.txbuf) && s.txbuf == old(Reply(s.noData, s.byteData, tx))
    ensures ok ==> s.started == old(s.started) + (if old(s.Wakes(tx)) then 1 else 0)
    ensures ok && old(s.phase).Converting? ==> s.Periods() < old(s.Periods())
    ensures ok && !old(s.phase).Converting? && !old(s.Wakes(tx)) ==> s.phase == Asleep
    ensures !ok ==> s.Idle()
    ensures s.unanswered == old(s.unanswered) + (if ok then 0 else 1)
  {
    rx := s.txbuf;
    ok := *;
    if !ok {
      s.unanswered := s.unanswered + 1;
      s.Reset();
      return;
    }
    s.RxIsr(tx);
    s.RunMain();
  }

  method CheckProtocol(s: Slave, rx: nat, expected: nat) returns (ok: bool)
    requires s.Valid()
    modifies s
    ensures ok == (rx == expected)
    ensures ok ==> unchanged(s)
    ensures !ok ==> s.Idle() && old(s.converted) <= s.converted
    ensures s.unanswered == old(s.unanswered)
  {
    ok := rx == expected;
    if !ok {
      s.Reset();
    }
  }

  /** Reads one set of voltages. Between transfers the slave sleeps with the reset code in
    * its transmit register. However long the conversion takes, no reply is unexpected, the
    * transfer fails only when the hardware shows no reply, and the atom delivered is that of
    * the single conversion this transfer started. */
  method MspTransfer(s: Slave) returns (r: Result)
    requires s.Idle()
    modifies s
    ensures s.Idle() && old(s.converted) <= s.converted
    ensures r != ProtocolError
    ensures s.unanswered == old(s.unanswered) + (if r == NoResponse then 1 else 0)
    ensures r.Volts? ==> |s.converted| == |old(s.converted)| + 1
                         && r.atom == Voltages(s.converted[|old(s.converted)|])
  {
    var ok, rx := Exchange(s, CONV_START);
    if !ok {
      return NoResponse;
    }
    ok := CheckProtocol(s, rx, PROTO_RESET);
    if !ok {
      return ProtocolError;
    }
    ok, rx := AwaitConversion(s);
    if !ok {
      return NoResponse;
    }
    ok := CheckProtocol(s, rx, CONV_TEST + 1);
    if !ok {
      return ProtocolError;
    }
    ok, rx := Exchange(s, 0);
    if !ok {
      return NoResponse;
    }
    ok := CheckProtocol(s, rx, CONV_TEST + 1);
    if !ok {
      return ProtocolError;
    }
    r := ReadOut(s);
  }

  /** Polls the slave until it reports the end of the conversion. */
  method AwaitConversion(s: Slave) returns (ok: bool, rx: nat)
    requires s.Valid() && s.phase != Woken && s.txbuf == CONV_IN_PROGRESS
    modifies s
    ensures s.Valid() && old(s.converted) <= s.converted
    ensures !ok ==> s.Idle()
    ensures ok ==> rx == s.txbuf == CONV_TEST + 1 && s.phase == Asleep && s.started == old(s.started)
    ensures s.unanswered == old(s.unanswered) + (if ok then 0 else 1)
  {
    ok, rx := Exchange(s, CONV_TEST);
    while ok && rx == CONV_IN_PROGRESS
      invariant s.Valid() && s.phase != Woken && old(s.converted) <= s.converted
      invariant !ok ==> s.Idle()
      invariant ok ==> s.started == old(s.started)
      invariant s.unanswered == old(s.unanswered) + (if ok then 0 else 1)
      invariant ok ==> rx in {CONV_IN_PROGRESS, CONV_TEST + 1} && s.txbuf in {CONV_IN_PROGRESS, CONV_TEST + 1}
      invariant ok && s.txbuf == CONV_TEST + 1 ==> s.phase == Asleep
      invariant ok && rx == CONV_TEST + 1 ==> s.txbuf == CONV_TEST + 1
      decreases ok && rx == CONV_IN_PROGRESS, s.Periods(), s.txbuf == CONV_IN_PROGRESS
    {
      ok, rx := Exchange(s, CONV_TEST);
    }
  }

  /** Reads the sixteen bytes and transforms them. */
  method ReadOut(s: Slave) returns (r: Result)
    requires s.Valid() && s.phase == Asleep && s.txbuf == s.byteData[0]
    modifies s
    ensures s.Idle() && old(s.converted) <= s.converted
    ensures r != ProtocolError
    ensures s.unanswered == old(s.unanswered) + (if r == NoResponse then 1 else 0)
    ensures r.Volts? ==> s.converted == old(s.converted)
                         && r.atom == Voltages(s.converted[|s.converted| - 1])
  {
    var rxBuf := new nat[32];
    var ok, rx := true, 0;
    var j := 0;
    while ok && j < 15
      invariant 0 <= j <= 15 && fresh(rxBuf)
      invariant s.Valid() && old(s.converted) <= s.converted
      invariant !ok ==> s.Idle()
      invariant s.unanswered == old(s.unanswered) + (if ok then 0 else 1)
      invariant ok ==> s.phase == Asleep && s.converted == old(s.converted) && s.started == old(s.started)
      invariant ok ==> s.byteData == old(s.byteData) && s.txbuf == s.byteData[j] && rxBuf[..j] == s.byteData[..j]
    {
      ok, rx := Exchange(s, j + 1);
      if ok {
        rxBuf[j] := rx;
        j := j + 1;
      }
    }
    if !ok {
      return NoResponse;
    }
    ok, rx := Exchange(s, PROTO_RESET - 1);
    if !ok {
      return NoResponse;
    }
    rxBuf[15] := rx;
    assert rxBuf[..16] == s.byteData;
    var voltage := new int[8];
    MspTransform(rxBuf, voltage, s.converted[|s.converted| - 1]);
    return Volts(voltage[..]);
  }

  // ---------- The voltages ----------

  function Num(i: nat): (n: nat)
    requires i < 8
    ensures 100 <= n <= 1511
  {
    [101, 101, 120, 1511, 250, 611, 315, 290][i]
  }

  function Denom(i: nat): (d: nat)
    requires i < 8
    ensures d in {100, 1000}
  {
    [100, 100, 100, 1000, 100, 100, 100, 100][i]
  }

  /** A converter word as a voltage in mV, scaled in two steps. */
  function Scaled(i: nat, w: nat): nat
    requires i < 8
  {
    w * ADC_VREF / ADC_RANGE * Num(i) / Denom(i)
  }

  /** The eight voltages; the last two are measured against others. */
  function Voltages(w: Conversion): (v: seq<int>)
    ensures |v| == 8
  {
    var v := seq(8, i requires 0 <= i < 8 => Scaled(i, w[i]));
    v[6 := v[6] - v[5] * 1500 / 1000][7 := v[7] - 5500 * 1500 / 1000]
  }

  /** The bytes of one conversion become its voltages. */
  method MspTransform(data: array<nat>, voltage: array<int>, ghost w: Conversion)
    requires data.Length >= 16 && data[..16] == Bytes(w)
    requires voltage.Length == 8
    modifies voltage
    ensures voltage[..] == Voltages(w)
  {
    for i := 0 to 8
      invariant forall k :: 0 <= k < i ==> voltage[k] == Scaled(k, w[k])
    {
      assert data[2 * i] == data[..16][2 * i] && data[2 * i + 1] == data[..16][2 * i + 1];
      voltage[i] := data[2 * i + 1] * 256 + data[2 * i];
      assert voltage[i] == w[i];
      voltage[i] := voltage[i] * ADC_VREF / ADC_RANGE;
      voltage[i] := voltage[i] * Num(i) / Denom(i);
    }
    voltage[6] := voltage[6] - voltage[5] * 1500 / 1000;
    voltage[7] := voltage[7] - 5500 * 1500 / 1000;
  }

  /** The two-step scaling stays within 32 bits, and is less than one unit of each step below
    * the exact voltage w * 2500 / 4096 * num / denom. */
  lemma ScalingIsAccurate(i: nat, w: nat)
    requires i < 8 && w < ADC_RANGE
    ensures w * ADC_VREF < 0x8000_0000
    ensures w * ADC_VREF / ADC_RANGE * Num(i) < 0x8000_0000
    ensures 0 <= w * ADC_VREF * Num(i) - Scaled(i, w) * ADC_RANGE * Denom(i) < ADC_RANGE * (Num(i) + Denom(i))
  {
    TwoSteps(w * ADC_VREF, ADC_RANGE, Num(i), Denom(i));
    assert w * ADC_VREF / ADC_RANGE * Num(i) <= 2500 * 1511;
  }

  lemma TwoSteps(x: nat, a: nat, n: nat, d: nat)
    requires a > 0 && d > 0
    ensures 0 <= x * n - x / a * n / d * a * d < a * (n + d)
  {
    var m := x / a;
    var v := m * n / d;
    assert x * n == m * a * n + x % a * n;
    assert m * n * a == v * d * a + m * n % d * a;
  }

  /** A word decides its own voltage, which rises with it, and no other; but voltage 6 is
    * measured against voltage 5 and falls when that rises. */
  lemma ChannelsAreSeparate(w: Conversion, i: nat, x: nat)
    requires i < 8 && w[i] <= x < ADC_RANGE
    ensures var v, v' := Voltages(w), Voltages(w[i := x]);
            && v[i] <= v'[i]
            && (forall k :: 0 <= k < 8 && k != i && (i == 5 ==> k != 6) ==> v'[k] == v[k])
            && (i == 5 ==> v'[6] <= v[6])
  {
    ScaledIsMonotone(i, w[i], x);
  }

  lemma ScaledIsMonotone(i: nat, w: nat, x: nat)
    requires i < 8 && w <= x
    ensures 0 <= Scaled(i, w) <= Scaled(i, x)
  {
    var a, b := w * ADC_VREF / ADC_RANGE, x * ADC_VREF / ADC_RANGE;
    assert a <= b;
    MulMonotone(a, b, Num(i));
    DivMonotone(a * Num(i), b * Num(i), Denom(i));
  }

  /** Every voltage delivered is, in mV, less than a unit of each scaling step below the exact
    * one: 2500 mV in 4096 steps, times the divider of the channel. Voltage 6 is measured against
    * one and a half times voltage 5, voltage 7 against 8250 mV. */
  lemma VoltagesAreAccurate(w: Conversion)
    ensures var v := Voltages(w);
            && 0 <= w[0] * 2500 * 101 - v[0] * 4096 * 100 < 4096 * 201
            && 0 <= w[1] * 2500 * 101 - v[1] * 4096 * 100 < 4096 * 201
            && 0 <= w[2] * 2500 * 120 - v[2] * 4096 * 100 < 4096 * 220
            && 0 <= w[3] * 2500 * 1511 - v[3] * 4096 * 1000 < 4096 * 2511
            && 0 <= w[4] * 2500 * 250 - v[4] * 4096 * 100 < 4096 * 350
            && 0 <= w[5] * 2500 * 611 - v[5] * 4096 * 100 < 4096 * 711
            && 0 <= w[6] * 2500 * 315 - (v[6] + v[5] * 1500 / 1000) * 4096 * 100 < 4096 * 415
            && 0 <= w[7] * 2500 * 290 - (v[7] + 8250) * 4096 * 100 < 4096 * 390
  {
    hide Scaled;
    ScalingIsAccurate(0, w[0]);
    ScalingIsAccurate(1, w[1]);
    ScalingIsAccurate(2, w[2]);
    ScalingIsAccurate(3, w[3]);
    ScalingIsAccurate(4, w[4]);
    ScalingIsAccurate(5, w[5]);
    ScalingIsAccurate(6, w[6]);
    ScalingIsAccurate(7, w[7]);
  }

  /** On the line, the low byte of a word comes first. */
  lemma LowByteFirst(w: Conversion, i: nat)
    requires i < 8
    ensures Bytes(w)[2 * i] == w[i] % 256 && Bytes(w)[2 * i + 1] == w[i] / 256
  {
  }

  // ---------- Why the slave's main loop must run between exchanges ----------

  /** The replies of a slave whose main loop never runs. */
  function Replies(tx: nat, byteData: seq<nat>, sent: seq<nat>): (replies: seq<nat>)
    requires |byteData| == 16
    decreases |sent|
  {
    if sent == [] then []
    else [tx] + Replies(Reply(false, byteData, sent[0]), byteData, sent[1..])
  }

  /** What the driver sends to read out the data from byte number j on. */
  function ReadOutCodes(j: nat): (codes: seq<nat>)
    requires j <= 15
    decreases 15 - j
  {
    if j == 15 then [PROTO_RESET - 1] else [j + 1] + ReadOutCodes(j + 1)
  }

  lemma {:induction false} ReadOutReplies(j: nat, byteData: seq<nat>)
    requires j <= 15 && |byteData| == 16
    ensures Replies(byteData[j], byteData, ReadOutCodes(j)) == byteData[j..]
    decreases 15 - j
  {
    if j < 15 {
      ReadOutReplies(j + 1, byteData);
      assert ReadOutCodes(j)[1..] == ReadOutCodes(j + 1);
    } else {
      assert ReadOutCodes(15)[1..] == [];
    }
  }

  /** Were the main loop not to run, the conversation would be one the driver accepts, giving
    * the data of an earlier conversion. */
  lemma StaleData(byteData: seq<nat>)
    requires |byteData| == 16
    ensures Replies(0xaa, byteData, [0x10, 0xa5, 0xa5, 0] + ReadOutCodes(0))
            == [0xaa, 0xef, 0xa6, 0xa6] + byteData
  {
    hide Replies, ReadOutCodes;
    var codes := ReadOutCodes(0);
    ReadOutReplies(0, byteData);
    NextReply(CONV_TEST + 1, byteData, 0, codes);
    NextReply(CONV_TEST + 1, byteData, CONV_TEST, [0] + codes);
    NextReply(CONV_IN_PROGRESS, byteData, CONV_TEST, [CONV_TEST] + ([0] + codes));
    NextReply(PROTO_RESET, byteData, CONV_START, [CONV_TEST] + ([CONV_TEST] + ([0] + codes)));
    assert [CONV_START, CONV_TEST, CONV_TEST, 0] + codes
        == [CONV_START] + ([CONV_TEST] + ([CONV_TEST] + ([0] + codes)));
  }

  lemma NextReply(tx: nat, byteData: seq<nat>, code: nat, rest: seq<nat>)
    requires |byteData| == 16
    ensures Replies(tx, byteData, [code] + rest) == [tx] + Replies(Reply(false, byteData, code), byteData, rest)
  {
    assert ([code] + rest)[1..] == rest;
  }

  /** The last byte sent leaves the reset code behind whatever the data are; no other byte
    * does. */
  lemma LastByteSent(received: nat)
    requires received < 256
    ensures (forall b: seq<nat> :: |b| == 16 ==> Reply(false, b, received) == 0xaa) <==> received == 0xa9
  {
    var zeros := seq(16, _ => 0);
    assert Reply(false, zeros, received) == PROTO_RESET ==> received == PROTO_RESET - 1;
  }
}
