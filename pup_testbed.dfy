/** The campus testbed of PUPtestbedns3.cc: seventeen access points switched on and off by a
    mask string, one UDP client per active access point, and the energy, loss and SINR
    figures the run reports.

    The ns-3 objects (nodes, PHY helpers, applications, the flow monitor) are not modelled:
    each loop over the access points is modelled by what it hands to them, namely the count
    of active points, the transmit power chosen for each point and the (access point,
    destination interface) pair of each client. Doubles are modelled as reals. */
module PupTestbed {

  /** Seventeen access points (line 50) and twenty users (line 44). */
  const NumAps: nat := 17
  const NumUsers: nat := 20

  /** The mask the run uses when none is given: every access point on (line 43). */
  const DefaultMask: string := "11111111111111111"

  /** activeMask[i] as std::string::operator[] reads it: the character at i, or the
      terminating '\0' when i is the length of the string. */
  function MaskChar(mask: string, i: nat): char
    requires i <= |mask|
  {
    if i < |mask| then mask[i] else '\0'
  }

  /** The loops read positions 0 to 16, and position 16 may be the terminator. */
  predicate MaskReadable(mask: string) {
    |mask| >= NumAps - 1
  }

  // ---------------------------------------------------------------
  // Counting the active access points (lines 100-104)
  // ---------------------------------------------------------------

  /** The number of '1's among the first n mask positions. */
  function CountOnes(mask: string, n: nat): (c: nat)
    requires n <= |mask| + 1
    ensures c <= n
  {
    if n == 0 then 0
    else CountOnes(mask, n - 1) + (if MaskChar(mask, n - 1) == '1' then 1 else 0)
  }

  method CountActive(mask: string) returns (activeCount: nat)
    requires MaskReadable(mask)
    ensures activeCount == CountOnes(mask, NumAps)
  {
    activeCount := 0;
    var i := 0;
    while i < NumAps
      invariant 0 <= i <= NumAps
      invariant activeCount == CountOnes(mask, i)
    {
      if MaskChar(mask, i) == '1' {
        activeCount := activeCount + 1;
      }
      i := i + 1;
    }
  }

  /** With the default mask every access point counts. */
  lemma DefaultMaskAllActive()
    ensures MaskReadable(DefaultMask)
    ensures CountOnes(DefaultMask, NumAps) == NumAps
  {
    assert forall k :: 0 <= k < NumAps ==> DefaultMask[k] == '1';
    CountAllOnes(DefaultMask, NumAps);
  }

  lemma {:induction false} CountAllOnes(mask: string, n: nat)
    requires n <= |mask|
    requires forall k :: 0 <= k < n ==> mask[k] == '1'
    ensures CountOnes(mask, n) == n
  {
    if n > 0 {
      CountAllOnes(mask, n - 1);
    }
  }

  // ---------------------------------------------------------------
  // Transmit power per access point (lines 123-132)
  // ---------------------------------------------------------------

  /** -100 dBm for a '0', 25 dBm for anything else. */
  function TxPowerFor(c: char): (p: real)
    ensures p == -100.0 <==> c == '0'
    ensures p == 25.0 <==> c != '0'
  {
    if c == '0' then -100.0 else 25.0
  }

  /** The transmit power each access point's device is installed with, in order. */
  method ConfigureAps(mask: string) returns (powers: seq<real>)
    requires MaskReadable(mask)
    ensures |powers| == NumAps
    ensures forall i :: 0 <= i < NumAps ==> powers[i] == TxPowerFor(MaskChar(mask, i))
  {
    powers := [];
    var i := 0;
    while i < NumAps
      invariant 0 <= i <= NumAps
      invariant |powers| == i
      invariant forall k :: 0 <= k < i ==> powers[k] == TxPowerFor(MaskChar(mask, k))
    {
      if MaskChar(mask, i) == '0' {
        powers := powers + [-100.0];
      } else {
        powers := powers + [25.0];
      }
      i := i + 1;
    }
  }

  // ---------------------------------------------------------------
  // Client installation (lines 156-179)
  // ---------------------------------------------------------------

  /** A UDP client on access point `ap`, sending to interface `dest` of the address list. */
  datatype Client = Client(ap: nat, dest: nat)

  /** The interfaces are numbered the AP devices first, then the user devices (lines
      159-162); the client on access point i sends to interface 17 + (i mod numUsers). */
  function Destination(ap: nat): nat {
    NumAps + ap % NumUsers
  }

  /** The clients the loop installs over the first n access points. */
  function Clients(mask: string, n: nat): (cs: seq<Client>)
    requires n <= |mask| + 1
    ensures |cs| == CountOnes(mask, n)
  {
    if n == 0 then []
    else if MaskChar(mask, n - 1) == '1' then Clients(mask, n - 1) + [Client(n - 1, Destination(n - 1))]
    else Clients(mask, n - 1)
  }

  method InstallClients(mask: string) returns (clients: seq<Client>)
    requires MaskReadable(mask)
    ensures clients == Clients(mask, NumAps)
  {
    clients := [];
    var i := 0;
    while i < NumAps
      invariant 0 <= i <= NumAps
      invariant clients == Clients(mask, i)
    {
      if MaskChar(mask, i) == '1' {
        clients := clients + [Client(i, Destination(i))];
      }
      i := i + 1;
    }
  }

  /** Every client sits on an access point below n whose mask character is '1', sends to the
      interface of the user with its own number, and the access points increase strictly. */
  lemma {:induction false} ClientsSound(mask: string, n: nat)
    requires n <= |mask| + 1 && n <= NumAps
    ensures forall k :: 0 <= k < |Clients(mask, n)| ==>
      var c := Clients(mask, n)[k];
      c.ap < n && MaskChar(mask, c.ap) == '1' && c.dest == NumAps + c.ap
    ensures forall k, l :: 0 <= k < l < |Clients(mask, n)| ==> Clients(mask, n)[k].ap < Clients(mask, n)[l].ap
  {
    if n > 0 {
      ClientsSound(mask, n - 1);
    }
  }

  /** Every access point below n whose mask character is '1' has a client. */
  lemma {:induction false} ClientsComplete(mask: string, n: nat)
    requires n <= |mask| + 1
    ensures forall i :: 0 <= i < n && MaskChar(mask, i) == '1' ==> Client(i, Destination(i)) in Clients(mask, n)
  {
    if n > 0 {
      ClientsComplete(mask, n - 1);
    }
  }

  /** A mask character other than '0' and '1' leaves its access point at full power but
      without a client, and it is not counted. */
  lemma OtherCharacterPoweredButIdle(mask: string, i: nat)
    requires MaskReadable(mask) && i < NumAps
    requires MaskChar(mask, i) != '0' && MaskChar(mask, i) != '1'
    ensures TxPowerFor(MaskChar(mask, i)) == 25.0
    ensures forall c :: c in Clients(mask, NumAps) ==> c.ap != i
    ensures CountOnes(mask, NumAps) < NumAps
  {
    ClientsSound(mask, NumAps);
    CountBelowWithGap(mask, NumAps, i);
  }

  lemma {:induction false} CountBelowWithGap(mask: string, n: nat, i: nat)
    requires n <= |mask| + 1 && i < n
    requires MaskChar(mask, i) != '1'
    ensures CountOnes(mask, n) < n
  {
    if i < n - 1 {
      CountBelowWithGap(mask, n - 1, i);
    }
  }

  /** The whole wiring of the testbed (lines 100-179): the count, the transmit powers and the
      clients. Each client sends to a user interface, never to an access point's, and to a
      different user than every other client; there are as many clients as counted access
      points, and every one of them sits on a powered access point. */
  method SetUpTestbed(mask: string) returns (activeCount: nat, powers: seq<real>, clients: seq<Client>)
    requires MaskReadable(mask)
    ensures activeCount == CountOnes(mask, NumAps) && |clients| == activeCount
    ensures |powers| == NumAps
    ensures forall k :: 0 <= k < |clients| ==> clients[k].ap < NumAps && powers[clients[k].ap] == 25.0
    ensures forall k :: 0 <= k < |clients| ==> NumAps <= clients[k].dest < NumAps + NumUsers
    ensures forall k, l :: 0 <= k < l < |clients| ==> clients[k].dest != clients[l].dest
    ensures forall i :: 0 <= i < NumAps && MaskChar(mask, i) == '1' ==> Client(i, Destination(i)) in clients
  {
    activeCount := CountActive(mask);
    powers := ConfigureAps(mask);
    clients := InstallClients(mask);
    ClientsSound(mask, NumAps);
    ClientsComplete(mask, NumAps);
  }

  // ---------------------------------------------------------------
  // Energy, loss and SINR (lines 20-39 and 210-211)
  // ---------------------------------------------------------------

  /** 10.5 W per active router. */
  function TestbedEnergy(activeNodes: int): (e: real)
    ensures activeNodes >= 0 <==> e >= 0.0
  {
    activeNodes as real * 10.5
  }

  /** Every further active router costs 10.5 W. */
  lemma TestbedEnergyPerNode(activeNodes: int)
    ensures TestbedEnergy(activeNodes + 1) == TestbedEnergy(activeNodes) + 10.5
  {
  }

  /** Whatever the mask, the reported energy lies between 0 W and the 178.5 W of the default
      mask, which switches every router on. */
  lemma TestbedEnergyRange(mask: string)
    requires MaskReadable(mask)
    ensures 0.0 <= TestbedEnergy(CountOnes(mask, NumAps)) <= TestbedEnergy(CountOnes(DefaultMask, NumAps))
    ensures TestbedEnergy(CountOnes(DefaultMask, NumAps)) == 178.5
  {
    DefaultMaskAllActive();
  }

  /** The loss ratio in percent; when nothing was sent every packet counts as lost. */
  function PacketLoss(txPackets: real, rxPackets: real): (r: real)
    ensures txPackets <= 0.0 ==> r == 100.0
    ensures txPackets > 0.0 ==> r * txPackets == (txPackets - rxPackets) * 100.0
  {
    if txPackets > 0.0 then ((txPackets - rxPackets) / txPackets) * 100.0 else 100.0
  }

  /** With no more received than sent, the ratio is a percentage. */
  lemma PacketLossBounds(txPackets: real, rxPackets: real)
    requires 0.0 <= rxPackets <= txPackets
    ensures 0.0 <= PacketLoss(txPackets, rxPackets) <= 100.0
  {
    if txPackets > 0.0 {
      var r := PacketLoss(txPackets, rxPackets);
      assert r * txPackets <= 100.0 * txPackets;
      assert r * txPackets >= 0.0;
    }
  }

  /** The mean SINR over the samples, 0 dB when there are none. */
  function AverageSinr(totalSinrDb: real, samples: nat): (r: real)
    ensures samples == 0 ==> r == 0.0
    ensures samples > 0 ==> r * samples as real == totalSinrDb
  {
    if samples > 0 then totalSinrDb / samples as real else 0.0
  }

  function Sum(s: seq<real>): real {
    if s == [] then 0.0 else Sum(s[..|s| - 1]) + s[|s| - 1]
  }

  /** The sample counter is a uint32_t (line 21). */
  const SampleModulus: nat := 0x1_0000_0000

  /** The two globals the receive callback updates (lines 20-34). `history` is the SINR of
      every packet seen so far. */
  class SinrMonitor {
    var totalSinrDb: real
    var samples: nat
    ghost var history: seq<real>

    ghost predicate Valid()
      reads this
    {
      totalSinrDb == Sum(history) && samples == |history| % SampleModulus
    }

    constructor ()
      ensures Valid() && history == []
    {
      totalSinrDb := 0.0;
      samples := 0;
      history := [];
    }

    /** One received packet: its SINR is the signal minus the noise, in dB. */
    method OnRx(signalDbm: real, noiseDbm: real)
      requires Valid()
      modifies this
      ensures Valid()
      ensures history == old(history) + [signalDbm - noiseDbm]
      ensures totalSinrDb == old(totalSinrDb) + (signalDbm - noiseDbm)
      ensures samples == (old(samples) + 1) % SampleModulus
    {
      assert (history + [signalDbm - noiseDbm])[..|history|] == history;
      totalSinrDb := totalSinrDb + (signalDbm - noiseDbm);
      samples := (samples + 1) % SampleModulus;
      history := history + [signalDbm - noiseDbm];
    }

    /** The figure the run reports: the mean of the recorded SINRs while the counter has
        not wrapped around, 0 dB before the first packet. */
    function Average(): (r: real)
      reads this
      requires Valid()
      ensures history == [] ==> r == 0.0
      ensures 0 < |history| < SampleModulus ==> r * |history| as real == Sum(history)
    {
      assert |history| < SampleModulus ==> samples == |history|;
      AverageSinr(totalSinrDb, samples)
    }
  }
}
