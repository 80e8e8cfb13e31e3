/**
 * The gateway session (LightifyMe/Core/GatewayController.cs): a 32-bit session counter, the
 * discovery exchange that turns the gateway's reply into bulbs, and the commands that send one
 * frame, read one fixed-size acknowledgement and then update the caller's bulb to match.
 *
 * The socket is modelled by a `connected` flag and a ghost transcript of what was sent and
 * received; each reply the gateway would send is a parameter of the command, already of the
 * size the source's receive buffer has.
 */
module Gateway {
  import opened Wrappers
  import opened Bytes
  import opened Bulbs
  import opened Builders
  import opened Frames

  const RequestBufferHeaderSize := 11
  const BulbBufferSize := 50
  const ResponseBufferSize := 20

  /** One thing that happened on the socket, in order. */
  datatype Event = Sent(frame: seq<Byte>) | Received(reply: seq<Byte>)

  datatype GatewayError =
    | InvalidAddress       // the local IP does not parse (ArgumentException)
    | ConnectFailed        // the socket is not connected after the attempt
    | NotConnected         // GetBulbs' own check (InvalidOperationException)
    | SocketNotConnected   // Socket.Send on a socket that is not connected (SocketException)
    | BrightnessOutOfRange // a percentage above 100 (InvalidOperationException)

  /** The i-th 50-byte record of the discovery reply body. */
  function RecordAt(body: seq<Byte>, i: nat): (rec: seq<Byte>)
    requires 50 * (i + 1) <= |body|
    ensures |rec| == BulbBufferSize
  {
    body[50 * i .. 50 * (i + 1)]
  }

  /**
   * What the shared builder decodes in each round of discovery, in order: the n records of the
   * body, with whatever the builder still held when discovery began in front of the first.
   */
  function BuilderInputs(pending: seq<Byte>, body: seq<Byte>, n: nat): (inputs: seq<seq<Byte>>)
    requires 50 * n <= |body|
    ensures |inputs| == n
    ensures forall i :: 0 <= i < n ==> |inputs[i]| >= BulbBufferSize
  {
    seq(n, i requires 0 <= i < n => (if i == 0 then pending else []) + RecordAt(body, i))
  }

  /** The bulbs a sequence of builder inputs yields, in order; an input whose MAC reads as zero yields none. */
  function Discovered(inputs: seq<seq<Byte>>): (bulbs: seq<BulbState>)
    requires forall i :: 0 <= i < |inputs| ==> |inputs[i]| >= NameOffset
    ensures |bulbs| <= |inputs|
    ensures forall i :: 0 <= i < |bulbs| ==> bulbs[i].macAddress != 0
  {
    if inputs == [] then []
    else
      var last := inputs[|inputs| - 1];
      var earlier := Discovered(inputs[..|inputs| - 1]);
      if U64At(last, 2) == 0 then earlier else earlier + [DecodeFields(last)]
  }

  /** One more input either adds its decoded bulb or, when its MAC reads as zero, nothing. */
  lemma DiscoveredStep(inputs: seq<seq<Byte>>, d: seq<Byte>)
    requires forall i :: 0 <= i < |inputs| ==> |inputs[i]| >= NameOffset
    requires |d| >= NameOffset
    ensures U64At(d, 2) == 0 ==> Discovered(inputs + [d]) == Discovered(inputs)
    ensures U64At(d, 2) != 0 ==> Discovered(inputs + [d]) == Discovered(inputs) + [DecodeFields(d)]
  {
    assert (inputs + [d])[..|inputs|] == inputs;
  }

  /** The same step in terms of what Build makes of the input: its bulb, or nothing. */
  lemma DiscoveredStepDecode(inputs: seq<seq<Byte>>, d: seq<Byte>)
    requires forall i :: 0 <= i < |inputs| ==> |inputs[i]| >= NameOffset
    requires |d| >= NameOffset
    ensures Decode(d) == Success(None) ==> Discovered(inputs + [d]) == Discovered(inputs)
    ensures Decode(d).value.Some? ==> Discovered(inputs + [d]) == Discovered(inputs) + [Decode(d).value.value]
  {
    DiscoveredStep(inputs, d);
  }

  /** The step lemma phrased on prefixes: discovery over one more input of the same list. */
  lemma DiscoveredPrefixStep(inputs: seq<seq<Byte>>, i: nat)
    requires forall k :: 0 <= k < |inputs| ==> |inputs[k]| >= NameOffset
    requires i < |inputs|
    ensures U64At(inputs[i], 2) == 0 ==> Discovered(inputs[..i + 1]) == Discovered(inputs[..i])
    ensures U64At(inputs[i], 2) != 0 ==>
      Discovered(inputs[..i + 1]) == Discovered(inputs[..i]) + [DecodeFields(inputs[i])]
  {
    assert inputs[..i + 1] == inputs[..i] + [inputs[i]];
    DiscoveredStep(inputs[..i], inputs[i]);
  }

  /** When every input has a non-zero MAC, discovery yields one bulb per input, in input order. */
  lemma {:induction false} DiscoveredAllValid(inputs: seq<seq<Byte>>)
    requires forall i :: 0 <= i < |inputs| ==> |inputs[i]| >= NameOffset && Decode(inputs[i]).value.Some?
    ensures |Discovered(inputs)| == |inputs|
    ensures forall i :: 0 <= i < |inputs| ==> Discovered(inputs)[i] == Decode(inputs[i]).value.value
  {
    if inputs != [] {
      DiscoveredAllValid(inputs[..|inputs| - 1]);
    }
  }

  /** A record whose MAC reads as zero can be removed without changing what discovery yields. */
  lemma {:induction false} DiscoveredIgnoresZeroRecord(before: seq<seq<Byte>>, d: seq<Byte>, after: seq<seq<Byte>>)
    requires forall i :: 0 <= i < |before| ==> |before[i]| >= NameOffset
    requires forall i :: 0 <= i < |after| ==> |after[i]| >= NameOffset
    requires Decode(d) == Success(None)
    ensures Discovered(before + [d] + after) == Discovered(before + after)
  {
    if after == [] {
      assert before + [d] + after == before + [d];
      assert before + after == before;
      DiscoveredStep(before, d);
    } else {
      var init, last := after[..|after| - 1], after[|after| - 1];
      DiscoveredIgnoresZeroRecord(before, d, init);
      assert before + [d] + after == (before + [d] + init) + [last];
      assert before + after == (before + init) + [last];
      DiscoveredStep(before + [d] + init, last);
      DiscoveredStep(before + init, last);
    }
  }

  /** With a clean builder, the inputs are exactly the 50-byte records of the body. */
  lemma CleanBuilderInputs(body: seq<Byte>, n: nat)
    requires 50 * n <= |body|
    ensures forall i :: 0 <= i < n ==> BuilderInputs([], body, n)[i] == RecordAt(body, i)
  {
  }

  /** With a clean builder, a two-record body gives exactly its two records as inputs. */
  lemma CleanBuilderInputsPair(body: seq<Byte>)
    requires |body| == 100
    ensures BuilderInputs([], body, 2) == [RecordAt(body, 0), RecordAt(body, 1)]
  {
    CleanBuilderInputs(body, 2);
  }

  /** A valid input followed by one whose MAC reads as zero yields exactly the first bulb. */
  lemma DiscoveredPair(r0: seq<Byte>, r1: seq<Byte>)
    requires |r0| >= NameOffset && |r1| >= NameOffset
    requires Decode(r0).value.Some? && Decode(r1) == Success(None)
    ensures Discovered([r0, r1]) == [Decode(r0).value.value]
  {
    assert [r0, r1] == [r0] + [r1];
    DiscoveredStep([r0], r1);
    assert [r0] == [] + [r0];
    DiscoveredStep([], r0);
  }

  /** Two records, the first valid and the second with a zero MAC: exactly the first bulb is found. */
  lemma DiscoveredDropsZeroRecord(body: seq<Byte>)
    requires |body| == 100
    requires Decode(RecordAt(body, 0)).value.Some? && Decode(RecordAt(body, 1)) == Success(None)
    ensures Discovered(BuilderInputs([], body, 2)) == [Decode(RecordAt(body, 0)).value.value]
  {
    CleanBuilderInputsPair(body);
    DiscoveredPair(RecordAt(body, 0), RecordAt(body, 1));
  }

  class GatewayController {
    /** The builder injected at construction; it keeps its buffer between calls. */
    const builder: BulbBuilder
    var sessionId: Int32
    var connected: bool
    ghost var transcript: seq<Event>

    constructor (bulbBuilder: BulbBuilder)
      ensures builder == bulbBuilder
      ensures sessionId == 0 && !connected && transcript == []
    {
      builder := bulbBuilder;
      sessionId := 0;
      connected := false;
      transcript := [];
    }

    constructor WithNewBuilder()
      ensures fresh(builder) && builder.pending == []
      ensures sessionId == 0 && !connected && transcript == []
    {
      builder := new BulbBuilder();
      sessionId := 0;
      connected := false;
      transcript := [];
    }

    /**
     * Init: an address that does not parse fails before any connection attempt; otherwise the
     * session is connected exactly when the transport reports it connected.
     */
    method Init(addressParses: bool, transportConnects: bool) returns (r: Result<(), GatewayError>)
      modifies this`connected
      ensures !addressParses ==> r == Failure(InvalidAddress) && connected == old(connected)
      ensures addressParses ==> connected == transportConnects
      ensures addressParses && !transportConnects ==> r == Failure(ConnectFailed)
      ensures r.Success? <==> addressParses && transportConnects
    {
      if !addressParses {
        return Failure(InvalidAddress);
      }
      connected := transportConnects;
      if !connected {
        return Failure(ConnectFailed);
      }
      return Success(());
    }

    method Shutdown()
      modifies this`connected
      ensures !connected
    {
      connected := false;
    }

    /** One round trip: send the frame, then read the reply; sending needs a connected socket. */
    method Exchange(frame: seq<Byte>, reply: seq<Byte>) returns (ok: bool)
      modifies this`transcript
      ensures ok == connected
      ensures transcript == if ok then old(transcript) + [Sent(frame), Received(reply)] else old(transcript)
    {
      if !connected {
        return false;
      }
      transcript := transcript + [Sent(frame), Received(reply)];
      return true;
    }

    /**
     * Discovery: the count request with the current id, the records request with the next id,
     * then one decode per 50-byte record; bulbs whose MAC reads as zero are dropped.
     */
    method GetBulbs(header: seq<Byte>, body: seq<Byte>) returns (r: Result<seq<Bulb>, GatewayError>)
      requires |header| == RequestBufferHeaderSize
      requires |body| == header[9] as int * 50
      modifies this`sessionId, this`transcript, builder
      ensures !old(connected) ==>
        && r == Failure(NotConnected) && sessionId == old(sessionId)
        && transcript == old(transcript) && builder.pending == old(builder.pending)
      ensures old(connected) ==>
        && sessionId == Inc32(old(sessionId))
        && transcript == old(transcript) + [Sent(DiscoveryFrame(old(sessionId))), Received(header),
                                            Sent(DiscoveryFrame(sessionId)), Received(body)]
        && builder.pending == (if header[9] == 0 then old(builder.pending) else [])
        && r.Success?
        && var found := Discovered(BuilderInputs(old(builder.pending), body, header[9]));
           && |r.value| == |found|
           && (forall i {:trigger r.value[i]} :: 0 <= i < |r.value| ==> fresh(r.value[i]) && r.value[i].State() == found[i])
           && (forall i, j :: 0 <= i < j < |r.value| ==> r.value[i] != r.value[j])
    {
      if !connected {
        return Failure(NotConnected);
      }
      ghost var t0 := transcript;

      var requestBuffer: seq<Byte> := [0x0B, 0x00, 0x00, 0x13];
      requestBuffer := requestBuffer + Int32Bytes(sessionId);
      requestBuffer := requestBuffer + [0x01, 0x00, 0x00, 0x00, 0x00];
      assert requestBuffer == DiscoveryFrame(sessionId);
      var ok := Exchange(requestBuffer, header);
      assert transcript == t0 + [Sent(DiscoveryFrame(old(sessionId))), Received(header)];

      var bulbCount: nat := header[9];

      sessionId := Inc32(sessionId);
      requestBuffer := [0x0B, 0x00, 0x00, 0x13];
      requestBuffer := requestBuffer + Int32Bytes(sessionId);
      requestBuffer := requestBuffer + [0x01, 0x00, 0x00, 0x00, 0x00];
      assert requestBuffer == DiscoveryFrame(sessionId);
      ok := Exchange(requestBuffer, body);
      assert transcript == t0 + [Sent(DiscoveryFrame(old(sessionId))), Received(header),
                                 Sent(DiscoveryFrame(sessionId)), Received(body)];

      var bulbs := BuildBulbs(body, bulbCount);
      return Success(bulbs);
    }

    /**
     * The record loop of GetBulbs: each 50-byte record goes through the builder, and the bulbs it
     * builds are collected in record order.
     */
    method BuildBulbs(body: seq<Byte>, bulbCount: nat) returns (bulbs: seq<Bulb>)
      requires |body| == bulbCount * 50
      modifies builder
      ensures builder.pending == (if bulbCount == 0 then old(builder.pending) else [])
      ensures var found := Discovered(BuilderInputs(old(builder.pending), body, bulbCount));
        && |bulbs| == |found|
        && (forall i {:trigger bulbs[i]} :: 0 <= i < |bulbs| ==> fresh(bulbs[i]) && bulbs[i].State() == found[i])
        && (forall i, j :: 0 <= i < j < |bulbs| ==> bulbs[i] != bulbs[j])
    {
      ghost var inputs := BuilderInputs(builder.pending, body, bulbCount);
      ghost var pending0 := builder.pending;
      bulbs := [];
      ghost var found: seq<BulbState> := [];
      var i: nat := 0;
      while i < bulbCount
        invariant 0 <= i <= bulbCount
        invariant builder.pending == if i == 0 then pending0 else []
        invariant found == Discovered(inputs[..i])
        invariant |bulbs| == |found|
        invariant forall k {:trigger bulbs[k]} :: 0 <= k < |bulbs| ==> fresh(bulbs[k]) && bulbs[k].State() == found[k]
        invariant forall k, l :: 0 <= k < l < |bulbs| ==> bulbs[k] != bulbs[l]
      {
        ghost var d := inputs[i];
        DiscoveredPrefixStep(inputs, i);
        var bulb := BuildRecord(body[50 * i .. 50 * (i + 1)], d);
        if bulb != null {
          var built: Bulb := bulb;
          bulbs := bulbs + [built];
          found := found + [DecodeFields(d)];
        }
        i := i + 1;
      }
      assert inputs[..i] == inputs;
    }

    /** One round of the record loop: add the record's bytes to the builder, then build. */
    method BuildRecord(bulbData: seq<Byte>, ghost d: seq<Byte>) returns (bulb: Bulb?)
      requires d == builder.pending + bulbData && |d| >= NameOffset
      modifies builder
      ensures builder.pending == []
      ensures bulb == null <==> U64At(d, 2) == 0
      ensures bulb != null ==> fresh(bulb) && bulb.State() == DecodeFields(d)
    {
      var chained := builder.AddBytes(bulbData);
      var built := chained.Build();
      bulb := built.value;
    }

    /** Broadcast on: the fixed frame, no session id consumed, no bulb touched. */
    method TurnAllOn(ack: seq<Byte>) returns (r: Result<(), GatewayError>)
      requires |ack| == ResponseBufferSize
      modifies this`transcript
      ensures sessionId == old(sessionId)
      ensures connected ==> r.Success? && transcript == old(transcript) + [Sent(AllFrame(true)), Received(ack)]
      ensures !connected ==> r == Failure(SocketNotConnected) && transcript == old(transcript)
    {
      var requestBuffer: seq<Byte> := [0x0f, 0x00, 0x00, 0x32, 0x01, 0x00, 0x00, 0x00,
                                       0xff, 0xff, 0xff, 0xff, 0xff, 0xff, 0xff, 0xff, 0x01];
      var ok := Exchange(requestBuffer, ack);
      if !ok {
        return Failure(SocketNotConnected);
      }
      return Success(());
    }

    /** Broadcast off: the fixed frame, no session id consumed, no bulb touched. */
    method TurnAllOff(ack: seq<Byte>) returns (r: Result<(), GatewayError>)
      requires |ack| == ResponseBufferSize
      modifies this`transcript
      ensures sessionId == old(sessionId)
      ensures connected ==> r.Success? && transcript == old(transcript) + [Sent(AllFrame(false)), Received(ack)]
      ensures !connected ==> r == Failure(SocketNotConnected) && transcript == old(transcript)
    {
      var requestBuffer: seq<Byte> := [0x0f, 0x00, 0x00, 0x32, 0x01, 0x00, 0x00, 0x00,
                                       0xff, 0xff, 0xff, 0xff, 0xff, 0xff, 0xff, 0xff, 0x00];
      var ok := Exchange(requestBuffer, ack);
      if !ok {
        return Failure(SocketNotConnected);
      }
      return Success(());
    }

    /**
     * Turn one bulb on: the counter goes up first (even if sending then fails); after the round
     * trip the bulb is marked on and nothing else about it changes.
     */
    method TurnOn(bulb: Bulb, ack: seq<Byte>) returns (r: Result<(), GatewayError>)
      requires |ack| == ResponseBufferSize
      modifies this`sessionId, this`transcript, bulb
      ensures sessionId == Inc32(old(sessionId))
      ensures connected ==>
        && r.Success?
        && transcript == old(transcript) + [Sent(OnOffFrame(sessionId, old(bulb.macAddress), true)), Received(ack)]
        && bulb.State() == old(bulb.State()).(isOn := true)
      ensures !connected ==>
        && r == Failure(SocketNotConnected)
        && transcript == old(transcript) && bulb.State() == old(bulb.State())
    {
      sessionId := Inc32(sessionId);
      var requestBuffer: seq<Byte> := [0x0F, 0x00, 0x00, 0x32];
      requestBuffer := requestBuffer + Int32Bytes(sessionId);
      requestBuffer := requestBuffer + LeBytes(bulb.macAddress, 8);
      requestBuffer := requestBuffer + [0x01];

      var ok := Exchange(requestBuffer, ack);
      if !ok {
        return Failure(SocketNotConnected);
      }
      bulb.isOn := true;
      return Success(());
    }

    /** Turn one bulb off: as TurnOn with a trailing 0x00, and the bulb is marked off. */
    method TurnOff(bulb: Bulb, ack: seq<Byte>) returns (r: Result<(), GatewayError>)
      requires |ack| == ResponseBufferSize
      modifies this`sessionId, this`transcript, bulb
      ensures sessionId == Inc32(old(sessionId))
      ensures connected ==>
        && r.Success?
        && transcript == old(transcript) + [Sent(OnOffFrame(sessionId, old(bulb.macAddress), false)), Received(ack)]
        && bulb.State() == old(bulb.State()).(isOn := false)
      ensures !connected ==>
        && r == Failure(SocketNotConnected)
        && transcript == old(transcript) && bulb.State() == old(bulb.State())
    {
      sessionId := Inc32(sessionId);
      var requestBuffer: seq<Byte> := [0x0F, 0x00, 0x00, 0x32];
      requestBuffer := requestBuffer + Int32Bytes(sessionId);
      requestBuffer := requestBuffer + LeBytes(bulb.macAddress, 8);
      requestBuffer := requestBuffer + [0x00];

      var ok := Exchange(requestBuffer, ack);
      if !ok {
        return Failure(SocketNotConnected);
      }
      bulb.isOn := false;
      return Success(());
    }

    /**
     * Set a bulb's brightness: a percentage above 100 is rejected before the counter moves or
     * anything is sent; otherwise the bulb's brightness becomes the percentage.
     */
    method SetBrightness(bulb: Bulb, brightnessPercentage: Byte, ack: seq<Byte>) returns (r: Result<(), GatewayError>)
      requires |ack| == ResponseBufferSize
      modifies this`sessionId, this`transcript, bulb
      ensures brightnessPercentage > 100 ==>
        && r == Failure(BrightnessOutOfRange) && sessionId == old(sessionId)
        && transcript == old(transcript) && bulb.State() == old(bulb.State())
      ensures brightnessPercentage <= 100 ==> sessionId == Inc32(old(sessionId))
      ensures brightnessPercentage <= 100 && connected ==>
        && r.Success?
        && transcript == old(transcript)
             + [Sent(BrightnessFrame(sessionId, old(bulb.macAddress), brightnessPercentage)), Received(ack)]
        && bulb.State() == old(bulb.State()).(brightness := brightnessPercentage)
      ensures brightnessPercentage <= 100 && !connected ==>
        && r == Failure(SocketNotConnected)
        && transcript == old(transcript) && bulb.State() == old(bulb.State())
    {
      if brightnessPercentage > 100 {
        return Failure(BrightnessOutOfRange);
      }
      sessionId := Inc32(sessionId);
      var requestBuffer: seq<Byte> := [0x11, 0x00, 0x00, 0x31];
      requestBuffer := requestBuffer + Int32Bytes(sessionId);
      requestBuffer := requestBuffer + LeBytes(bulb.macAddress, 8);
      requestBuffer := requestBuffer + [brightnessPercentage];
      requestBuffer := requestBuffer + [0x00, 0x00];

      var ok := Exchange(requestBuffer, ack);
      if !ok {
        return Failure(SocketNotConnected);
      }
      bulb.brightness := brightnessPercentage;
      return Success(());
    }

    /** Set a bulb's colour: sent as alpha, blue, green, red; afterwards the bulb has that colour. */
    method SetColor(bulb: Bulb, color: Color, ack: seq<Byte>) returns (r: Result<(), GatewayError>)
      requires |ack| == ResponseBufferSize
      modifies this`sessionId, this`transcript, bulb
      ensures sessionId == Inc32(old(sessionId))
      ensures connected ==>
        && r.Success?
        && transcript == old(transcript) + [Sent(ColorFrame(sessionId, old(bulb.macAddress), color)), Received(ack)]
        && bulb.State() == old(bulb.State()).(color := color)
      ensures !connected ==>
        && r == Failure(SocketNotConnected)
        && transcript == old(transcript) && bulb.State() == old(bulb.State())
    {
      sessionId := Inc32(sessionId);
      var requestBuffer: seq<Byte> := [0x14, 0x00, 0x00, 0x36];
      requestBuffer := requestBuffer + Int32Bytes(sessionId);
      requestBuffer := requestBuffer + LeBytes(bulb.macAddress, 8);
      requestBuffer := requestBuffer + [color.a, color.b, color.g, color.r];
      requestBuffer := requestBuffer + [0x00, 0x00];

      var ok := Exchange(requestBuffer, ack);
      if !ok {
        return Failure(SocketNotConnected);
      }
      bulb.color := color;
      return Success(());
    }
  }
}
