/** The device orchestrator: device look-up, the transport it drives, and `UOSDevice`,
    which validates each instruction, brackets it with open/close when lazy, sends it or
    runs the special action, verifies every received frame's checksum and retries once. */
module UosHardware {
  import opened Outcomes
  import opened NpcCodec
  import opened UosConfig

  const SUPER_VOLATILE := 0
  const VOLATILE := 1
  const NON_VOLATILE := 2

  // ---------------------------------------------------------------------------
  // Text helpers

  function UpperChar(c: char): char
  {
    if 'a' <= c <= 'z' then (c as int - 32) as char else c
  }

  /** `str.upper()` on ASCII text. */
  function Upper(s: string): (u: string)
    ensures |u| == |s|
    ensures forall i :: 0 <= i < |s| ==> u[i] == UpperChar(s[i])
  {
    if |s| == 0 then "" else [UpperChar(s[0])] + Upper(s[1..])
  }

  lemma {:induction false} UpperIdempotent(s: string)
    ensures Upper(Upper(s)) == Upper(s)
  {
    if |s| > 0 {
      UpperIdempotent(s[1..]);
      assert Upper(s)[1..] == Upper(s[1..]);
    }
  }

  function DigitText(d: int): string
    requires 0 <= d < 10
  {
    ["0123456789"[d]]
  }

  /** `str(n)` for an integer. */
  function IntText(n: int): string
    decreases if n < 0 then 1 - n else n
  {
    if n < 0 then "-" + IntText(-n)
    else if n < 10 then DigitText(n)
    else IntText(n / 10) + DigitText(n % 10)
  }

  // ---------------------------------------------------------------------------
  // Device look-up

  /** One function's volatility table with each entry replaced by the schema address. */
  function ResolveVolatilities(f: string, vols: map<int, Enabled>): map<int, Enabled>
    requires f in UOS_SCHEMA && vols.Keys <= UOS_SCHEMA[f].addressLut.Keys
  {
    map v | v in vols :: Addr(UOS_SCHEMA[f].addressLut[v])
  }

  /** The function table after look-up: the same functions and volatilities, each mapped
      to the address the schema gives it. */
  function Resolve(functionsEnabled: map<string, map<int, Enabled>>): (r: map<string, map<int, Enabled>>)
    requires Consistent(functionsEnabled)
  {
    map f | f in functionsEnabled :: ResolveVolatilities(f, functionsEnabled[f])
  }

  /** Resolution keeps every function and volatility, maps each to its schema address,
      and resolving twice changes nothing: looking a device up again is harmless. */
  lemma ResolveIdempotent(functionsEnabled: map<string, map<int, Enabled>>)
    requires Consistent(functionsEnabled)
    ensures Resolve(functionsEnabled).Keys == functionsEnabled.Keys
    ensures forall f | f in functionsEnabled :: Resolve(functionsEnabled)[f].Keys == functionsEnabled[f].Keys
    ensures forall f, v | f in functionsEnabled && v in functionsEnabled[f] ::
              Resolve(functionsEnabled)[f][v] == Addr(UOS_SCHEMA[f].addressLut[v])
    ensures Consistent(Resolve(functionsEnabled))
    ensures Resolve(Resolve(functionsEnabled)) == Resolve(functionsEnabled)
  {
    var once := Resolve(functionsEnabled);
    assert Consistent(once);
    var twice := Resolve(once);
    forall f | f in once ensures twice[f] == once[f] {
      assert twice[f].Keys == once[f].Keys;
    }
  }

  /** Resolving a table whose every function is enabled at volatility 0 alone puts each
      function at volatility 0 on its schema address. */
  lemma ResolveSingleVolatility(functionsEnabled: map<string, map<int, Enabled>>)
    requires Consistent(functionsEnabled)
    requires forall f | f in functionsEnabled :: functionsEnabled[f] == map[0 := On]
    ensures forall f | f in functionsEnabled ::
              Resolve(functionsEnabled)[f] == map[0 := Addr(UOS_SCHEMA[f].addressLut[0])]
  {
    forall f | f in functionsEnabled
      ensures Resolve(functionsEnabled)[f] == map[0 := Addr(UOS_SCHEMA[f].addressLut[0])]
    {
      assert functionsEnabled[f].Keys == {0};
    }
  }

  /** After look-up, each Nano function sits at volatility 0 on its schema address, and
      only `hard_reset` takes the special (negative address) path. */
  lemma NanoResolved()
    ensures Consistent(NANO_FUNCTIONS)
    ensures Resolve(NANO_FUNCTIONS).Keys == UOS_SCHEMA.Keys
    ensures forall f | f in NANO_FUNCTIONS :: 0 in UOS_SCHEMA[f].addressLut
    ensures forall f | f in NANO_FUNCTIONS ::
              Resolve(NANO_FUNCTIONS)[f] == map[0 := Addr(UOS_SCHEMA[f].addressLut[0])]
    ensures forall f | f in NANO_FUNCTIONS ::
              WireAddress(Resolve(NANO_FUNCTIONS)[f][0]) < 0 <==> f == "hard_reset"
  {
    NanoFunctionsConsistent();
    SchemaAddresses();
    ResolveIdempotent(NANO_FUNCTIONS);
    ResolveSingleVolatility(NANO_FUNCTIONS);
  }

  /** `get_device_definition`: the registered device for the upper-cased identity, its
      function table resolved in place; None for a missing or unknown identity. */
  method GetDeviceDefinition(registry: Registry, identity: Option<string>) returns (device: Option<Device>)
    requires registry.Valid()
    modifies registry.nano
    ensures registry.Valid()
    ensures device.Some? <==> identity.Some? && Upper(identity.value) in DEVICE_ALIASES
    ensures device.Some? ==> device.value == registry.nano
    ensures device.Some? ==> registry.nano.functionsEnabled == Resolve(old(registry.nano.functionsEnabled))
    ensures device.None? ==> registry.nano.functionsEnabled == old(registry.nano.functionsEnabled)
  {
    if identity.Some? && Upper(identity.value) in registry.devices {
      var d := registry.devices[Upper(identity.value)];
      ghost var original := d.functionsEnabled;
      var remaining := d.functionsEnabled.Keys;
      while remaining != {}
        invariant remaining <= original.Keys
        invariant d.functionsEnabled.Keys == original.Keys
        invariant forall f | f in remaining :: d.functionsEnabled[f] == original[f]
        invariant forall f | f in original && f !in remaining :: d.functionsEnabled[f] == ResolveVolatilities(f, original[f])
        decreases remaining
      {
        var f :| f in remaining;
        d.functionsEnabled := d.functionsEnabled[f := ResolveVolatilities(f, d.functionsEnabled[f])];
        remaining := remaining - {f};
      }
      ResolveIdempotent(original);
      assert d.functionsEnabled == Resolve(original);
      return Some(d);
    }
    return None;
  }

  // ---------------------------------------------------------------------------
  // The transport, as seen by the orchestrator

  /** The special actions a transport offers; the schema marks them with a negative address. */
  datatype SpecialAction = HardResetAction

  /** The special action a function name refers to, as attribute look-up on the transport
      would find it. */
  function SpecialActionNamed(functionName: string): Option<SpecialAction>
  {
    if functionName == "hard_reset" then Some(HardResetAction) else None
  }

  /** A call made on the transport. */
  datatype Call =
    | OpenCall
    | CloseCall
    | ExecuteCall(address: int, payload: seq<int>)
    | ReadCall(expectPackets: int, timeout: int)
    | SpecialCall(action: SpecialAction)

  /** Any transport (serial port or stub), seen from outside: the replies it will give to
      each kind of call, in order, and the calls made on it so far. A transmit reply can be
      an error the transport raises. A call with no reply left fails. */
  datatype Link = Link(
    opens: seq<bool>,
    closes: seq<bool>,
    sends: seq<Result<ComResult>>,
    receives: seq<ComResult>,
    specials: seq<ComResult>,
    trace: seq<Call>)

  function Rest<T>(s: seq<T>): seq<T>
  {
    if |s| == 0 then s else s[1..]
  }

  function LinkOpen(l: Link): (bool, Link)
  {
    (if |l.opens| > 0 then l.opens[0] else false, l.(opens := Rest(l.opens), trace := l.trace + [OpenCall]))
  }

  function LinkClose(l: Link): (bool, Link)
  {
    (if |l.closes| > 0 then l.closes[0] else false, l.(closes := Rest(l.closes), trace := l.trace + [CloseCall]))
  }

  /** The reply the next transmit will get. */
  function NextSend(l: Link): Result<ComResult>
  {
    if |l.sends| > 0 then l.sends[0] else Success(FailedResult(""))
  }

  function LinkExecute(l: Link, address: int, payload: seq<int>): (Result<ComResult>, Link)
  {
    (NextSend(l), l.(sends := Rest(l.sends), trace := l.trace + [ExecuteCall(address, payload)]))
  }

  function LinkRead(l: Link, expectPackets: int, timeout: int): (ComResult, Link)
  {
    (if |l.receives| > 0 then l.receives[0] else FailedResult(""),
     l.(receives := Rest(l.receives), trace := l.trace + [ReadCall(expectPackets, timeout)]))
  }

  function LinkSpecial(l: Link, action: SpecialAction): (ComResult, Link)
  {
    (if |l.specials| > 0 then l.specials[0] else FailedResult(""),
     l.(specials := Rest(l.specials), trace := l.trace + [SpecialCall(action)]))
  }

  // ---------------------------------------------------------------------------
  // Checksum verification of received frames

  /** Which bytes of a received packet the checksum is recomputed over: `packet[1:-2]`
      (the bytes the LRC covers), or the whole packet as the legacy orchestrator does. */
  datatype Coverage = Inner | Whole

  /** The recomputed bytes; `packet[1:-2]` is empty for packets shorter than four. */
  function Covered(coverage: Coverage, p: seq<int>): seq<int>
  {
    match coverage
    case Inner => if |p| >= 4 then p[1..|p| - 2] else []
    case Whole => p
  }

  /** `get_npc_checksum(<covered bytes>) == packet[-2]`. */
  predicate PacketChecksumOk(coverage: Coverage, p: seq<int>)
    requires |p| >= 2
  {
    Checksum(Covered(coverage, p)) == p[|p| - 2]
  }

  /** The ACK followed by the data frames, the order the checks run in. */
  function Packets(response: ComResult): seq<seq<int>>
  {
    [response.ackPacket] + response.rxPackets
  }

  /** The running status after checking the packets in order; indexing `packet[-2]` on a
      packet shorter than two raises IndexError. */
  function CheckPackets(coverage: Coverage, status: bool, packets: seq<seq<int>>): Result<bool>
  {
    if |packets| == 0 then Success(status)
    else if |packets[0]| < 2 then Failure(Error(IndexError, "list index out of range"))
    else CheckPackets(coverage, status && PacketChecksumOk(coverage, packets[0]), packets[1..])
  }

  predicate HasShortPacket(packets: seq<seq<int>>)
  {
    exists i :: 0 <= i < |packets| && |packets[i]| < 2
  }

  /** The checks raise iff some packet is too short to index, and otherwise keep the
      status only if every packet's checksum matches. */
  lemma {:induction false} CheckPacketsMeaning(coverage: Coverage, status: bool, packets: seq<seq<int>>)
    ensures CheckPackets(coverage, status, packets).Failure? <==> HasShortPacket(packets)
    ensures !HasShortPacket(packets) ==>
              CheckPackets(coverage, status, packets) == Success(status && forall i | 0 <= i < |packets| :: PacketChecksumOk(coverage, packets[i]))
  {
    if |packets| > 0 && |packets[0]| >= 2 {
      CheckPacketsMeaning(coverage, status && PacketChecksumOk(coverage, packets[0]), packets[1..]);
      assert HasShortPacket(packets) <==> HasShortPacket(packets[1..]) by {
        if HasShortPacket(packets[1..]) {
          var i :| 0 <= i < |packets[1..]| && |packets[1..][i]| < 2;
          assert |packets[i + 1]| < 2;
        }
        if HasShortPacket(packets) {
          var i :| 0 <= i < |packets| && |packets[i]| < 2;
          assert packets[1..][i - 1] == packets[i];
        }
      }
      if !HasShortPacket(packets) {
        assert (forall i | 0 <= i < |packets| :: PacketChecksumOk(coverage, packets[i]))
           <==> PacketChecksumOk(coverage, packets[0]) && (forall i | 0 <= i < |packets[1..]| :: PacketChecksumOk(coverage, packets[1..][i])) by {
          forall i | 0 <= i < |packets[1..]| ensures packets[1..][i] == packets[i + 1] { }
        }
      }
    } else if |packets| > 0 {
      assert |packets[0]| < 2;
    }
  }

  /** The response after checksum verification: its status ANDed with every check. */
  function VerifiedResponse(coverage: Coverage, response: ComResult): Result<ComResult>
  {
    match CheckPackets(coverage, response.status, Packets(response))
    case Success(status) => Success(response.(status := status))
    case Failure(e) => Failure(e)
  }

  /** The verification loop over the ACK and each data frame. */
  method VerifyChecksums(coverage: Coverage, response: ComResult) returns (r: Result<ComResult>)
    ensures r == VerifiedResponse(coverage, response)
  {
    var packets := Packets(response);
    var status := response.status;
    var count := 0;
    while count < |response.rxPackets| + 1
      invariant 0 <= count <= |packets| == |response.rxPackets| + 1
      invariant CheckPackets(coverage, status, packets[count..]) == CheckPackets(coverage, response.status, packets)
    {
      var current := if count == 0 then response.ackPacket else response.rxPackets[count - 1];
      assert current == packets[count];
      assert packets[count..][1..] == packets[count + 1..];
      var computed := GetNpcChecksum(Covered(coverage, current));
      if |current| < 2 {
        return Failure(Error(IndexError, "list index out of range"));
      }
      status := status && (computed == current[|current| - 2]);
      count := count + 1;
    }
    return Success(response.(status := status));
  }

  /** Frames built by the codec always pass: the byte before END is the checksum of the
      bytes from the to-address to the end of the payload. */
  lemma EncodedFramePasses(packet: seq<int>, toAddr: int, fromAddr: int, payload: seq<int>)
    requires IsFrameOf(packet, toAddr, fromAddr, payload)
    ensures |packet| >= 2 && PacketChecksumOk(Inner, packet)
  {
  }

  /** A response whose frames are all well formed keeps its status through verification. */
  lemma WellFormedResponsePasses(response: ComResult)
    requires forall i | 0 <= i < |Packets(response)| ::
               exists toAddr, fromAddr, payload :: IsFrameOf(Packets(response)[i], toAddr, fromAddr, payload)
    ensures VerifiedResponse(Inner, response) == Success(response)
  {
    var packets := Packets(response);
    forall i | 0 <= i < |packets| ensures |packets[i]| >= 2 && PacketChecksumOk(Inner, packets[i]) {
      var toAddr, fromAddr, payload :| IsFrameOf(packets[i], toAddr, fromAddr, payload);
      EncodedFramePasses(packets[i], toAddr, fromAddr, payload);
    }
    CheckPacketsMeaning(Inner, response.status, packets);
    assert response.(status := response.status) == response;
  }

  /** The check catches every single-byte corruption of an encoded frame: changing any
      byte from the to-address to the checksum byte itself to another octet makes the
      recomputed LRC disagree with the byte before END. */
  lemma CorruptedByteFails(packet: seq<int>, toAddr: int, fromAddr: int, payload: seq<int>, k: int, v: int)
    requires IsFrameOf(packet, toAddr, fromAddr, payload) && AllBytes(packet)
    requires 1 <= k <= |packet| - 2 && IsByte(v) && v != packet[k]
    ensures !PacketChecksumOk(Inner, packet[k := v])
  {
    var n := |packet|;
    var bad := packet[k := v];
    var covered := packet[1..n - 2];
    if k == n - 2 {
      assert bad[1..n - 2] == covered;
    } else {
      var j := k - 1;
      assert bad[1..n - 2] == covered[j := v];
      assert bad[n - 2] == packet[n - 2];
      var total := Sum(covered);
      SumUpdate(covered, j, v);
      LrcOfSum(covered, total);
      LrcOfSum(covered[j := v], total + (v - covered[j]));
      ChangedSumChangesLrc(total, v - covered[j]);
      assert Checksum(covered[j := v]) != Checksum(covered);
    }
  }

  /** Adding a non-zero amount smaller than 256 in magnitude changes the sum modulo 256,
      and with it the two's complement the checksum is. */
  lemma ChangedSumChangesLrc(total: int, d: int)
    requires d != 0 && -256 < d < 256
    ensures (256 - (total + d) % 256) % 256 != (256 - total % 256) % 256
  {
    ModAdd(total, d);
    var r := total % 256;
    var m := (total + d) % 256;
    assert m != r by {
      if r + d < 0 {
        assert m == r + d + 256;
      } else if r + d >= 256 {
        assert m == r + d - 256;
      } else {
        assert m == r + d;
      }
    }
  }

  /** A frame with one corrupted covered byte fails verification: the encoded frame of
      payload `[1]` with its payload byte changed to 2. */
  lemma CorruptedFrameFails()
    ensures !PacketChecksumOk(Inner, [0x3E, 0x00, 0x01, 0x01, 0x02, 0xFD, 0x3C])
  {
    var frame := [0x3E, 0x00, 0x01, 0x01, 0x01, 0xFD, 0x3C];
    KnownPackets();
    assert frame[4 := 2] == [0x3E, 0x00, 0x01, 0x01, 0x02, 0xFD, 0x3C];
    CorruptedByteFails(frame, 0, 1, [1], 4, 2);
  }

  // ---------------------------------------------------------------------------
  // One instruction, as functions

  /** `is_lazy`: lazy when no loading mode was given or it upper-cases to "LAZY". */
  predicate IsLazy(loading: Option<string>)
  {
    loading.None? || Upper(loading.value) == "LAZY"
  }

  const OPEN_FAILED := "There was an error opening a connection to the device."
  const CLOSE_FAILED := "There was an error closing a connection to the device"

  /** How the device was identified: by a registry name, by a definition given directly,
      or not at all. */
  datatype Identity = Named(name: string) | Definition(definition: Device) | Missing

  /** The identity as interpolated into messages. A definition given directly prints as
      its record; only its name is reproduced here. */
  function IdentityText(identity: Identity): string
  {
    match identity
    case Named(name) => name
    case Definition(d) => "Device(name='" + d.name + "', ...)"
    case Missing => "None"
  }

  function NotImplementedFor(functionName: string, volatility: int, identity: Identity): Error
  {
    Error(Unsupported, functionName + "(" + IntText(volatility) + ") has not been implemented for " + IdentityText(identity))
  }

  /** The validation before any transport call: the function and volatility must be
      enabled, and a pin to check must be among the function's compatible pins (whose
      look-up itself refuses a function outside the schema). */
  function Validate(device: Device, identity: Identity, functionName: string, volatility: int, checkPin: Option<int>): (o: Outcome)
    reads device
    ensures o.Pass? <==>
              && functionName in device.functionsEnabled
              && volatility in device.functionsEnabled[functionName]
              && (checkPin.Some? ==> device.GetCompatiblePins(functionName).Success?
                                     && checkPin.value in device.GetCompatiblePins(functionName).value)
    ensures o.Fail? ==> o.error.kind == Unsupported
  {
    if functionName !in device.functionsEnabled || volatility !in device.functionsEnabled[functionName] then
      Fail(NotImplementedFor(functionName, volatility, identity))
    else if checkPin.Some? then
      match device.GetCompatiblePins(functionName)
      case Failure(e) => Fail(e)
      case Success(pins) =>
        if checkPin.value !in pins then Fail(NotImplementedFor(functionName, volatility, identity)) else Pass
    else
      Pass
  }

  /** The wire path: transmit; read only if the transmit succeeded; verify checksums only
      if the read succeeded. A transmit that does not succeed leaves the initial failed
      result, not the transmit's own. */
  function WirePath(address: int, args: InstructionArguments, link: Link): (Result<ComResult>, Link)
  {
    var (tx, l1) := LinkExecute(link, address, args.payload);
    if tx.Failure? then (tx, l1)
    else if !tx.value.status then (Success(FailedResult("")), l1)
    else
      var (rx, l2) := LinkRead(l1, args.expectedRxPackets, 2);
      if !rx.status then (Success(rx), l2) else (VerifiedResponse(Inner, rx), l2)
  }

  function NoSuchAttribute(functionName: string): Error
  {
    Error(AttributeError, "transport has no attribute '" + functionName + "'")
  }

  /** The special path: the transport operation named after the function, or
      AttributeError when the transport has none. */
  function SpecialPath(functionName: string, link: Link): (Result<ComResult>, Link)
  {
    match SpecialActionNamed(functionName)
    case None => (Failure(NoSuchAttribute(functionName)), link)
    case Some(action) =>
      var (r, l1) := LinkSpecial(link, action);
      (Success(r), l1)
  }

  /** One attempt after validation: open if lazy, the wire or special path by the sign of
      the address, close if lazy. A failed open or close raises UOSCommunicationError; an
      error on the way skips the close. */
  function Attempt(lazy: bool, address: int, functionName: string, args: InstructionArguments, link: Link): (Result<ComResult>, Link)
  {
    var (isOpen, l1) := if lazy then LinkOpen(link) else (true, link);
    if !isOpen then (Failure(Error(Communication, OPEN_FAILED)), l1)
    else
      var (outcome, l2) := if address >= 0 then WirePath(address, args, l1) else SpecialPath(functionName, l1);
      if outcome.Failure? then (outcome, l2)
      else
        var (closed, l3) := if lazy then LinkClose(l2) else (true, l2);
        if !closed then (Failure(Error(Communication, CLOSE_FAILED)), l3)
        else (outcome, l3)
  }

  /** `__execute_instruction`: validate, attempt, and attempt once more with retry off
      if the first attempt returned an unsuccessful result and retry is on. */
  function ExecuteSpec(device: Device, identity: Identity, lazy: bool, link: Link,
                       functionName: string, volatility: int, args: InstructionArguments, retry: bool): (Result<ComResult>, Link)
    reads device
    decreases if retry then 1 else 0
  {
    match Validate(device, identity, functionName, volatility, args.checkPin)
    case Fail(e) => (Failure(e), link)
    case Pass =>
      var address := WireAddress(device.functionsEnabled[functionName][volatility]);
      var (result, l1) := Attempt(lazy, address, functionName, args, link);
      if result.Success? && !result.value.status && retry then
        ExecuteSpec(device, identity, lazy, l1, functionName, volatility, args, false)
      else
        (result, l1)
  }

  // ---------------------------------------------------------------------------
  // What the calls on the transport look like

  function Count(calls: seq<Call>, kind: Call -> bool): nat
  {
    if |calls| == 0 then 0 else (if kind(calls[0]) then 1 else 0) + Count(calls[1..], kind)
  }

  lemma {:induction false} CountAppend(a: seq<Call>, b: seq<Call>, kind: Call -> bool)
    ensures Count(a + b, kind) == Count(a, kind) + Count(b, kind)
  {
    if |a| > 0 {
      assert (a + b)[1..] == a[1..] + b;
      CountAppend(a[1..], b, kind);
    } else {
      assert a + b == b;
    }
  }

  predicate IsTransmission(c: Call) { c.ExecuteCall? || c.SpecialCall? }
  predicate IsOpen(c: Call) { c.OpenCall? }
  predicate IsClose(c: Call) { c.CloseCall? }
  predicate IsRead(c: Call) { c.ReadCall? }

  /** The calls a run made: what was appended to the trace. */
  predicate Extends(before: Link, after: Link)
  {
    |before.trace| <= |after.trace| && after.trace[..|before.trace|] == before.trace
  }

  function Added(before: Link, after: Link): seq<Call>
    requires Extends(before, after)
  {
    after.trace[|before.trace|..]
  }

  /** Three steps that each append calls to the trace add their calls in order. */
  lemma TraceSteps(link: Link, l1: Link, l2: Link, l3: Link, front: seq<Call>, middle: seq<Call>, back: seq<Call>)
    requires l1.trace == link.trace + front
    requires l2.trace == l1.trace + middle
    requires l3.trace == l2.trace + back
    ensures Extends(link, l3)
    ensures Added(link, l3) == front + middle + back
  {
    assert l3.trace == link.trace + (front + middle + back);
  }

  /** The calls of the wire path: the transmit, then the read only if the transmit
      reply succeeded. */
  lemma WirePathCalls(address: int, args: InstructionArguments, link: Link)
    ensures Extends(link, WirePath(address, args, link).1)
    ensures var tx := NextSend(link);
            Added(link, WirePath(address, args, link).1)
              == if tx.Success? && tx.value.status then [ExecuteCall(address, args.payload), ReadCall(args.expectedRxPackets, 2)]
                 else [ExecuteCall(address, args.payload)]
  {
  }

  lemma CountSmall(kind: Call -> bool, c: Call, d: Call)
    ensures Count([], kind) == 0
    ensures Count([c], kind) == (if kind(c) then 1 else 0)
    ensures Count([c, d], kind) == (if kind(c) then 1 else 0) + (if kind(d) then 1 else 0)
  {
    assert [c][1..] == [];
    assert [c, d][1..] == [d];
    assert [d][1..] == [];
  }

  /** The state of the link after the open a lazy attempt starts with. */
  function AfterOpen(lazy: bool, link: Link): (bool, Link)
  {
    if lazy then LinkOpen(link) else (true, link)
  }

  /** The calls one attempt makes split into the open, the path and the close. */
  lemma AttemptPieces(lazy: bool, address: int, functionName: string, args: InstructionArguments, link: Link)
    returns (front: seq<Call>, middle: seq<Call>, back: seq<Call>)
    ensures Extends(link, Attempt(lazy, address, functionName, args, link).1)
    ensures Added(link, Attempt(lazy, address, functionName, args, link).1) == front + middle + back
    ensures front == if lazy then [OpenCall] else []
    ensures back == [] || back == [CloseCall]
    ensures !lazy ==> back == []
    ensures lazy && Attempt(lazy, address, functionName, args, link).0.Success? ==> back == [CloseCall]
    ensures var l1 := AfterOpen(lazy, link).1;
            middle == if !AfterOpen(lazy, link).0 then []
                      else if address < 0 then (if SpecialActionNamed(functionName).Some? then [SpecialCall(HardResetAction)] else [])
                      else if NextSend(l1).Success? && NextSend(l1).value.status then
                        [ExecuteCall(address, args.payload), ReadCall(args.expectedRxPackets, 2)]
                      else [ExecuteCall(address, args.payload)]
  {
    var opening := AfterOpen(lazy, link);
    var isOpen, l1 := opening.0, opening.1;
    front := if lazy then [OpenCall] else [];
    assert l1.trace == link.trace + front;
    var r := Attempt(lazy, address, functionName, args, link);
    if !isOpen {
      middle, back := [], [];
      assert r.1 == l1;
      TraceSteps(link, l1, l1, l1, front, middle, back);
    } else {
      var path := if address >= 0 then WirePath(address, args, l1) else SpecialPath(functionName, l1);
      if address >= 0 {
        WirePathCalls(address, args, l1);
        middle := Added(l1, path.1);
      } else {
        middle := if SpecialActionNamed(functionName).Some? then [SpecialCall(HardResetAction)] else [];
      }
      assert path.1.trace == l1.trace + middle;
      back := if lazy && path.0.Success? then [CloseCall] else [];
      assert r.1 == if lazy && path.0.Success? then LinkClose(path.1).1 else path.1;
      TraceSteps(link, l1, path.1, r.1, front, middle, back);
    }
  }

  lemma CountPieces(front: seq<Call>, middle: seq<Call>, back: seq<Call>, kind: Call -> bool)
    ensures Count(front + middle + back, kind) == Count(front, kind) + Count(middle, kind) + Count(back, kind)
  {
    CountAppend(front, middle, kind);
    CountAppend(front + middle, back, kind);
  }

  /** The calls between open and close: nothing, a transmission, or a transmission
      followed by a read. */
  lemma PathCounts(middle: seq<Call>)
    requires || middle == []
             || (|middle| == 1 && IsTransmission(middle[0]))
             || (|middle| == 2 && IsTransmission(middle[0]) && IsRead(middle[1]))
    ensures Count(middle, IsTransmission) == (if |middle| == 0 then 0 else 1)
    ensures Count(middle, IsRead) == (if |middle| == 2 then 1 else 0)
    ensures Count(middle, IsOpen) == 0 && Count(middle, IsClose) == 0
  {
    if |middle| == 1 {
      assert middle == [middle[0]];
      CountSmall(IsTransmission, middle[0], middle[0]);
      CountSmall(IsRead, middle[0], middle[0]);
      CountSmall(IsOpen, middle[0], middle[0]);
      CountSmall(IsClose, middle[0], middle[0]);
    } else if |middle| == 2 {
      assert middle == [middle[0], middle[1]];
      CountSmall(IsTransmission, middle[0], middle[1]);
      CountSmall(IsRead, middle[0], middle[1]);
      CountSmall(IsOpen, middle[0], middle[1]);
      CountSmall(IsClose, middle[0], middle[1]);
    }
  }

  /** The counts of a bracketed run: the open (lazy only), the calls between, and an
      optional close (lazy only). */
  lemma BracketCounts(lazy: bool, front: seq<Call>, middle: seq<Call>, back: seq<Call>)
    requires front == if lazy then [OpenCall] else []
    requires back == [] || back == [CloseCall]
    requires !lazy ==> back == []
    requires || middle == []
             || (|middle| == 1 && IsTransmission(middle[0]))
             || (|middle| == 2 && IsTransmission(middle[0]) && IsRead(middle[1]))
    ensures var added := front + middle + back;
            && Count(added, IsTransmission) == Count(middle, IsTransmission) <= 1
            && Count(added, IsRead) == Count(middle, IsRead) <= Count(middle, IsTransmission)
            && Count(added, IsOpen) == |front|
            && Count(added, IsClose) == |back|
            && (back == [CloseCall] ==> added[|added| - 1] == CloseCall)
  {
    PathCounts(middle);
    CountSmall(IsTransmission, OpenCall, CloseCall);
    CountSmall(IsRead, OpenCall, CloseCall);
    CountSmall(IsOpen, OpenCall, CloseCall);
    CountSmall(IsClose, CloseCall, OpenCall);
    CountPieces(front, middle, back, IsTransmission);
    CountPieces(front, middle, back, IsRead);
    CountPieces(front, middle, back, IsOpen);
    CountPieces(front, middle, back, IsClose);
  }

  /** One attempt makes at most one transmission; reads only after a transmit whose
      reply succeeded; an eager device neither opens nor closes; a lazy one opens first,
      and closes last whenever the attempt returns a result. */
  lemma AttemptCalls(lazy: bool, address: int, functionName: string, args: InstructionArguments, link: Link)
    ensures Extends(link, Attempt(lazy, address, functionName, args, link).1)
    ensures var added := Added(link, Attempt(lazy, address, functionName, args, link).1);
            var l1 := AfterOpen(lazy, link).1;
            && Count(added, IsTransmission) <= 1
            && Count(added, IsRead) <= Count(added, IsTransmission)
            && (Count(added, IsRead) == 1 <==>
                  AfterOpen(lazy, link).0 && address >= 0 && NextSend(l1).Success? && NextSend(l1).value.status)
            && (!lazy ==> Count(added, IsOpen) == 0 && Count(added, IsClose) == 0)
            && (lazy ==> |added| > 0 && added[0] == OpenCall && Count(added, IsOpen) == 1 && Count(added, IsClose) <= 1)
            && (lazy && Attempt(lazy, address, functionName, args, link).0.Success? ==>
                  added[|added| - 1] == CloseCall && Count(added, IsClose) == 1)
  {
    var front, middle, back := AttemptPieces(lazy, address, functionName, args, link);
    var exec := ExecuteCall(address, args.payload);
    var read := ReadCall(args.expectedRxPackets, 2);
    var special := SpecialCall(HardResetAction);
    CountSmall(IsTransmission, exec, read);
    CountSmall(IsRead, exec, read);
    CountSmall(IsOpen, exec, read);
    CountSmall(IsClose, exec, read);
    CountSmall(IsTransmission, special, OpenCall);
    CountSmall(IsRead, special, CloseCall);
    CountSmall(IsOpen, special, CloseCall);
    CountSmall(IsClose, special, OpenCall);
    CountPieces(front, middle, back, IsTransmission);
    CountPieces(front, middle, back, IsRead);
    CountPieces(front, middle, back, IsOpen);
    CountPieces(front, middle, back, IsClose);
    if lazy {
      assert (front + middle + back)[0] == OpenCall;
    }
  }

  /** A wire attempt reports success only for a transmit that succeeded followed by a
      read that succeeded and whose every frame carries a matching checksum, and then it
      returns exactly what was read; conversely such a read is returned as is. */
  lemma WirePathResult(address: int, args: InstructionArguments, link: Link)
    ensures var r := WirePath(address, args, link).0;
            var rx := if |link.receives| > 0 then link.receives[0] else FailedResult("");
            var good := NextSend(link).Success? && NextSend(link).value.status && rx.status
                        && !HasShortPacket(Packets(rx))
                        && forall i | 0 <= i < |Packets(rx)| :: PacketChecksumOk(Inner, Packets(rx)[i]);
            && (r.Success? && r.value.status ==> good && r.value == rx)
            && (good ==> r == Success(rx))
  {
    var rx := if |link.receives| > 0 then link.receives[0] else FailedResult("");
    CheckPacketsMeaning(Inner, rx.status, Packets(rx));
    assert rx.(status := rx.status) == rx;
  }

  /** A failed validation raises before the transport is touched. */
  lemma ValidationFirst(device: Device, identity: Identity, lazy: bool, link: Link,
                        functionName: string, volatility: int, args: InstructionArguments, retry: bool)
    requires Validate(device, identity, functionName, volatility, args.checkPin).Fail?
    ensures ExecuteSpec(device, identity, lazy, link, functionName, volatility, args, retry)
              == (Failure(Validate(device, identity, functionName, volatility, args.checkPin).error), link)
  {
  }

  /** Calls added over two consecutive runs are those of the first followed by those of
      the second. */
  lemma AddedConcat(l0: Link, l1: Link, l2: Link)
    requires Extends(l0, l1) && Extends(l1, l2)
    ensures Extends(l0, l2)
    ensures Added(l0, l2) == Added(l0, l1) + Added(l1, l2)
  {
    assert l1.trace == l0.trace + Added(l0, l1);
    assert l2.trace == l1.trace + Added(l1, l2);
    assert l2.trace == l0.trace + (Added(l0, l1) + Added(l1, l2));
  }

  /** An instruction that passes validation is its first attempt, followed by a second
      with retry off when that attempt reported failure and retry is on. */
  lemma ExecuteUnfold(device: Device, identity: Identity, lazy: bool, link: Link,
                      functionName: string, volatility: int, args: InstructionArguments, retry: bool)
    requires Validate(device, identity, functionName, volatility, args.checkPin).Pass?
    ensures var first := Attempt(lazy, WireAddress(device.functionsEnabled[functionName][volatility]), functionName, args, link);
            ExecuteSpec(device, identity, lazy, link, functionName, volatility, args, retry)
              == if first.0.Success? && !first.0.value.status && retry
                 then ExecuteSpec(device, identity, lazy, first.1, functionName, volatility, args, false)
                 else first
  {
  }

  /** One instruction makes at most two attempts, and only one without retry; it never
      reads more often than it transmits; an eager device never opens or closes; a lazy
      one that returns a result has closed every connection it opened. */
  lemma ExecuteCalls(device: Device, identity: Identity, lazy: bool, link: Link,
                     functionName: string, volatility: int, args: InstructionArguments, retry: bool)
    ensures Extends(link, ExecuteSpec(device, identity, lazy, link, functionName, volatility, args, retry).1)
    ensures var run := ExecuteSpec(device, identity, lazy, link, functionName, volatility, args, retry);
            var added := Added(link, run.1);
            && Count(added, IsTransmission) <= (if retry then 2 else 1)
            && Count(added, IsRead) <= Count(added, IsTransmission)
            && (!lazy ==> Count(added, IsOpen) == 0 && Count(added, IsClose) == 0)
            && (lazy && run.0.Success? ==> Count(added, IsOpen) == Count(added, IsClose) >= 1)
    decreases if retry then 1 else 0
  {
    if Validate(device, identity, functionName, volatility, args.checkPin).Fail? {
      ValidationFirst(device, identity, lazy, link, functionName, volatility, args, retry);
      assert Added(link, link) == [];
      return;
    }
    var address := WireAddress(device.functionsEnabled[functionName][volatility]);
    var first := Attempt(lazy, address, functionName, args, link);
    AttemptCalls(lazy, address, functionName, args, link);
    ExecuteUnfold(device, identity, lazy, link, functionName, volatility, args, retry);
    if first.0.Success? && !first.0.value.status && retry {
      var second := ExecuteSpec(device, identity, lazy, first.1, functionName, volatility, args, false);
      ExecuteCalls(device, identity, lazy, first.1, functionName, volatility, args, false);
      AddedConcat(link, first.1, second.1);
      var a1, a2 := Added(link, first.1), Added(first.1, second.1);
      CountAppend(a1, a2, IsTransmission);
      CountAppend(a1, a2, IsRead);
      CountAppend(a1, a2, IsOpen);
      CountAppend(a1, a2, IsClose);
    }
  }

  /** Retry semantics: a first attempt that raises or reports success is final; one that
      reports failure is followed by a second attempt whose outcome is final; and a result
      that still reports failure under retry comes after exactly two transmissions. */
  lemma RetryOnce(device: Device, identity: Identity, lazy: bool, link: Link,
                  functionName: string, volatility: int, args: InstructionArguments)
    requires Validate(device, identity, functionName, volatility, args.checkPin).Pass?
    ensures var address := WireAddress(device.functionsEnabled[functionName][volatility]);
            var first := Attempt(lazy, address, functionName, args, link);
            var run := ExecuteSpec(device, identity, lazy, link, functionName, volatility, args, true);
            && ((first.0.Failure? || first.0.value.status) ==> run == first)
            && (first.0.Success? && !first.0.value.status ==> run == Attempt(lazy, address, functionName, args, first.1))
            && (run.0.Success? && !run.0.value.status ==>
                  Extends(link, run.1) && Count(Added(link, run.1), IsTransmission) == 2)
  {
    var address := WireAddress(device.functionsEnabled[functionName][volatility]);
    var first := Attempt(lazy, address, functionName, args, link);
    ExecuteUnfold(device, identity, lazy, link, functionName, volatility, args, true);
    if first.0.Success? && !first.0.value.status {
      ExecuteUnfold(device, identity, lazy, first.1, functionName, volatility, args, false);
      var second := Attempt(lazy, address, functionName, args, first.1);
      if second.0.Success? {
        SuccessfulAttemptTransmits(lazy, address, functionName, args, link);
        SuccessfulAttemptTransmits(lazy, address, functionName, args, first.1);
        AddedConcat(link, first.1, second.1);
        CountAppend(Added(link, first.1), Added(first.1, second.1), IsTransmission);
      }
    }
  }

  /** An attempt that returns a result made exactly one transmission. */
  lemma SuccessfulAttemptTransmits(lazy: bool, address: int, functionName: string, args: InstructionArguments, link: Link)
    requires Attempt(lazy, address, functionName, args, link).0.Success?
    ensures Extends(link, Attempt(lazy, address, functionName, args, link).1)
    ensures Count(Added(link, Attempt(lazy, address, functionName, args, link).1), IsTransmission) == 1
  {
    var front, middle, back := AttemptPieces(lazy, address, functionName, args, link);
    var exec := ExecuteCall(address, args.payload);
    CountSmall(IsTransmission, exec, ReadCall(args.expectedRxPackets, 2));
    CountSmall(IsTransmission, SpecialCall(HardResetAction), CloseCall);
    CountSmall(IsTransmission, OpenCall, CloseCall);
    CountPieces(front, middle, back, IsTransmission);
  }

  // ---------------------------------------------------------------------------
  // The device object

  function CannotConnect(identity: Identity, address: string): Error
  {
    Error(Communication, "Could not correctly open a connection to " + IdentityText(identity) + " - " + address)
  }

  function NoLookUpTable(identity: Identity): Error
  {
    Error(Unsupported, "'" + IdentityText(identity) + "' does not have a valid look up table")
  }

  /** The definition an identity designates: a registered alias (case-insensitive), or
      the definition itself. */
  function Designated(identity: Identity, registry: Registry): Option<Device>
    reads registry
  {
    match identity
    case Named(name) => if Upper(name) in DEVICE_ALIASES then Some(registry.nano) else None
    case Definition(d) => Some(d)
    case Missing => None
  }

  /** `UOSDevice`: a device definition bound to a transport. The transport is the `link`,
      the one field that changes. */
  class UosDevice {
    const identity: Identity
    const address: string
    const device: Device
    const interface: Interface
    const loading: Option<string>
    /** The baud rate handed to the serial transport; None for the stub. */
    const baudrate: Option<int>
    var link: Link

    constructor (identity: Identity, address: string, device: Device, interface: Interface,
                 loading: Option<string>, baudrate: Option<int>, link: Link)
      ensures this.identity == identity && this.address == address && this.device == device
      ensures this.interface == interface && this.loading == loading && this.baudrate == baudrate
      ensures this.link == link
    {
      this.identity := identity;
      this.address := address;
      this.device := device;
      this.interface := interface;
      this.loading := loading;
      this.baudrate := baudrate;
      this.link := link;
    }

    /** `__init__`: look the definition up, refuse a missing one, pick the transport the
        definition supports (the serial one takes the definition's default baud rate),
        and open at once unless loading is lazy. */
    static method Create(identity: Identity, address: string, interface: Interface, loading: Option<string>,
                         registry: Registry, link: Link) returns (r: Result<UosDevice>)
      requires registry.Valid()
      modifies registry.nano
      ensures registry.Valid()
      ensures Designated(identity, registry).None? ==> r == Failure(NoLookUpTable(identity))
      ensures Designated(identity, registry).Some? && interface !in Designated(identity, registry).value.interfaces ==>
                r == Failure(CannotConnect(identity, address))
      ensures var found := Designated(identity, registry);
              found.Some? && interface in found.value.interfaces && interface == USB && DEFAULT_BAUDRATE_KEY !in found.value.auxParams ==>
                r == Failure(Error(KeyError, "'" + DEFAULT_BAUDRATE_KEY + "'"))
      ensures var found := Designated(identity, registry);
              r.Success? <==>
                && found.Some?
                && interface in found.value.interfaces
                && (interface == USB ==> DEFAULT_BAUDRATE_KEY in found.value.auxParams)
                && (IsLazy(loading) || LinkOpen(link).0)
      ensures r.Failure? && Designated(identity, registry).Some? && interface in Designated(identity, registry).value.interfaces
              && (interface == USB ==> DEFAULT_BAUDRATE_KEY in Designated(identity, registry).value.auxParams) ==>
                r == Failure(Error(Communication, OPEN_FAILED))
      ensures r.Success? ==>
                && fresh(r.value)
                && r.value.identity == identity && r.value.address == address
                && r.value.interface == interface && r.value.loading == loading
                && r.value.device == Designated(identity, registry).value
                && r.value.baudrate == (if interface == USB then Some(r.value.device.auxParams[DEFAULT_BAUDRATE_KEY]) else None)
                && r.value.link == (if IsLazy(loading) then link else LinkOpen(link).1)
      ensures identity.Named? && Upper(identity.name) in DEVICE_ALIASES ==>
                registry.nano.functionsEnabled == Resolve(old(registry.nano.functionsEnabled))
      ensures !(identity.Named? && Upper(identity.name) in DEVICE_ALIASES) ==>
                registry.nano.functionsEnabled == old(registry.nano.functionsEnabled)
    {
      var found: Option<Device>;
      match identity {
        case Named(name) =>
          found := GetDeviceDefinition(registry, Some(name));
        case Definition(d) =>
          found := Some(d);
        case Missing =>
          found := None;
      }
      if found.None? {
        return Failure(NoLookUpTable(identity));
      }
      var device := found.value;
      if interface !in device.interfaces {
        return Failure(CannotConnect(identity, address));
      }
      var baudrate: Option<int> := None;
      if interface == USB {
        if DEFAULT_BAUDRATE_KEY !in device.auxParams {
          return Failure(Error(KeyError, "'" + DEFAULT_BAUDRATE_KEY + "'"));
        }
        baudrate := Some(device.auxParams[DEFAULT_BAUDRATE_KEY]);
      }
      var created := new UosDevice(identity, address, device, interface, loading, baudrate, link);
      if !IsLazy(loading) {
        var opening := created.Open();
        if opening.Fail? {
          return Failure(opening.error);
        }
      }
      return Success(created);
    }

    /** `open`: ask the transport to open; a refusal raises UOSCommunicationError. */
    method Open() returns (o: Outcome)
      modifies this
      ensures link == LinkOpen(old(link)).1
      ensures o.Pass? <==> |old(link).opens| > 0 && old(link).opens[0]
      ensures o.Fail? ==> o.error == Error(Communication, OPEN_FAILED)
    {
      var opening := LinkOpen(link);
      link := opening.1;
      if !opening.0 {
        return Fail(Error(Communication, OPEN_FAILED));
      }
      return Pass;
    }

    /** `close`: ask the transport to close; a refusal raises UOSCommunicationError. */
    method Close() returns (o: Outcome)
      modifies this
      ensures link == LinkClose(old(link)).1
      ensures o.Pass? <==> |old(link).closes| > 0 && old(link).closes[0]
      ensures o.Fail? ==> o.error == Error(Communication, CLOSE_FAILED)
    {
      var closing := LinkClose(link);
      link := closing.1;
      if !closing.0 {
        return Fail(Error(Communication, CLOSE_FAILED));
      }
      return Pass;
    }

    /** `__execute_instruction`, step by step on the transport. */
    method ExecuteInstruction(functionName: string, volatility: int, args: InstructionArguments, retry: bool)
      returns (r: Result<ComResult>)
      modifies this
      ensures (r, link) == ExecuteSpec(device, identity, IsLazy(loading), old(link), functionName, volatility, args, retry)
      decreases if retry then 1 else 0
    {
      var valid := Validate(device, identity, functionName, volatility, args.checkPin);
      if valid.Fail? {
        return Failure(valid.error);
      }
      ghost var start := link;
      var lazy := IsLazy(loading);
      var rxResponse := FailedResult("");
      if lazy {
        var opening := Open();
        if opening.Fail? {
          return Failure(opening.error);
        }
      }
      ghost var afterOpen := link;
      var target := WireAddress(device.functionsEnabled[functionName][volatility]);
      if target >= 0 {
        var tx := LinkExecute(link, target, args.payload);
        link := tx.1;
        if tx.0.Failure? {
          return tx.0;
        }
        if tx.0.value.status {
          var rx := LinkRead(link, args.expectedRxPackets, 2);
          link := rx.1;
          rxResponse := rx.0;
          if rxResponse.status {
            var verified := VerifyChecksums(Inner, rxResponse);
            if verified.Failure? {
              return verified;
            }
            rxResponse := verified.value;
          }
        }
        assert (Success(rxResponse), link) == WirePath(target, args, afterOpen);
      } else {
        var action := SpecialActionNamed(functionName);
        if action.None? {
          return Failure(NoSuchAttribute(functionName));
        }
        var special := LinkSpecial(link, action.value);
        link := special.1;
        rxResponse := special.0;
      }
      if lazy {
        var closing := Close();
        if closing.Fail? {
          return Failure(closing.error);
        }
      }
      assert (Success(rxResponse), link) == Attempt(lazy, target, functionName, args, start);
      if !rxResponse.status && retry {
        r := ExecuteInstruction(functionName, volatility, args, false);
        return;
      }
      return Success(rxResponse);
    }

    /** One of the public instructions, with its default volatility resolved by the caller. */
    method Perform(op: Operation, volatility: int) returns (r: Result<ComResult>)
      modifies this
      ensures (r, link) == ExecuteSpec(device, identity, IsLazy(loading), old(link), FunctionName(op), volatility, Arguments(op), true)
    {
      r := ExecuteInstruction(FunctionName(op), volatility, Arguments(op), true);
    }
  }

  // ---------------------------------------------------------------------------
  // The public instructions

  /** The instructions `UOSDevice` offers, with their arguments. */
  datatype Operation =
    | SetGpioOutput(pin: int, level: int)
    | GetGpioInput(pin: int, level: int)
    | GetAdcInput(pin: int, level: int)
    | GetSystemInfo
    | GetGpioConfig(pin: int)
    | ResetAllIo
    | HardReset

  function FunctionName(op: Operation): string
  {
    match op
    case SetGpioOutput(_, _) => "set_gpio_output"
    case GetGpioInput(_, _) => "get_gpio_input"
    case GetAdcInput(_, _) => "get_adc_input"
    case GetSystemInfo => "get_system_info"
    case GetGpioConfig(_) => "get_gpio_config"
    case ResetAllIo => "reset_all_io"
    case HardReset => "hard_reset"
  }

  /** The instruction arguments each public method builds. */
  function Arguments(op: Operation): InstructionArguments
  {
    match op
    case SetGpioOutput(pin, level) => InstructionArguments([pin, 0, level], 1, Some(pin))
    case GetGpioInput(pin, level) => InstructionArguments([pin, 1, level], 2, Some(pin))
    case GetAdcInput(pin, _) => InstructionArguments([pin], 2, Some(pin))
    case GetSystemInfo => InstructionArguments([], 2, None)
    case GetGpioConfig(pin) => InstructionArguments([pin], 2, Some(pin))
    case ResetAllIo => InstructionArguments([], 1, None)
    case HardReset => InstructionArguments([], 1, None)
  }

  /** The arguments agree with the schema: every instruction names a schema function; an
      acknowledged one expects the ACK plus one frame per schema data frame; fixed payload
      elements are the schema's; a pin is checked exactly when the schema has pin
      requirements. */
  lemma ArgumentsFollowSchema(op: Operation)
    ensures FunctionName(op) in UOS_SCHEMA
    ensures var entry := UOS_SCHEMA[FunctionName(op)];
            var args := Arguments(op);
            && (entry.ack ==> args.expectedRxPackets == 1 + |entry.rxPacketsExpected|)
            && (args.checkPin.Some? <==> entry.pinRequirements.Some?)
            && (entry.requiredArguments.Some? ==>
                  && |args.payload| == |entry.requiredArguments.value|
                  && forall i | 0 <= i < |args.payload| && entry.requiredArguments.value[i].Some? ::
                       args.payload[i] == entry.requiredArguments.value[i].value)
  {
  }

  /** Before and after look-up, the Nano's table enables `set_gpio_output` at volatility 0
      alone. */
  lemma NanoOutputEnabled(functionsEnabled: map<string, map<int, Enabled>>)
    requires functionsEnabled == NANO_FUNCTIONS || (Consistent(NANO_FUNCTIONS) && functionsEnabled == Resolve(NANO_FUNCTIONS))
    ensures "set_gpio_output" in functionsEnabled && functionsEnabled["set_gpio_output"].Keys == {0}
  {
    NanoFunctionsConsistent();
    assert "set_gpio_output" in NANO_FUNCTIONS;
    if functionsEnabled != NANO_FUNCTIONS {
      ResolveIdempotent(NANO_FUNCTIONS);
    }
  }

  /** On a Nano, `set_gpio_output` passes validation exactly for volatility 0 and
      digital pins 2 to 19, whether or not its table has been looked up. */
  lemma NanoOutputValidation(d: Device, identity: Identity, pin: int, level: int, volatility: int)
    requires IsNano(d)
    requires d.functionsEnabled == NANO_FUNCTIONS || (Consistent(NANO_FUNCTIONS) && d.functionsEnabled == Resolve(NANO_FUNCTIONS))
    ensures (Validate(d, identity, FunctionName(SetGpioOutput(pin, level)), volatility, Arguments(SetGpioOutput(pin, level)).checkPin).Pass?)
              <==> volatility == 0 && 2 <= pin <= 19
  {
    NanoOutputEnabled(d.functionsEnabled);
    NanoOutputPins(d);
  }
}
