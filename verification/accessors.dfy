/** The per-field accessors the generator emits (src/generate.py:63-99), in both template
    generations found in the repository:
    - `Pushed` builds the request in a fixed-capacity `heapless::Vec` by successive `push`es and
      reads the reply's parameters as the bytes actually received (src/generated/xl430w250test.rs);
    - `Sliced` passes array literals and reads the reply's fixed-size parameter array
      (src/generated/xm430w210.rs).
    A getter sends Read(address, size), skips one packet when the bus echoes (`n_recv == 2`), and
    decodes `size` little-endian bytes; a setter sends Write(address, value), skips the echo in the
    same way, and returns the status packet when one is expected (`n_recv >= 1`). */
module Accessors {
  import opened Bytes
  import opened Results
  import opened Instructions
  import opened Frames
  import opened Controllers

  datatype Template = Pushed | Sliced

  /** A result together with the input left unread after it. */
  datatype Outcome<T> = Outcome(result: Result<T, Error>, rest: seq<byte>)

  /** The low and high byte of a 16-bit number. */
  function Lo(x: u16): byte { x % 256 }
  function Hi(x: u16): byte { x / 256 }

  // ---- requests ----

  /** The parameters of a Read: address, then size; one byte each in Protocol 1.0, two
      (little-endian) each in Protocol 2.0. */
  function ReadRequest(v: Version, address: u16, size: u16): seq<byte>
  {
    if v == V1 then [Lo(address), Lo(size)] else [Lo(address), Hi(address), Lo(size), Hi(size)]
  }

  /** The parameters of a Write: the address as in a Read, then the value's `size` little-endian bytes. */
  function WriteRequest(v: Version, address: u16, value: nat, size: nat): seq<byte>
  {
    (if v == V1 then [Lo(address)] else [Lo(address), Hi(address)]) + ToLe(value, size)
  }

  /** Protocol 2.0 requests carry address and size in full ... */
  lemma ReadRequestV2Fields(address: u16, size: u16)
    ensures var p := ReadRequest(V2, address, size);
      |p| == 4 && FromLe(p[..2]) == address && FromLe(p[2..]) == size
  {
    var p := ReadRequest(V2, address, size);
    assert p[..2][1..] == [Hi(address)];
    assert p[2..][1..] == [Hi(size)];
  }

  /** ... while Protocol 1.0 requests keep only the low bytes, so two addresses that differ by a
      multiple of 256 produce the same request. */
  lemma ReadRequestV1Aliases(a: u16, b: u16, size: u16)
    ensures ReadRequest(V1, a, size) == ReadRequest(V1, b, size) <==> a % 256 == b % 256
  {
  }

  /** A Write request ends with the value, little-endian, after the address bytes. */
  lemma WriteRequestValue(v: Version, address: u16, value: nat, size: nat)
    requires value < Pow256(size)
    ensures var p := WriteRequest(v, address, value, size);
      var k := if v == V1 then 1 else 2;
      |p| == k + size && p[..k] == ReadRequest(v, address, 0)[..k] && FromLe(p[k..]) == value
  {
    FromLeToLe(value, size);
    var p := WriteRequest(v, address, value, size);
    var k := if v == V1 then 1 else 2;
    assert p[k..] == ToLe(value, size);
  }

  /** The constants of the generated code: model number (address 0, two bytes), indirect address 29
      (address 578, two bytes) and homing offset (address 20, four bytes). */
  lemma RequestExamples(x: u32)
    ensures ReadRequest(V2, 0, 2) == [0, 0, 2, 0] && ReadRequest(V1, 0, 2) == [0, 2]
    ensures ReadRequest(V2, 578, 2) == [66, 2, 2, 0] && ReadRequest(V1, 578, 2) == [66, 2]
    ensures WriteRequest(V1, 20, x, 4) == [20] + U32ToBytes(x)
    ensures WriteRequest(V2, 20, x, 4) == [20, 0] + U32ToBytes(x)
  {
    ToBytesIsToLe(x);
  }

  // ---- building a request with `push` ----

  /** `heapless::Vec::push` into a vector of capacity `cap`, the failure mapped to TooSmall. */
  function Push(content: seq<byte>, cap: nat, b: byte): Result<seq<byte>, Error>
  {
    if |content| < cap then Ok(content + [b]) else Err(TooSmall)
  }

  /** Successive `push`es of `bytes` onto `content`, stopping at the first that fails: the
      Pushed template builds its requests this way, one push per address or size byte and a loop
      over the value's `to_le_bytes`. Every push succeeds exactly when the whole fits. */
  method PushAll(content: seq<byte>, cap: nat, bytes: seq<byte>) returns (r: Result<seq<byte>, Error>)
    requires |content| <= cap
    ensures r == if |content| + |bytes| <= cap then Ok(content + bytes) else Err(TooSmall)
  {
    var acc := content;
    for i := 0 to |bytes|
      invariant acc == content + bytes[..i]
      invariant |content| + i <= cap
    {
      var pushed := Push(acc, cap, bytes[i]);
      if pushed.Err? {
        return Err(pushed.error);
      }
      assert bytes[..i + 1] == bytes[..i] + [bytes[i]];
      acc := pushed.value;
    }
    assert bytes[..|bytes|] == bytes;
    return Ok(acc);
  }

  // ---- replies ----

  /** The value a getter makes of the reply packet to `recv::<size>()`. Pushed: the status packet
      holds the bytes actually received, and `into_array` needs exactly `size` of them. Sliced:
      the whole parameter array, unread entries being 0. */
  function Decode(t: Template, resp: Response, size: nat): (r: Result<nat, Error>)
    requires |resp.params| == size && resp.count <= size
  {
    match t
    case Pushed => if resp.count != size then Err(TooSmall) else Ok(FromLe(resp.params))
    case Sliced => Ok(FromLe(resp.params))
  }

  /** What a getter gets from the line once its request is out: the echo skip, when the bus echoes,
      with its error propagated by `?`; then the reply. */
  function ReadValue(t: Template, v: Version, nRecv: byte, inp: seq<byte>, size: nat): Outcome<nat>
  {
    if nRecv == 2 then
      var echo := Recv(v, inp, 4);
      if echo.result.Err? then Outcome(Err(echo.result.error), echo.rest)
      else ReadReply(t, v, echo.rest, size)
    else ReadReply(t, v, inp, size)
  }

  function ReadReply(t: Template, v: Version, inp: seq<byte>, size: nat): Outcome<nat>
  {
    var reply := Recv(v, inp, size);
    match reply.result
    case Err(e) => Outcome(Err(e), reply.rest)
    case Ok(resp) => Outcome(Decode(t, resp, size), reply.rest)
  }

  /** What a setter gets from the line once its request is out: the echo skip (a `2 + size`
      packet) when the bus echoes, then the status packet when one is expected. */
  function WriteStatus(v: Version, nRecv: byte, inp: seq<byte>, size: nat): Outcome<Option<Response>>
  {
    if nRecv == 2 then
      var echo := Recv(v, inp, 2 + size);
      if echo.result.Err? then Outcome(Err(echo.result.error), echo.rest)
      else StatusReply(v, nRecv, echo.rest, size)
    else StatusReply(v, nRecv, inp, size)
  }

  function StatusReply(v: Version, nRecv: byte, inp: seq<byte>, size: nat): Outcome<Option<Response>>
  {
    if nRecv >= 1 then
      var reply := Recv(v, inp, size);
      Outcome(if reply.result.Ok? then Ok(Some(reply.result.value)) else Err(reply.result.error), reply.rest)
    else Outcome(Ok(None), inp)
  }

  // ---- the accessors ----

  /** `get_<motor>_<field>` of the Pushed template. */
  method GetPushed(c: Controller, id: byte, address: u16, size: u16) returns (r: Result<nat, Error>)
    modifies c
    ensures c.output == old(c.output) + Frame(c.version, id, Instructions.Read, ReadRequest(c.version, address, size))
    ensures Outcome(r, c.input) == ReadValue(Pushed, c.version, c.nRecv, old(c.input), size)
    ensures c.nRecv == old(c.nRecv)
  {
    var request := ReadRequest(c.version, address, size);
    assert |request| <= 4;
    var content := PushAll([], 4, request);
    assert [] + request == request;
    assert content == Ok(request);
    c.Send(id, Instructions.Read, content.value);
    r := ReceiveValue(c, Pushed, size);
  }

  /** `get_<motor>_<field>` of the Sliced template. */
  method GetSliced(c: Controller, id: byte, address: u16, size: u16) returns (r: Result<nat, Error>)
    modifies c
    ensures c.output == old(c.output) + Frame(c.version, id, Instructions.Read, ReadRequest(c.version, address, size))
    ensures Outcome(r, c.input) == ReadValue(Sliced, c.version, c.nRecv, old(c.input), size)
    ensures c.nRecv == old(c.nRecv)
  {
    if c.version == V1 {
      c.Send(id, Instructions.Read, [Lo(address), Lo(size)]);
    } else {
      c.Send(id, Instructions.Read, [Lo(address), Hi(address), Lo(size), Hi(size)]);
    }
    r := ReceiveValue(c, Sliced, size);
  }

  /** The receiving half of a getter: the echo skip, then the reply, decoded as the template does. */
  method ReceiveValue(c: Controller, t: Template, size: nat) returns (r: Result<nat, Error>)
    modifies c
    ensures Outcome(r, c.input) == ReadValue(t, c.version, c.nRecv, old(c.input), size)
    ensures c.output == old(c.output) && c.nRecv == old(c.nRecv)
  {
    if c.nRecv == 2 {
      var echo := c.Recv(4);
      if echo.Err? { return Err(echo.error); }
    }
    var reply := c.Recv(size);
    if reply.Err? { return Err(reply.error); }
    r := Decode(t, reply.value, size);
  }

  /** `set_<motor>_<field>` of the Pushed template (only for fields whose access is RW). */
  method SetPushed(c: Controller, id: byte, address: u16, value: nat, size: nat) returns (r: Result<Option<Response>, Error>)
    requires value < Pow256(size)
    modifies c
    ensures c.output == old(c.output) + Frame(c.version, id, Instructions.Write, WriteRequest(c.version, address, value, size))
    ensures Outcome(r, c.input) == WriteStatus(c.version, c.nRecv, old(c.input), size)
    ensures c.nRecv == old(c.nRecv)
  {
    var request := WriteRequest(c.version, address, value, size);
    assert |request| <= 2 + size;
    var content := PushAll([], 2 + size, request);
    assert [] + request == request;
    assert content == Ok(request);
    c.Send(id, Instructions.Write, content.value);
    r := ReceiveStatus(c, size);
  }

  /** `set_<motor>_<field>` of the Sliced template. */
  method SetSliced(c: Controller, id: byte, address: u16, value: nat, size: nat) returns (r: Result<Option<Response>, Error>)
    requires value < Pow256(size)
    modifies c
    ensures c.output == old(c.output) + Frame(c.version, id, Instructions.Write, WriteRequest(c.version, address, value, size))
    ensures Outcome(r, c.input) == WriteStatus(c.version, c.nRecv, old(c.input), size)
    ensures c.nRecv == old(c.nRecv)
  {
    var bytes := ToLe(value, size);
    if c.version == V1 {
      c.Send(id, Instructions.Write, [Lo(address)] + bytes);
    } else {
      c.Send(id, Instructions.Write, [Lo(address), Hi(address)] + bytes);
    }
    r := ReceiveStatus(c, size);
  }

  /** The receiving half of a setter, the same in both templates. */
  method ReceiveStatus(c: Controller, size: nat) returns (r: Result<Option<Response>, Error>)
    modifies c
    ensures Outcome(r, c.input) == WriteStatus(c.version, c.nRecv, old(c.input), size)
    ensures c.output == old(c.output) && c.nRecv == old(c.nRecv)
  {
    if c.nRecv == 2 {
      var echo := c.Recv(2 + size);
      if echo.Err? { return Err(echo.error); }
    }
    if c.nRecv >= 1 {
      var reply := c.Recv(size);
      if reply.Err? { return Err(reply.error); }
      r := Ok(Some(reply.value));
    } else {
      r := Ok(None);
    }
  }

  // ---- what the accessors achieve ----

  /** The status packet a device answers with: `data` as parameters and no error. */
  function StatusFrame(v: Version, id: byte, data: seq<byte>): seq<byte>
  {
    if v == V1 then Frame1(id, 0, data) else Frame2(id, Code(StatusReturn), [0] + data)
  }

  lemma RecvStatusFrame(v: Version, id: byte, data: seq<byte>, n: nat, rest: seq<byte>)
    requires |data| <= n && |data| + 2 < 256
    ensures var r := Recv(v, StatusFrame(v, id, data) + rest, n);
      r.rest == rest && r.result.Ok? && r.result.value.packetId == id && r.result.value.error == 0
      && r.result.value.params == data + Zeros(n - |data|) && r.result.value.count == |data|
  {
    if v == V1 {
      Recv1RoundTrip(id, data, n, rest);
    } else {
      Recv2RoundTrip(id, 0, data, n, rest);
    }
  }

  /** Without an echo, a getter returns the value the device sends, whichever template. */
  lemma ReadRoundTrip(t: Template, v: Version, nRecv: byte, id: byte, x: nat, size: nat, rest: seq<byte>)
    requires nRecv != 2 && x < Pow256(size) && size + 2 < 256
    ensures ReadValue(t, v, nRecv, StatusFrame(v, id, ToLe(x, size)) + rest, size) == Outcome(Ok(x), rest)
  {
    RecvStatusFrame(v, id, ToLe(x, size), size, rest);
    assert ToLe(x, size) + Zeros(0) == ToLe(x, size);
    FromLeToLe(x, size);
  }

  /** Both templates decode a complete reply alike; on a short reply the Pushed template fails
      with TooSmall while the Sliced one returns the bytes received, zero-extended. */
  lemma DecodeTemplates(resp: Response, size: nat)
    requires |resp.params| == size && resp.count <= size
    requires resp.params[resp.count..] == Zeros(size - resp.count)
    ensures resp.count == size ==> Decode(Pushed, resp, size) == Decode(Sliced, resp, size)
    ensures resp.count < size ==> Decode(Pushed, resp, size) == Err(TooSmall)
    ensures Decode(Sliced, resp, size) == Ok(FromLe(resp.params[..resp.count]))
  {
    assert resp.params == resp.params[..resp.count] + Zeros(size - resp.count);
    FromLeZeroPadded(resp.params[..resp.count], size - resp.count);
  }

  /** A setter waits for nothing when no status is expected, and otherwise hands back the device's
      status packet. */
  lemma WriteStatusReply(v: Version, id: byte, size: nat, inp: seq<byte>, rest: seq<byte>)
    requires size + 2 < 256
    ensures WriteStatus(v, 0, inp, size) == Outcome(Ok(None), inp)
    ensures var o := WriteStatus(v, 1, StatusFrame(v, id, []) + rest, size);
      o.rest == rest && o.result.Ok? && o.result.value.Some?
      && o.result.value.value.packetId == id && o.result.value.value.count == 0
  {
    RecvStatusFrame(v, id, [], size, rest);
  }

  // ---- the echo on a half-duplex bus ----

  predicate NoFf(s: seq<byte>)
  {
    forall i :: 0 <= i < |s| ==> s[i] != 0xFF
  }

  /** Bytes that hold no 0xFF before a Protocol 2.0 packet are skipped by the header wait. */
  lemma Recv2SkipsNonFf(t: seq<byte>, x: seq<byte>, n: nat)
    requires NoFf(t)
    ensures Recv2(t + x, n) == Recv2(x, n)
  {
    SyncSkipsNonFf(t, x, Header2);
  }

  /** The echo skip reads the controller's own request back as a packet. Protocol 1.0 takes the
      request's instruction byte for the error byte and fails with Protocol(instruction); Protocol
      2.0 refuses a packet that is not a status. Either way `?` propagates the failure, so a getter
      on an echoing bus fails whatever the device answers. */
  lemma EchoAbortsRead(t: Template, v: Version, id: byte, address: u16, size: u16, reply: seq<byte>)
    ensures var echoed := Frame(v, id, Instructions.Read, ReadRequest(v, address, size)) + reply;
      ReadValue(t, v, 2, echoed, size).result
      == Err(if v == V1 then Protocol(Code(Instructions.Read)) else InstructionReceived)
  {
    var req := ReadRequest(v, address, size);
    if v == V1 {
      Recv1OwnEcho(id, Code(Instructions.Read), req, 4, reply);
    } else {
      Recv2OwnEcho(id, Instructions.Read, req, 4, reply);
    }
  }

  /** The same holds for a setter, whose echo skip expects `2 + size` parameters. */
  lemma EchoAbortsWrite(v: Version, id: byte, address: u16, value: nat, size: nat, reply: seq<byte>)
    requires size + 3 < 256
    ensures var echoed := Frame(v, id, Instructions.Write, WriteRequest(v, address, value, size)) + reply;
      WriteStatus(v, 2, echoed, size).result
      == Err(if v == V1 then Protocol(Code(Instructions.Write)) else InstructionReceived)
  {
    var req := WriteRequest(v, address, value, size);
    if v == V1 {
      Recv1OwnEcho(id, Code(Instructions.Write), req, 2 + size, reply);
    } else {
      Recv2OwnEcho(id, Instructions.Write, req, 2 + size, reply);
    }
  }

  /** A getter that reads the echo and discards it, whatever recv makes of it. */
  function ReadValueSkippingEcho(t: Template, v: Version, nRecv: byte, inp: seq<byte>, size: nat): Outcome<nat>
  {
    if nRecv == 2 then ReadReply(t, v, Recv(v, inp, 4).rest, size) else ReadReply(t, v, inp, size)
  }

  /** A setter that reads the echo and discards it. */
  function WriteStatusSkippingEcho(v: Version, nRecv: byte, inp: seq<byte>, size: nat): Outcome<Option<Response>>
  {
    if nRecv == 2 then StatusReply(v, nRecv, Recv(v, inp, 2 + size).rest, size) else StatusReply(v, nRecv, inp, size)
  }

  /** What the echo leaves unread: nothing in Protocol 1.0, the request's parameters and CRC in
      Protocol 2.0. */
  function EchoTail(v: Version, id: byte, instr: Instruction, request: seq<byte>): seq<byte>
  {
    if v == V1 then [] else Frame2(id, Code(instr), request)[8..]
  }

  /** Discarding the echo, a getter on an echoing bus returns the device's value, provided (in
      Protocol 2.0) the unread tail of the echo holds no 0xFF that would upset the header wait. */
  lemma SkippedEchoRead(t: Template, v: Version, id: byte, device: byte, address: u16, x: nat, size: u16, rest: seq<byte>)
    requires x < Pow256(size) && size + 2 < 256
    requires NoFf(EchoTail(v, id, Instructions.Read, ReadRequest(v, address, size)))
    ensures var echoed := Frame(v, id, Instructions.Read, ReadRequest(v, address, size));
      ReadValueSkippingEcho(t, v, 2, echoed + StatusFrame(v, device, ToLe(x, size)) + rest, size)
      == Outcome(Ok(x), rest)
  {
    var req := ReadRequest(v, address, size);
    var reply := StatusFrame(v, device, ToLe(x, size)) + rest;
    var echoed := Frame(v, id, Instructions.Read, req);
    assert echoed + StatusFrame(v, device, ToLe(x, size)) + rest == echoed + reply;
    EchoSkipped(v, id, Instructions.Read, req, 4, reply, size);
    ReadRoundTrip(t, v, 0, device, x, size, rest);
  }

  /** Discarding the echo, a setter on an echoing bus returns the device's status packet. */
  lemma SkippedEchoWrite(v: Version, id: byte, device: byte, address: u16, value: nat, size: nat, rest: seq<byte>)
    requires size + 3 < 256
    requires NoFf(EchoTail(v, id, Instructions.Write, WriteRequest(v, address, value, size)))
    ensures var echoed := Frame(v, id, Instructions.Write, WriteRequest(v, address, value, size));
      var o := WriteStatusSkippingEcho(v, 2, echoed + StatusFrame(v, device, []) + rest, size);
      o.rest == rest && o.result.Ok? && o.result.value.Some? && o.result.value.value.packetId == device
  {
    var req := WriteRequest(v, address, value, size);
    var reply := StatusFrame(v, device, []) + rest;
    var echoed := Frame(v, id, Instructions.Write, req);
    assert echoed + StatusFrame(v, device, []) + rest == echoed + reply;
    EchoSkipped(v, id, Instructions.Write, req, 2 + size, reply, size);
    StatusAfterEcho(v, echoed + reply, reply, size);
    StatusReplyFrame(v, device, size, rest);
  }

  lemma StatusAfterEcho(v: Version, inp: seq<byte>, reply: seq<byte>, size: nat)
    requires Recv(v, Recv(v, inp, 2 + size).rest, size) == Recv(v, reply, size)
    ensures WriteStatusSkippingEcho(v, 2, inp, size) == StatusReply(v, 2, reply, size)
  {
  }

  lemma StatusReplyFrame(v: Version, device: byte, size: nat, rest: seq<byte>)
    requires size + 2 < 256
    ensures var o := StatusReply(v, 2, StatusFrame(v, device, []) + rest, size);
      o.rest == rest && o.result.Ok? && o.result.value.Some? && o.result.value.value.packetId == device
  {
    RecvStatusFrame(v, device, [], size, rest);
  }

  /** Reading the echo (expecting `m` parameters) leaves the header wait to find the reply. */
  lemma EchoSkipped(v: Version, id: byte, instr: Instruction, req: seq<byte>, m: nat, reply: seq<byte>, n: nat)
    requires instr != StatusReturn && Code(instr) != 0 && |req| <= m
    requires v == V1 ==> |req| + 2 < 256
    requires NoFf(EchoTail(v, id, instr, req))
    ensures Recv(v, Recv(v, Frame(v, id, instr, req) + reply, m).rest, n) == Recv(v, reply, n)
  {
    if v == V1 {
      Recv1OwnEcho(id, Code(instr), req, m, reply);
    } else {
      Recv2OwnEcho(id, instr, req, m, reply);
      Recv2SkipsNonFf(EchoTail(v, id, instr, req), reply, n);
    }
  }

  /** A getter of either template that discards the echo. */
  method GetSkippingEcho(c: Controller, t: Template, id: byte, address: u16, size: u16) returns (r: Result<nat, Error>)
    modifies c
    ensures c.output == old(c.output) + Frame(c.version, id, Instructions.Read, ReadRequest(c.version, address, size))
    ensures Outcome(r, c.input) == ReadValueSkippingEcho(t, c.version, c.nRecv, old(c.input), size)
    ensures c.nRecv == old(c.nRecv)
  {
    c.Send(id, Instructions.Read, ReadRequest(c.version, address, size));
    if c.nRecv == 2 {
      var _ := c.Recv(4);
    }
    var reply := c.Recv(size);
    if reply.Err? { return Err(reply.error); }
    r := Decode(t, reply.value, size);
  }

  /** A setter of either template that discards the echo. */
  method SetSkippingEcho(c: Controller, id: byte, address: u16, value: nat, size: nat) returns (r: Result<Option<Response>, Error>)
    requires value < Pow256(size)
    modifies c
    ensures c.output == old(c.output) + Frame(c.version, id, Instructions.Write, WriteRequest(c.version, address, value, size))
    ensures Outcome(r, c.input) == WriteStatusSkippingEcho(c.version, c.nRecv, old(c.input), size)
    ensures c.nRecv == old(c.nRecv)
  {
    c.Send(id, Instructions.Write, WriteRequest(c.version, address, value, size));
    if c.nRecv == 2 {
      var _ := c.Recv(2 + size);
    }
    if c.nRecv >= 1 {
      var reply := c.Recv(size);
      if reply.Err? { return Err(reply.error); }
      r := Ok(Some(reply.value));
    } else {
      r := Ok(None);
    }
  }
}
