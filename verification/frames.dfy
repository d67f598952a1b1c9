/** Wire formats of DYNAMIXEL Protocol 1.0 (src/protocol_1.rs) and Protocol 2.0 (src/protocol_2.rs):
    the frame `send` writes, the header synchronisation and field reads `recv` performs, and the
    status-byte decoding of Protocol 2.0. Everything here is a function of byte sequences; the
    controller in controller.dfy runs the same steps on its serial state. */
module Frames {
  import opened Bytes
  import opened Results
  import opened Instructions
  import Crc16

  datatype Version = V1 | V2

  /** The errors of `recv` and of the accessors (the union of Error1, Error2 and protocol::Error).
      LengthUnderflow stands for the subtraction on the received length field that overflows
      (a panic in a debug build). */
  datatype Error =
    | Communication
    | Protocol(code: byte)
    | ChecksumError
    | CrcError
    | InstructionReceived
    | LengthUnderflow
    | TooSmall

  /** A received packet. `params` is the fixed-capacity parameter array as `recv` fills it: the first
      `count` entries come from the wire, the rest keep their initial 0. `error` is always 0 in
      Protocol 1.0 (a nonzero error byte is reported as an Error instead). */
  datatype Response = Response(packetId: byte, length: int, params: seq<byte>, count: nat, error: byte)

  /** What a receive returns, with the input left unread after it. */
  datatype Received = Received(result: Result<Response, Error>, rest: seq<byte>)

  const Header1: seq<byte> := [0xFF, 0xFF]
  const Header2: seq<byte> := [0xFF, 0xFF, 0xFD, 0x00]

  function Sum(s: seq<byte>): nat
  {
    if s == [] then 0 else s[0] + Sum(s[1..])
  }

  lemma {:induction false} SumAppend(a: seq<byte>, b: seq<byte>)
    ensures Sum(a + b) == Sum(a) + Sum(b)
  {
    if a == [] {
      assert a + b == b;
    } else {
      assert (a + b)[1..] == a[1..] + b;
      SumAppend(a[1..], b);
    }
  }

  lemma SumZeroPadded(s: seq<byte>, k: nat)
    ensures Sum(s + Zeros(k)) == Sum(s)
  {
    SumAppend(s, Zeros(k));
    SumZeros(k);
  }

  lemma {:induction false} SumZeros(k: nat)
    ensures Sum(Zeros(k)) == 0
  {
    if k > 0 {
      assert Zeros(k)[1..] == Zeros(k - 1);
      SumZeros(k - 1);
    }
  }

  /** Bitwise NOT of a byte. */
  function Not8(x: byte): byte
  {
    255 - x
  }

  // ---- Protocol 1.0 ----

  /** The checksum `send` appends: the NOT of the u8 (wrapping) sum of id, length, instruction and
      parameters; the two header bytes are not summed. */
  function Checksum1(content: seq<byte>, params: seq<byte>): byte
  {
    Not8(Sum(content + params) % 256)
  }

  /** The bytes `send` writes for Protocol 1.0; the length field is `(params.len() + 2) as u8`. */
  function Frame1(id: byte, instr: byte, params: seq<byte>): (f: seq<byte>)
    ensures |f| == |params| + 6
  {
    var content := [id, (|params| + 2) % 256, instr];
    Header1 + content + params + [Checksum1(content, params)]
  }

  /** The frame holds header, id, length, instruction and parameters in place, and its bytes after
      the header sum to 0xFF modulo 256: the checksum completes the sum. */
  lemma Frame1Layout(id: byte, instr: byte, params: seq<byte>)
    ensures var f := Frame1(id, instr, params);
      && f[..2] == Header1 && f[2] == id && f[3] == (|params| + 2) % 256 && f[4] == instr
      && f[5..5 + |params|] == params
      && Sum(f[2..]) % 256 == 0xFF
  {
    var content := [id, (|params| + 2) % 256, instr];
    var chk := Checksum1(content, params);
    var f := Frame1(id, instr, params);
    assert f[2..] == (content + params) + [chk];
    SumAppend(content + params, [chk]);
    assert [chk][1..] == [];
  }

  // ---- header synchronisation, shared by both versions ----

  /** The header wait loop of `recv`: `head` counts the header bytes matched so far; a byte equal to
      `header[head]` advances it, any other byte resets it to 0 without being tested again. Gives
      the input after the header, or None when the input runs out first. */
  function Sync(inp: seq<byte>, header: seq<byte>, head: nat): (r: Option<seq<byte>>)
    requires head < |header|
    ensures r.Some? ==> |r.value| < |inp| && r.value == inp[|inp| - |r.value|..]
    decreases |inp|
  {
    if inp == [] then None
    else
      var h := if inp[0] == header[head] then head + 1 else 0;
      if h == |header| then Some(inp[1..]) else Sync(inp[1..], header, h)
  }

  /** Synchronisation stops right after a complete copy of the header. */
  lemma {:induction false} SyncEndsWithHeader(before: seq<byte>, inp: seq<byte>, header: seq<byte>, head: nat)
    requires head < |header| && head <= |before|
    requires before[|before| - head..] == header[..head]
    requires Sync(inp, header, head).Some?
    ensures var all, k := before + inp, |before + inp| - |Sync(inp, header, head).value|;
      |header| <= k && all[k - |header|..k] == header
    decreases |inp|
  {
    var h := if inp[0] == header[head] then head + 1 else 0;
    var before' := before + [inp[0]];
    assert before + inp == before' + inp[1..];
    if h == |header| {
      assert before'[|before'| - h..] == before[|before| - head..] + [inp[0]];
      assert header[..h] == header[..head] + [header[head]];
    } else {
      if h > 0 {
        assert before'[|before'| - h..] == before[|before| - head..] + [inp[0]];
        assert header[..h] == header[..head] + [header[head]];
      }
      SyncEndsWithHeader(before', inp[1..], header, h);
    }
  }

  /** An input that continues a partly matched header synchronises right after it. */
  lemma {:induction false} SyncOnHeader(header: seq<byte>, head: nat, x: seq<byte>)
    requires head < |header|
    ensures Sync(header[head..] + x, header, head) == Some(x)
    decreases |header| - head
  {
    var inp := header[head..] + x;
    assert inp[0] == header[head];
    if head + 1 < |header| {
      assert inp[1..] == header[head + 1..] + x;
      SyncOnHeader(header, head + 1, x);
    } else {
      assert inp[1..] == x;
    }
  }

  lemma SyncOnFrame(header: seq<byte>, x: seq<byte>)
    requires |header| > 0
    ensures Sync(header + x, header, 0) == Some(x)
  {
    assert header[0..] == header;
    SyncOnHeader(header, 0, x);
  }

  /** A third 0xFF resets the Protocol 2.0 wait, so this stream never synchronises. */
  lemma TripleFfDoesNotSync()
    ensures Sync([0xFF, 0xFF, 0xFF, 0xFD, 0x00], Header2, 0) == None
  {
    var s: seq<byte> := [0xFF, 0xFF, 0xFF, 0xFD, 0x00];
    assert s[1..][1..][1..][1..][1..] == [];
  }

  /** Bytes that are never 0xFF leave the wait loop idle: the synchronisation is the same without them. */
  lemma {:induction false} SyncSkipsNonFf(t: seq<byte>, x: seq<byte>, header: seq<byte>)
    requires |header| > 1 && header[0] == 0xFF
    requires forall i :: 0 <= i < |t| ==> t[i] != 0xFF
    ensures Sync(t + x, header, 0) == Sync(x, header, 0)
    decreases |t|
  {
    if t != [] {
      assert (t + x)[0] == t[0] && (t + x)[1..] == t[1..] + x;
      SyncSkipsNonFf(t[1..], x, header);
    } else {
      assert t + x == x;
    }
  }

  // ---- Protocol 1.0 receive ----

  /** `recv` of Protocol 1.0 with a `params` array of capacity n: after the header it reads id,
      length and error, then `length - 2` parameters (at most n), then the checksum; all reads happen
      before any check; the error byte is checked before the checksum. */
  function Recv1(inp: seq<byte>, n: nat): (r: Received)
    ensures r.result.Ok? ==> |r.result.value.params| == n && r.result.value.count <= n
  {
    match Sync(inp, Header1, 0)
    case None => Received(Err(Communication), [])
    case Some(s) => Packet1(s, n)
  }

  /** The part of Recv1 after the header: the reads. */
  function Packet1(s: seq<byte>, n: nat): (r: Received)
    ensures r.result.Ok? ==> |r.result.value.params| == n && r.result.value.count <= n
  {
    if |s| < 3 then Received(Err(Communication), [])
    else if s[1] < 2 then Received(Err(LengthUnderflow), s[3..])
    else
      var k := Min(s[1] - 2, n);
      if |s| < 4 + k then Received(Err(Communication), [])
      else Received(Check1(s[0], s[1], s[2], s[3..3 + k] + Zeros(n - k), k, s[3 + k]), s[4 + k..])
  }

  /** The checks of Recv1 once everything is read: the error byte first, then the checksum over id,
      length and the whole parameter array (u8 arithmetic, wrapping). */
  function Check1(id: byte, len: byte, err: byte, params: seq<byte>, count: nat, chk: byte): (r: Result<Response, Error>)
    ensures r.Ok? <==> err == 0 && chk == Not8((id + len + Sum(params)) % 256)
    ensures err != 0 ==> r == Err(Protocol(err))
    ensures err == 0 && chk != Not8((id + len + Sum(params)) % 256) ==> r == Err(ChecksumError)
    ensures r.Ok? ==> r.value == Response(id, len, params, count, 0)
  {
    if err != 0 then Err(Protocol(err))
    else if chk != Not8((id + len + Sum(params)) % 256) then Err(ChecksumError)
    else Ok(Response(id, len, params, count, 0))
  }

  /** How `recv` reads a packet whose length field matches its parameters: every byte of it is
      read, and the checks see its fields. */
  lemma Recv1Layout(id: byte, len: byte, err: byte, params: seq<byte>, chk: byte, n: nat, rest: seq<byte>)
    requires len == |params| + 2 && |params| <= n
    ensures Recv1(Header1 + [id, len, err] + params + [chk] + rest, n)
         == Received(Check1(id, len, err, params + Zeros(n - |params|), |params|, chk), rest)
  {
    var s := [id, len, err] + params + [chk] + rest;
    assert Header1 + [id, len, err] + params + [chk] + rest == Header1 + s;
    SyncOnFrame(Header1, s);
    Packet1Layout(id, len, err, params, chk, n, rest);
  }

  lemma Packet1Layout(id: byte, len: byte, err: byte, params: seq<byte>, chk: byte, n: nat, rest: seq<byte>)
    requires len == |params| + 2 && |params| <= n
    ensures Packet1([id, len, err] + params + [chk] + rest, n)
         == Received(Check1(id, len, err, params + Zeros(n - |params|), |params|, chk), rest)
  {
    var s := [id, len, err] + params + [chk] + rest;
    assert s[0] == id && s[1] == len && s[2] == err && s[3 + |params|] == chk;
    assert s[3..3 + |params|] == params;
    assert s[4 + |params|..] == rest;
  }

  /** A Protocol 1.0 frame followed by more input, field by field. */
  lemma Frame1Split(id: byte, instr: byte, params: seq<byte>, rest: seq<byte>) returns (chk: byte)
    ensures chk == Checksum1([id, (|params| + 2) % 256, instr], params)
    ensures Frame1(id, instr, params) + rest == Header1 + [id, (|params| + 2) % 256, instr] + params + [chk] + rest
  {
    chk := Checksum1([id, (|params| + 2) % 256, instr], params);
  }

  /** The checksum `send` writes, seen from the receiving side. */
  lemma Checksum1Fields(id: byte, len: byte, instr: byte, params: seq<byte>)
    ensures Checksum1([id, len, instr], params) == Not8((id + len + instr + Sum(params)) % 256)
  {
    SumOfFields(id, len, instr);
    SumAppend([id, len, instr], params);
  }

  /** A status frame laid out as `send` lays out a frame, with 0 in the instruction slot (the error
      byte of a status packet), is received with its id, length and parameters. */
  lemma Recv1RoundTrip(id: byte, params: seq<byte>, n: nat, rest: seq<byte>)
    requires |params| <= n && |params| + 2 < 256
    ensures Recv1(Frame1(id, 0, params) + rest, n)
         == Received(Ok(Response(id, |params| + 2, params + Zeros(n - |params|), |params|, 0)), rest)
  {
    var len: byte := |params| + 2;
    assert len % 256 == len;
    var chk := Frame1Split(id, 0, params, rest);
    Recv1Layout(id, len, 0, params, chk, n, rest);
    IntactChecksum(id, len, params, n - |params|, chk);
  }

  /** The checksum `send` wrote passes the check of `recv`, whatever padding the array holds. */
  lemma IntactChecksum(id: byte, len: byte, params: seq<byte>, k: nat, chk: byte)
    requires chk == Checksum1([id, len, 0], params)
    ensures Check1(id, len, 0, params + Zeros(k), |params|, chk) == Ok(Response(id, len, params + Zeros(k), |params|, 0))
  {
    Checksum1Fields(id, len, 0, params);
    SumZeroPadded(params, k);
  }

  /** The own instruction packet read back from a half-duplex bus: its instruction code sits in the
      error slot, so a nonzero code is reported as a protocol error, after the whole frame is read. */
  lemma Recv1OwnEcho(id: byte, instr: byte, params: seq<byte>, n: nat, rest: seq<byte>)
    requires instr != 0 && |params| <= n && |params| + 2 < 256
    ensures Recv1(Frame1(id, instr, params) + rest, n) == Received(Err(Protocol(instr)), rest)
  {
    var len: byte := |params| + 2;
    assert len % 256 == len;
    var chk := Frame1Split(id, instr, params, rest);
    Recv1Layout(id, len, instr, params, chk, n, rest);
  }

  /** Changing one parameter byte of a well-formed Protocol 1.0 status frame makes it fail the checksum. */
  lemma Recv1DetectsCorruptParam(id: byte, params: seq<byte>, i: nat, b: byte, n: nat, rest: seq<byte>)
    requires |params| <= n && |params| + 2 < 256 && i < |params| && b != params[i]
    ensures Recv1(Frame1(id, 0, params)[5 + i := b] + rest, n) == Received(Err(ChecksumError), rest)
  {
    var bad := params[i := b];
    var chk := CorruptFrame1(id, params, i, b, rest);
    Recv1Layout(id, |bad| + 2, 0, bad, chk, n, rest);
    CorruptChecksum(id, params, i, b, bad, n - |bad|, chk);
  }

  lemma CorruptFrame1(id: byte, params: seq<byte>, i: nat, b: byte, rest: seq<byte>) returns (chk: byte)
    requires |params| + 2 < 256 && i < |params|
    ensures chk == Checksum1([id, |params| + 2, 0], params)
    ensures Frame1(id, 0, params)[5 + i := b] + rest
         == Header1 + [id, |params[i := b]| + 2, 0] + params[i := b] + [chk] + rest
  {
    chk := Checksum1([id, |params| + 2, 0], params);
    var head := Header1 + [id, |params| + 2, 0];
    assert Frame1(id, 0, params) == head + params + [chk];
    assert (head + params + [chk])[5 + i := b] == head + params[i := b] + [chk];
  }

  /** The checksum over a parameter array with one byte changed differs from the one `send` wrote. */
  lemma CorruptChecksum(id: byte, params: seq<byte>, i: nat, b: byte, bad: seq<byte>, k: nat, chk: byte)
    requires |params| + 2 < 256 && i < |params| && b != params[i] && bad == params[i := b]
    requires chk == Checksum1([id, |params| + 2, 0], params)
    ensures Check1(id, |bad| + 2, 0, bad + Zeros(k), |bad|, chk) == Err(ChecksumError)
  {
    var len := |params| + 2;
    Checksum1Fields(id, len, 0, params);
    SumZeroPadded(bad, k);
    SumOneChanged(params, i, b);
    WrapDiffers(id + len + Sum(params), params[i], b);
  }

  lemma SumOfFields(a: byte, b: byte, c: byte)
    ensures Sum([a, b, c]) == a + b + c
  {
    assert [a, b, c] == [a] + [b] + [c];
    SumAppend([a] + [b], [c]);
    SumAppend([a], [b]);
    assert [a][1..] == [] && [b][1..] == [] && [c][1..] == [];
  }

  /** Replacing one term of a sum by a different byte changes the sum modulo 256. */
  lemma WrapDiffers(x: int, a: byte, b: byte)
    requires a != b
    ensures (x - a + b) % 256 != x % 256
  {
    var d := b - a;
    assert -256 < d < 256 && d != 0;
    var q := (x + d) / 256 - x / 256;
    assert d == 256 * q + ((x + d) % 256 - x % 256);
  }

  lemma {:induction false} SumOneChanged(s: seq<byte>, i: nat, b: byte)
    requires i < |s|
    ensures Sum(s[i := b]) == Sum(s) - s[i] + b
  {
    if i == 0 {
      assert s[i := b][1..] == s[1..];
    } else {
      assert s[i := b][1..] == s[1..][i - 1 := b];
      SumOneChanged(s[1..], i - 1, b);
    }
  }

  // ---- Protocol 2.0 ----

  /** The CRC-16/BUYPASS of `body`, the bytes it covers being header, fields and parameters. */
  function Trailer2(body: seq<byte>): (t: seq<byte>)
    ensures |t| == 2 && FromLe(t) == Crc16.Crc(body)
  {
    var c := Crc16.Crc(body);
    [c % 256, c / 256]
  }

  /** The bytes `send` writes for Protocol 2.0: the 16-bit length field is `params.len() + 3`
      (each half cast to u8), and the CRC covers the header too. There is no byte stuffing. */
  function Frame2(id: byte, instr: byte, params: seq<byte>): (f: seq<byte>)
    ensures |f| == |params| + 10
  {
    var body := Body2(id, instr, params);
    body + Trailer2(body)
  }

  /** Everything `send` writes for Protocol 2.0 before the CRC. */
  function Body2(id: byte, instr: byte, params: seq<byte>): (b: seq<byte>)
    ensures |b| == |params| + 8
  {
    var len := |params| + 3;
    Header2 + [id, len % 256, (len / 256) % 256, instr] + params
  }

  /** The frame holds header, id, instruction and parameters in place, its length field reads back
      as the parameter count plus 3, and it ends with the CRC of all that precedes. */
  lemma Frame2Layout(id: byte, instr: byte, params: seq<byte>)
    ensures var f := Frame2(id, instr, params);
      && f[..4] == Header2 && f[4] == id && f[7] == instr && f[8..8 + |params|] == params
      && (|params| + 3 < 0x1_0000 ==> FromLe(f[5..7]) == |params| + 3)
      && f[|f| - 2..] == Trailer2(f[..|f| - 2])
  {
    var len := |params| + 3;
    var body := Body2(id, instr, params);
    var f := Frame2(id, instr, params);
    assert f[..|f| - 2] == body;
    assert f[5..7] == [len % 256, (len / 256) % 256];
    assert f[5..7][1..] == [(len / 256) % 256];
  }

  /** `recv` of Protocol 2.0 with a `params` array of capacity n: after the header it reads id, the
      two length bytes and the instruction; an instruction other than StatusReturn (0x55) stops it
      there; otherwise it reads the error byte, `length - 4` parameters (at most n) and two CRC
      bytes, and compares them with the CRC of everything from the header to the parameters. */
  function Recv2(inp: seq<byte>, n: nat): (r: Received)
    ensures r.result.Ok? ==> |r.result.value.params| == n && r.result.value.count <= n
  {
    match Sync(inp, Header2, 0)
    case None => Received(Err(Communication), [])
    case Some(s) => Packet2(s, n)
  }

  /** The part of Recv2 after the header: the reads. */
  function Packet2(s: seq<byte>, n: nat): (r: Received)
    ensures r.result.Ok? ==> |r.result.value.params| == n && r.result.value.count <= n
  {
    if |s| < 4 then Received(Err(Communication), [])
    else if s[3] != Code(StatusReturn) then Received(Err(InstructionReceived), s[4..])
    else if s[1] as int + 256 * (s[2] as int) < 4 then Received(Err(LengthUnderflow), s[4..])
    else
      var k := Min(s[1] as int + 256 * (s[2] as int) - 4, n);
      if |s| < 7 + k then Received(Err(Communication), [])
      else Received(Check2(s[..5], s[5..5 + k], n, s[5 + k], s[6 + k]), s[7 + k..])
  }

  /** The check of Recv2 once everything is read: the CRC of header, the five fixed fields and the
      parameters read, against the two trailer bytes (low byte first). The error byte is passed on
      uninterpreted. */
  function Check2(fields: seq<byte>, params: seq<byte>, n: nat, c0: byte, c1: byte): (r: Result<Response, Error>)
    requires |fields| == 5 && |params| <= n
    ensures r.Ok? <==> FromLe([c0, c1]) == Crc16.Crc(Header2 + fields + params)
    ensures r.Ok? ==> r.value.params == params + Zeros(n - |params|) && r.value.count == |params|
    ensures r.Ok? ==> r.value.packetId == fields[0] && r.value.error == fields[4]
    ensures r.Ok? ==> r.value.length == fields[1] as int + 256 * (fields[2] as int) - 4
    ensures r.Err? ==> r.error == CrcError
  {
    var crc := Crc16.Crc(Header2 + fields + params);
    if crc % 256 != c0 || crc / 256 != c1 then Err(CrcError)
    else Ok(Response(fields[0], fields[1] as int + 256 * (fields[2] as int) - 4, params + Zeros(n - |params|), |params|, fields[4]))
  }

  /** How `recv` reads a status packet whose length field matches its data: every byte of it is read,
      and the check sees its fields. */
  lemma Recv2Layout(fields: seq<byte>, data: seq<byte>, c0: byte, c1: byte, n: nat, rest: seq<byte>)
    requires |fields| == 5 && fields[3] == Code(StatusReturn)
    requires fields[1] as int + 256 * (fields[2] as int) == |data| + 4 && |data| <= n
    ensures Recv2(Header2 + fields + data + [c0, c1] + rest, n) == Received(Check2(fields, data, n, c0, c1), rest)
  {
    var s := fields + data + [c0, c1] + rest;
    assert Header2 + fields + data + [c0, c1] + rest == Header2 + s;
    SyncOnFrame(Header2, s);
    Packet2Layout(fields, data, c0, c1, n, rest);
  }

  lemma Packet2Layout(fields: seq<byte>, data: seq<byte>, c0: byte, c1: byte, n: nat, rest: seq<byte>)
    requires |fields| == 5 && fields[3] == Code(StatusReturn)
    requires fields[1] as int + 256 * (fields[2] as int) == |data| + 4 && |data| <= n
    ensures Packet2(fields + data + [c0, c1] + rest, n) == Received(Check2(fields, data, n, c0, c1), rest)
  {
    var s := fields + data + [c0, c1] + rest;
    assert s[..5] == fields && s[5 + |data|] == c0 && s[6 + |data|] == c1;
    assert s[5..5 + |data|] == data;
    assert s[7 + |data|..] == rest;
  }

  /** The two length bytes of the frame `send` writes read back as the parameter count plus 3. */
  lemma LengthField(id: byte, instr: byte, params: seq<byte>)
    requires |params| + 3 < 0x1_0000
    ensures var f := Frame2(id, instr, params); f[5] as int + 256 * (f[6] as int) == |params| + 3
  {
    var len := |params| + 3;
    var f := Frame2(id, instr, params);
    assert f[..|f| - 2] == Body2(id, instr, params);
    assert f[5] == len % 256 && f[6] == (len / 256) % 256;
  }

  /** The parts of a status frame as `send` lays it out: the five fixed fields, the data and the two
      CRC bytes of everything before them. */
  lemma StatusFrame2(id: byte, err: byte, data: seq<byte>) returns (fields: seq<byte>, c0: byte, c1: byte)
    requires |data| + 4 < 0x1_0000
    ensures Frame2(id, Code(StatusReturn), [err] + data) == Header2 + fields + data + [c0, c1]
    ensures |fields| == 5 && fields[0] == id && fields[3] == Code(StatusReturn) && fields[4] == err
    ensures fields[1] as int + 256 * (fields[2] as int) == |data| + 4
    ensures var crc := Crc16.Crc(Header2 + fields + data); crc % 256 == c0 && crc / 256 == c1
  {
    var f := Frame2(id, Code(StatusReturn), [err] + data);
    LengthField(id, Code(StatusReturn), [err] + data);
    fields := [id, f[5], f[6], Code(StatusReturn), err];
    c0, c1 := f[|f| - 2], f[|f| - 1];
    assert f[..|f| - 2] == Header2 + fields + data;
    assert f == f[..|f| - 2] + [c0, c1];
  }

  /** A status frame (instruction StatusReturn, error byte then data) as `send` lays it out is
      received with its id, data length, data and error byte. */
  lemma Recv2RoundTrip(id: byte, err: byte, data: seq<byte>, n: nat, rest: seq<byte>)
    requires |data| <= n && |data| + 4 < 0x1_0000
    ensures Recv2(Frame2(id, Code(StatusReturn), [err] + data) + rest, n)
         == Received(Ok(Response(id, |data|, data + Zeros(n - |data|), |data|, err)), rest)
  {
    var fields, c0, c1 := StatusFrame2(id, err, data);
    Recv2Layout(fields, data, c0, c1, n, rest);
  }

  /** A packet whose instruction is not StatusReturn, in particular the controller's own request
      echoed by a half-duplex bus, is refused after its fixed fields: the rest of it stays unread. */
  lemma Recv2OwnEcho(id: byte, instr: Instruction, params: seq<byte>, n: nat, rest: seq<byte>)
    requires instr != StatusReturn
    ensures Recv2(Frame2(id, Code(instr), params) + rest, n)
         == Received(Err(InstructionReceived), Frame2(id, Code(instr), params)[8..] + rest)
  {
    var f := Frame2(id, Code(instr), params);
    var inp := f + rest;
    assert inp == Header2 + inp[4..];
    SyncOnFrame(Header2, inp[4..]);
    FromCode(instr);
    assert inp[4..][4..] == f[8..] + rest;
  }

  /** Changing one data byte of a well-formed Protocol 2.0 status frame makes it fail the CRC check. */
  lemma Recv2DetectsCorruptData(id: byte, err: byte, data: seq<byte>, i: nat, b: byte, n: nat, rest: seq<byte>)
    requires |data| <= n && |data| + 4 < 0x1_0000 && i < |data| && b != data[i]
    ensures Recv2(Frame2(id, Code(StatusReturn), [err] + data)[9 + i := b] + rest, n)
         == Received(Err(CrcError), rest)
  {
    var fields, c0, c1 := StatusFrame2(id, err, data);
    var bad := data[i := b];
    assert (Header2 + fields + data + [c0, c1])[9 + i := b] == Header2 + fields + bad + [c0, c1];
    Recv2Layout(fields, bad, c0, c1, n, rest);
    CrcSeesData(Header2 + fields, data, i, b);
  }

  lemma CrcSeesData(p: seq<byte>, data: seq<byte>, i: nat, b: byte)
    requires i < |data| && b != data[i]
    ensures Crc16.Crc(p + data) != Crc16.Crc(p + data[i := b])
  {
    var q := data[i + 1..];
    assert p + data == (p + data[..i]) + [data[i]] + q;
    assert p + data[i := b] == (p + data[..i]) + [b] + q;
    Crc16.SingleByteErrorDetected(p + data[..i], data[i], b, q);
  }

  // ---- frames and receives by version ----

  /** The frame `send(id, instruction, params)` writes. */
  function Frame(v: Version, id: byte, instr: Instruction, params: seq<byte>): (f: seq<byte>)
    ensures |f| == |params| + (if v == V1 then 6 else 10)
  {
    if v == V1 then Frame1(id, Code(instr), params) else Frame2(id, Code(instr), params)
  }

  /** `recv::<n>()`. */
  function Recv(v: Version, inp: seq<byte>, n: nat): (r: Received)
    ensures r.result.Ok? ==> |r.result.value.params| == n && r.result.value.count <= n
  {
    if v == V1 then Recv1(inp, n) else Recv2(inp, n)
  }

  /** Receiving never invents input: what is left is a suffix of what was there. */
  lemma RecvConsumes(v: Version, inp: seq<byte>, n: nat)
    ensures IsSuffix(Recv(v, inp, n).rest, inp)
  {
    var header := if v == V1 then Header1 else Header2;
    var o := Sync(inp, header, 0);
    if o.Some? {
      if v == V1 {
        Packet1Consumes(o.value, n);
      } else {
        Packet2Consumes(o.value, n);
      }
      SuffixTransitive(Recv(v, inp, n).rest, o.value, inp);
    }
  }

  predicate IsSuffix(r: seq<byte>, s: seq<byte>)
  {
    |r| <= |s| && r == s[|s| - |r|..]
  }

  lemma SuffixTransitive(a: seq<byte>, b: seq<byte>, c: seq<byte>)
    requires IsSuffix(a, b) && IsSuffix(b, c)
    ensures IsSuffix(a, c)
  {
    assert c[|c| - |a|..] == c[|c| - |b|..][|b| - |a|..];
  }

  lemma Packet1Consumes(s: seq<byte>, n: nat)
    ensures IsSuffix(Packet1(s, n).rest, s)
  {
  }

  lemma Packet2Consumes(s: seq<byte>, n: nat)
    ensures IsSuffix(Packet2(s, n).rest, s)
  {
  }

  // ---- Protocol 2.0 status byte ----

  datatype Status =
    | ResultFail | InstructionError | CrcMismatch | DataRangeError | DataLengthError
    | DataLimitError | AccessError | ProtocolError

  /** The discriminant of each Status variant (0x01 .. 0x08). */
  function StatusCode(s: Status): byte
  {
    match s
    case ResultFail => 0x01
    case InstructionError => 0x02
    case CrcMismatch => 0x03
    case DataRangeError => 0x04
    case DataLengthError => 0x05
    case DataLimitError => 0x06
    case AccessError => 0x07
    case ProtocolError => 0x08
  }

  /** `impl Into<Status> for u8`: 0x01 to 0x07 name a status, every other byte (0 included) is
      ProtocolError. */
  function ToStatus(b: byte): (s: Status)
    ensures 1 <= b <= 7 ==> StatusCode(s) == b
    ensures s == ProtocolError <==> !(1 <= b <= 7)
  {
    match b
    case 0x01 => ResultFail
    case 0x02 => InstructionError
    case 0x03 => CrcMismatch
    case 0x04 => DataRangeError
    case 0x05 => DataLengthError
    case 0x06 => DataLimitError
    case 0x07 => AccessError
    case _ => ProtocolError
  }

  lemma StatusRoundTrip(s: Status)
    ensures ToStatus(StatusCode(s)) == s
  {
  }

  // ---- reference frames ----

  lemma HeaderSteps()
    ensures Crc16.Step(0, 0xFF) == 0x202 && Crc16.Step(0x202, 0xFF) == 0x800d
    ensures Crc16.Step(0x800d, 0xFD) == 0xc0e && Crc16.Step(0xc0e, 0x00) == 0xe28
    ensures Crc16.Step(0xe28, 0x01) == 0x2822
  {
  }

  /** The register after five bytes, given the register after each one. */
  lemma UpdateFive(c: bv16, s: seq<byte>, b0: byte, b1: byte, b2: byte, b3: byte, b4: byte,
                   e1: bv16, e2: bv16, e3: bv16, e4: bv16, e5: bv16)
    requires s == [b0, b1, b2, b3, b4]
    requires Crc16.Step(c, b0) == e1 && Crc16.Step(e1, b1) == e2 && Crc16.Step(e2, b2) == e3
    requires Crc16.Step(e3, b3) == e4 && Crc16.Step(e4, b4) == e5
    ensures Crc16.Update(c, s) == e5
  {
    assert s[1..] == [b1, b2, b3, b4];
    assert Crc16.Update(c, s) == Crc16.Update(e1, [b1, b2, b3, b4]);
    assert s[1..][1..] == [b2, b3, b4];
    assert Crc16.Update(e1, [b1, b2, b3, b4]) == Crc16.Update(e2, [b2, b3, b4]);
    UpdateThree(e2, [b2, b3, b4], b2, b3, b4, e3, e4, e5);
  }

  /** The register after three bytes, given the register after each one. */
  lemma UpdateThree(c: bv16, s: seq<byte>, b0: byte, b1: byte, b2: byte, e1: bv16, e2: bv16, e3: bv16)
    requires s == [b0, b1, b2]
    requires Crc16.Step(c, b0) == e1 && Crc16.Step(e1, b1) == e2 && Crc16.Step(e2, b2) == e3
    ensures Crc16.Update(c, s) == e3
  {
    assert s[1..] == [b1, b2];
    assert Crc16.Update(c, s) == Crc16.Update(e1, [b1, b2]);
    assert [b1, b2][1..] == [b2];
    assert Crc16.Update(e1, [b1, b2]) == Crc16.Update(e2, [b2]);
    assert [b2][1..] == [];
    assert Crc16.Update(e2, [b2]) == Crc16.Update(e3, []);
  }

  /** The CRC register after the header and the id 1. */
  lemma Device1Crc(p: seq<byte>)
    requires p == [0xFF, 0xFF, 0xFD, 0x00, 0x01]
    ensures Crc16.Update(0, p) == 0x2822
  {
    HeaderSteps();
    UpdateFive(0, p, 0xFF, 0xFF, 0xFD, 0x00, 0x01, 0x202, 0x800d, 0xc0e, 0xe28, 0x2822);
  }

  lemma WriteSteps()
    ensures Crc16.Step(0x2822, 0x06) == 0x22e4 && Crc16.Step(0x22e4, 0x00) == 0xe4cc
    ensures Crc16.Step(0xe4cc, 0x03) == 0xce52 && Crc16.Step(0xce52, 0x19) == 0x50f2
    ensures Crc16.Step(0x50f2, 0x00) == 0xf3e0
  {
  }

  /** The CRC register moved over the length, instruction and address of a three-parameter Write to 0x19. */
  lemma WriteFieldsCrc(q: seq<byte>)
    requires q == [0x06, 0x00, 0x03, 0x19, 0x00]
    ensures Crc16.Update(0x2822, q) == 0xf3e0
  {
    WriteSteps();
    UpdateFive(0x2822, q, 0x06, 0x00, 0x03, 0x19, 0x00, 0x22e4, 0xe4cc, 0xce52, 0x50f2, 0xf3e0);
  }

  lemma LedSteps()
    ensures Crc16.Step(0xf3e0, 0x01) == 0x622f && Crc16.Step(0xf3e0, 0x02) == 0x6225
    ensures Crc16.Step(0xf3e0, 0x03) == 0xe220
  {
  }

  /** The CRC of a three-parameter Write to address 0x19 of device 1. */
  lemma LedCrc(body: seq<byte>, v: byte)
    requires body == [0xFF, 0xFF, 0xFD, 0x00, 0x01, 0x06, 0x00, 0x03, 0x19, 0x00, v]
    ensures v == 1 ==> Crc16.Crc(body) == 0x622f
    ensures v == 2 ==> Crc16.Crc(body) == 0x6225
    ensures v == 3 ==> Crc16.Crc(body) == 0xe220
  {
    var p, q := body[..5], body[5..10];
    Device1Crc(p);
    WriteFieldsCrc(q);
    Crc16.UpdateAppend(0, p, q);
    assert body == (p + q) + [v];
    Crc16.UpdateOne(0, p + q, v);
    LedSteps();
  }

  /** A Protocol 2.0 frame is its body followed by the two CRC bytes, low byte first. */
  lemma Frame2Bytes(id: byte, instr: byte, params: seq<byte>, body: seq<byte>, crc: u16)
    requires body == Body2(id, instr, params) && Crc16.Crc(body) == crc
    ensures Frame2(id, instr, params) == body + [crc % 256, crc / 256]
  {
  }

  /** Writing 1, 2 and 3 to address 0x19 (the LED of an XL-320) of device 1. */
  lemma LedFrames(id: byte, v: byte)
    requires id == 1
    ensures v == 1 ==>
      Frame2(id, Code(Write), [0x19, 0x00, v]) == [0xFF, 0xFF, 0xFD, 0x00, 0x01, 0x06, 0x00, 0x03, 0x19, 0x00, 0x01, 0x2F, 0x62]
    ensures v == 2 ==>
      Frame2(id, Code(Write), [0x19, 0x00, v]) == [0xFF, 0xFF, 0xFD, 0x00, 0x01, 0x06, 0x00, 0x03, 0x19, 0x00, 0x02, 0x25, 0x62]
    ensures v == 3 ==>
      Frame2(id, Code(Write), [0x19, 0x00, v]) == [0xFF, 0xFF, 0xFD, 0x00, 0x01, 0x06, 0x00, 0x03, 0x19, 0x00, 0x03, 0x20, 0xE2]
  {
    var body := [0xFF, 0xFF, 0xFD, 0x00, 0x01, 0x06, 0x00, 0x03, 0x19, 0x00, v];
    assert Body2(id, Code(Write), [0x19, 0x00, v]) == body;
    LedCrc(body, v);
    Frame2Bytes(id, Code(Write), [0x19, 0x00, v], body, Crc16.Crc(body));
  }

  lemma PingSteps()
    ensures Crc16.Step(0x2822, 0x03) == 0x22fa && Crc16.Step(0x22fa, 0x00) == 0xfacc
    ensures Crc16.Step(0xfacc, 0x01) == 0x4e19
  {
  }

  /** The CRC of a Ping of device 1. */
  lemma PingCrc(body: seq<byte>)
    requires body == [0xFF, 0xFF, 0xFD, 0x00, 0x01, 0x03, 0x00, 0x01]
    ensures Crc16.Crc(body) == 0x4e19
  {
    var p, q := body[..5], body[5..];
    Device1Crc(p);
    PingSteps();
    UpdateThree(0x2822, q, 0x03, 0x00, 0x01, 0x22fa, 0xfacc, 0x4e19);
    Crc16.UpdateAppend(0, p, q);
    assert body == p + q;
  }

  /** Ping of device 1. */
  lemma PingFrame(id: byte, params: seq<byte>)
    requires id == 1 && params == []
    ensures Frame2(id, Code(Ping), params) == [0xFF, 0xFF, 0xFD, 0x00, 0x01, 0x03, 0x00, 0x01, 0x19, 0x4E]
  {
    var body := [0xFF, 0xFF, 0xFD, 0x00, 0x01, 0x03, 0x00, 0x01];
    assert Body2(id, Code(Ping), params) == body;
    PingCrc(body);
    Frame2Bytes(id, Code(Ping), params, body, 0x4e19);
  }
}
