/** The bus controller (src/protocol.rs `Controller`) and its `send`/`recv` for both protocol
    versions (src/protocol_1.rs, src/protocol_2.rs), run step by step on a model of the serial line:
    `input` holds the bytes the line will still deliver, `output` the bytes written so far. */
module Controllers {
  import opened Bytes
  import opened Results
  import opened Instructions
  import opened Frames
  import Crc16

  class Controller {
    /** The PROTOCOL_VERSION type parameter. */
    const version: Version
    var nRecv: byte
    var input: seq<byte>
    var output: seq<byte>

    /** `Controller::new`: the fields are stored as given; nothing has been written yet. */
    constructor (version: Version, input: seq<byte>, nRecv: byte)
      ensures this.version == version && this.input == input && this.nRecv == nRecv && output == []
    {
      this.version := version;
      this.input := input;
      this.nRecv := nRecv;
      output := [];
    }

    /** One blocking serial read; None when the line has nothing more to deliver. */
    method ReadByte() returns (b: Option<byte>)
      modifies this
      ensures old(input) == [] ==> b == None && input == []
      ensures old(input) != [] ==> b == Some(old(input)[0]) && input == old(input)[1..]
      ensures output == old(output) && nRecv == old(nRecv)
    {
      if input == [] {
        b := None;
      } else {
        b := Some(input[0]);
        input := input[1..];
      }
    }

    /** Writes `bytes` one at a time, in order. */
    method Write(bytes: seq<byte>)
      modifies this
      ensures output == old(output) + bytes
      ensures input == old(input) && nRecv == old(nRecv)
    {
      for i := 0 to |bytes|
        invariant output == old(output) + bytes[..i]
        invariant input == old(input) && nRecv == old(nRecv)
      {
        assert bytes[..i + 1] == bytes[..i] + [bytes[i]];
        output := output + [bytes[i]];
      }
    }

    /** `send`: writes the frame of the controller's protocol version. It never fails. */
    method Send(id: byte, instr: Instruction, params: seq<byte>)
      modifies this
      ensures output == old(output) + Frame(version, id, instr, params)
      ensures input == old(input) && nRecv == old(nRecv)
    {
      if version == V1 {
        Send1(id, instr, params);
      } else {
        Send2(id, instr, params);
      }
    }

    /** Protocol 1.0 `send`: header, id, length, instruction, parameters, then the NOT of the
        wrapping sum of everything after the header. */
    method Send1(id: byte, instr: Instruction, params: seq<byte>)
      modifies this
      ensures output == old(output) + Frame1(id, Code(instr), params)
      ensures input == old(input) && nRecv == old(nRecv)
    {
      var content := [id, (|params| + 2) % 256, Code(instr)];
      var sum := WrappingSum(content + params);
      Write(Header1 + content + params + [Not8(sum)]);
    }

    /** Protocol 2.0 `send`: header, id, both length bytes, instruction, parameters, then the CRC
        state fed with header, content and parameters in turn, low byte first. */
    method Send2(id: byte, instr: Instruction, params: seq<byte>)
      modifies this
      ensures output == old(output) + Frame2(id, Code(instr), params)
      ensures input == old(input) && nRecv == old(nRecv)
    {
      var len := |params| + 3;
      var content := [id, len % 256, (len / 256) % 256, Code(instr)];
      var crc := CrcUpdate(0, Header2);
      crc := CrcUpdate(crc, content);
      crc := CrcUpdate(crc, params);
      var c := crc as int;
      SentFrame2(id, Code(instr), params, content, crc);
      Write(Header2 + content + params + [c % 256, c / 256]);
    }

    /** `recv::<n>()`: waits for the header, then reads and checks one packet. */
    method Recv(n: nat) returns (r: Result<Response, Error>)
      modifies this
      ensures Received(r, input) == Frames.Recv(version, old(input), n)
      ensures output == old(output) && nRecv == old(nRecv)
    {
      var found := WaitHeader(if version == V1 then Header1 else Header2);
      if !found {
        return Err(Communication);
      }
      if version == V1 {
        r := ReadPacket1(n);
      } else {
        r := ReadPacket2(n);
      }
    }

    /** The header wait loop: a byte equal to the next header byte advances `head`, any other byte
        resets it. Gives false when the line runs dry first. */
    method WaitHeader(header: seq<byte>) returns (found: bool)
      requires 0 < |header|
      modifies this
      ensures found ==> Sync(old(input), header, 0) == Some(input)
      ensures !found ==> Sync(old(input), header, 0) == None && input == []
      ensures output == old(output) && nRecv == old(nRecv)
    {
      var head := 0;
      while true
        invariant 0 <= head < |header|
        invariant Sync(old(input), header, 0) == Sync(input, header, head)
        invariant output == old(output) && nRecv == old(nRecv)
        decreases |input|
      {
        var b := ReadByte();
        if b.None? {
          return false;
        }
        if b.value == header[head] {
          head := head + 1;
        } else {
          head := 0;
        }
        if head == |header| {
          return true;
        }
      }
    }

    /** Protocol 1.0, after the header: id, length and error byte, `length - 2` parameters into an
        array of n zeros (at most n), the checksum byte; then the checks. */
    method ReadPacket1(n: nat) returns (r: Result<Response, Error>)
      modifies this
      ensures Received(r, input) == Packet1(old(input), n)
      ensures output == old(output) && nRecv == old(nRecv)
    {
      var id := ReadByte();
      if id.None? { return Err(Communication); }
      var len := ReadByte();
      if len.None? { return Err(Communication); }
      var err := ReadByte();
      if err.None? { return Err(Communication); }
      if len.value < 2 {
        return Err(LengthUnderflow);
      }
      var k := Min(len.value - 2, n);
      var params := new byte[n](_ => 0);
      var ok := ReadInto(params, k, old(input), 3);
      if !ok { return Err(Communication); }
      var chk := ReadByte();
      if chk.None? { return Err(Communication); }
      assert old(input)[3..3 + k] + Zeros(n - k) == params[..];
      r := Check1(id.value, len.value, err.value, params[..], k, chk.value);
    }

    /** Protocol 2.0, after the header: id, both length bytes and the instruction, which must be
        StatusReturn, then the rest of the status packet. */
    method ReadPacket2(n: nat) returns (r: Result<Response, Error>)
      modifies this
      ensures Received(r, input) == Packet2(old(input), n)
      ensures output == old(output) && nRecv == old(nRecv)
    {
      var id := ReadByte();
      if id.None? { return Err(Communication); }
      var lo := ReadByte();
      if lo.None? { return Err(Communication); }
      var hi := ReadByte();
      if hi.None? { return Err(Communication); }
      var instr := ReadByte();
      if instr.None? { return Err(Communication); }
      if instr.value != Code(StatusReturn) {
        return Err(InstructionReceived);
      }
      if lo.value as int + 256 * (hi.value as int) < 4 {
        return Err(LengthUnderflow);
      }
      r := ReadStatus2(n, id.value, lo.value, hi.value, instr.value, old(input));
    }

    /** The rest of a Protocol 2.0 status packet: the error byte, `length - 4` parameters into an
        array of n zeros (at most n) and the two CRC bytes; then the CRC, recomputed step by step
        over header, the five fixed fields and the parameters read, is compared with them. */
    method ReadStatus2(n: nat, id: byte, lo: byte, hi: byte, instr: byte, ghost s: seq<byte>)
      returns (r: Result<Response, Error>)
      requires |s| >= 4 && s[..4] == [id, lo, hi, instr] && input == s[4..]
      requires instr == Code(StatusReturn) && lo as int + 256 * (hi as int) >= 4
      modifies this
      ensures Received(r, input) == Packet2(s, n)
      ensures output == old(output) && nRecv == old(nRecv)
    {
      var k := Min(lo as int + 256 * (hi as int) - 4, n);
      var err := ReadByte();
      if err.None? { return Err(Communication); }
      var params := new byte[n](_ => 0);
      var ok := ReadInto(params, k, s, 5);
      if !ok { return Err(Communication); }
      var c0 := ReadByte();
      if c0.None? { return Err(Communication); }
      var c1 := ReadByte();
      if c1.None? { return Err(Communication); }
      assert params[..] == params[..k] + Zeros(n - k);
      assert s[..5] == [id, lo, hi, instr, err.value];
      r := CheckStatus2([id, lo, hi, instr, err.value], params[..k], params[..], n, c0.value, c1.value);
    }

    /** Fills `params[0..k]` from the line, one read per entry, leaving the other entries as they
        are. False when the line runs dry first. */
    method ReadInto(params: array<byte>, k: nat, ghost whole: seq<byte>, ghost at: nat) returns (ok: bool)
      requires k <= params.Length && at <= |whole| && input == whole[at..]
      requires forall j :: 0 <= j < params.Length ==> params[j] == 0
      modifies this, params
      ensures output == old(output) && nRecv == old(nRecv)
      ensures ok ==> at + k <= |whole| && input == whole[at + k..] && params[..k] == whole[at..at + k]
      ensures ok ==> forall j :: k <= j < params.Length ==> params[j] == 0
      ensures !ok ==> |whole| < at + k && input == []
    {
      for i := 0 to k
        invariant at + i <= |whole| && input == whole[at + i..]
        invariant params[..i] == whole[at..at + i]
        invariant forall j :: i <= j < params.Length ==> params[j] == 0
        invariant output == old(output) && nRecv == old(nRecv)
      {
        var b := ReadByte();
        if b.None? {
          return false;
        }
        params[i] := b.value;
        assert params[..i + 1] == params[..i] + [b.value];
      }
      return true;
    }

    /** `ping`: sends Ping with no parameters and reports whether a `recv::<3>` succeeds. */
    method Ping(id: byte) returns (alive: bool)
      modifies this
      ensures output == old(output) + Frame(version, id, Instructions.Ping, [])
      ensures alive <==> Frames.Recv(version, old(input), 3).result.Ok?
      ensures input == Frames.Recv(version, old(input), 3).rest && nRecv == old(nRecv)
    {
      Send(id, Instructions.Ping, []);
      var r := Recv(3);
      alive := r.Ok?;
    }
  }

  /** The CRC comparison of `recv`: the CRC state is fed the header, the five fixed fields and the
      parameters read, and its two bytes are compared with the trailer. `padded` is the parameter
      array the response carries. */
  method CheckStatus2(fields: seq<byte>, read: seq<byte>, padded: seq<byte>, n: nat, c0: byte, c1: byte)
    returns (r: Result<Response, Error>)
    requires |fields| == 5 && |read| <= n && padded == read + Zeros(n - |read|)
    ensures r == Check2(fields, read, n, c0, c1)
  {
    var c := StatusCrc(fields, read);
    if c % 256 != c0 || c / 256 != c1 {
      r := Err(CrcError);
    } else {
      r := Ok(Response(fields[0], fields[1] as int + 256 * (fields[2] as int) - 4, padded, |read|, fields[4]));
    }
  }

  /** The CRC `recv` recomputes: a fresh state fed the header, the fixed fields, then the parameters. */
  method StatusCrc(fields: seq<byte>, read: seq<byte>) returns (c: u16)
    ensures c == Crc16.Crc(Header2 + fields + read)
  {
    var crc := CrcUpdate(0, Header2);
    crc := CrcUpdate(crc, fields);
    crc := CrcUpdate(crc, read);
    Crc16.UpdateAppend(0, Header2, fields);
    Crc16.UpdateAppend(0, Header2 + fields, read);
    c := crc as int;
  }

  /** The u8 sum of `s`, wrapping (the `.sum::<u8>()` of the checksum). */
  method WrappingSum(s: seq<byte>) returns (sum: byte)
    ensures sum == Sum(s) % 256
  {
    sum := 0;
    for i := 0 to |s|
      invariant sum == Sum(s[..i]) % 256
    {
      assert s[..i + 1] == s[..i] + [s[i]];
      SumAppend(s[..i], [s[i]]);
      assert [s[i]][1..] == [];
      sum := (sum + s[i]) % 256;
    }
    assert s[..|s|] == s;
  }

  /** Feeding header, content and parameters to the CRC in turn and appending its two bytes gives
      the Protocol 2.0 frame. */
  lemma SentFrame2(id: byte, instr: byte, params: seq<byte>, content: seq<byte>, crc: bv16)
    requires content == [id, (|params| + 3) % 256, ((|params| + 3) / 256) % 256, instr]
    requires crc == Crc16.Update(Crc16.Update(Crc16.Update(0, Header2), content), params)
    ensures Frame2(id, instr, params) == Header2 + content + params + [crc as int % 256, crc as int / 256]
  {
    Crc16.UpdateAppend(0, Header2, content);
    Crc16.UpdateAppend(0, Header2 + content, params);
    Frame2Bytes(id, instr, params, Header2 + content + params, crc as int);
  }

  /** `crc16::State::update`: absorbs `s` into the register one byte at a time. */
  method CrcUpdate(c: bv16, s: seq<byte>) returns (d: bv16)
    ensures d == Crc16.Update(c, s)
  {
    d := c;
    for i := 0 to |s|
      invariant d == Crc16.Update(c, s[..i])
    {
      Crc16.UpdateOne(c, s[..i], s[i]);
      assert s[..i + 1] == s[..i] + [s[i]];
      d := Crc16.Step(d, s[i]);
    }
    assert s[..|s|] == s;
  }
}
