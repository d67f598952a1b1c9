/** CRC-16/BUYPASS (polynomial 0x8005, initial value 0, no reflection, no final XOR),
    the trailer of DYNAMIXEL Protocol 2.0 frames, computed bit by bit, most significant bit first. */
module Crc16 {
  import opened Bytes

  /** One shift of the register: shift left and, if a one fell out, add the polynomial. */
  function Shift(c: bv16): bv16
  {
    if c & 0x8000 != 0 then (c << 1) ^ 0x8005 else c << 1
  }

  /** The register after n shifts. */
  function Shifts(c: bv16, n: nat): bv16
    decreases n
  {
    if n == 0 then c else Shifts(Shift(c), n - 1)
  }

  /** The byte XORed into the high half of the register. */
  function Absorb(c: bv16, b: byte): bv16
  {
    c ^ High(b)
  }

  /** The byte placed in the high half of a register, its bits taken from the top one down by
      comparison and subtraction (the same value as `(b as u16) << 8`). */
  function High(b: byte): bv16
  {
    var b7 := b - (if b >= 128 then 128 else 0);
    var b6 := b7 - (if b7 >= 64 then 64 else 0);
    var b5 := b6 - (if b6 >= 32 then 32 else 0);
    var b4 := b5 - (if b5 >= 16 then 16 else 0);
    var b3 := b4 - (if b4 >= 8 then 8 else 0);
    var b2 := b3 - (if b3 >= 4 then 4 else 0);
    var b1 := b2 - (if b2 >= 2 then 2 else 0);
    (if b >= 128 then 0x8000 else 0) | (if b7 >= 64 then 0x4000 else 0)
    | (if b6 >= 32 then 0x2000 else 0) | (if b5 >= 16 then 0x1000 else 0)
    | (if b4 >= 8 then 0x800 else 0) | (if b3 >= 4 then 0x400 else 0)
    | (if b2 >= 2 then 0x200 else 0) | (if b1 >= 1 then 0x100 else 0)
  }

  /** The byte held in the high half of a register, read back bit by bit. */
  function HighByte(h: bv16): int
  {
    (if h & 0x8000 != 0 then 128 else 0) + (if h & 0x4000 != 0 then 64 else 0)
    + (if h & 0x2000 != 0 then 32 else 0) + (if h & 0x1000 != 0 then 16 else 0)
    + (if h & 0x800 != 0 then 8 else 0) + (if h & 0x400 != 0 then 4 else 0)
    + (if h & 0x200 != 0 then 2 else 0) + (if h & 0x100 != 0 then 1 else 0)
  }

  /** Placing a byte in the high half loses nothing. */
  lemma HighInverse(b: byte)
    ensures HighByte(High(b)) == b && High(b) & 0xFF == 0
  {
  }

  /** The register after absorbing one byte: XOR it into the high half, then shift eight times. */
  function Step(c: bv16, b: byte): bv16
  {
    Shifts(Absorb(c, b), 8)
  }

  /** The register after absorbing `s` from state `c`: the incremental `update` of the CRC state. */
  function Update(c: bv16, s: seq<byte>): bv16
    decreases |s|
  {
    if s == [] then c else Update(Step(c, s[0]), s[1..])
  }

  /** The CRC of `s` as a number. */
  function Crc(s: seq<byte>): (r: u16)
  {
    Update(0, s) as int
  }

  /** Updating with `a` then `b` is updating with `a + b`: this is what lets the frame code feed
      header, fields and parameters in separate calls. */
  lemma {:induction false} UpdateAppend(c: bv16, a: seq<byte>, b: seq<byte>)
    ensures Update(c, a + b) == Update(Update(c, a), b)
    decreases |a|
  {
    if a == [] {
      assert a + b == b;
    } else {
      assert (a + b)[0] == a[0] && (a + b)[1..] == a[1..] + b;
      UpdateAppend(Step(c, a[0]), a[1..], b);
    }
  }

  lemma UpdateOne(c: bv16, s: seq<byte>, b: byte)
    ensures Update(c, s + [b]) == Step(Update(c, s), b)
  {
    UpdateAppend(c, s, [b]);
  }

  lemma ShiftBothHigh(x: bv16, y: bv16)
    requires x != y && x & 0x8000 != 0 && y & 0x8000 != 0
    ensures Shift(x) != Shift(y)
  {
  }

  lemma ShiftBothLow(x: bv16, y: bv16)
    requires x != y && x & 0x8000 == 0 && y & 0x8000 == 0
    ensures Shift(x) != Shift(y)
  {
  }

  /** After a shift the lowest bit tells whether the polynomial was added. */
  lemma ShiftMixed(x: bv16, y: bv16)
    requires x & 0x8000 != 0 && y & 0x8000 == 0
    ensures Shift(x) != Shift(y)
  {
  }

  /** The polynomial's constant term makes one shift injective ... */
  lemma ShiftInjective(x: bv16, y: bv16)
    requires x != y
    ensures Shift(x) != Shift(y)
  {
    if x & 0x8000 != 0 && y & 0x8000 != 0 {
      ShiftBothHigh(x, y);
    } else if x & 0x8000 == 0 && y & 0x8000 == 0 {
      ShiftBothLow(x, y);
    } else if x & 0x8000 != 0 {
      ShiftMixed(x, y);
    } else {
      ShiftMixed(y, x);
    }
  }

  lemma {:induction false} ShiftsInjective(x: bv16, y: bv16, n: nat)
    requires x != y
    ensures Shifts(x, n) != Shifts(y, n)
    decreases n
  {
    if n > 0 {
      ShiftInjective(x, y);
      ShiftsInjective(Shift(x), Shift(y), n - 1);
    }
  }

  lemma AbsorbByteInjective(c: bv16, a: byte, b: byte)
    requires a != b
    ensures Absorb(c, a) != Absorb(c, b)
  {
    HighInverse(a);
    HighInverse(b);
  }

  lemma AbsorbRegisterInjective(c: bv16, d: bv16, b: byte)
    requires c != d
    ensures Absorb(c, b) != Absorb(d, b)
  {
  }

  /** ... so absorbing a byte is injective in the register ... */
  lemma StepRegisterInjective(c: bv16, d: bv16, b: byte)
    requires c != d
    ensures Step(c, b) != Step(d, b)
  {
    AbsorbRegisterInjective(c, d, b);
    ShiftsInjective(Absorb(c, b), Absorb(d, b), 8);
  }

  /** ... and in the byte. */
  lemma StepByteInjective(c: bv16, a: byte, b: byte)
    requires a != b
    ensures Step(c, a) != Step(c, b)
  {
    AbsorbByteInjective(c, a, b);
    ShiftsInjective(Absorb(c, a), Absorb(c, b), 8);
  }

  lemma {:induction false} UpdateInjective(c: bv16, d: bv16, s: seq<byte>)
    requires c != d
    ensures Update(c, s) != Update(d, s)
    decreases |s|
  {
    if s != [] {
      StepRegisterInjective(c, d, s[0]);
      UpdateInjective(Step(c, s[0]), Step(d, s[0]), s[1..]);
    }
  }

  /** Any single corrupted byte changes the CRC: the trailer check detects every one-byte error. */
  lemma SingleByteErrorDetected(p: seq<byte>, x: byte, y: byte, q: seq<byte>)
    requires x != y
    ensures Crc(p + [x] + q) != Crc(p + [y] + q)
  {
    var c := Update(0, p);
    UpdateAppend(0, p + [x], q);
    UpdateAppend(0, p + [y], q);
    UpdateOne(0, p, x);
    UpdateOne(0, p, y);
    StepByteInjective(c, x, y);
    UpdateInjective(Step(c, x), Step(c, y), q);
    RegisterAsInt(Update(0, p + [x] + q), Update(0, p + [y] + q));
  }

  lemma RegisterAsInt(c: bv16, d: bv16)
    requires c != d
    ensures c as int != d as int
  {
    RegisterHalves(c);
    RegisterHalves(d);
    HalvesDiffer(c, d);
    var lc, hc := (c & 0xFF) as bv8, (c >> 8) as bv8;
    var ld, hd := (d & 0xFF) as bv8, (d >> 8) as bv8;
    if lc != ld {
      HalfAsInt(lc, ld);
    } else {
      HalfAsInt(hc, hd);
    }
  }

  lemma RegisterHalves(c: bv16)
    ensures ((c & 0xFF) as bv8) as int + 256 * (((c >> 8) as bv8) as int) == c as int
  {
  }

  lemma HalvesDiffer(c: bv16, d: bv16)
    requires c != d
    ensures (c & 0xFF) as bv8 != (d & 0xFF) as bv8 || (c >> 8) as bv8 != (d >> 8) as bv8
  {
  }

  lemma HalfAsInt(x: bv8, y: bv8)
    requires x != y
    ensures x as int != y as int
  {
  }
}
