/** The table-driven CRC-32 engine of `src/tools/crc.rs`.

    `Crc32.NewJam` configures the CRC-32/JAMCRC parameter set, the checksum
    of the DFU file suffix (dwCRC) of the USB DFU 1.1 class specification:
    polynomial 0x04C11DB7, reflected input and output, initial value
    0xFFFFFFFF and no final XOR.

    The engine is specified against a bitwise reference: `Steps` divides by
    the polynomial one bit at a time, most significant bit first, and
    `AddByte` feeds one (reflected) byte through eight such steps. The table
    lookup that `Crc32.Add` performs is proved equal to it (`TableAddIsSteps`),
    and the check value of the catalogue entry for CRC-32/JAMCRC ("123456789"
    gives 0x340BC6D9) is proved of the reference (`JamCheckValue`). */
module Crc {
  import opened Bytes

  /** The parameter fields of the `CRC32` struct. */
  datatype Config = Config(poly: bv32, refIn: bool, refOut: bool, initial: bv32, xorOut: bv32)

  /** The parameters `CRC32::new_jam` sets. */
  const Jam := Config(0x04C11DB7, true, true, 0xFFFF_FFFF, 0)

  /** Bit `i` of a byte / of a 32-bit word. */
  predicate Bit8(x: bv8, i: bv4)
    requires i < 8
  {
    (x >> i) & 1 == 1
  }

  predicate Bit32(x: bv32, i: bv6)
    requires i < 32
  {
    (x >> i) & 1 == 1
  }

  /** The byte with its bit order reversed (swap neighbours, then pairs, then nibbles). */
  function Reflect8(x: bv8): (r: bv8)
    ensures forall pos: bv4 :: pos < 8 ==> Bit8(r, 7 - pos) == Bit8(x, pos)
  {
    var a := ((x >> 1) & 0x55) | ((x & 0x55) << 1);
    var b := ((a >> 2) & 0x33) | ((a & 0x33) << 2);
    (b >> 4) | (b << 4)
  }

  /** The word with its bit order reversed. */
  function Reflect32(x: bv32): (r: bv32)
    ensures forall pos: bv6 :: pos < 32 ==> Bit32(r, 31 - pos) == Bit32(x, pos)
  {
    var a := ((x >> 1) & 0x5555_5555) | ((x & 0x5555_5555) << 1);
    var b := ((a >> 2) & 0x3333_3333) | ((a & 0x3333_3333) << 2);
    var c := ((b >> 4) & 0x0F0F_0F0F) | ((b & 0x0F0F_0F0F) << 4);
    var d := ((c >> 8) & 0x00FF_00FF) | ((c & 0x00FF_00FF) << 8);
    (d >> 16) | (d << 16)
  }

  lemma Reflect8Involutive(x: bv8)
    ensures Reflect8(Reflect8(x)) == x
  {
  }

  lemma Reflect32Involutive(x: bv32)
    ensures Reflect32(Reflect32(x)) == x
  {
  }

  /** What the `swap` loops hold after `pos` iterations: the top `pos` bits of the
      reflection, and the iteration's contribution, bit `pos` moved to the mirror place. */
  function Swapped8(x: bv8, pos: bv4): bv8
    requires pos <= 8
  {
    Reflect8(x) & !(0xFF >> pos)
  }

  function Moved8(x: bv8, pos: bv4): bv8
    requires pos < 8
  {
    ((x & (1 << pos)) >> pos) << (7 - pos)
  }

  function Swapped32(x: bv32, pos: bv6): bv32
    requires pos <= 32
  {
    Reflect32(x) & !(0xFFFF_FFFF >> pos)
  }

  function Moved32(x: bv32, pos: bv6): bv32
    requires pos < 32
  {
    ((x & (1 << pos)) >> pos) << (31 - pos)
  }

  lemma Swap8Step(x: bv8, pos: bv4)
    requires pos < 8
    ensures Swapped8(x, pos) | Moved8(x, pos) == Swapped8(x, pos + 1)
  {
  }

  lemma Swap32Step(x: bv32, pos: bv6)
    requires pos < 32
    ensures Swapped32(x, pos) | Moved32(x, pos) == Swapped32(x, pos + 1)
  {
  }

  /** `swap8`: moves bit `pos` to bit `7 - pos`, one bit per iteration. */
  method Swap8(inV: bv8) returns (outV: bv8)
    ensures outV == Reflect8(inV)
  {
    outV := 0;
    var pos: bv4 := 0;
    while pos < 8
      invariant pos <= 8
      invariant outV == Swapped8(inV, pos)
    {
      Swap8Step(inV, pos);
      var bit := (inV & (1 << pos)) >> pos;
      outV := outV | (bit << (7 - pos));
      pos := pos + 1;
    }
  }

  /** `swap32`: moves bit `pos` to bit `31 - pos`, one bit per iteration. */
  method Swap32(inV: bv32) returns (outV: bv32)
    ensures outV == Reflect32(inV)
  {
    outV := 0;
    var pos: bv6 := 0;
    while pos < 32
      invariant pos <= 32
      invariant outV == Swapped32(inV, pos)
    {
      Swap32Step(inV, pos);
      var bit := (inV & (1 << pos)) >> pos;
      outV := outV | (bit << (31 - pos));
      pos := pos + 1;
    }
  }

  /** One step of the polynomial division: shift left, and XOR the
      polynomial in when the bit shifted out was set. */
  function Step(poly: bv32, cur: bv32): bv32
  {
    if cur & 0x8000_0000 != 0 then (cur << 1) ^ poly else cur << 1
  }

  /** The number of division steps per input byte. */
  const BitsPerByte: nat := 8

  /** `n` division steps. */
  function Steps(poly: bv32, cur: bv32, n: nat): bv32
  {
    if n == 0 then cur else Step(poly, Steps(poly, cur, n - 1))
  }

  /** A byte moved into the top byte of the register. */
  function Spread(b: bv8): bv32
  {
    (b as bv32) << 24
  }

  /** The top byte of the register: the table index `add` computes. */
  function TopByte(u: bv32): bv8
  {
    (u >> 24) as bv8
  }

  /** The register with its top byte cleared. */
  function Low(u: bv32): bv32
  {
    u & 0x00FF_FFFF
  }

  /** The register shifted left by one byte. */
  function ShiftByte(x: bv32): bv32
  {
    x << 8
  }

  /** The register with a (reflected) input byte XORed into its top byte. */
  function Fold(v: bv32, rb: bv8): bv32
  {
    v ^ Spread(rb)
  }

  /** Entry `i` of the lookup table: byte `i`, placed in the top byte, after eight steps. */
  function TableEntry(poly: bv32, i: bv8): bv32
  {
    Steps(poly, Spread(i), BitsPerByte)
  }

  /** The input byte as `add` sees it: reflected when `refIn`. */
  function InputByte(c: Config, b: u8): bv8
  {
    if c.refIn then Reflect8(b as bv8) else b as bv8
  }

  /** The bitwise reference for `CRC32::add`: the input byte is XORed into
      the top of the register, then eight division steps. */
  function AddByte(c: Config, v: bv32, b: u8): bv32
  {
    Steps(c.poly, Fold(v, InputByte(c, b)), BitsPerByte)
  }

  /** The register after feeding `data`, in order, starting from `v`. */
  function AddBytes(c: Config, v: bv32, data: seq<u8>): bv32
  {
    if data == [] then v else AddByte(c, AddBytes(c, v, data[..|data| - 1]), data[|data| - 1])
  }

  /** `_finalize`: reflect the register when `refOut`, then XOR `xorOut`. */
  function Finalized(c: Config, v: bv32): bv32
  {
    (if c.refOut then Reflect32(v) else v) ^ c.xorOut
  }

  /** Finalizing loses nothing: undoing its two steps in reverse order gives
      the register back. */
  lemma {:induction false} FinalizedInvertible(c: Config, v: bv32)
    ensures var r := Finalized(c, v);
      (if c.refOut then Reflect32(r ^ c.xorOut) else r ^ c.xorOut) == v
  {
    var w := if c.refOut then Reflect32(v) else v;
    XorTwice(w, c.xorOut);
    if c.refOut {
      Reflect32Involutive(v);
    }
  }

  lemma {:induction false} XorTwice(a: bv32, b: bv32)
    ensures (a ^ b) ^ b == a
  {
  }

  /** The CRC-32/JAMCRC checksum of `data`. */
  function JamCrc(data: seq<u8>): bv32
  {
    Finalized(Jam, AddBytes(Jam, Jam.initial, data))
  }

  /** Feeding two pieces one after the other is feeding their concatenation. */
  lemma {:induction false} AddBytesAppend(c: Config, v: bv32, a: seq<u8>, b: seq<u8>)
    ensures AddBytes(c, v, a + b) == AddBytes(c, AddBytes(c, v, a), b)
  {
    if b != [] {
      assert (a + b)[..|a + b| - 1] == a + b[..|b| - 1];
      AddBytesAppend(c, v, a, b[..|b| - 1]);
    } else {
      assert a + b == a;
    }
  }

  // The table identity. Division steps are linear over XOR, and a register
  // whose top byte is clear only shifts during eight steps. So eight steps on
  // `hi ^ lo` (with `hi` the top byte and `lo` the rest) are eight steps on `hi`,
  // which is the table entry, XOR `lo` shifted by a byte.

  predicate Disjoint(x: bv32, m: bv32)
  {
    x & m == 0
  }

  predicate HighByteClear(x: bv32)
  {
    x & 0xFF00_0000 == 0
  }

  predicate TopClear(x: bv32)
  {
    x & 0x8000_0000 == 0
  }

  function Dbl(x: bv32): bv32
  {
    x << 1
  }

  /** `lo` shifted left by `n`, one bit at a time. */
  function Shl(lo: bv32, n: nat): bv32
  {
    if n == 0 then lo else Dbl(Shl(lo, n - 1))
  }

  /** The top byte mask shifted left by `n`: the bits `Shl(lo, n)` keeps clear. */
  function TopMask(n: nat): bv32
  {
    if n == 0 then 0xFF00_0000 else Dbl(TopMask(n - 1))
  }

  lemma {:induction false} StepClear(poly: bv32, x: bv32)
    requires TopClear(x)
    ensures Step(poly, x) == Dbl(x)
  {
  }

  lemma {:induction false} StepSet(poly: bv32, x: bv32)
    requires !TopClear(x)
    ensures Step(poly, x) == Dbl(x) ^ poly
  {
  }

  lemma {:induction false} DblXor(x: bv32, y: bv32)
    ensures Dbl(x) ^ Dbl(y) == Dbl(x ^ y)
  {
  }

  lemma {:induction false} SameTop(x: bv32, y: bv32)
    requires TopClear(x ^ y)
    ensures TopClear(x) == TopClear(y)
  {
  }

  lemma {:induction false} XorCancel(a: bv32, b: bv32, p: bv32)
    ensures (a ^ p) ^ (b ^ p) == a ^ b
  {
  }

  lemma {:induction false} StepDiffClear(poly: bv32, x: bv32, y: bv32)
    requires TopClear(x) && TopClear(y)
    ensures Step(poly, x) ^ Step(poly, y) == Dbl(x ^ y)
  {
    StepClear(poly, x);
    StepClear(poly, y);
    DblXor(x, y);
  }

  lemma {:induction false} StepDiffSet(poly: bv32, x: bv32, y: bv32)
    requires !TopClear(x) && !TopClear(y)
    ensures Step(poly, x) ^ Step(poly, y) == Dbl(x ^ y)
  {
    StepSet(poly, x);
    StepSet(poly, y);
    XorCancel(Dbl(x), Dbl(y), poly);
    DblXor(x, y);
  }

  /** Two registers that agree on the top bit step to registers that differ
      by their difference shifted: the polynomial is XORed into both or neither. */
  lemma {:induction false} StepDiff(poly: bv32, x: bv32, y: bv32)
    requires TopClear(x ^ y)
    ensures Step(poly, x) ^ Step(poly, y) == Dbl(x ^ y)
  {
    SameTop(x, y);
    if TopClear(x) {
      StepDiffClear(poly, x, y);
    } else {
      StepDiffSet(poly, x, y);
    }
  }

  lemma {:induction false} DblClear(x: bv32, m: bv32)
    requires Disjoint(x, m)
    ensures Disjoint(Dbl(x), Dbl(m))
  {
  }

  lemma {:induction false} ShlClear(lo: bv32, n: nat)
    requires HighByteClear(lo)
    ensures Disjoint(Shl(lo, n), TopMask(n))
  {
    if n > 0 {
      ShlClear(lo, n - 1);
      DblClear(Shl(lo, n - 1), TopMask(n - 1));
    }
  }

  lemma {:induction false} TopMaskHasTop(n: nat)
    requires n < 8
    ensures !TopClear(TopMask(n))
  {
    if n == 0 {
    } else if n == 1 {
    } else if n == 2 {
    } else if n == 3 {
    } else if n == 4 {
    } else if n == 5 {
    } else if n == 6 {
    } else {
    }
  }

  lemma {:induction false} MaskedTop(x: bv32, m: bv32)
    requires Disjoint(x, m) && !TopClear(m)
    ensures TopClear(x)
  {
  }

  /** During the first eight steps the shifted low part never reaches the top bit. */
  lemma {:induction false} ShlTopClear(lo: bv32, k: nat)
    requires HighByteClear(lo) && k < BitsPerByte
    ensures TopClear(Shl(lo, k))
  {
    ShlClear(lo, k);
    TopMaskHasTop(k);
    MaskedTop(Shl(lo, k), TopMask(k));
  }

  lemma {:induction false} Link(poly: bv32, u: bv32, hi: bv32, lo: bv32, n: nat)
    requires Steps(poly, u, n) ^ Steps(poly, hi, n) == Shl(lo, n)
    requires TopClear(Shl(lo, n))
    ensures Steps(poly, u, n + 1) ^ Steps(poly, hi, n + 1) == Shl(lo, n + 1)
  {
    StepDiff(poly, Steps(poly, u, n), Steps(poly, hi, n));
  }

  lemma {:induction false} ChainLink(poly: bv32, hi: bv32, lo: bv32, k: nat)
    requires TopClear(Shl(lo, k))
    requires Steps(poly, hi ^ lo, k) ^ Steps(poly, hi, k) == Shl(lo, k)
    ensures Steps(poly, hi ^ lo, k + 1) ^ Steps(poly, hi, k + 1) == Shl(lo, k + 1)
  {
    Link(poly, hi ^ lo, hi, lo, k);
  }

  lemma {:induction false} ChainLinkLow(poly: bv32, hi: bv32, lo: bv32, k: nat)
    requires HighByteClear(lo) && k < BitsPerByte
    requires Steps(poly, hi ^ lo, k) ^ Steps(poly, hi, k) == Shl(lo, k)
    ensures Steps(poly, hi ^ lo, k + 1) ^ Steps(poly, hi, k + 1) == Shl(lo, k + 1)
  {
    ShlTopClear(lo, k);
    ChainLink(poly, hi, lo, k);
  }

  /** After `n` steps, the register started at `hi ^ lo` and the one started at
      `hi` differ by `lo` shifted by `n`. */
  predicate ChainAt(poly: bv32, hi: bv32, lo: bv32, n: nat)
  {
    Steps(poly, hi ^ lo, n) ^ Steps(poly, hi, n) == Shl(lo, n)
  }

  lemma {:induction false} ChainUnwrap(poly: bv32, hi: bv32, lo: bv32, n: nat)
    requires ChainAt(poly, hi, lo, n)
    ensures Steps(poly, hi ^ lo, n) ^ Steps(poly, hi, n) == Shl(lo, n)
  {
  }

  lemma {:induction false} ChainStep(poly: bv32, hi: bv32, lo: bv32, k: nat)
    requires HighByteClear(lo) && k < BitsPerByte
    requires ChainAt(poly, hi, lo, k)
    ensures ChainAt(poly, hi, lo, k + 1)
  {
    ChainUnwrap(poly, hi, lo, k);
    ChainLinkLow(poly, hi, lo, k);
  }

  lemma {:induction false} ChainStart(poly: bv32, hi: bv32, lo: bv32)
    ensures ChainAt(poly, hi, lo, 0)
  {
  }

  /** After `n <= 8` steps the two registers differ by `lo` shifted by `n`. */
  lemma {:induction false} Chain(poly: bv32, hi: bv32, lo: bv32, n: nat)
    requires HighByteClear(lo) && n <= BitsPerByte
    ensures ChainAt(poly, hi, lo, n)
  {
    var k: nat := 0;
    ChainStart(poly, hi, lo);
    while k < n
      invariant k <= n
      invariant ChainAt(poly, hi, lo, k)
    {
      ChainStep(poly, hi, lo, k);
      k := k + 1;
    }
  }

  lemma {:induction false} XorMove(a: bv32, b: bv32, c: bv32)
    requires a ^ b == c
    ensures a == c ^ b
  {
  }

  lemma {:induction false} ChainMoved(poly: bv32, u: bv32, hi: bv32, lo: bv32, n: nat)
    requires u == hi ^ lo && HighByteClear(lo) && n <= BitsPerByte
    ensures Shl(lo, n) ^ Steps(poly, hi, n) == Steps(poly, u, n)
  {
    Chain(poly, hi, lo, n);
    ChainUnwrap(poly, hi, lo, n);
    ChainRewrite(poly, u, hi, lo, n);
    MoveAt(poly, u, hi, lo, n);
  }

  lemma {:induction false} ChainRewrite(poly: bv32, u: bv32, hi: bv32, lo: bv32, n: nat)
    requires u == hi ^ lo
    requires Steps(poly, hi ^ lo, n) ^ Steps(poly, hi, n) == Shl(lo, n)
    ensures Steps(poly, u, n) ^ Steps(poly, hi, n) == Shl(lo, n)
  {
  }

  lemma {:induction false} MoveAt(poly: bv32, u: bv32, hi: bv32, lo: bv32, n: nat)
    requires Steps(poly, u, n) ^ Steps(poly, hi, n) == Shl(lo, n)
    ensures Shl(lo, n) ^ Steps(poly, hi, n) == Steps(poly, u, n)
  {
    XorMove(Steps(poly, u, n), Steps(poly, hi, n), Shl(lo, n));
  }

  lemma {:induction false} ShlByte(lo: bv32)
    ensures Shl(lo, BitsPerByte) == ShiftByte(lo)
  {
    assert Shl(lo, 1) == Dbl(lo);
    assert Shl(lo, 2) == Dbl(Dbl(lo));
    assert Shl(lo, 3) == Dbl(Dbl(Dbl(lo)));
    assert Shl(lo, 4) == Dbl(Dbl(Dbl(Dbl(lo))));
    assert Shl(lo, 5) == Dbl(Dbl(Dbl(Dbl(Dbl(lo)))));
    assert Shl(lo, 6) == Dbl(Dbl(Dbl(Dbl(Dbl(Dbl(lo))))));
    assert Shl(lo, 7) == Dbl(Dbl(Dbl(Dbl(Dbl(Dbl(Dbl(lo)))))));
    assert Shl(lo, 8) == Dbl(Dbl(Dbl(Dbl(Dbl(Dbl(Dbl(Dbl(lo))))))));
    DblByte(lo);
  }

  lemma {:induction false} DblByte(lo: bv32)
    ensures Dbl(Dbl(Dbl(Dbl(Dbl(Dbl(Dbl(Dbl(lo)))))))) == ShiftByte(lo)
  {
  }

  /** Eight steps on `hi ^ lo`, with the top byte of `lo` clear, are eight steps
      on `hi` XOR `lo` shifted by a byte. */
  lemma {:induction false} StepsOfSplit(poly: bv32, u: bv32, hi: bv32, lo: bv32)
    requires u == hi ^ lo && HighByteClear(lo)
    ensures ShiftByte(lo) ^ Steps(poly, hi, BitsPerByte) == Steps(poly, u, BitsPerByte)
  {
    ChainMoved(poly, u, hi, lo, BitsPerByte);
    ShlByte(lo);
  }

  /** Eight steps on a register whose top byte is `b` and whose rest is `lo`:
      the table entry of `b` XOR `lo` shifted by a byte. */
  lemma {:induction false} TableOfSplit(poly: bv32, u: bv32, b: bv8, lo: bv32)
    requires u == Spread(b) ^ lo && HighByteClear(lo)
    ensures ShiftByte(lo) ^ TableEntry(poly, b) == Steps(poly, u, BitsPerByte)
  {
    StepsOfSplit(poly, u, Spread(b), lo);
  }

  /** As `TableOfSplit`, for any `w` that agrees with `lo` once shifted by a byte. */
  lemma {:induction false} TableOfSplitShifted(poly: bv32, u: bv32, b: bv8, lo: bv32, w: bv32)
    requires u == Spread(b) ^ lo && HighByteClear(lo) && ShiftByte(w) == ShiftByte(lo)
    ensures ShiftByte(w) ^ TableEntry(poly, b) == Steps(poly, u, BitsPerByte)
  {
    TableOfSplit(poly, u, b, lo);
  }

  /** A register is its top byte, back in place, XOR the rest. */
  lemma {:induction false} SplitTopByte(u: bv32)
    ensures u == Spread(TopByte(u)) ^ Low(u) && HighByteClear(Low(u))
  {
  }

  /** Eight steps on `u`: the table entry of its top byte XOR any `v` whose byte
      shift agrees with that of the rest of `u`. */
  lemma {:induction false} StepsByTable(poly: bv32, v: bv32, u: bv32)
    requires ShiftByte(v) == ShiftByte(Low(u))
    ensures ShiftByte(v) ^ TableEntry(poly, TopByte(u)) == Steps(poly, u, BitsPerByte)
  {
    SplitTopByte(u);
    TableOfSplitShifted(poly, u, TopByte(u), Low(u), v);
  }

  /** Shifting by a byte drops the top byte, so folding a byte into it changes nothing. */
  lemma {:induction false} ShiftDropsTop(v: bv32, rb: bv8)
    ensures ShiftByte(v) == ShiftByte(Low(Fold(v, rb)))
  {
  }

  /** The table lookup of `CRC32::add` equals eight division steps on the register
      with the byte folded into its top. */
  lemma {:induction false} TableAddIsSteps(poly: bv32, v: bv32, rb: bv8)
    ensures ShiftByte(v) ^ TableEntry(poly, TopByte(Fold(v, rb))) == Steps(poly, Fold(v, rb), BitsPerByte)
  {
    ShiftDropsTop(v, rb);
    StepsByTable(poly, v, Fold(v, rb));
  }
  /** One byte through the table gives the bitwise reference `AddByte`. */
  lemma {:induction false} AddByteByTable(c: Config, v: bv32, b: u8)
    ensures ShiftByte(v) ^ TableEntry(c.poly, TopByte(Fold(v, InputByte(c, b)))) == AddByte(c, v, b)
  {
    TableAddIsSteps(c.poly, v, InputByte(c, b));
  }

  /** The CRC32 struct: its parameters, the register `value` and the 256-entry table. */
  class Crc32 {
    const poly: bv32
    const refIn: bool
    const refOut: bool
    const initial: bv32
    const xorOut: bv32

    var value: bv32
    const table: array<bv32>

    function Params(): Config
    {
      Config(poly, refIn, refOut, initial, xorOut)
    }

    /** The table holds `TableEntry` for every index. */
    ghost predicate Valid()
      reads this, table
    {
      table.Length == 256 && forall i :: 0 <= i < 256 ==> table[i] == TableEntry(poly, i as bv8)
    }

    /** `CRC32::new_jam`: the JAM parameters, register 0 and an all-zero table,
        then `_new`. */
    constructor NewJam()
      ensures Valid() && fresh(table)
      ensures Params() == Jam && value == Jam.initial
    {
      poly := 0x04C1_1DB7;
      refIn := true;
      refOut := true;
      initial := 0xFFFF_FFFF;
      xorOut := 0;
      value := 0;
      table := new bv32[256](_ => 0);
      new;
      Init();
    }

    /** `_new`: fill the table, then reset the register. */
    method Init()
      requires table.Length == 256
      modifies this, table
      ensures Valid() && value == initial
    {
      InitTable();
      Reset();
    }

    /** `_init_table`: entry `i` is byte `i`, in the top byte, after eight division steps;
        iteration `i` writes entry `i` only. */
    method InitTable()
      requires table.Length == 256
      modifies table
      ensures Valid()
    {
      for i := 0 to 256
        invariant forall k :: 0 <= k < i ==> table[k] == TableEntry(poly, k as bv8)
      {
        var cur: bv32 := Spread(i as bv8);
        for j := 0 to BitsPerByte
          invariant cur == Steps(poly, Spread(i as bv8), j)
        {
          if cur & 0x8000_0000 != 0 {
            cur := cur << 1;
            cur := cur ^ poly;
          } else {
            cur := cur << 1;
          }
        }
        table[i] := cur;
      }
    }

    /** `reset`: the register goes back to the initial value; the table is untouched. */
    method Reset()
      modifies this`value
      ensures value == initial
    {
      value := initial;
    }

    /** `add`: one table lookup per byte. */
    method Add(b: u8)
      requires Valid()
      modifies this`value
      ensures value == AddByte(Params(), old(value), b)
    {
      var rb: bv8 := b as bv8;
      if refIn {
        rb := Swap8(rb);
      }
      var pos := TopByte(Fold(value, rb));
      AddByteByTable(Params(), value, b);
      value := ShiftByte(value) ^ table[pos as int];
    }

    /** `_finalize`, and `finalize`, which consumes the engine and returns the same:
        the register reflected when `refOut`, XOR `xorOut`. Nothing changes. */
    method Finalize() returns (r: bv32)
      ensures r == Finalized(Params(), value)
    {
      var v := value;
      if refOut {
        v := Swap32(v);
      }
      assert v == if refOut then Reflect32(value) else value;
      r := v ^ xorOut;
    }

    /** `get_and_reset`: the finalized value, then the register back to `initial`. */
    method GetAndReset() returns (r: bv32)
      modifies this`value
      ensures r == Finalized(Params(), old(value)) && value == initial
    {
      r := Finalize();
      Reset();
    }
  }
  /** The bytes of "123456789", the standard CRC check input. */
  const CheckInput: seq<u8> := [0x31, 0x32, 0x33, 0x34, 0x35, 0x36, 0x37, 0x38, 0x39]

  /** The register after each byte of "123456789", from 0xFFFFFFFF. */
  lemma CheckRegisters()
    ensures AddByte(Jam, 0xFFFF_FFFF, 0x31) == 0x1208_c43e
    ensures AddByte(Jam, 0x1208_c43e, 0x32) == 0x4cdd_350d
    ensures AddByte(Jam, 0x4cdd_350d, 0x33) == 0xb439_edee
    ensures AddByte(Jam, 0xb439_edee, 0x34) == 0x3af8_3826
    ensures AddByte(Jam, 0x3af8_3826, 0x35) == 0xc7a3_502c
    ensures AddByte(Jam, 0xc7a3_502c, 0x36) == 0x7934_b16f
    ensures AddByte(Jam, 0x7934_b16f, 0x37) == 0x0669_3ff5
    ensures AddByte(Jam, 0x0669_3ff5, 0x38) == 0x0aa4_f8a6
    ensures AddByte(Jam, 0x0aa4_f8a6, 0x39) == 0x9b63_d02c
  {
  }

  /** One more byte of input: the register for `p + [x]` from the one for `p`. */
  lemma {:induction false} CheckStep(p: seq<u8>, x: u8, before: bv32, after: bv32)
    requires AddBytes(Jam, Jam.initial, p) == before && AddByte(Jam, before, x) == after
    ensures AddBytes(Jam, Jam.initial, p + [x]) == after
  {
    assert (p + [x])[..|p|] == p;
  }

  /** The test of `crc.rs`: the JAMCRC of "123456789" is 0x340BC6D9. */
  lemma JamCheckValue()
    ensures JamCrc(CheckInput) == 0x340B_C6D9
  {
    CheckRegisters();
    var p0: seq<u8> := [];
    var p1 := p0 + [0x31];
    CheckStep(p0, 0x31, 0xFFFF_FFFF, 0x1208_c43e);
    var p2 := p1 + [0x32];
    CheckStep(p1, 0x32, 0x1208_c43e, 0x4cdd_350d);
    var p3 := p2 + [0x33];
    CheckStep(p2, 0x33, 0x4cdd_350d, 0xb439_edee);
    var p4 := p3 + [0x34];
    CheckStep(p3, 0x34, 0xb439_edee, 0x3af8_3826);
    var p5 := p4 + [0x35];
    CheckStep(p4, 0x35, 0x3af8_3826, 0xc7a3_502c);
    var p6 := p5 + [0x36];
    CheckStep(p5, 0x36, 0xc7a3_502c, 0x7934_b16f);
    var p7 := p6 + [0x37];
    CheckStep(p6, 0x37, 0x7934_b16f, 0x0669_3ff5);
    var p8 := p7 + [0x38];
    CheckStep(p7, 0x38, 0x0669_3ff5, 0x0aa4_f8a6);
    var p9 := p8 + [0x39];
    CheckStep(p8, 0x39, 0x0aa4_f8a6, 0x9b63_d02c);
    assert p9 == CheckInput;
    JamFinal();
  }

  /** The final register, reflected. */
  lemma JamFinal()
    ensures Finalized(Jam, 0x9b63_d02c) == 0x340B_C6D9
  {
  }
}
