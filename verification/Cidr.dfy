/** Address blocks: shift and mask arithmetic against intervals of addresses. */
module Cidr {
  import opened Wrappers

  // ---------------------------------------------------------------- bits

  function Pow2(n: nat): (r: nat)
    ensures r > 0
  {
    if n == 0 then 1 else 2 * Pow2(n - 1)
  }

  /** `x >> k`. */
  function ShiftRight(x: nat, k: nat): nat
    decreases k
  {
    if k == 0 then x else ShiftRight(x / 2, k - 1)
  }

  /** `x << k` in a word of `bits` bits: each step drops the highest bit. */
  function ShiftLeft(x: nat, k: nat, bits: nat): (r: nat)
    requires x < Pow2(bits)
    ensures r < Pow2(bits)
    decreases k
  {
    if k == 0 then x
    else ShiftLeft(if 2 * x >= Pow2(bits) then 2 * x - Pow2(bits) else 2 * x, k - 1, bits)
  }

  /** `x & y`. */
  function And(x: nat, y: nat): nat {
    if x == 0 || y == 0 then 0 else x % 2 * (y % 2) + 2 * And(x / 2, y / 2)
  }

  // ---------------------------------------------------------------- blocks

  datatype Addr = V4(bits: nat) | V6(bits: nat) {
    function Width(): nat { if V4? then 32 else 128 }

    predicate Valid() { bits < Pow2(Width()) }
  }

  datatype Block = Block(network: Addr, prefix: nat) {
    /** Host bits. */
    function Free(): int { network.Width() - prefix }
  }

  /** Section 2.5.5.2 of RFC 4291: ::ffff:a.b.c.d stands for a.b.c.d. */
  function ToCanonical(a: Addr): Addr {
    if a.V6? && ShiftRight(a.bits, 32) == 0xffff then V4(a.bits % Pow2(32)) else a
  }

  function Mask(bits: nat, prefix: nat): nat
    requires prefix <= bits
  {
    if bits - prefix >= bits then 0 else ShiftLeft(Pow2(bits) - 1, bits - prefix, bits)
  }

  function Masked(b: Block): Addr
    requires b.prefix <= b.network.Width()
  {
    var masked := And(b.network.bits, Mask(b.network.Width(), b.prefix));
    if b.network.V4? then V4(masked) else V6(masked)
  }

  predicate PrefixMatch(net: nat, ip: nat, bits: nat, prefix: nat)
    requires prefix <= bits
  {
    prefix == 0 || ShiftRight(net, bits - prefix) == ShiftRight(ip, bits - prefix)
  }

  predicate Contains(b: Block, ip: Addr)
    requires b.prefix <= b.network.Width()
  {
    var canonical := ToCanonical(ip);
    canonical.V4? == b.network.V4? && PrefixMatch(b.network.bits, canonical.bits, b.network.Width(), b.prefix)
  }

  /** The text behind the slash, as far as it reads as a byte. */
  datatype PrefixText = NoPrefix | Garbage | Number(n: nat)

  datatype ParseResult = Parsed(block: Block) | NotAnAddress | BadPrefix | HostBitsSet

  /** The parser behind the two foreign number parsers. */
  function FromParts(addr: Option<Addr>, prefix: PrefixText): ParseResult {
    if addr.None? then NotAnAddress
    else
      var network := ToCanonical(addr.value);
      var max := network.Width();
      if prefix.Garbage? || (prefix.Number? && prefix.n > max) then BadPrefix
      else
        var block := Block(network, if prefix.Number? then prefix.n else max);
        if block.network != Masked(block) then HostBitsSet else Parsed(block)
  }

  // ---------------------------------------------------------------- shifts against intervals

  lemma HalfIsBetween(x: nat, a: nat, b: nat)
    ensures 2 * a <= x < 2 * b <==> a <= x / 2 < b
  {
  }

  lemma Doubled(s: nat, p: nat)
    ensures s * (2 * p) == 2 * (s * p)
  {
  }

  /** `x >> k == q` is an interval of length 2^k. */
  lemma {:induction false} ShiftIsInterval(x: nat, k: nat, q: nat)
    ensures ShiftRight(x, k) == q <==> q * Pow2(k) <= x < (q + 1) * Pow2(k)
    decreases k
  {
    if k > 0 {
      var p := Pow2(k - 1);
      ShiftIsInterval(x / 2, k - 1, q);
      var a, b := q * p, (q + 1) * p;
      Doubled(q, p);
      Doubled(q + 1, p);
      HalfIsBetween(x, a, b);
    }
  }

  lemma {:induction false} ShiftsCompose(x: nat, k: nat, m: nat)
    ensures ShiftRight(x, k + m) == ShiftRight(ShiftRight(x, k), m)
    decreases k
  {
    if k > 0 {
      ShiftsCompose(x / 2, k - 1, m);
    }
  }

  lemma {:induction false} AndOnes(x: nat, b: nat)
    requires x < Pow2(b)
    ensures And(x, Pow2(b) - 1) == x
  {
    if x > 0 {
      assert (Pow2(b) - 1) / 2 == Pow2(b - 1) - 1 && (Pow2(b) - 1) % 2 == 1;
      AndOnes(x / 2, b - 1);
    }
  }

  lemma {:induction false} PowersGrow(k: nat, b: nat)
    requires k <= b
    ensures Pow2(k) <= Pow2(b)
  {
    if k < b { PowersGrow(k, b - 1); }
  }

  /** Masking clears the low bits. */
  lemma {:induction false} AndHighOnes(x: nat, b: nat, k: nat)
    requires x < Pow2(b) && k <= b
    ensures Pow2(k) <= Pow2(b) && And(x, Pow2(b) - Pow2(k)) == ShiftRight(x, k) * Pow2(k)
    decreases k
  {
    hide And;
    PowersGrow(k, b);
    if k == 0 {
      AndOnes(x, b);
    } else {
      var p, half := Pow2(k - 1), Pow2(b - 1);
      AndHighOnes(x / 2, b - 1, k - 1);
      assert Pow2(b) - Pow2(k) == 2 * (half - p);
      AndEven(x, half - p);
      Doubled(ShiftRight(x / 2, k - 1), p);
    }
  }

  lemma AndEven(x: nat, y: nat)
    ensures And(x, 2 * y) == 2 * And(x / 2, y)
  {
    assert 2 * y % 2 == 0 && 2 * y / 2 == y;
    if x != 0 && y != 0 {
      assert x % 2 * (2 * y % 2) == 0;
    } else {
      assert And(x / 2, y) == 0;
    }
  }

  lemma {:induction false} HighOnesShift(bits: nat, j: nat, k: nat)
    requires j + k <= bits
    ensures Pow2(j) <= Pow2(bits) && Pow2(j + k) <= Pow2(bits)
    ensures ShiftLeft(Pow2(bits) - Pow2(j), k, bits) == Pow2(bits) - Pow2(j + k)
    decreases k
  {
    PowersGrow(j, bits);
    PowersGrow(j + k, bits);
    if k > 0 {
      PowersGrow(j + 1, bits);
      HighOnesShift(bits, j + 1, k - 1);
    }
  }

  /** All ones, shifted left, are the high ones. */
  lemma MaskIsHighOnes(bits: nat, prefix: nat)
    requires prefix <= bits
    ensures Pow2(bits - prefix) <= Pow2(bits)
    ensures Mask(bits, prefix) == Pow2(bits) - Pow2(bits - prefix)
  {
    hide ShiftLeft;
    PowersGrow(bits - prefix, bits);
    HighOnesShift(bits, 0, bits - prefix);
  }

  // ---------------------------------------------------------------- what an accepted block is

  /** No host bits are set below the prefix. */
  predicate Aligned(b: Block) {
    b.prefix <= b.network.Width() && b.network.Valid() &&
    b.network.bits == ShiftRight(b.network.bits, b.Free()) * Pow2(b.Free())
  }

  /** The parser accepts an address with a prefix in range exactly when the address is
      a multiple of the block size. */
  lemma AcceptedIffAligned(addr: Addr, prefix: PrefixText)
    requires addr.Valid()
    ensures var network := ToCanonical(addr);
            var block := Block(network, if prefix.Number? then prefix.n else network.Width());
            && network.Valid()
            && (FromParts(Some(addr), prefix).Parsed? <==>
                  !prefix.Garbage? && block.prefix <= network.Width() && Aligned(block))
            && (FromParts(Some(addr), prefix).Parsed? ==> FromParts(Some(addr), prefix).block == block)
  {
    hide ToCanonical;
    hide Pow2;
    hide And;
    hide Mask;
    hide ShiftRight;
    var network := ToCanonical(addr);
    CanonicalIsValid(addr);
    var block := Block(network, if prefix.Number? then prefix.n else network.Width());
    if block.prefix <= network.Width() {
      MaskIsHighOnes(network.Width(), block.prefix);
      AndHighOnes(network.bits, network.Width(), block.Free());
    }
  }

  /** Why the parser refuses: no address, a prefix that is no number or too long for the
      address family, or host bits below the prefix. */
  lemma RefusedBecause(addr: Option<Addr>, prefix: PrefixText)
    requires addr.Some? ==> addr.value.Valid()
    ensures var r := FromParts(addr, prefix);
            && (r == NotAnAddress <==> addr == None)
            && (r == BadPrefix <==>
                  addr.Some? && (prefix == Garbage || (prefix.Number? && prefix.n > if ToCanonical(addr.value).V4? then 32 else 128)))
            && (r == HostBitsSet <==>
                  && addr.Some? && prefix != Garbage
                  && var network := ToCanonical(addr.value);
                     var max := if network.V4? then 32 else 128;
                     var n := if prefix.Number? then prefix.n else max;
                     n <= max && network.bits != ShiftRight(network.bits, max - n) * Pow2(max - n))
  {
    hide ToCanonical;
    hide Pow2;
    hide And;
    hide Mask;
    hide ShiftRight;
    if addr.Some? {
      AcceptedIffAligned(addr.value, prefix);
    }
  }

  lemma CanonicalIsValid(a: Addr)
    requires a.Valid()
    ensures ToCanonical(a).Valid()
  {
    hide Pow2;
    hide ShiftRight;
  }

  lemma EightBits(n: nat)
    ensures Pow2(n + 8) == 0x100 * Pow2(n)
  {
    assert Pow2(n + 2) == 4 * Pow2(n);
    assert Pow2(n + 4) == 4 * Pow2(n + 2);
    assert Pow2(n + 6) == 4 * Pow2(n + 4);
    assert Pow2(n + 8) == 4 * Pow2(n + 6);
  }

  lemma WordSize()
    ensures Pow2(32) == 0x1_0000_0000
  {
    EightBits(0);
    EightBits(8);
    EightBits(16);
    EightBits(24);
    hide Pow2;
    assert Pow2(0) == 1 by { One(); }
  }

  lemma One()
    ensures Pow2(0) == 1
  {
  }

  /** Exactly the addresses ::ffff:0:0 to ::ffff:ffff:ffff become IPv4 addresses. */
  lemma CanonicalUnmapsIPv4(a: Addr)
    requires a.Valid()
    ensures var first := 0xffff * Pow2(32);
            if a.V6? && first <= a.bits < first + Pow2(32) then ToCanonical(a) == V4(a.bits - first)
            else ToCanonical(a) == a
  {
    hide Pow2;
    hide ShiftRight;
    WordSize();
    if a.V6? { ShiftIsInterval(a.bits, 32, 0xffff); }
  }

  /** The addresses of a block are an interval: section 3.1 of RFC 4632, prefix 0 included. */
  lemma BlockIsInterval(b: Block, ip: Addr)
    requires Aligned(b) && ip.Valid()
    ensures var canonical := ToCanonical(ip);
            Contains(b, ip) <==>
            canonical.V4? == b.network.V4? && b.network.bits <= canonical.bits < b.network.bits + Pow2(b.Free())
  {
    hide ToCanonical;
    hide Pow2;
    hide ShiftRight;
    hide Aligned;
    var canonical := ToCanonical(ip);
    CanonicalIsValid(ip);
    AlignedInRange(b);
    if b.prefix == 0 {
      ZeroPrefix(b);
    } else {
      AlignedStart(b, canonical.bits);
    }
  }

  lemma AlignedInRange(b: Block)
    requires Aligned(b)
    ensures b.prefix <= b.network.Width()
  {
  }

  /** The addresses with the block's high bits. */
  lemma AlignedStart(b: Block, x: nat)
    requires Aligned(b)
    ensures ShiftRight(x, b.Free()) == ShiftRight(b.network.bits, b.Free()) <==>
            b.network.bits <= x < b.network.bits + Pow2(b.Free())
  {
    hide Pow2;
    hide ShiftRight;
    var p, q := Pow2(b.Free()), ShiftRight(b.network.bits, b.Free());
    ShiftIsInterval(x, b.Free(), q);
    NextMultiple(q, p);
  }

  lemma NextMultiple(q: nat, p: nat)
    ensures (q + 1) * p == q * p + p
  {
  }

  lemma ZeroPrefix(b: Block)
    requires Aligned(b) && b.prefix == 0
    ensures b.network.bits == 0
  {
    hide ShiftRight;
    hide Pow2;
    var p, q := Pow2(b.Free()), ShiftRight(b.network.bits, b.Free());
    if q > 0 {
      MultipleIsLarge(q, p);
    }
  }

  lemma MultipleIsLarge(q: nat, p: nat)
    requires q > 0
    ensures q * p >= p
  {
    assert q * p == (q - 1) * p + p;
  }

  /** Any two accepted blocks are nested or disjoint. */
  lemma BlocksNestOrAreDisjoint(b: Block, c: Block)
    requires Aligned(b) && Aligned(c)
    ensures || (forall ip: Addr :: ip.Valid() && Contains(b, ip) ==> Contains(c, ip))
            || (forall ip: Addr :: ip.Valid() && Contains(c, ip) ==> Contains(b, ip))
            || (forall ip: Addr :: ip.Valid() && Contains(b, ip) ==> !Contains(c, ip))
  {
    hide ToCanonical;
    hide Pow2;
    if b.network.V4? == c.network.V4? {
      if b.prefix >= c.prefix {
        NarrowInsideWide(b, c);
      } else {
        NarrowInsideWide(c, b);
        hide ShiftRight;
      }
    }
  }

  lemma NarrowInsideWide(b: Block, c: Block)
    requires Aligned(b) && Aligned(c) && b.network.V4? == c.network.V4? && b.prefix >= c.prefix
    ensures || (forall ip: Addr :: Contains(b, ip) ==> Contains(c, ip))
            || (forall ip: Addr :: Contains(b, ip) ==> !Contains(c, ip))
  {
    hide ToCanonical;
    hide Pow2;
    var k, m := b.Free(), b.prefix - c.prefix;
    if c.prefix > 0 {
      forall ip: Addr | Contains(b, ip)
        ensures Contains(c, ip) <==> ShiftRight(ShiftRight(b.network.bits, k), m) == ShiftRight(c.network.bits, c.Free())
      {
        ShiftsCompose(ToCanonical(ip).bits, k, m);
      }
    }
    hide ShiftRight;
  }
}
