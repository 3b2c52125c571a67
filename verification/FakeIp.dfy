/** Deterministic fake addresses inside a configured CIDR range (section 3.1 of RFC 4632)
    (cmd/dns/internal/dns/fakeip.go). */
module FakeIps {
  import opened Labels
  import opened Numbers

  // ---------------------------------------------------------------- fixed-width bytes

  /** ipToFixed: pad with zeros on the left, or keep the low bytes. */
  function ToFixed(v: nat, width: nat): (out: seq<byte>)
    ensures |out| == width
  {
    var raw := ToBytes(v);
    if |raw| >= width then raw[|raw| - width..] else seq(width - |raw|, _ => 0) + raw
  }

  /** Padding or cutting the shortest encoding gives the digits of the fixed-width one. */
  lemma {:induction false} FixedIsBigEndian(v: nat, width: nat)
    ensures ToFixed(v, width) == BigEndian(v, width)
  {
    if width > 0 {
      FixedIsBigEndian(v / 256, width - 1);
      assert ToFixed(v, width) == ToFixed(v / 256, width - 1) + [v % 256];
    }
  }

  /** The fixed-width encoding decodes to the value modulo 256^width, so it is exact when the value
      fits. */
  lemma FixedDecodes(v: nat, width: nat)
    ensures FromBytes(ToFixed(v, width)) == v % Pow(256, width)
  {
    FixedIsBigEndian(v, width);
    BigEndianDecodes(v, width);
  }

  // ---------------------------------------------------------------- ranges

  /** A parsed CIDR: an address of 32 or 128 bits and a prefix length. */
  datatype Cidr = Cidr(bits: nat, ones: nat, ip: nat)
  {
    ghost predicate Valid() {
      (bits == 32 || bits == 128) && ones <= bits && ip < Pow(2, bits)
    }

    /** 1 << (bits - ones) */
    function Size(): nat
      requires ones <= bits
    {
      Pow(2, bits - ones)
    }

    /** The address with its host bits cleared, as net.ParseCIDR returns it. */
    function Network(): (n: nat)
      requires ones <= bits
    {
      ip - ip % Size()
    }
  }

  datatype CidrText = Empty | Malformed | Net(cidr: Cidr)

  const MAPPED: nat := 0xffff

  /** The sizes of the two address spaces. */
  const V4_SPACE: nat := 0x1_0000_0000
  const V6_SPACE: nat := 0x1_0000_0000_0000_0000_0000_0000_0000_0000

  /** IP.To4: an IPv4 address, or the IPv4 address an IPv6 address maps (::ffff:0:0/96). */
  function To4(network: nat, bits: nat): int {
    if bits == 32 then network
    else if network / V4_SPACE == MAPPED then network % V4_SPACE
    else -1
  }

  /** IP.To16 */
  function To16(network: nat, bits: nat): nat {
    if bits == 32 then MAPPED * V4_SPACE + network else network
  }

  /** Every IPv4 network has an IPv4 form, and of the IPv6 ones exactly those that map one. */
  lemma FormsAre(network: nat, bits: nat, a: nat)
    requires (bits == 32 || bits == 128) && a < 0x1_0000_0000
    ensures bits == 32 ==> To4(network, bits) == network && To16(network, bits) == 65535 * 0x1_0000_0000 + network
    ensures bits == 128 ==> To16(network, bits) == network
    ensures bits == 128 ==> (To4(network, bits) == a <==> network == 65535 * 0x1_0000_0000 + a)
    ensures To4(network, bits) < 0 <==>
      bits == 128 && !(65535 * 0x1_0000_0000 <= network < 65536 * 0x1_0000_0000)
  {
  }

  lemma Pow32()
    ensures Pow(2, 16) == 0x1_0000 && Pow(2, 32) == V4_SPACE == Pow(256, 4)
  {
    assert Pow(2, 4) == 16;
    PowSum(2, 4, 4);
    PowSum(2, 8, 8);
    PowSum(2, 16, 16);
    PowSquare(4);
  }

  lemma Pow128()
    ensures Pow(2, 128) == V6_SPACE == Pow(256, 16)
  {
    hide Pow;
    Pow32();
    PowSum(2, 32, 32);
    PowSum(2, 64, 64);
    PowSquare(16);
  }

  /** A multiple of the block size below a larger multiple leaves room for a whole block. */
  lemma AlignedFits(base: nat, size: nat, blocks: nat)
    requires size > 0 && base % size == 0 && base < blocks * size
    ensures base + size <= blocks * size
  {
    var q := base / size;
    DivMod(base, size);
    AtLeastOnce(q - blocks + 1, size);
    assert (q - blocks + 1) * size == base - blocks * size + size;
  }

  lemma NetworkIsAligned(c: Cidr)
    requires c.Valid()
    ensures c.Size() > 0 && c.Network() % c.Size() == 0
    ensures c.Network() + c.Size() <= Pow(2, c.bits)
  {
    hide Pow;
    PowPositive(2, c.bits - c.ones);
    var size := c.Size();
    DivMod(c.ip, size);
    Multiple(c.Network(), size, c.ip / size);
    PowSum(2, c.ones, c.bits - c.ones);
    AlignedFits(c.Network(), size, Pow(2, c.ones));
  }

  /** Pure arithmetic of a network n = q * size whose upper part is odd: the blocks are too small to
      reach over the boundary at `half`. */
  lemma OddAboveHalf(n: nat, q: nat, big: nat, half: nat, m: nat)
    requires half > 0 && n == q * (big * (2 * half)) && n / half == m
    ensures m % 2 == 0
  {
    Associate(q, big, 2 * half);
    Associate(q * big, 2, half);
    Multiple(n, half, (q * big) * 2);
  }

  lemma LowPart(n: nat, q: nat, size: nat, blocks: nat, half: nat, m: nat)
    requires size > 0 && half == blocks * size && n == q * size && half > 0 && n / half == m
    ensures (n % half) % size == 0 && n % half + size <= half && n == m * half + n % half
  {
    Associate(m, blocks, size);
    var low := n % half;
    DivMod(n, half);
    assert low == n - m * half;
    assert (q - m * blocks) * size == q * size - (m * blocks) * size;
    Multiple(low, size, q - m * blocks);
    AlignedFits(low, size, blocks);
  }

  /** The network is the block of its size that holds the configured address. */
  lemma NetworkHoldsAddress(c: Cidr)
    requires c.Valid()
    ensures c.Network() <= c.ip < c.Network() + c.Size()
    ensures c.Size() * Pow(2, c.ones) == Pow(2, c.bits)
  {
    hide Pow;
    PowPositive(2, c.bits - c.ones);
    DivMod(c.ip, c.Size());
    PowSum(2, c.bits - c.ones, c.ones);
  }

  /** A network that maps an IPv4 address has at most 32 host bits, and its low half is aligned. */
  lemma MappedNetwork(c: Cidr)
    requires c.Valid() && c.bits == 128 && c.Network() / V4_SPACE == MAPPED
    ensures c.ones >= 96
    ensures var low := c.Network() % V4_SPACE;
      low % c.Size() == 0 && low + c.Size() <= V4_SPACE && c.Network() == MAPPED * V4_SPACE + low
  {
    hide Pow;
    Pow32();
    NetworkIsAligned(c);
    PowOne(2);
    var n, size, host := c.Network(), c.Size(), 128 - c.ones;
    var q := n / size;
    DivMod(n, size);
    if host > 32 {
      PowSum(2, host - 33, 33);
      PowSum(2, 1, 32);
      OddAboveHalf(n, q, Pow(2, host - 33), V4_SPACE, MAPPED);
    } else {
      PowSum(2, 32 - host, host);
      LowPart(n, q, size, Pow(2, 32 - host), V4_SPACE, MAPPED);
    }
  }

  // ---------------------------------------------------------------- addresses

  const RESERVED: nat := 2
  const MIN_RANGE_FOR_RESERVATION: nat := 4

  /** hashOffset: `hash` stands for the first 16 bytes of the key's SHA-256, as a number. */
  function HashOffset(hash: nat, size: nat): nat {
    if size == 0 then 0 else hash % size
  }

  function FakeV4(base: nat, size: nat, hash: nat): seq<byte> {
    var usable := if size >= MIN_RANGE_FOR_RESERVATION then size - RESERVED else size;
    var offset := HashOffset(hash, usable) + (if usable < size then 1 else 0);
    ToFixed(base + offset, 4)
  }

  function FakeV6(base: nat, size: nat, hash: nat): seq<byte> {
    ToFixed(base + HashOffset(hash, size), 16)
  }

  /** The fake IPv4 address as a number: the hash picks one of the usable addresses, which are all but the
      first and the last if there are at least four. */
  lemma FakeV4Is(base: nat, size: nat, hash: nat)
    requires size > 0 && base % size == 0 && base + size <= V4_SPACE
    ensures FromBytes(FakeV4(base, size, hash)) == base + (if size >= 4 then 1 + hash % (size - 2) else hash % size)
    ensures |FakeV4(base, size, hash)| == 4
  {
    hide Pow, FromBytes, ToFixed;
    Pow32();
    var usable := if size >= 4 then size - 2 else size;
    DivMod(hash, usable);
    Encodes(base, size, hash % usable + (if usable < size then 1 else 0), 4);
  }

  lemma FakeV6Is(base: nat, size: nat, hash: nat)
    requires size > 0 && base % size == 0 && base + size <= V6_SPACE
    ensures FromBytes(FakeV6(base, size, hash)) == base + hash % size && |FakeV6(base, size, hash)| == 16
  {
    hide Pow, FromBytes, ToFixed;
    DivMod(hash, size);
    Pow128();
    Encodes(base, size, hash % size, 16);
  }

  /** The fake IPv4 address decodes into the range, off its first and last address when it has at
      least four, and keeps the network prefix. */
  lemma FakeV4InRange(base: nat, size: nat, hash: nat)
    requires size > 0 && base % size == 0 && base + size <= V4_SPACE
    ensures var v := FromBytes(FakeV4(base, size, hash));
      && base <= v <= base + size - 1
      && (size >= 4 ==> base + 1 <= v <= base + size - 2)
      && v / size == base / size
  {
    hide Pow, FromBytes, ToFixed;
    Pow32();
    var usable := if size >= 4 then size - 2 else size;
    DivMod(hash, usable);
    var offset := hash % usable + (if usable < size then 1 else 0);
    Encodes(base, size, offset, 4);
  }

  lemma Encodes(base: nat, size: nat, offset: nat, width: nat)
    requires size > 0 && base % size == 0 && offset < size && base + size <= Pow(256, width)
    ensures FromBytes(ToFixed(base + offset, width)) == base + offset
    ensures (base + offset) / size == base / size
  {
    hide Pow, FromBytes, ToFixed;
    DivMod(base, size);
    UniqueRemainder(base + offset, size, base / size, offset);
    FixedDecodes(base + offset, width);
    SmallRemainder(base + offset, Pow(256, width));
  }

  lemma FakeV6InRange(base: nat, size: nat, hash: nat)
    requires size > 0 && base % size == 0 && base + size <= V6_SPACE
    ensures var v := FromBytes(FakeV6(base, size, hash));
      base <= v <= base + size - 1 && v / size == base / size
  {
    hide Pow, FromBytes, ToFixed;
    DivMod(hash, size);
    Pow128();
    Encodes(base, size, hash % size, 16);
  }

  // ---------------------------------------------------------------- normalised names

  /** normalizeFQDN is idempotent on exactly the names that do not end in two dots: "a.." becomes "a.",
      and that "a". */
  lemma NormalisingTwice(lower: string -> string, name: string)
    requires LowerCases(lower)
    ensures lower(TrimDot(lower(TrimDot(name)))) == lower(TrimDot(name)) <==> !EndsInDot(TrimDot(name))
    ensures TrimDot("a..") == "a." && EndsInDot("a.")
  {
    var once := TrimDot(name);
    assert lower(TrimDot(lower(once))) == TrimDot(lower(once));
    assert EndsInDot(lower(once)) <==> EndsInDot(once);
  }

  // ---------------------------------------------------------------- the pool

  datatype InitError = NoError | ParseFailed | NotIPv4

  ghost predicate RangeOk(base: nat, size: nat, space: nat) {
    size > 0 && base % size == 0 && base + size <= space
  }

  class FakeIpPool {
    const lower: string -> string
    const hash: string -> nat
    var hasV4: bool
    var v4Base: nat
    var v4Size: nat
    var hasV6: bool
    var v6Base: nat
    var v6Size: nat
    var v4Cache: map<string, seq<byte>>
    var v6Cache: map<string, seq<byte>>

    /** The ranges are aligned blocks, and the memo tables repeat the pure computation. */
    ghost predicate Valid()
      reads this
    {
      && (hasV4 ==> RangeOk(v4Base, v4Size, V4_SPACE))
      && (hasV6 ==> RangeOk(v6Base, v6Size, V6_SPACE))
      && (forall k <- v4Cache :: v4Cache[k] == FakeV4(v4Base, v4Size, hash(k)))
      && (forall k <- v6Cache :: v6Cache[k] == FakeV6(v6Base, v6Size, hash(k)))
    }

    constructor (lower: string -> string, hash: string -> nat)
      ensures Valid() && !hasV4 && !hasV6 && v4Cache == map[] && v6Cache == map[]
    {
      this.lower, this.hash := lower, hash;
      hasV4, hasV6, v4Cache, v6Cache := false, false, map[], map[];
    }

    /** An empty range is allowed; a range that is not (or does not map) IPv4 is refused. */
    method InitV4(text: CidrText) returns (err: InitError)
      requires Valid() && v4Cache == map[] && (text.Net? ==> text.cidr.Valid())
      modifies `hasV4, `v4Base, `v4Size
      ensures Valid()
      ensures text.Empty? ==> err == NoError && hasV4 == old(hasV4)
      ensures text.Malformed? ==> err == ParseFailed
      ensures text.Net? ==> var c := text.cidr; var base := To4(c.Network(), c.bits);
        if base < 0 then err == NotIPv4 else err == NoError && hasV4 && v4Base == base && v4Size == c.Size()
    {
      match text {
        case Empty => return NoError;
        case Malformed => return ParseFailed;
        case Net(c) =>
          hide Pow, FakeV4, FakeV6, RangeOk, To4;
          var asV4 := To4(c.Network(), c.bits);
          if asV4 < 0 {
            return NotIPv4;
          }
          V4Range(c);
          v4Base, v4Size, hasV4 := asV4, c.Size(), true;
          return NoError;
      }
    }

    /** Every CIDR is accepted: an IPv4 one is taken as its mapped IPv6 form. */
    method InitV6(text: CidrText) returns (err: InitError)
      requires Valid() && v6Cache == map[] && (text.Net? ==> text.cidr.Valid())
      modifies `hasV6, `v6Base, `v6Size
      ensures Valid()
      ensures text.Empty? ==> err == NoError && hasV6 == old(hasV6)
      ensures text.Malformed? ==> err == ParseFailed
      ensures text.Net? ==> var c := text.cidr;
        err == NoError && hasV6 && v6Base == To16(c.Network(), c.bits) && v6Size == c.Size()
    {
      match text {
        case Empty => return NoError;
        case Malformed => return ParseFailed;
        case Net(c) =>
          hide Pow, FakeV4, FakeV6, RangeOk, To16;
          V6Range(c);
          v6Base, v6Size, hasV6 := To16(c.Network(), c.bits), c.Size(), true;
          return NoError;
      }
    }

    method ForA(fqdn: string) returns (addr: seq<byte>)
      requires Valid() && hasV4
      modifies `v4Cache
      ensures Valid()
      ensures addr == FakeV4(v4Base, v4Size, hash(lower(TrimDot(fqdn))))
      ensures |addr| == 4 && IsFakeV4(addr)
      ensures FromBytes(addr) ==
        (var h := hash(lower(TrimDot(fqdn))); v4Base + (if v4Size >= 4 then 1 + h % (v4Size - 2) else h % v4Size))
      ensures v4Base <= FromBytes(addr) < v4Base + v4Size
      ensures v4Size >= 4 ==> FromBytes(addr) != v4Base && FromBytes(addr) != v4Base + v4Size - 1
    {
      var key := lower(TrimDot(fqdn));
      FakeV4InRange(v4Base, v4Size, hash(key));
      FakeV4Is(v4Base, v4Size, hash(key));
      if key in v4Cache {
        return v4Cache[key];
      }
      addr := FakeV4(v4Base, v4Size, hash(key));
      v4Cache := v4Cache[key := addr];
    }

    method ForAAAA(fqdn: string) returns (addr: seq<byte>)
      requires Valid() && hasV6
      modifies `v6Cache
      ensures Valid()
      ensures addr == FakeV6(v6Base, v6Size, hash(lower(TrimDot(fqdn))))
      ensures |addr| == 16 && v6Base <= FromBytes(addr) < v6Base + v6Size
      ensures FromBytes(addr) == v6Base + hash(lower(TrimDot(fqdn))) % v6Size
    {
      hide Pow;
      var key := lower(TrimDot(fqdn));
      FakeV6InRange(v6Base, v6Size, hash(key));
      FakeV6Is(v6Base, v6Size, hash(key));
      if key in v6Cache {
        return v6Cache[key];
      }
      addr := FakeV6(v6Base, v6Size, hash(key));
      v6Cache := v6Cache[key := addr];
    }

    /** The network test on the IPv4 form of an address of 4 or 16 bytes. */
    predicate IsFakeV4(addr: seq<byte>)
      reads `hasV4, `v4Base, `v4Size
    {
      hasV4 && v4Size > 0 &&
      (|addr| == 4 || (|addr| == 16 && addr[..12] == MAPPED_PREFIX)) &&
      FromBytes(addr[|addr| - 4..]) / v4Size == v4Base / v4Size
    }

    /** The test accepts exactly the addresses of the configured range, as four bytes or in their mapped
        form, and no byte string of another shape. */
    lemma FakeIffInRange(addr: seq<byte>)
      requires Valid() && hasV4
      ensures IsFakeV4(addr) <==>
        && (|addr| == 4 || (|addr| == 16 && addr[..12] == MAPPED_PREFIX))
        && v4Base <= FromBytes(addr[|addr| - 4..]) < v4Base + v4Size
    {
      hide Pow, FromBytes;
      if |addr| >= 4 {
        SameBlock(v4Base, v4Size, FromBytes(addr[|addr| - 4..]));
      }
    }
  }

  lemma SameBlock(base: nat, size: nat, v: nat)
    requires size > 0 && base % size == 0
    ensures v / size == base / size <==> base <= v < base + size
  {
    DivMod(base, size);
    DivMod(v, size);
    if base <= v < base + size {
      UniqueRemainder(v, size, base / size, v - base);
    }
  }

  const MAPPED_PREFIX: seq<byte> := [0, 0, 0, 0, 0, 0, 0, 0, 0, 0, 255, 255]

  /** The prefix of mapped addresses (section 2.5.5.2 of RFC 4291) is ten zero bytes and two of 255. */
  lemma MappedIsPrefix()
    ensures FromBytes(MAPPED_PREFIX) == MAPPED == 65535 && |MAPPED_PREFIX| == 12
  {
    var zeros: seq<byte> := [0, 0, 0, 0, 0, 0, 0, 0, 0, 0];
    assert MAPPED_PREFIX[..11] == zeros + [255] && (zeros + [255])[..10] == zeros;
    ZerosAreZero(10);
    assert zeros == seq(10, _ => 0);
  }

  lemma {:induction false} ZerosAreZero(n: nat)
    ensures FromBytes(seq(n, _ => 0)) == 0
  {
    if n > 0 {
      ZerosAreZero(n - 1);
      assert seq(n, _ => 0)[..n - 1] == seq(n - 1, _ => 0);
    }
  }

  lemma MappedRange(c: Cidr)
    requires c.Valid() && c.bits == 32
    ensures RangeOk(To16(c.Network(), 32), c.Size(), V6_SPACE)
  {
    hide Pow;
    NetworkIsAligned(c);
    var n, size, half := c.Network(), c.Size(), V4_SPACE;
    Pow32();
    Pow128();
    PowSum(2, c.ones, 32 - c.ones);
    var blocks, q := Pow(2, c.ones), n / size;
    DivMod(n, size);
    Associate(MAPPED, blocks, size);
    assert (MAPPED * blocks + q) * size == (MAPPED * blocks) * size + q * size;
    Multiple(MAPPED * half + n, size, MAPPED * blocks + q);
    PowMonotone(2, 48, 128);
    PowSum(2, 16, 32);
    Pow16();
    assert MAPPED * half + n + size <= (MAPPED + 1) * half;
  }

  /** What InitV4 accepts is an aligned block of the 32-bit space. */
  lemma V4Range(c: Cidr)
    requires c.Valid() && To4(c.Network(), c.bits) >= 0
    ensures RangeOk(To4(c.Network(), c.bits), c.Size(), V4_SPACE)
  {
    hide Pow;
    Pow32();
    Pow128();
    NetworkIsAligned(c);
    if c.bits == 128 {
      MappedNetwork(c);
    }
  }

  lemma V6Range(c: Cidr)
    requires c.Valid()
    ensures RangeOk(To16(c.Network(), c.bits), c.Size(), V6_SPACE)
  {
    hide Pow;
    Pow32();
    Pow128();
    NetworkIsAligned(c);
    if c.bits == 32 {
      MappedRange(c);
    }
  }

  lemma Pow16()
    ensures Pow(2, 16) == MAPPED + 1
  {
    Pow32();
  }

  // ---------------------------------------------------------------- concurrent calls

  /** One call of ForA or ForAAAA: it looks the key up under the read lock, computes outside any
      lock, and stores under the write lock. */
  datatype Phase = Start | Missed | Computed(addr: seq<byte>) | Done(addr: seq<byte>)
  datatype Call = Call(fqdn: string, phase: Phase)
  datatype Memo = Memo(table: map<string, seq<byte>>, calls: seq<Call>)

  datatype Pure = Pure(norm: string -> string, compute: string -> seq<byte>)

  /** What the scheduler may do next: let a new call arrive, or advance one that is not done. */
  datatype Act = Arrive(fqdn: string) | Advance(call: nat)

  function MemoStep(f: Pure, s: Memo, act: Act): Memo {
    match act
    case Arrive(fqdn) => s.(calls := s.calls + [Call(fqdn, Start)])
    case Advance(i) =>
      if i >= |s.calls| then s
      else
        var c := s.calls[i];
        var key := f.norm(c.fqdn);
        match c.phase
        case Start => s.(calls := s.calls[i := c.(phase := if key in s.table then Done(s.table[key]) else Missed)])
        case Missed => s.(calls := s.calls[i := c.(phase := Computed(f.compute(key)))])
        case Computed(addr) => Memo(s.table[key := addr], s.calls[i := c.(phase := Done(addr))])
        case Done(_) => s
  }

  function MemoAfter(f: Pure, acts: seq<Act>): Memo {
    if acts == [] then Memo(map[], []) else MemoStep(f, MemoAfter(f, acts[..|acts| - 1]), acts[|acts| - 1])
  }

  ghost predicate MemoAgrees(f: Pure, s: Memo) {
    && (forall k <- s.table :: s.table[k] == f.compute(k))
    && (forall i :: 0 <= i < |s.calls| ==> CallAgrees(f, s.calls[i]))
  }

  ghost predicate CallAgrees(f: Pure, c: Call) {
    c.phase.Computed? || c.phase.Done? ==> c.phase.addr == f.compute(f.norm(c.fqdn))
  }

  /** In every interleaving the table repeats the pure computation. */
  lemma {:induction false} MemoIsPure(f: Pure, acts: seq<Act>)
    ensures MemoAgrees(f, MemoAfter(f, acts))
  {
    if acts != [] {
      MemoIsPure(f, acts[..|acts| - 1]);
    }
  }

  /** Calls for names with the same normal form return the same address, whenever each of them
      finishes and whatever else runs in between. */
  lemma SameNameSameAddress(f: Pure, acts: seq<Act>, j: nat, a: nat, b: nat)
    requires j <= |acts|
    requires var early, late := MemoAfter(f, acts[..j]), MemoAfter(f, acts);
      && a < |early.calls| && early.calls[a].phase.Done?
      && b < |late.calls| && late.calls[b].phase.Done?
      && f.norm(early.calls[a].fqdn) == f.norm(late.calls[b].fqdn)
    ensures MemoAfter(f, acts[..j]).calls[a].phase.addr == MemoAfter(f, acts).calls[b].phase.addr
  {
    MemoIsPure(f, acts[..j]);
    MemoIsPure(f, acts);
    assert CallAgrees(f, MemoAfter(f, acts[..j]).calls[a]) && CallAgrees(f, MemoAfter(f, acts).calls[b]);
  }

  /** A call that is let run is done after three steps, whatever the others have done. */
  lemma CallFinishes(f: Pure, acts: seq<Act>, i: nat)
    requires i < |MemoAfter(f, acts).calls|
    ensures var s := MemoAfter(f, acts + [Advance(i)] + [Advance(i)] + [Advance(i)]);
      i < |s.calls| && s.calls[i].phase == Done(f.compute(f.norm(s.calls[i].fqdn)))
  {
    hide MemoStep, MemoAgrees;
    var a1 := acts + [Advance(i)];
    var a2 := a1 + [Advance(i)];
    var a3 := a2 + [Advance(i)];
    assert a1[..|a1| - 1] == acts && a2[..|a2| - 1] == a1 && a3[..|a3| - 1] == a2;
    AdvanceOne(f, MemoAfter(f, acts), i);
    AdvanceOne(f, MemoAfter(f, a1), i);
    AdvanceOne(f, MemoAfter(f, a2), i);
    MemoIsPure(f, a3);
    DoneIsComputed(f, MemoAfter(f, a3), i);
  }

  lemma AdvanceOne(f: Pure, s: Memo, i: nat)
    requires i < |s.calls|
    ensures var t := MemoStep(f, s, Advance(i)); var p, q := s.calls[i].phase, if i < |t.calls| then t.calls[i].phase else Start;
      && |t.calls| == |s.calls| && t.calls[i].fqdn == s.calls[i].fqdn
      && (p.Start? ==> q.Missed? || q.Done?) && (p.Missed? ==> q.Computed?) && (p.Computed? || p.Done? ==> q.Done?)
  {
  }

  lemma DoneIsComputed(f: Pure, s: Memo, i: nat)
    requires MemoAgrees(f, s) && i < |s.calls| && s.calls[i].phase.Done?
    ensures s.calls[i].phase.addr == f.compute(f.norm(s.calls[i].fqdn))
  {
    assert CallAgrees(f, s.calls[i]);
  }

  /** Concurrent calls of ForA on a configured range all return the address computed from the name, and
      it lies in the range. */
  lemma ConcurrentForA(lower: string -> string, hash: string -> nat, base: nat, size: nat, acts: seq<Act>, i: nat)
    requires RangeOk(base, size, V4_SPACE)
    requires var s := MemoAfter(PureV4(lower, hash, base, size), acts); i < |s.calls| && s.calls[i].phase.Done?
    ensures var c := MemoAfter(PureV4(lower, hash, base, size), acts).calls[i];
      && c.phase.addr == FakeV4(base, size, hash(lower(TrimDot(c.fqdn))))
      && base <= FromBytes(c.phase.addr) < base + size
  {
    hide Pow, FromBytes, FakeV4;
    var f := PureV4(lower, hash, base, size);
    MemoIsPure(f, acts);
    var c := MemoAfter(f, acts).calls[i];
    assert CallAgrees(f, c);
    FakeV4InRange(base, size, hash(lower(TrimDot(c.fqdn))));
  }

  function PureV4(lower: string -> string, hash: string -> nat, base: nat, size: nat): Pure {
    Pure(name => lower(TrimDot(name)), key => FakeV4(base, size, hash(key)))
  }
}
