/**
 Addresses and CIDR blocks with the operations of Go's `net` package that the router relies on: ParseIP, IP.String,
 ParseCIDR and IPNet.Contains, for IPv4 and IPv6.
 */
module IPNet {
  import opened Text
  import opened Bytes
  import opened IPText

  // ::ffff:a.b.c.d
  predicate Mapped(b: seq<Octet>) {
    |b| == 16 && (forall i :: 0 <= i < 10 ==> b[i] == 0) && b[10] == 255 && b[11] == 255
  }

  // What To4 leaves: four bytes, or sixteen that are not an IPv4 address in disguise.
  type IP = b: seq<Octet> | |b| == 4 || (|b| == 16 && !Mapped(b)) witness [0, 0, 0, 0]

  type IPv4 = b: seq<Octet> | |b| == 4 witness [0, 0, 0, 0]

  function To4(b: seq<Octet>): IP
    requires |b| == 4 || |b| == 16
  {
    if Mapped(b) then b[12..] else b
  }

  // An address block: network number and mask of one length.
  datatype Block = Block(ip: IP, mask: seq<Octet>)

  /* ---------- Text ---------- */

  // netip.ParseAddr: a text with a colon is IPv6.
  function ParseAddr(s: string): (r: Option<seq<Octet>>)
    ensures r.Some? ==> |r.value| == 4 || |r.value| == 16
  {
    if ':' !in s then ParseV4(s)
    else
      var gs := ParseV6(s);
      if gs.Some? then Some(ToBytes(gs.value)) else None
  }

  function ParseIP(s: string): Option<IP> {
    var b := ParseAddr(s);
    if b.Some? then Some(To4(b.value)) else None
  }

  // IP.String
  function Format(ip: IP): string {
    if |ip| == 4 then FormatFields(ip) else FormatV6(ToGroups(ip))
  }

  // Parsing a printed address gives it back.
  lemma ParseFormat(ip: IP)
    ensures ParseIP(Format(ip)) == Some(ip) && ' ' !in Format(ip)
  {
    if |ip| == 4 {
      ParseFormatFields(ip);
      FormatHasNoColon(ip);
      FormatHasNoSpace(ip);
    } else {
      ParseFormatV6(ToGroups(ip));
      FormatV6Shape(ToGroups(ip));
      BytesRoundTrip(ip);
    }
  }

  lemma AddressHasNoSpace(s: string)
    requires ParseIP(s).Some?
    ensures ' ' !in s
  {
    if ':' in s {
      V6HasNoSpace(s);
    } else {
      V4HasNoSpace(s);
    }
  }

  // A text that is the printed form of its address.
  predicate CanonicalIP(s: string) {
    ParseIP(s).Some? && Format(ParseIP(s).value) == s
  }

  // Dotted addresses are written in one way only; IPv6 addresses in many.
  lemma DottedIsCanonical(s: string)
    requires ParseIP(s).Some? && ':' !in s
    ensures CanonicalIP(s)
  {
    FormatParseFields(s, 4);
  }

  // Any with a capital in it, for one, is printed otherwise.
  lemma CapitalsAreNotCanonical(s: string, c: char)
    requires c in s && 'A' <= c <= 'F'
    ensures !CanonicalIP(s)
  {
    if ParseIP(s).Some? {
      var ip := ParseIP(s).value;
      if |ip| == 4 {
        DottedChars(ip);
      } else {
        FormatV6Shape(ToGroups(ip));
      }
    }
  }

  lemma {:induction false} DottedChars(o: seq<Octet>)
    requires |o| > 0
    ensures forall c :: c in FormatFields(o) ==> c == '.' || IsDigit(c)
  {
    assert forall c :: c in Decimal(o[0]) ==> IsDigit(c);
    if |o| > 1 {
      DottedChars(o[1..]);
    }
  }

  /* ---------- What other texts denote ---------- */

  // Four decimal numbers between dots are the bytes of an IPv4 address, from left to right.
  lemma DottedMeaning(a: Octet, b: Octet, c: Octet, d: Octet)
    ensures ParseIP(Decimal(a) + ['.'] + Decimal(b) + ['.'] + Decimal(c) + ['.'] + Decimal(d)) == Some([a, b, c, d])
  {
    hide ParseIP, FormatFields, Decimal;
    ParseFormat([a, b, c, d]);
    FormatIsFields([a, b, c, d]);
    FourFields(a, b, c, d);
  }

  lemma FormatIsFields(o: IPv4)
    ensures Format(o) == FormatFields(o)
  {
    hide FormatFields;
  }

  // Hexadecimal groups between colons, with zeros for "::", are an IPv6 address; its number is what the groups spell.
  lemma GroupsMeaning(left: seq<Group>, right: seq<Group>, n: nat)
    requires n > 0 && |left| + n + |right| == 8
    ensures var s := Side(left) + "::" + Side(right);
            ParseAddr(s).Some? && Num(ParseAddr(s).value) == GroupsNum(left + Zeros(n) + right)
  {
    var s := Side(left) + "::" + Side(right);
    ParseAroundDouble(left, right, n);
    assert s[|Side(left)|] == ':';
    BytesOfGroups(left + Zeros(n) + right);
  }

  lemma EightGroupsMeaning(gs: seq<Group>)
    requires |gs| == 8
    ensures ParseAddr(Join(gs)).Some? && Num(ParseAddr(Join(gs)).value) == GroupsNum(gs)
  {
    ParseAll(gs);
    JoinHasColon(gs);
    BytesOfGroups(gs);
  }

  // Capitals make no difference.
  lemma CapitalsParseAlike(s: string)
    ensures ParseAddr(ToLower(s)) == ParseAddr(s) && ParseIP(ToLower(s)) == ParseIP(s)
  {
    hide ParseV4, ParseV6, ToLower;
    LowerIndex(s, ':');
    assert ':' in s <==> IndexOf(s, ':') < |s|;
    assert ':' in ToLower(s) <==> IndexOf(ToLower(s), ':') < |ToLower(s)|;
    LowerV4(s);
    LowerV6(s);
  }

  // ::ffff:a.b.c.d is a.b.c.d in disguise, for addresses and for blocks whose prefix covers the disguise.
  lemma DisguisedText(o: IPv4)
    ensures ParseAddr("::ffff:" + FormatFields(o)) == Some([0, 0, 0, 0, 0, 0, 0, 0, 0, 0, 255, 255] + o)
    ensures ParseIP("::ffff:" + FormatFields(o)) == Some(o)
  {
    hide FormatFields, ParseGroup, ParseGroups, ParseV4, ParseV6;
    var tail, groups := "ffff" + [':'] + FormatFields(o), [0xffff, Pair(o[0], o[1]), Pair(o[2], o[3])];
    var s := "::" + tail;
    GroupOfFs();
    DottedTail(o);
    GroupThen("ffff", FormatFields(o), true);
    assert [0xffff] + [Pair(o[0], o[1]), Pair(o[2], o[3])] == groups;
    DoubleFirst(tail, groups);
    assert s == "::ffff:" + FormatFields(o) && s[0] == ':';
    PairBytes(o[0], o[1]);
    PairBytes(o[2], o[3]);
    assert ToBytes(Zeros(5) + groups) == [0, 0, 0, 0, 0, 0, 0, 0, 0, 0, 255, 255] + o;
  }

  lemma GroupOfFs()
    ensures ParseGroup("ffff") == Some(0xffff) && ':' !in "ffff"
  {
    assert ['f'] + "fff" == "ffff" && ['f'] + "ff" == "fff" && ['f'] + "f" == "ff" && ['f'] + "" == "f";
    HexIsPositional('f', "");
    HexIsPositional('f', "f");
    HexIsPositional('f', "ff");
    HexIsPositional('f', "fff");
    assert Power16(0) == 1 && Power16(1) == 16 && Power16(2) == 256 && Power16(3) == 4096;
  }

  /* ---------- CIDR blocks ---------- */

  // net.ParseCIDR: the text before the first '/' is the address, after it a decimal prefix length.
  function ParsePrefix(s: string): (r: Option<(seq<Octet>, nat)>)
    ensures r.Some? ==> (|r.value.0| == 4 || |r.value.0| == 16) && r.value.1 <= 8 * |r.value.0|
  {
    var slash := IndexOf(s, '/');
    if slash == |s| then None else
      var ip, bits := ParseAddr(s[..slash]), s[slash + 1..];
      if ip.Some? && bits != [] && AllDigits(bits) && Value(bits) <= 8 * |ip.value|
      then Some((ip.value, Value(bits)))
      else None
  }

  // The network number and mask that Contains works on: a network number in IPv4 disguise counts as IPv4.
  function MakeBlock(ip: seq<Octet>, ones: nat): Block
    requires |ip| == 4 || |ip| == 16
  {
    var mask := CIDRMask(ones, |ip|);
    var net := Masked(ip, mask);
    if Mapped(net) then Block(net[12..], mask[12..]) else Block(net, mask)
  }

  function ParseCIDR(s: string): (r: Option<Block>)
    ensures r.Some? <==> ParsePrefix(s).Some?
  {
    var p := ParsePrefix(s);
    if p.Some? then Some(MakeBlock(p.value.0, p.value.1)) else None
  }

  // Address, slash and prefix length, as they are written.
  function CIDRText(ip: IP, ones: nat): string {
    Format(ip) + ['/'] + Decimal(ones)
  }

  // A printed address with a prefix length is read back.
  lemma ParsePrinted(ip: IP, ones: nat)
    requires ones <= 8 * |ip|
    ensures ParsePrefix(CIDRText(ip, ones)) == Some((ip, ones)) && '/' in CIDRText(ip, ones)
  {
    hide ParseAddr, Format;
    var s := CIDRText(ip, ones);
    PrintedAddr(ip);
    IndexOfUnique(Format(ip), '/', Decimal(ones));
    assert s[|Format(ip)|] == '/';
    assert s[..|Format(ip)|] == Format(ip) && s[|Format(ip)| + 1..] == Decimal(ones);
    ValueOfDecimal(ones);
  }

  lemma PrintedAddr(ip: IP)
    ensures ParseAddr(Format(ip)) == Some(ip) && '/' !in Format(ip)
  {
    if |ip| == 4 {
      ParseFormatFields(ip);
      FormatHasNoColon(ip);
      DottedChars(ip);
    } else {
      ParseFormatV6(ToGroups(ip));
      FormatV6Shape(ToGroups(ip));
      BytesRoundTrip(ip);
    }
  }

  predicate Contains(b: Block, x: IP) {
    && |x| == |b.ip| == |b.mask|
    && forall i :: 0 <= i < |x| ==> And(b.ip[i], b.mask[i]) == And(x[i], b.mask[i])
  }

  // IPNet.Contains: addresses of another length are outside, then the byte loop.
  method ContainsLoop(b: Block, x: IP) returns (r: bool)
    requires |b.ip| == |b.mask|
    ensures r == Contains(b, x)
  {
    if |b.ip| != |x| {
      return false;
    }
    for i := 0 to |x|
      invariant forall j :: 0 <= j < i ==> And(b.ip[j], b.mask[j]) == And(x[j], b.mask[j])
    {
      if And(b.ip[i], b.mask[i]) != And(x[i], b.mask[i]) {
        return false;
      }
    }
    return true;
  }

  /* ---------- Numeric meaning ---------- */

  // A network number with k leading ones in its mask.
  ghost predicate Net(b: Block, k: nat) {
    k <= 8 * |b.ip| && b.mask == CIDRMask(k, |b.ip|) && Masked(b.ip, b.mask) == b.ip
  }

  lemma MaskTwice(x: seq<Octet>, mask: seq<Octet>)
    requires |x| == |mask|
    ensures Masked(Masked(x, mask), mask) == Masked(x, mask)
  {
    forall i | 0 <= i < |x|
      ensures And(And(x[i], mask[i]), mask[i]) == And(x[i], mask[i])
    {
      AndIdempotent(x[i], mask[i]);
    }
  }

  lemma FullMask(k: nat)
    requires k <= 8 && MaskByte(k) == 255
    ensures k == 8
  {
    Pow2Of8();
    assert k == 0 || k == 1 || k == 2 || k == 3 || k == 4 || k == 5 || k == 6 || k == 7 || k == 8;
  }

  // A network number in IPv4 disguise has a prefix that covers the disguise.
  lemma MappedNet(raw: seq<Octet>, ones: nat)
    requires |raw| == 16 && Mapped(Masked(raw, CIDRMask(ones, 16)))
    ensures ones >= 96
  {
    var mask := CIDRMask(ones, 16);
    assert Masked(raw, mask)[11] == And(raw[11], mask[11]);
    FullMask(OnesInByte(ones, 11));
  }

  lemma MaskTail(raw: seq<Octet>, ones: nat)
    requires |raw| == 16 && 96 <= ones
    ensures CIDRMask(ones, 16)[12..] == CIDRMask(ones - 96, 4)
    ensures Masked(raw, CIDRMask(ones, 16))[12..] == Masked(raw[12..], CIDRMask(ones - 96, 4))
  {
  }

  // Every block ParseCIDR makes is such a network; as many bits are left free as the text leaves.
  lemma MadeIsNet(raw: seq<Octet>, ones: nat, b: Block) returns (k: nat)
    requires (|raw| == 4 || |raw| == 16) && ones <= 8 * |raw| && b == MakeBlock(raw, ones)
    ensures Net(b, k) && 8 * |b.ip| - k == 8 * |raw| - ones
  {
    MaskTwice(raw, CIDRMask(ones, |raw|));
    if Mapped(Masked(raw, CIDRMask(ones, |raw|))) {
      MappedNet(raw, ones);
      MaskTail(raw, ones);
      MaskTwice(raw[12..], CIDRMask(ones - 96, 4));
      k := ones - 96;
    } else {
      k := ones;
    }
  }

  lemma ContainsIsMasked(b: Block, k: nat, x: IP)
    requires Net(b, k)
    ensures Contains(b, x) <==> |x| == |b.ip| && Masked(x, b.mask) == b.ip
  {
    assert forall i :: 0 <= i < |b.ip| ==> And(b.ip[i], b.mask[i]) == Masked(b.ip, b.mask)[i];
    if Contains(b, x) {
      assert forall i :: 0 <= i < |x| ==> Masked(x, b.mask)[i] == b.ip[i];
    }
  }

  lemma SameNet(base: seq<Octet>, x: seq<Octet>, mask: seq<Octet>, size: nat)
    requires |base| == |x| == |mask| && size > 0 && Num(base) % size == 0
    requires Num(Masked(x, mask)) == Num(x) - Num(x) % size
    ensures Masked(x, mask) == base <==> Num(base) <= Num(x) < Num(base) + size
  {
    AlignDown(Num(x), size);
    if Num(base) <= Num(x) < Num(base) + size {
      AlignedBase(Num(base), Num(x), size);
      NumInjective(Masked(x, mask), base);
    }
  }

  // The block is the aligned interval of `size` addresses of its length that starts at its network number.
  ghost predicate IsInterval(b: Block, size: nat) {
    && size > 0 && Num(b.ip) % size == 0
    && forall x: IP :: Contains(b, x) <==> |x| == |b.ip| && Num(b.ip) <= Num(x) < Num(b.ip) + size
  }

  lemma NetContains(b: Block, k: nat, size: nat, x: IP)
    requires Net(b, k) && size == Pow2(8 * |b.ip| - k) && Num(b.ip) % size == 0
    ensures Contains(b, x) <==> |x| == |b.ip| && Num(b.ip) <= Num(x) < Num(b.ip) + size
  {
    hide Contains, Masked, Num, And;
    ContainsIsMasked(b, k, x);
    if |x| == |b.ip| {
      MaskedIsAligned(x, k);
      SameNet(b.ip, x, b.mask, size);
    }
  }

  lemma NetIsInterval(b: Block, k: nat, size: nat)
    requires Net(b, k) && size == Pow2(8 * |b.ip| - k)
    ensures IsInterval(b, size)
  {
    MaskedIsAligned(b.ip, k);
    AlignDown(Num(b.ip), size);
    forall x: IP
      ensures Contains(b, x) <==> |x| == |b.ip| && Num(b.ip) <= Num(x) < Num(b.ip) + size
    {
      NetContains(b, k, size, x);
    }
  }

  // The addresses of a block are exactly one aligned interval of numbers (section 3.1 of RFC 4632), of the size its
  // prefix length says.
  lemma ContainsIsInterval(ip: seq<Octet>, ones: nat, b: Block)
    requires (|ip| == 4 || |ip| == 16) && ones <= 8 * |ip| && b == MakeBlock(ip, ones)
    ensures IsInterval(b, Pow2(8 * |ip| - ones))
  {
    var k := MadeIsNet(ip, ones, b);
    NetIsInterval(b, k, Pow2(8 * |ip| - ones));
  }

  /* ---------- Which block a text denotes ---------- */

  // An address that is no IPv4 address in disguise: its block holds the addresses of its family with the same leading
  // bits.
  lemma PlainBlock(raw: IP, ones: nat, x: IP)
    requires ones <= 8 * |raw|
    ensures Contains(MakeBlock(raw, ones), x) <==> SameLeading(raw, x, ones)
  {
    hide Contains, And, CIDRMask, SameLeading;
    var mask := CIDRMask(ones, |raw|);
    var net := Masked(raw, mask);
    MaskTwice(raw, mask);
    StaysPlain(raw, ones);
    ContainsIsMasked(Block(net, mask), ones, x);
    if |x| == |raw| {
      SameMasked(raw, x, ones);
    } else {
      assert !SameLeading(raw, x, ones) by {
        LeadingLengths(raw, x, ones);
      }
    }
  }

  lemma LeadingLengths(x: seq<Octet>, y: seq<Octet>, ones: nat)
    requires |x| != |y|
    ensures !SameLeading(x, y, ones)
  {
  }

  // No masked address is in disguise unless the address was.
  lemma StaysPlain(raw: seq<Octet>, ones: nat)
    requires |raw| == 4 || |raw| == 16
    ensures Mapped(Masked(raw, CIDRMask(ones, |raw|))) <==> Mapped(raw) && ones >= 96
  {
    Pow2Of8();
    var mask := CIDRMask(ones, |raw|);
    var net := Masked(raw, mask);
    if |raw| == 16 && ones >= 96 {
      forall i | 0 <= i < 12
        ensures net[i] == raw[i]
      {
        MaskOneByte(raw[i], 8);
        assert net[i] == And(raw[i], mask[i]) && mask[i] == MaskByte(8);
      }
    } else if Mapped(net) {
      MappedNet(raw, ones);
    }
  }

  // Disguised, with a prefix that covers the disguise: the block of the IPv4 address.
  lemma DisguisedBlock(raw: seq<Octet>, ones: nat)
    requires Mapped(raw) && 96 <= ones <= 128
    ensures MakeBlock(raw, ones) == MakeBlock(raw[12..], ones - 96)
  {
    StaysPlain(raw, ones);
    MaskTail(raw, ones);
  }

  // Disguised, with a shorter prefix: only addresses that are IPv6 in earnest.
  lemma ShortDisguise(raw: seq<Octet>, ones: nat, x: IP)
    requires Mapped(raw) && ones < 96
    ensures Contains(MakeBlock(raw, ones), x) <==> SameLeading(raw, x, ones)
  {
    hide Contains, And, CIDRMask, SameLeading;
    var mask := CIDRMask(ones, 16);
    MaskTwice(raw, mask);
    StaysPlain(raw, ones);
    ContainsIsMasked(Block(Masked(raw, mask), mask), ones, x);
    if |x| == 16 {
      SameMasked(raw, x, ones);
    } else {
      LeadingLengths(raw, x, ones);
    }
  }

  // x agrees with the address in a text on as many leading bits as the prefix length says. ::ffff:a.b.c.d counts as
  // a.b.c.d if the prefix covers the disguise.
  ghost predicate Leads(raw: seq<Octet>, ones: nat, x: IP) {
    if Mapped(raw) && ones >= 96 then SameLeading(raw[12..], x, ones - 96) else SameLeading(raw, x, ones)
  }

  // Main result on blocks: the block of a text holds exactly those addresses.
  lemma BlockOfText(s: string, raw: seq<Octet>, ones: nat, x: IP)
    requires ParsePrefix(s) == Some((raw, ones))
    ensures ParseCIDR(s).Some?
    ensures Contains(ParseCIDR(s).value, x) <==> Leads(raw, ones, x)
  {
    hide Contains, MakeBlock, SameLeading, ParsePrefix;
    if Mapped(raw) {
      if ones >= 96 {
        DisguisedBlock(raw, ones);
        PlainBlock(raw[12..], ones - 96, x);
      } else {
        ShortDisguise(raw, ones, x);
      }
    } else {
      PlainBlock(raw, ones, x);
    }
  }

  lemma NotMapped(ip: IP)
    ensures !Mapped(ip)
  {
  }

  lemma PrintedBlock(ip: IP, ones: nat, x: IP)
    requires ones <= 8 * |ip|
    ensures ParseCIDR(CIDRText(ip, ones)).Some?
    ensures Contains(ParseCIDR(CIDRText(ip, ones)).value, x) <==>
              |x| == |ip| && Num(x) / Pow2(8 * |ip| - ones) == Num(ip) / Pow2(8 * |ip| - ones)
    ensures Contains(ParseCIDR(CIDRText(ip, ones)).value, ip)
  {
    hide ParseCIDR, ParsePrefix, CIDRText, Contains, Num, Pow2, Mapped;
    ParsePrinted(ip, ones);
    NotMapped(ip);
    BlockOfText(CIDRText(ip, ones), ip, ones, x);
    BlockOfText(CIDRText(ip, ones), ip, ones, ip);
  }

  // Two blocks share an address exactly when their addresses agree on as many leading bits as the shorter prefix has.
  lemma BlocksShareExactlyWhen(s: string, a: IP, m: nat, t: string, b: IP, n: nat)
    requires ParsePrefix(s) == Some((a, m)) && ParsePrefix(t) == Some((b, n))
    ensures TestsOverlap(ParseCIDR(s).value, ParseCIDR(t).value) <==> SameLeading(a, b, if m <= n then m else n)
  {
    hide Contains, MakeBlock, SameLeading, ParsePrefix, TestsOverlap, IsCIDR;
    var c, d := ParseCIDR(s).value, ParseCIDR(t).value;
    ParsedIsCIDR(s);
    ParsedIsCIDR(t);
    OverlapTestsAreExact(c, d);
    forall x: IP
      ensures Contains(c, x) <==> SameLeading(a, x, m)
      ensures Contains(d, x) <==> SameLeading(b, x, n)
    {
      BlockOfText(s, a, m, x);
      BlockOfText(t, b, n, x);
    }
    if x: IP :| Contains(c, x) && Contains(d, x) {
      SharedLeading(a, m, b, n, x);
    }
    if SameLeading(a, b, if m <= n then m else n) {
      LeadingReflexive(a, m);
      LeadingReflexive(b, n);
      LeadingSymmetric(a, b, if m <= n then m else n);
      assert if m <= n then Contains(c, b) && Contains(d, b) else Contains(c, a) && Contains(d, a);
    }
  }

  lemma SharedLeading(a: seq<Octet>, m: nat, b: seq<Octet>, n: nat, x: seq<Octet>)
    requires SameLeading(a, x, m) && SameLeading(b, x, n)
    ensures SameLeading(a, b, if m <= n then m else n)
  {
    hide Num, Pow2;
    var k := if m <= n then m else n;
    FewerLeading(a, x, m, k);
    FewerLeading(b, x, n, k);
  }

  lemma LeadingReflexive(x: seq<Octet>, ones: nat)
    requires ones <= 8 * |x|
    ensures SameLeading(x, x, ones)
  {
  }

  lemma LeadingSymmetric(x: seq<Octet>, y: seq<Octet>, ones: nat)
    ensures SameLeading(x, y, ones) <==> SameLeading(y, x, ones)
  {
  }

  lemma DisguisedBlockText(o: IPv4, ones: nat)
    requires 96 <= ones <= 128
    ensures ParseCIDR("::ffff:" + FormatFields(o) + ['/'] + Decimal(ones)) == ParseCIDR(CIDRText(o, ones - 96))
    ensures ParseCIDR(CIDRText(o, ones - 96)).Some?
  {
    hide ParseAddr, Mapped, FormatFields, MakeBlock;
    var addr, bits := "::ffff:" + FormatFields(o), Decimal(ones);
    var raw := [0, 0, 0, 0, 0, 0, 0, 0, 0, 0, 255, 255] + o;
    DisguisedText(o);
    DisguiseIsMapped(o);
    PrintedAddr(o);
    NoSlash(o);
    IndexOfUnique(addr, '/', bits);
    assert (addr + ['/'] + bits)[..|addr|] == addr && (addr + ['/'] + bits)[|addr| + 1..] == bits;
    ValueOfDecimal(ones);
    ParsePrinted(o, ones - 96);
    DisguisedBlock(raw, ones);
  }

  lemma DisguiseIsMapped(o: IPv4)
    ensures Mapped([0, 0, 0, 0, 0, 0, 0, 0, 0, 0, 255, 255] + o)
    ensures ([0, 0, 0, 0, 0, 0, 0, 0, 0, 0, 255, 255] + o)[12..] == o
  {
  }

  lemma NoSlash(o: IPv4)
    ensures '/' !in "::ffff:" + FormatFields(o)
  {
    DottedChars(o);
  }

  /* ---------- Overlap and convexity ---------- */

  ghost predicate Intersect(b: Block, c: Block) {
    exists x: IP :: Contains(b, x) && Contains(c, x)
  }

  // The two membership tests of validateSubnetOverlaps.
  predicate TestsOverlap(b: Block, c: Block) {
    Contains(b, c.ip) || Contains(c, b.ip)
  }

  lemma SizesNest(big: nat, small: nat)
    requires small <= big
    ensures Pow2(big) % Pow2(small) == 0
  {
    Pow2Add(big - small, small);
    ModUnique(Pow2(big), Pow2(big - small), Pow2(small), 0);
  }

  // A block that is an aligned interval of a power of two, as all that ParseCIDR returns are.
  ghost predicate IsCIDR(b: Block) {
    exists n :: IsPowerInterval(b, n)
  }

  ghost predicate IsPowerInterval(b: Block, n: nat) {
    IsInterval(b, Pow2(n))
  }

  lemma MadeIsCIDR(ip: seq<Octet>, ones: nat, b: Block)
    requires (|ip| == 4 || |ip| == 16) && ones <= 8 * |ip| && b == MakeBlock(ip, ones)
    ensures IsCIDR(b)
  {
    ContainsIsInterval(ip, ones, b);
    assert IsPowerInterval(b, 8 * |ip| - ones);
  }

  lemma ParsedIsCIDR(s: string)
    requires ParseCIDR(s).Some?
    ensures IsCIDR(ParseCIDR(s).value)
  {
    MadeIsCIDR(ParsePrefix(s).value.0, ParsePrefix(s).value.1, ParseCIDR(s).value);
  }

  lemma LargerContains(b: Block, big: nat, c: Block, small: nat, x: IP)
    requires IsInterval(b, big) && IsInterval(c, small) && big % small == 0
    requires Contains(b, x) && Contains(c, x)
    ensures Contains(b, c.ip)
  {
    NestedBase(Num(b.ip), big, Num(c.ip), small, Num(x));
  }

  lemma IntervalsOverlap(b: Block, big: nat, c: Block, small: nat)
    requires IsInterval(b, big) && IsInterval(c, small) && big % small == 0
    ensures TestsOverlap(b, c) <==> Intersect(b, c)
  {
    assert Contains(b, b.ip) && Contains(c, c.ip);
    if Intersect(b, c) {
      var x: IP :| Contains(b, x) && Contains(c, x);
      LargerContains(b, big, c, small, x);
    }
  }

  lemma OverlapIsSymmetric(b: Block, c: Block)
    ensures TestsOverlap(b, c) == TestsOverlap(c, b) && Intersect(b, c) == Intersect(c, b)
  {
  }

  lemma PowersOverlap(b: Block, m: nat, c: Block, n: nat)
    requires IsInterval(b, Pow2(m)) && IsInterval(c, Pow2(n))
    ensures TestsOverlap(b, c) <==> Intersect(b, c)
  {
    if n <= m {
      SizesNest(m, n);
      IntervalsOverlap(b, Pow2(m), c, Pow2(n));
    } else {
      SizesNest(n, m);
      IntervalsOverlap(c, Pow2(n), b, Pow2(m));
      OverlapIsSymmetric(b, c);
    }
  }

  // Two blocks share an address exactly when one contains the other's network address.
  lemma OverlapTestsAreExact(b: Block, c: Block)
    requires IsCIDR(b) && IsCIDR(c)
    ensures TestsOverlap(b, c) <==> Intersect(b, c)
  {
    var m :| IsPowerInterval(b, m);
    var n :| IsPowerInterval(c, n);
    PowersOverlap(b, m, c, n);
  }

  // A block has no gaps: with two addresses it contains every address of their kind numerically between them.
  lemma BlockIsConvex(b: Block, lo: IP, hi: IP, x: IP)
    requires IsCIDR(b) && Contains(b, lo) && Contains(b, hi)
    requires |x| == |lo| && Num(lo) <= Num(x) <= Num(hi)
    ensures Contains(b, x)
  {
    var n :| IsPowerInterval(b, n);
  }
}
