/**
 The text of addresses as Go's `netip` reads and prints it: dotted IPv4, and IPv6 in hexadecimal groups with `::` for
 the longest run of zero groups (section 4 of RFC 5952).
 */
module IPText {
  import opened Text
  import opened Bytes

  /* ---------- Dotted addresses ---------- */

  function ParseOctet(s: string): (r: Option<Octet>) {
    if Canonical(s) && |s| <= 3 && Value(s) <= 255 then Some(Value(s)) else None
  }

  // `fields` dotted octets, read left to right.
  function ParseFields(s: string, fields: nat): (r: Option<seq<Octet>>)
    requires fields > 0
    ensures r.Some? ==> |r.value| == fields
    decreases fields
  {
    var dot := IndexOf(s, '.');
    if fields == 1 then
      var o := ParseOctet(s);
      if o.Some? then Some([o.value]) else None
    else if dot == |s| then None
    else
      var o := ParseOctet(s[..dot]);
      var rest := ParseFields(s[dot + 1..], fields - 1);
      if o.Some? && rest.Some? then Some([o.value] + rest.value) else None
  }

  function ParseV4(s: string): (r: Option<seq<Octet>>)
    ensures r.Some? ==> |r.value| == 4
  {
    ParseFields(s, 4)
  }

  function FormatFields(o: seq<Octet>): string
    requires |o| > 0
  {
    if |o| == 1 then Decimal(o[0]) else Decimal(o[0]) + ['.'] + FormatFields(o[1..])
  }

  lemma DecimalLength(n: nat)
    requires n < 1000
    ensures |Decimal(n)| <= 3
  {
    if n >= 10 {
      var tens := n / 10;
      assert |Decimal(n)| == |Decimal(tens)| + 1;
      if tens >= 10 {
        assert |Decimal(tens)| == |Decimal(tens / 10)| + 1;
        assert tens / 10 < 10;
      }
    }
  }

  lemma OctetRoundTrip(o: Octet)
    ensures ParseOctet(Decimal(o)) == Some(o)
  {
    var n: nat := o;
    ValueOfDecimal(n);
    DecimalLength(n);
  }

  lemma OctetTextRoundTrip(s: string)
    requires ParseOctet(s).Some?
    ensures Decimal(ParseOctet(s).value) == s
  {
    DecimalOfValue(s);
  }

  lemma NoDots(s: string)
    requires AllDigits(s)
    ensures '.' !in s
  {
  }

  lemma ParseStep(head: string, tail: string, fields: nat)
    requires fields > 1 && ParseOctet(head).Some? && ParseFields(tail, fields - 1).Some?
    ensures ParseFields(head + ['.'] + tail, fields)
         == Some([ParseOctet(head).value] + ParseFields(tail, fields - 1).value)
  {
    var s := head + ['.'] + tail;
    NoDots(head);
    IndexOfUnique(head, '.', tail);
    assert s[..|head|] == head && s[|head| + 1..] == tail;
  }

  lemma FormatStep(o: Octet, rest: seq<Octet>)
    requires |rest| > 0
    ensures FormatFields([o] + rest) == Decimal(o) + ['.'] + FormatFields(rest)
  {
    assert ([o] + rest)[1..] == rest;
  }

  lemma FormatLast(o: Octet)
    ensures FormatFields([o]) == Decimal(o)
  {
  }

  lemma FourFields(a: Octet, b: Octet, c: Octet, d: Octet)
    ensures FormatFields([a, b, c, d])
         == Decimal(a) + ['.'] + Decimal(b) + ['.'] + Decimal(c) + ['.'] + Decimal(d)
  {
    hide FormatFields, Decimal;
    var s, t, u, v := Decimal(a) + ['.'], Decimal(b) + ['.'], Decimal(c) + ['.'], Decimal(d);
    FormatStep(a, [b, c, d]);
    FormatStep(b, [c, d]);
    FormatStep(c, [d]);
    FormatLast(d);
    assert [a] + [b, c, d] == [a, b, c, d] && [b] + [c, d] == [b, c, d] && [c] + [d] == [c, d];
    TextAssociates(s, t, u + v);
    TextAssociates(s + t, u, v);
    TextAssociates(s, Decimal(b), ['.']);
    TextAssociates(s + t, Decimal(c), ['.']);
  }

  lemma TextAssociates(a: string, b: string, c: string)
    ensures a + b + c == a + (b + c)
  {
  }

  lemma ParseLast(o: Octet)
    ensures ParseFields(FormatFields([o]), 1) == Some([o])
  {
    OctetRoundTrip(o);
  }

  lemma {:induction false} ParseFormatFields(o: seq<Octet>)
    requires |o| > 0
    ensures ParseFields(FormatFields(o), |o|) == Some(o)
  {
    var first, rest := o[0], o[1..];
    assert o == [first] + rest;
    if rest == [] {
      assert o == [first];
      ParseLast(first);
    } else {
      ParseFormatFields(rest);
      OctetRoundTrip(first);
      FormatStep(first, rest);
      ParseStep(Decimal(first), FormatFields(rest), |o|);
    }
  }

  lemma {:induction false} FormatParseFields(s: string, fields: nat)
    requires fields > 0 && ParseFields(s, fields).Some?
    ensures FormatFields(ParseFields(s, fields).value) == s
    decreases fields
  {
    var dot := IndexOf(s, '.');
    if fields == 1 {
      OctetTextRoundTrip(s);
    } else {
      var head, tail := s[..dot], s[dot + 1..];
      OctetTextRoundTrip(head);
      FormatParseFields(tail, fields - 1);
      FormatStep(ParseOctet(head).value, ParseFields(tail, fields - 1).value);
      assert s == head + ['.'] + tail;
    }
  }

  lemma {:induction false} FormatHasNoSpace(o: seq<Octet>)
    requires |o| > 0
    ensures ' ' !in FormatFields(o)
  {
    if |o| > 1 {
      FormatHasNoSpace(o[1..]);
    }
  }

  lemma {:induction false} FormatHasNoColon(o: seq<Octet>)
    requires |o| > 0
    ensures ':' !in FormatFields(o)
  {
    if |o| > 1 {
      FormatHasNoColon(o[1..]);
    }
  }

  /* ---------- Groups ---------- */

  type Group = n: nat | n < 0x1_0000

  predicate IsHex(c: char) {
    '0' <= c <= '9' || 'a' <= c <= 'f' || 'A' <= c <= 'F'
  }

  function HexDigit(c: char): (d: nat)
    requires IsHex(c)
    ensures d < 16
  {
    if c <= '9' then c as int - '0' as int else if c <= 'F' then c as int - 'A' as int + 10
    else c as int - 'a' as int + 10
  }

  predicate AllHex(s: string) {
    forall i :: 0 <= i < |s| ==> IsHex(s[i])
  }

  function HexValue(s: string): nat
    requires AllHex(s)
  {
    if s == [] then 0 else 16 * HexValue(s[..|s| - 1]) + HexDigit(s[|s| - 1])
  }

  // `%x`
  function Hex(n: nat): (s: string)
    ensures |s| > 0 && AllHex(s)
  {
    if n < 10 then ['0' + n as char] else if n < 16 then ['a' + (n - 10) as char]
    else Hex(n / 16) + Hex(n % 16)
  }

  lemma {:induction false} HexRoundTrip(n: nat)
    ensures HexValue(Hex(n)) == n
    ensures n < 16 ==> |Hex(n)| == 1
  {
    if n >= 16 {
      HexRoundTrip(n / 16);
      HexRoundTrip(n % 16);
      assert Hex(n)[..|Hex(n)| - 1] == Hex(n / 16);
    } else {
      assert Hex(n)[..0] == [];
    }
  }

  lemma GroupLength(n: Group)
    ensures |Hex(n)| <= 4
  {
    HexDigits(n, 4);
  }

  lemma {:induction false} HexDigits(n: nat, k: nat)
    requires k > 0 && n < Power16(k)
    ensures |Hex(n)| <= k
  {
    if n >= 16 {
      HexDigits(n / 16, k - 1);
      HexRoundTrip(n % 16);
    }
  }

  function Power16(k: nat): nat {
    if k == 0 then 1 else 16 * Power16(k - 1)
  }

  function Pair(hi: nat, lo: nat): nat {
    256 * hi + lo
  }

  predicate IsLowerHex(c: char) {
    '0' <= c <= '9' || 'a' <= c <= 'f'
  }

  lemma {:induction false} HexIsLower(n: nat)
    ensures forall c :: c in Hex(n) ==> IsLowerHex(c)
  {
    if n >= 16 {
      HexIsLower(n / 16);
      HexIsLower(n % 16);
    }
  }

  function ParseGroup(s: string): Option<Group> {
    if 1 <= |s| <= 4 && AllHex(s) && HexValue(s) < 0x1_0000 then Some(HexValue(s)) else None
  }

  // Groups between colons; where `dotted` allows it the last ones may be written as an IPv4 address.
  function ParseGroups(s: string, dotted: bool): (r: Option<seq<Group>>)
    ensures r.Some? ==> |r.value| > 0
    decreases |s|
  {
    var c := IndexOf(s, ':');
    if c < |s| then
      var first, rest := ParseGroup(s[..c]), ParseGroups(s[c + 1..], dotted);
      if first.Some? && rest.Some? then Some([first.value] + rest.value) else None
    else if dotted && ParseV4(s).Some? then
      var o := ParseV4(s).value;
      Some([Pair(o[0], o[1]), Pair(o[2], o[3])])
    else
      var g := ParseGroup(s);
      if g.Some? then Some([g.value]) else None
  }

  function Join(gs: seq<Group>): (s: string)
    requires gs != []
    ensures |s| > 0
  {
    if |gs| == 1 then Hex(gs[0]) else Hex(gs[0]) + [':'] + Join(gs[1..])
  }

  lemma HexHasNo(n: nat, c: char)
    requires !IsHex(c)
    ensures c !in Hex(n)
  {
  }

  lemma GroupRoundTrip(n: Group)
    ensures ParseGroup(Hex(n)) == Some(n)
  {
    HexRoundTrip(n);
    GroupLength(n);
  }

  // A text without dots is no dotted address.
  lemma NoDotNoV4(s: string)
    requires '.' !in s
    ensures ParseV4(s) == None
  {
    assert IndexOf(s, '.') == |s|;
  }

  lemma LastGroup(s: string, dotted: bool)
    requires IndexOf(s, ':') == |s|
    ensures ParseGroups(s, dotted)
         == if dotted && ParseV4(s).Some? then
              Some([Pair(ParseV4(s).value[0], ParseV4(s).value[1]), Pair(ParseV4(s).value[2], ParseV4(s).value[3])])
            else if ParseGroup(s).Some? then Some([ParseGroup(s).value]) else None
  {
    hide ParseGroup, ParseV4;
  }

  lemma FirstGroup(s: string, dotted: bool)
    requires IndexOf(s, ':') < |s|
    ensures var c := IndexOf(s, ':');
            && ParseGroups(s, dotted)
            == if ParseGroup(s[..c]).Some? && ParseGroups(s[c + 1..], dotted).Some?
               then Some([ParseGroup(s[..c]).value] + ParseGroups(s[c + 1..], dotted).value) else None
  {
    hide ParseGroup, ParseV4;
  }

  // A group and a colon before other groups.
  lemma GroupThen(head: string, tail: string, dotted: bool)
    requires ParseGroup(head).Some?
    ensures ParseGroups(head + [':'] + tail, dotted)
         == if ParseGroups(tail, dotted).Some? then Some([ParseGroup(head).value] + ParseGroups(tail, dotted).value)
            else None
  {
    var s := head + [':'] + tail;
    IndexOfUnique(head, ':', tail);
    FirstGroup(s, dotted);
    assert s[..|head|] == head && s[|head| + 1..] == tail;
  }

  lemma ParseGroupsStep(g: Group, tail: string, dotted: bool)
    ensures ParseGroups(Hex(g) + [':'] + tail, dotted)
         == if ParseGroups(tail, dotted).Some? then Some([g] + ParseGroups(tail, dotted).value) else None
  {
    GroupRoundTrip(g);
    GroupThen(Hex(g), tail, dotted);
  }

  lemma ParseOneGroup(g: Group, dotted: bool)
    ensures ParseGroups(Hex(g), dotted) == Some([g])
  {
    HexHasNo(g, ':');
    HexHasNo(g, '.');
    GroupRoundTrip(g);
    NoDotNoV4(Hex(g));
    assert IndexOf(Hex(g), ':') == |Hex(g)|;
  }

  lemma {:induction false} ParseJoin(gs: seq<Group>, dotted: bool)
    requires gs != []
    ensures ParseGroups(Join(gs), dotted) == Some(gs)
    decreases |gs|
  {
    if |gs| == 1 {
      ParseOneGroup(gs[0], dotted);
      assert gs == [gs[0]];
    } else {
      ParseJoin(gs[1..], dotted);
      ParseGroupsStep(gs[0], Join(gs[1..]), dotted);
      assert gs == [gs[0]] + gs[1..];
    }
  }

  /* ---------- The double colon ---------- */

  predicate DoubleAt(s: string, i: nat) {
    i + 1 < |s| && s[i] == ':' && s[i + 1] == ':'
  }

  // Index of the first "::", or |s|.
  function DoubleColon(s: string): (i: nat)
    ensures i <= |s|
    ensures i < |s| ==> DoubleAt(s, i)
    ensures forall j :: 0 <= j < i ==> !DoubleAt(s, j)
  {
    if s == [] then 0
    else if DoubleAt(s, 0) then 0
    else
      var rest := DoubleColon(s[1..]);
      assert forall j :: 1 <= j < |s| ==> (DoubleAt(s, j) <==> DoubleAt(s[1..], j - 1));
      1 + rest
  }

  // Joined groups have single colons only, none of them at an end.
  lemma {:induction false} JoinShape(gs: seq<Group>)
    requires gs != []
    ensures forall j :: 0 <= j < |Join(gs)| ==> !DoubleAt(Join(gs), j)
    ensures Join(gs)[0] != ':' && Join(gs)[|Join(gs)| - 1] != ':'
    ensures forall c :: c in Join(gs) ==> c == ':' || IsLowerHex(c)
    decreases |gs|
  {
    var head := Hex(gs[0]);
    HexIsLower(gs[0]);
    assert forall c :: c in head ==> IsLowerHex(c);
    if |gs| > 1 {
      JoinShape(gs[1..]);
      var s, tail := Join(gs), Join(gs[1..]);
      forall j | 0 <= j < |s|
        ensures !DoubleAt(s, j)
      {
        if j > |head| {
          assert DoubleAt(s, j) <==> DoubleAt(tail, j - |head| - 1);
        }
      }
    }
  }

  function Side(gs: seq<Group>): string {
    if gs == [] then "" else Join(gs)
  }

  function ParseSide(s: string, dotted: bool): Option<seq<Group>> {
    if s == "" then Some([]) else ParseGroups(s, dotted)
  }

  function Zeros(n: nat): (z: seq<Group>)
    ensures |z| == n && forall i :: 0 <= i < n ==> z[i] == 0
  {
    seq(n, _ => 0)
  }

  // netip's IPv6 form: eight groups, or fewer with one "::" for at least one group of zeros. Zones are refused.
  function ParseV6(s: string): (r: Option<seq<Group>>)
    ensures r.Some? ==> |r.value| == 8
  {
    var d := DoubleColon(s);
    if d == |s| then
      var gs := ParseGroups(s, true);
      if gs.Some? && |gs.value| == 8 then gs else None
    else
      var left, right := ParseSide(s[..d], false), ParseSide(s[d + 2..], true);
      if left.Some? && right.Some? && |left.value| + |right.value| <= 7
      then Some(left.value + Zeros(8 - |left.value| - |right.value|) + right.value)
      else None
  }

  lemma FirstDouble(left: seq<Group>, right: seq<Group>)
    ensures DoubleColon(Side(left) + "::" + Side(right)) == |Side(left)|
  {
    var l, r := Side(left), Side(right);
    var s := l + "::" + r;
    if left != [] {
      JoinShape(left);
    }
    forall j | 0 <= j < |l|
      ensures !DoubleAt(s, j)
    {
      if j < |l| - 1 {
        assert DoubleAt(s, j) <==> DoubleAt(l, j);
      }
    }
    assert DoubleAt(s, |l|);
  }

  lemma SideRoundTrip(gs: seq<Group>, dotted: bool)
    ensures ParseSide(Side(gs), dotted) == Some(gs)
  {
    if gs != [] {
      ParseJoin(gs, dotted);
    }
  }

  lemma ParseAroundDouble(left: seq<Group>, right: seq<Group>, n: nat)
    requires |left| + n + |right| == 8 && n > 0
    ensures ParseV6(Side(left) + "::" + Side(right)) == Some(left + Zeros(n) + right)
  {
    var s := Side(left) + "::" + Side(right);
    FirstDouble(left, right);
    SplitAtDouble(Side(left), Side(right));
    SideRoundTrip(left, false);
    SideRoundTrip(right, true);
  }

  lemma SplitAtDouble(l: string, r: string)
    ensures (l + "::" + r)[..|l|] == l && (l + "::" + r)[|l| + 2..] == r
  {
  }

  lemma ParseAll(gs: seq<Group>)
    requires |gs| == 8
    ensures ParseV6(Join(gs)) == Some(gs)
  {
    JoinShape(gs);
    ParseJoin(gs, true);
  }

  lemma GroupHasNoSpace(s: string)
    requires ParseGroup(s).Some?
    ensures ' ' !in s
  {
  }

  lemma V4HasNoSpace(s: string)
    requires ParseV4(s).Some?
    ensures ' ' !in s
  {
    FormatParseFields(s, 4);
    FormatHasNoSpace(ParseV4(s).value);
  }

  lemma {:induction false} GroupsHaveNoSpace(s: string, dotted: bool)
    requires ParseGroups(s, dotted).Some?
    ensures ' ' !in s
    decreases |s|
  {
    hide ParseGroups, ParseGroup, ParseV4;
    var c := IndexOf(s, ':');
    if c < |s| {
      FirstGroup(s, dotted);
      GroupHasNoSpace(s[..c]);
      GroupsHaveNoSpace(s[c + 1..], dotted);
      assert s == s[..c] + [':'] + s[c + 1..];
    } else {
      LastGroup(s, dotted);
      if ParseV4(s).Some? {
        V4HasNoSpace(s);
      } else {
        GroupHasNoSpace(s);
      }
    }
  }

  lemma V6HasNoSpace(s: string)
    requires ParseV6(s).Some?
    ensures ' ' !in s
  {
    var d := DoubleColon(s);
    if d == |s| {
      GroupsHaveNoSpace(s, true);
    } else {
      SideHasNoSpace(s[..d], false);
      SideHasNoSpace(s[d + 2..], true);
      assert s == s[..d] + "::" + s[d + 2..];
    }
  }

  lemma SideHasNoSpace(s: string, dotted: bool)
    requires ParseSide(s, dotted).Some?
    ensures ' ' !in s
  {
    if s != "" {
      GroupsHaveNoSpace(s, dotted);
    }
  }

  /* ---------- Printing ---------- */

  // How many zero groups begin at i.
  function RunAt(gs: seq<Group>, i: nat): (n: nat)
    requires i <= |gs|
    ensures i + n <= |gs| && forall j :: i <= j < i + n ==> gs[j] == 0
    ensures i + n < |gs| ==> gs[i + n] != 0
    decreases |gs| - i
  {
    if i == |gs| || gs[i] != 0 then 0 else 1 + RunAt(gs, i + 1)
  }

  // The first longest run of at least two zero groups among those that begin before i: its start and its length.
  function LongestRun(gs: seq<Group>, i: nat): (r: (nat, nat))
    requires i <= |gs|
    ensures r.0 + r.1 <= |gs| && forall j :: r.0 <= j < r.0 + r.1 ==> gs[j] == 0
    ensures r.1 == 0 || r.1 >= 2
  {
    if i == 0 then (0, 0)
    else
      var best, n := LongestRun(gs, i - 1), RunAt(gs, i - 1);
      if n >= 2 && n > best.1 then (i - 1, n) else best
  }

  ghost predicate ZerosAt(gs: seq<Group>, i: nat, n: nat) {
    i + n <= |gs| && forall j :: i <= j < i + n ==> gs[j] == 0
  }

  // That run: no other run of zeros that begins before k is longer, none as long begins earlier, and there is none
  // only if no two zeros stand side by side.
  lemma {:induction false} LongestRunMeaning(gs: seq<Group>, k: nat, i: nat, n: nat)
    requires i < k <= |gs| && ZerosAt(gs, i, n) && n >= 2
    ensures LongestRun(gs, k).1 > n || (LongestRun(gs, k).1 == n && LongestRun(gs, k).0 <= i)
  {
    hide RunAt, ZerosAt, LongestRun;
    OneMoreStart(gs, k);
    if i < k - 1 {
      LongestRunMeaning(gs, k - 1, i, n);
    } else {
      RunAtLeast(gs, i, n);
      RunStart(gs, k - 1);
    }
  }

  lemma OneMoreStart(gs: seq<Group>, k: nat)
    requires 0 < k <= |gs|
    ensures var best, n := LongestRun(gs, k - 1), RunAt(gs, k - 1);
            LongestRun(gs, k) == if n >= 2 && n > best.1 then (k - 1, n) else best
  {
  }

  lemma RunAtLeast(gs: seq<Group>, i: nat, n: nat)
    requires ZerosAt(gs, i, n)
    ensures i <= |gs| && RunAt(gs, i) >= n
  {
  }

  lemma {:induction false} RunStart(gs: seq<Group>, k: nat)
    requires k <= |gs|
    ensures LongestRun(gs, k).1 > 0 ==> LongestRun(gs, k).0 < k
  {
    if k > 0 {
      RunStart(gs, k - 1);
    }
  }

  // An IPv6 address is printed with "::" for its longest run of two or more zero groups, the first of those, and
  // without when it has none (section 4.2 of RFC 5952).
  lemma PrintedForm(gs: seq<Group>)
    requires |gs| == 8
    ensures var run := LongestRun(gs, 8);
            && FormatV6(gs) == (if run.1 == 0 then Join(gs)
                                else Side(gs[..run.0]) + "::" + Side(gs[run.0 + run.1..]))
            && (run.1 > 0 ==> run.1 >= 2 && ZerosAt(gs, run.0, run.1))
            && forall i: nat, n: nat :: n >= 2 && ZerosAt(gs, i, n) ==>
                 run.1 > n || (run.1 == n && run.0 <= i)
  {
    forall i: nat, n: nat | n >= 2 && ZerosAt(gs, i, n)
      ensures LongestRun(gs, 8).1 > n || (LongestRun(gs, 8).1 == n && LongestRun(gs, 8).0 <= i)
    {
      LongestRunMeaning(gs, 8, i, n);
    }
  }

  function FormatV6(gs: seq<Group>): string
    requires |gs| == 8
  {
    var run := LongestRun(gs, 8);
    if run.1 == 0 then Join(gs) else Side(gs[..run.0]) + "::" + Side(gs[run.0 + run.1..])
  }

  lemma ParseFormatV6(gs: seq<Group>)
    requires |gs| == 8
    ensures ParseV6(FormatV6(gs)) == Some(gs)
  {
    var run := LongestRun(gs, 8);
    if run.1 == 0 {
      ParseAll(gs);
    } else {
      ParseAroundDouble(gs[..run.0], gs[run.0 + run.1..], run.1);
      assert gs == gs[..run.0] + Zeros(run.1) + gs[run.0 + run.1..];
    }
  }

  lemma JoinHasColon(gs: seq<Group>)
    requires |gs| > 1
    ensures ':' in Join(gs)
  {
    assert Join(gs)[|Hex(gs[0])|] == ':';
  }

  lemma FormatV6Shape(gs: seq<Group>)
    requires |gs| == 8
    ensures ':' in FormatV6(gs)
    ensures forall c :: c in FormatV6(gs) ==> c == ':' || IsLowerHex(c)
  {
    var run := LongestRun(gs, 8);
    if run.1 == 0 {
      JoinShape(gs);
      JoinHasColon(gs);
    } else {
      var left, right := Side(gs[..run.0]), Side(gs[run.0 + run.1..]);
      SideShape(gs[..run.0]);
      SideShape(gs[run.0 + run.1..]);
      assert (left + "::" + right)[|left|] == ':';
    }
  }

  lemma SideShape(gs: seq<Group>)
    ensures forall c :: c in Side(gs) ==> c == ':' || IsLowerHex(c)
  {
    if gs != [] {
      JoinShape(gs);
    }
  }

  /* ---------- Sixteen bytes ---------- */

  function ToBytes(gs: seq<Group>): (b: seq<Octet>)
    ensures |b| == 2 * |gs|
  {
    seq(2 * |gs|, i requires 0 <= i < 2 * |gs| => if i % 2 == 0 then gs[i / 2] / 256 else gs[i / 2] % 256)
  }

  function ToGroups(b: seq<Octet>): (gs: seq<Group>)
    ensures |gs| == |b| / 2
  {
    seq(|b| / 2, i requires 0 <= i < |b| / 2 => Pair(b[2 * i], b[2 * i + 1]))
  }

  lemma PairBytes(hi: Octet, lo: Octet)
    ensures Pair(hi, lo) / 256 == hi && Pair(hi, lo) % 256 == lo
  {
  }

  lemma BytesRoundTrip(b: seq<Octet>)
    requires |b| % 2 == 0
    ensures ToBytes(ToGroups(b)) == b
  {
    forall i | 0 <= i < |b|
      ensures ToBytes(ToGroups(b))[i] == b[i]
    {
      var j := i / 2;
      PairBytes(b[2 * j], b[2 * j + 1]);
      assert i == 2 * j + i % 2;
    }
  }

  lemma TwoBytes(front: seq<Octet>, hi: Octet, lo: Octet)
    ensures Num(front + [hi, lo]) == 0x1_0000 * Num(front) + Pair(hi, lo)
  {
    NumSnoc(front, hi);
    NumSnoc(front + [hi], lo);
    assert front + [hi] + [lo] == front + [hi, lo];
  }

  // The number that groups spell.
  function GroupsNum(gs: seq<Group>): nat {
    if gs == [] then 0 else 0x1_0000 * GroupsNum(gs[..|gs| - 1]) + gs[|gs| - 1]
  }

  // The bytes of groups spell the same number.
  lemma {:induction false} BytesOfGroups(gs: seq<Group>)
    ensures Num(ToBytes(gs)) == GroupsNum(gs)
  {
    if gs != [] {
      var front, g := gs[..|gs| - 1], gs[|gs| - 1];
      BytesOfGroups(front);
      TwoBytes(ToBytes(front), g / 256, g % 256);
      assert ToBytes(gs) == ToBytes(front) + [g / 256, g % 256];
    }
  }

  /* ---------- What other texts denote ---------- */

  // Digits count from the left.
  lemma {:induction false} HexIsPositional(c: char, s: string)
    requires IsHex(c) && AllHex(s)
    ensures AllHex([c] + s) && HexValue([c] + s) == HexDigit(c) * Power16(|s|) + HexValue(s)
  {
    hide IsHex, HexDigit;
    if s == [] {
      assert ([c] + s)[..0] == [];
    } else {
      var front, last := s[..|s| - 1], s[|s| - 1];
      HexIsPositional(c, front);
      assert ([c] + s)[..|s|] == [c] + front && ([c] + s)[|s|] == last;
      assert HexValue([c] + s) == 16 * HexValue([c] + front) + HexDigit(last);
      TimesSixteen(HexDigit(c), Power16(|front|), HexValue(front));
    }
  }

  lemma TimesSixteen(d: nat, p: nat, v: nat)
    ensures 16 * (d * p + v) == d * (16 * p) + 16 * v
  {
  }

  lemma LowerChar(s: string, i: nat)
    requires i < |s|
    ensures IsHex(ToLower(s)[i]) <==> IsHex(s[i])
    ensures IsHex(s[i]) ==> HexDigit(ToLower(s)[i]) == HexDigit(s[i])
    ensures IsDigit(ToLower(s)[i]) <==> IsDigit(s[i])
    ensures IsDigit(s[i]) || s[i] in ":./" ==> ToLower(s)[i] == s[i]
    ensures ToLower(s)[i] in ":./" ==> ToLower(s)[i] == s[i]
  {
  }

  lemma LowerParts(s: string, i: nat)
    requires i <= |s|
    ensures ToLower(s[..i]) == ToLower(s)[..i] && ToLower(s[i..]) == ToLower(s)[i..]
  {
  }

  lemma {:induction false} LowerIndex(s: string, c: char)
    requires c in ":./"
    ensures IndexOf(ToLower(s), c) == IndexOf(s, c)
  {
    if s != [] {
      LowerChar(s, 0);
      LowerParts(s, 1);
      LowerIndex(s[1..], c);
    }
  }

  lemma LowerOctet(s: string)
    ensures ParseOctet(ToLower(s)) == ParseOctet(s)
  {
    forall i | 0 <= i < |s|
      ensures IsDigit(ToLower(s)[i]) <==> IsDigit(s[i])
      ensures IsDigit(s[i]) ==> ToLower(s)[i] == s[i]
    {
      LowerChar(s, i);
    }
    if AllDigits(s) {
      assert ToLower(s) == s;
    } else {
      assert !AllDigits(ToLower(s)) by {
        var i :| 0 <= i < |s| && !IsDigit(s[i]);
        assert !IsDigit(ToLower(s)[i]);
      }
    }
  }

  lemma {:induction false} LowerFields(s: string, fields: nat)
    requires fields > 0
    ensures ParseFields(ToLower(s), fields) == ParseFields(s, fields)
    decreases fields
  {
    hide ParseOctet, ToLower;
    var dot := IndexOf(s, '.');
    LowerIndex(s, '.');
    if fields == 1 {
      LowerOctet(s);
    } else if dot < |s| {
      LowerParts(s, dot);
      LowerParts(s, dot + 1);
      LowerOctet(s[..dot]);
      LowerFields(s[dot + 1..], fields - 1);
    }
  }

  lemma {:induction false} LowerHex(s: string)
    ensures AllHex(ToLower(s)) <==> AllHex(s)
    ensures AllHex(s) ==> HexValue(ToLower(s)) == HexValue(s)
  {
    forall i | 0 <= i < |s|
      ensures IsHex(ToLower(s)[i]) <==> IsHex(s[i])
    {
      LowerChar(s, i);
    }
    if AllHex(ToLower(s)) {
      forall i | 0 <= i < |s|
        ensures IsHex(s[i])
      {
        assert IsHex(ToLower(s)[i]);
      }
    }
    if AllHex(s) && s != [] {
      LowerParts(s, |s| - 1);
      LowerHex(s[..|s| - 1]);
      LowerChar(s, |s| - 1);
    }
  }

  lemma LowerGroup(s: string)
    ensures ParseGroup(ToLower(s)) == ParseGroup(s)
  {
    hide AllHex, HexValue, ToLower;
    LowerHex(s);
  }

  lemma {:induction false} LowerGroups(s: string, dotted: bool)
    ensures ParseGroups(ToLower(s), dotted) == ParseGroups(s, dotted)
    decreases |s|
  {
    hide ParseV4, ParseGroup, ParseGroups, ToLower;
    var c := IndexOf(s, ':');
    LowerIndex(s, ':');
    if c < |s| {
      LowerParts(s, c);
      LowerParts(s, c + 1);
      LowerGroup(s[..c]);
      LowerGroups(s[c + 1..], dotted);
      FirstGroup(s, dotted);
      FirstGroup(ToLower(s), dotted);
    } else {
      LowerGroup(s);
      LowerV4(s);
      LastGroup(s, dotted);
      LastGroup(ToLower(s), dotted);
    }
  }

  lemma LowerV4(s: string)
    ensures ParseV4(ToLower(s)) == ParseV4(s)
  {
    LowerFields(s, 4);
  }

  lemma {:induction false} LowerDouble(s: string)
    ensures DoubleColon(ToLower(s)) == DoubleColon(s)
  {
    if s != [] {
      LowerChar(s, 0);
      if |s| > 1 {
        LowerChar(s, 1);
      }
      LowerParts(s, 1);
      LowerDouble(s[1..]);
    }
  }

  lemma LowerV6(s: string)
    ensures ParseV6(ToLower(s)) == ParseV6(s)
  {
    hide ParseGroups, ToLower;
    var d := DoubleColon(s);
    LowerDouble(s);
    if d == |s| {
      LowerGroups(s, true);
    } else {
      LowerParts(s, d);
      LowerParts(s, d + 2);
      LowerGroups(s[..d], false);
      LowerGroups(s[d + 2..], true);
    }
  }

  // The last two groups may be written as a dotted address.
  lemma DottedTail(o: seq<Octet>)
    requires |o| == 4
    ensures ParseGroups(FormatFields(o), true) == Some([Pair(o[0], o[1]), Pair(o[2], o[3])])
    ensures ParseGroups(FormatFields(o), false) == None
  {
    FormatHasNoColon(o);
    ParseFormatFields(o);
    FormatHasDot(o);
  }

  // A text that begins with "::" has no left side.
  lemma DoubleFirst(tail: string, right: seq<Group>)
    requires ParseGroups(tail, true) == Some(right) && |right| <= 7 && tail != ""
    ensures ParseV6("::" + tail) == Some(Zeros(8 - |right|) + right)
  {
    hide ParseGroups;
    var s := "::" + tail;
    assert DoubleAt(s, 0);
    assert s[..0] == "" && s[2..] == tail;
    assert [] + Zeros(8 - |right|) == Zeros(8 - |right|);
  }

  lemma FormatHasDot(o: seq<Octet>)
    requires |o| > 1
    ensures ':' !in FormatFields(o) && !AllHex(FormatFields(o))
  {
    FormatHasNoColon(o);
    assert FormatFields(o)[|Decimal(o[0])|] == '.';
  }
}
