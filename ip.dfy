/** IPv4 addresses as `std::net::IpAddr` holds, orders, prints and parses
    them (the V4 variant only). */
module Ip {
  import opened Wrappers
  import opened Decimal
  import opened Text

  newtype byte = x: int | 0 <= x < 0x100

  /** The four octets of an address, most significant first. */
  datatype Ipv4 = Ipv4(a: byte, b: byte, c: byte, d: byte)

  /** The address as the 32-bit big-endian number it stands for. */
  function Bits(ip: Ipv4): (n: nat)
    ensures n < 0x1_0000_0000
  {
    ((ip.a as nat * 0x100 + ip.b as nat) * 0x100 + ip.c as nat) * 0x100 + ip.d as nat
  }

  // ---------------------------------------------------------------------------
  // Order

  /** `x < y` under `Ord for Ipv4Addr`: the octet arrays compared
      lexicographically. */
  predicate Below(x: Ipv4, y: Ipv4) {
    || x.a < y.a
    || (x.a == y.a && x.b < y.b)
    || (x.a == y.a && x.b == y.b && x.c < y.c)
    || (x.a == y.a && x.b == y.b && x.c == y.c && x.d < y.d)
  }

  lemma Base256Less(p: nat, q: nat, p': nat, q': nat)
    requires q < 0x100 && q' < 0x100
    ensures p * 0x100 + q < p' * 0x100 + q' <==> p < p' || (p == p' && q < q')
  {
    if p < p' {
      assert (p + 1) * 0x100 <= p' * 0x100;
    } else if p' < p {
      assert (p' + 1) * 0x100 <= p * 0x100;
    }
  }

  /** The lexicographic order on octets is the numeric order on the 32-bit
      value of the address. */
  lemma BelowIsNumericOrder(x: Ipv4, y: Ipv4)
    ensures Below(x, y) <==> Bits(x) < Bits(y)
  {
    var hx, hy := x.a as nat * 0x100 + x.b as nat, y.a as nat * 0x100 + y.b as nat;
    var mx, my := hx * 0x100 + x.c as nat, hy * 0x100 + y.c as nat;
    Base256Less(x.a as nat, x.b as nat, y.a as nat, y.b as nat);
    Base256Less(hx, x.c as nat, hy, y.c as nat);
    Base256Less(mx, x.d as nat, my, y.d as nat);
  }

  /** Below is a strict total order. */
  lemma BelowIsStrictTotalOrder(x: Ipv4, y: Ipv4, z: Ipv4)
    ensures !Below(x, x)
    ensures Below(x, y) && Below(y, z) ==> Below(x, z)
    ensures x == y || Below(x, y) || Below(y, x)
  {
    BelowIsNumericOrder(x, y);
    BelowIsNumericOrder(y, z);
    BelowIsNumericOrder(x, z);
  }

  // ---------------------------------------------------------------------------
  // Ascending enumeration, the iteration order of a map keyed by address

  predicate StrictlyAscending(ks: seq<Ipv4>) {
    forall i, j | 0 <= i < j < |ks| :: Below(ks[i], ks[j])
  }

  predicate IsLeast(m: Ipv4, s: set<Ipv4>) {
    m in s && forall y | y in s && y != m :: Below(m, y)
  }

  lemma {:induction false} LeastExists(s: set<Ipv4>)
    requires s != {}
    ensures exists m :: IsLeast(m, s)
    decreases |s|
  {
    var x :| x in s;
    if s == {x} {
      assert IsLeast(x, s);
    } else {
      LeastExists(s - {x});
      var m :| IsLeast(m, s - {x});
      if Below(x, m) {
        forall y | y in s && y != x
          ensures Below(x, y)
        {
          if y != m {
            BelowIsStrictTotalOrder(x, m, y);
          }
        }
        assert IsLeast(x, s);
      } else {
        BelowIsStrictTotalOrder(m, x, x);
        assert IsLeast(m, s);
      }
    }
  }

  /** The addresses of s in ascending order, as `BTreeMap` iterates its keys. */
  function Ascending(s: set<Ipv4>): seq<Ipv4>
    decreases |s|
  {
    if s == {} then []
    else
      LeastExists(s);
      var m :| IsLeast(m, s);
      [m] + Ascending(s - {m})
  }

  /** Ascending lists every address of s once, in strictly ascending order. */
  lemma {:induction false} AscendingSpec(s: set<Ipv4>)
    ensures StrictlyAscending(Ascending(s))
    ensures |Ascending(s)| == |s|
    ensures forall k :: k in Ascending(s) <==> k in s
    decreases |s|
  {
    if s != {} {
      var ks := Ascending(s);
      var m := ks[0];
      var rest := Ascending(s - {m});
      assert IsLeast(m, s);
      assert ks == [m] + rest;
      AscendingSpec(s - {m});
      assert |s - {m}| == |s| - 1;
      forall k
        ensures k in ks <==> k in s
      {
        assert k in ks <==> k == m || k in rest;
      }
      forall i, j | 0 <= i < j < |ks|
        ensures Below(ks[i], ks[j])
      {
        assert ks[j] == rest[j - 1];
        if i > 0 {
          assert ks[i] == rest[i - 1];
        }
      }
    }
  }

  /** Ascending lists exactly the addresses of s. */
  lemma AscendingMembers(s: set<Ipv4>)
    ensures forall k :: k in Ascending(s) <==> k in s
  {
    AscendingSpec(s);
  }

  /** Every address Ascending lists is in s. */
  lemma AscendingIn(s: set<Ipv4>)
    ensures forall i | 0 <= i < |Ascending(s)| :: Ascending(s)[i] in s
  {
    AscendingSpec(s);
  }

  /** There is only one strictly ascending enumeration of a set of addresses,
      so the order of the report depends on the key set alone. */
  lemma {:induction false} AscendingIsUnique(ks: seq<Ipv4>, s: set<Ipv4>)
    requires StrictlyAscending(ks)
    requires forall k :: k in ks <==> k in s
    ensures ks == Ascending(s)
    decreases |ks|
  {
    if ks == [] {
      assert s == {};
    } else {
      var r := Ascending(s);
      AscendingSpec(s);
      assert IsLeast(ks[0], s) by {
        forall y | y in s && y != ks[0]
          ensures Below(ks[0], y)
        {
          var j :| 0 <= j < |ks| && ks[j] == y;
        }
      }
      assert IsLeast(r[0], s) by {
        forall y | y in s && y != r[0]
          ensures Below(r[0], y)
        {
          var j :| 0 <= j < |r| && r[j] == y;
        }
      }
      BelowIsStrictTotalOrder(ks[0], r[0], r[0]);
      assert ks[0] == r[0];
      forall k
        ensures k in ks[1..] <==> k in s - {ks[0]}
      {
        if k in ks[1..] {
          var j :| 1 <= j < |ks| && ks[j] == k;
          BelowIsStrictTotalOrder(ks[0], ks[0], ks[0]);
        }
      }
      AscendingIsUnique(ks[1..], s - {ks[0]});
    }
  }

  // ---------------------------------------------------------------------------
  // Text form

  /** `Display for Ipv4Addr`: the octets in decimal, separated by '.'. */
  function Format(ip: Ipv4): (s: string)
    ensures 7 <= |s| <= 15
  {
    ShowLength(ip.a as nat, 3);
    ShowLength(ip.b as nat, 3);
    ShowLength(ip.c as nat, 3);
    ShowLength(ip.d as nat, 3);
    Show(ip.a as nat) + "." + Show(ip.b as nat) + "." + Show(ip.c as nat) + "." + Show(ip.d as nat)
  }

  /** The printed form holds only digits and dots. */
  lemma FormatChars(ip: Ipv4)
    ensures forall i | 0 <= i < |Format(ip)| :: IsDigit(Format(ip)[i]) || Format(ip)[i] == '.'
  {
    ShowIsCanonical(ip.a as nat);
    ShowIsCanonical(ip.b as nat);
    ShowIsCanonical(ip.c as nat);
    ShowIsCanonical(ip.d as nat);
  }

  /** One octet as the parser accepts it: one to three digits, no leading
      zero unless the octet is "0", a value that fits a byte. */
  predicate IsOctetText(t: string) {
    Canonical(t) && |t| <= 3 && Value(t) < 0x100
  }

  function Octet(t: string): byte
    requires IsOctetText(t)
  {
    Value(t) as byte
  }

  /** `"…".parse::<IpAddr>()` for IPv4 text: exactly four octets separated by
      '.', nothing before or after. */
  function Parse(s: string): Option<Ipv4> {
    var parts := Split(s, '.');
    if |parts| == 4 && forall i | 0 <= i < 4 :: IsOctetText(parts[i]) then
      Some(Ipv4(Octet(parts[0]), Octet(parts[1]), Octet(parts[2]), Octet(parts[3])))
    else
      None
  }

  lemma FormatIsJoin(ip: Ipv4)
    ensures Format(ip) == Join([Show(ip.a as nat), Show(ip.b as nat), Show(ip.c as nat), Show(ip.d as nat)], '.')
  {
    var ps := [Show(ip.a as nat), Show(ip.b as nat), Show(ip.c as nat), Show(ip.d as nat)];
    assert ps[1..][1..][1..] == [ps[3]];
    assert Join(ps[1..][1..], '.') == ps[2] + ['.'] + ps[3];
    assert Join(ps[1..], '.') == ps[1] + ['.'] + (ps[2] + ['.'] + ps[3]);
    assert Join(ps, '.') == ps[0] + ['.'] + (ps[1] + ['.'] + (ps[2] + ['.'] + ps[3]));
  }

  lemma OctetOfShow(x: byte)
    ensures IsOctetText(Show(x as nat)) && Octet(Show(x as nat)) == x
  {
    ShowLength(x as nat, 3);
    ValueOfShow(x as nat);
  }

  /** Parsing the printed form of an address gives the address back. */
  lemma ParseOfFormat(ip: Ipv4)
    ensures Parse(Format(ip)) == Some(ip)
  {
    var ps := [Show(ip.a as nat), Show(ip.b as nat), Show(ip.c as nat), Show(ip.d as nat)];
    FormatIsJoin(ip);
    forall i | 0 <= i < 4
      ensures '.' !in ps[i]
    {
      ShowIsCanonical([ip.a, ip.b, ip.c, ip.d][i] as nat);
      if '.' in ps[i] {
        var j :| 0 <= j < |ps[i]| && ps[i][j] == '.';
      }
    }
    SplitOfJoin(ps, '.');
    OctetOfShow(ip.a);
    OctetOfShow(ip.b);
    OctetOfShow(ip.c);
    OctetOfShow(ip.d);
  }

  /** Every text the parser accepts is the printed form of its result: there
      is one spelling per address. */
  lemma FormatOfParse(s: string)
    requires Parse(s).Some?
    ensures Format(Parse(s).value) == s
  {
    var parts := Split(s, '.');
    var ip := Parse(s).value;
    forall i | 0 <= i < 4
      ensures Show(Value(parts[i])) == parts[i]
    {
      ShowOfValue(parts[i]);
    }
    assert parts == [Show(ip.a as nat), Show(ip.b as nat), Show(ip.c as nat), Show(ip.d as nat)];
    FormatIsJoin(ip);
    JoinOfSplit(s, '.');
  }

  /** Distinct addresses print differently. */
  lemma FormatInjective(x: Ipv4, y: Ipv4)
    requires Format(x) == Format(y)
    ensures x == y
  {
    ParseOfFormat(x);
    ParseOfFormat(y);
  }

  // ---------------------------------------------------------------------------
  // IPv6 text, which `"…".parse::<IpAddr>()` accepts as the V6 variant

  /** An ASCII hexadecimal digit of either case. */
  predicate IsHexDigit(c: char) {
    '0' <= c <= '9' || 'a' <= c <= 'f' || 'A' <= c <= 'F'
  }

  /** One 16-bit group: one to four hex digits, leading zeros allowed. */
  predicate IsHexGroup(t: string) {
    1 <= |t| <= 4 && forall i | 0 <= i < |t| :: IsHexDigit(t[i])
  }

  /** The number of 16-bit groups that a run of ':'-separated groups spells,
      or None when the run is malformed. An IPv4 address in last place, only
      allowed when v4Last holds, spells two groups; the empty run spells none. */
  function Groups(run: string, v4Last: bool): Option<nat> {
    if run == [] then Some(0)
    else
      var parts := Split(run, ':');
      var last := parts[|parts| - 1];
      if !(forall i | 0 <= i < |parts| - 1 :: IsHexGroup(parts[i])) then None
      else if IsHexGroup(last) then Some(|parts|)
      else if v4Last && Parse(last).Some? then Some(|parts| + 1)
      else None
  }

  /** The IPv6 texts the parser accepts: eight groups, or the groups before
      and after a single "::" that stands for at least one zero group. An
      IPv4 address may take the place of the last two groups. */
  predicate IsIpv6Text(s: string) {
    || Groups(s, true) == Some(8)
    || exists i | 0 <= i < |s| - 1 ::
         && s[i] == ':' && s[i + 1] == ':'
         && Groups(s[..i], false).Some? && Groups(s[i + 2..], true).Some?
         && Groups(s[..i], false).value + Groups(s[i + 2..], true).value <= 7
  }

  lemma SplitHead(s: string, sep: char)
    requires s != [] && Split(s, sep)[0] != []
    ensures Split(s, sep)[0][0] == s[0]
  {
  }

  /** IPv6 text always holds a ':'. */
  lemma Ipv6HasColon(s: string)
    requires IsIpv6Text(s)
    ensures ':' in s
  {
    if ':' !in s {
      SplitWithoutSeparator(s, ':');
      assert false;
    }
  }

  /** No text is both an IPv4 and an IPv6 address, so the parser's choice of
      variant does not depend on the order in which it tries them. */
  lemma Ipv6IsNotIpv4(s: string)
    requires IsIpv6Text(s)
    ensures Parse(s).None?
  {
    Ipv6HasColon(s);
    if Parse(s).Some? {
      FormatOfParse(s);
      FormatChars(Parse(s).value);
      assert false;
    }
  }

  /** IPv6 text starts with a hex digit or with "::". */
  lemma Ipv6Start(s: string)
    requires IsIpv6Text(s)
    ensures s != [] && (s[0] == ':' || IsHexDigit(s[0]))
  {
    if Groups(s, true) == Some(8) {
      SplitHead(s, ':');
    } else {
      var i :| 0 <= i < |s| - 1 && s[i] == ':' && s[i + 1] == ':' && Groups(s[..i], false).Some?;
      if i > 0 {
        SplitHead(s[..i], ':');
      }
    }
  }

  lemma MappedTailGroups(ip: Ipv4, t: string)
    requires t == "ffff:" + Format(ip)
    ensures Groups(t, true) == Some(3)
  {
    FormatChars(ip);
    assert ':' !in Format(ip);
    assert t == "ffff" + [':'] + Format(ip);
    SplitAtFirst("ffff", ':', Format(ip));
    SplitWithoutSeparator(Format(ip), ':');
    ParseOfFormat(ip);
    assert IsHexGroup("ffff");
  }

  /** Every IPv4 address has the IPv4-mapped IPv6 form "::ffff:a.b.c.d". */
  lemma Ipv4MappedIsIpv6(ip: Ipv4)
    ensures IsIpv6Text("::ffff:" + Format(ip))
  {
    var s := "::ffff:" + Format(ip);
    MappedTailGroups(ip, s[2..]);
    assert s[0] == ':' && s[1] == ':' && Groups(s[..0], false) == Some(0);
  }

  /** The loopback address "::1" is IPv6 text. */
  lemma LoopbackIsIpv6(s: string)
    requires s == "::1"
    ensures IsIpv6Text(s)
  {
    assert s[..0] == [] && s[2..] == "1";
    SplitWithoutSeparator("1", ':');
    assert IsHexGroup("1");
    assert Groups(s[2..], true) == Some(1);
    assert s[0] == ':' && s[1] == ':' && Groups(s[..0], false) == Some(0);
  }
}
