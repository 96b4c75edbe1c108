/** Node identifiers: hexadecimal ids, MAC addresses, and the seed number of an id. */
module Identifiers {
  import opened Prelude

  const VIRTUAL_NODE_NUM_START: nat := 1_000_000_000
  const SPAN: nat := 0x1_0000_0000

  // ------------------------------------------------------------ hexadecimal text

  predicate IsHexLower(c: char) {
    '0' <= c <= '9' || 'a' <= c <= 'f'
  }

  predicate IsHexUpper(c: char) {
    '0' <= c <= '9' || 'A' <= c <= 'F'
  }

  function Digit(d: nat): (c: char)
    requires d < 16
    ensures IsHexLower(c) && DigitValue(c) == d
  {
    if d < 10 then '0' + d as char else 'a' + (d - 10) as char
  }

  function DigitValue(c: char): (d: nat)
    requires IsHexLower(c) || IsHexUpper(c)
    ensures d < 16
  {
    if c <= '9' then c as int - '0' as int
    else if c <= 'F' then c as int - 'A' as int + 10
    else c as int - 'a' as int + 10
  }

  predicate AllHex(s: string) {
    forall i | 0 <= i < |s| :: IsHexLower(s[i]) || IsHexUpper(s[i])
  }

  predicate AllHexLower(s: string) {
    forall i | 0 <= i < |s| :: IsHexLower(s[i])
  }

  function HexValue(s: string): nat
    requires AllHex(s)
  {
    if s == "" then 0 else 16 * HexValue(s[..|s| - 1]) + DigitValue(s[|s| - 1])
  }

  /** `f"{n:x}"`. */
  function Hex(n: nat): (s: string)
    ensures |s| > 0 && AllHexLower(s)
  {
    if n < 16 then [Digit(n)] else Hex(n / 16) + [Digit(n % 16)]
  }

  function Zeros(n: nat): (s: string)
    ensures |s| == n && AllHexLower(s)
  {
    seq(n, _ => '0')
  }

  /** `f"{n:0wx}"`: at least `w` digits. */
  function HexPadded(n: nat, w: nat): (s: string)
    ensures |s| >= w && AllHexLower(s)
  {
    if |Hex(n)| >= w then Hex(n) else Zeros(w - |Hex(n)|) + Hex(n)
  }

  lemma {:induction false} HexValueOfHex(n: nat)
    ensures HexValue(Hex(n)) == n
  {
    if n >= 16 {
      HexValueOfHex(n / 16);
      assert Hex(n)[..|Hex(n)| - 1] == Hex(n / 16);
    }
  }

  lemma {:induction false} HexValueOfZeros(k: nat, s: string)
    requires AllHex(s)
    ensures AllHex(Zeros(k) + s) && HexValue(Zeros(k) + s) == HexValue(s)
  {
    if s == "" {
      if k > 0 {
        assert (Zeros(k) + s)[..k - 1] == Zeros(k - 1) + s;
        HexValueOfZeros(k - 1, s);
        assert (Zeros(k) + s)[k - 1] == '0';
      }
    } else {
      HexValueOfZeros(k, s[..|s| - 1]);
      assert (Zeros(k) + s)[..k + |s| - 1] == Zeros(k) + s[..|s| - 1];
    }
  }

  lemma HexValueOfPadded(n: nat, w: nat)
    ensures HexValue(HexPadded(n, w)) == n
  {
    HexValueOfHex(n);
    hide Hex, HexValue, Zeros;
    if |Hex(n)| < w {
      HexValueOfZeros(w - |Hex(n)|, Hex(n));
    }
  }

  function Pow16(k: nat): (p: nat)
    ensures p > 0
  {
    if k == 0 then 1 else 16 * Pow16(k - 1)
  }

  lemma {:induction false} HexLength(n: nat, w: nat)
    requires w > 0
    ensures |Hex(n)| <= w <==> n < Pow16(w)
  {
    if w == 1 {
      assert Pow16(1) == 16 * Pow16(0);
    } else if n >= 16 {
      HexLength(n / 16, w - 1);
    } else {
      PowPositive(w);
    }
  }

  lemma {:induction false} PowPositive(w: nat)
    requires w > 0
    ensures Pow16(w) >= 16
  {
    assert Pow16(w) == 16 * Pow16(w - 1);
  }

  lemma DigitDetermined(c: char, d: char, high: nat, high': nat)
    requires IsHexLower(c) && IsHexLower(d) && 16 * high + DigitValue(c) == 16 * high' + DigitValue(d)
    ensures c == d && high == high'
  {
    assert high == high' by {
      hide DigitValue;
    }
  }

  lemma {:induction false} HexTextDetermined(s: string, t: string)
    requires |s| == |t| && AllHexLower(s) && AllHexLower(t) && HexValue(s) == HexValue(t)
    ensures s == t
  {
    if s != "" {
      var n := |s| - 1;
      DigitDetermined(s[n], t[n], HexValue(s[..n]), HexValue(t[..n]));
      hide HexValue, DigitValue;
      HexTextDetermined(s[..n], t[..n]);
      assert s == s[..n] + [s[n]] && t == t[..n] + [t[n]];
    }
  }

  // ------------------------------------------------------------ node ids

  function NumToId(n: nat): string {
    "!" + HexPadded(n, 8)
  }

  function IdToNum(id: string): Option<nat> {
    if id == "" || id[0] != '!' then None
    else if id[1..] == "" || !AllHex(id[1..]) then None
    else Some(HexValue(id[1..]))
  }

  /** The id of a number reads back as the number, of any size. */
  lemma IdRoundTrip(n: nat)
    ensures IdToNum(NumToId(n)) == Some(n)
  {
    HexValueOfPadded(n, 8);
    assert NumToId(n)[1..] == HexPadded(n, 8);
  }

  /** An id is an exclamation mark and at least eight lowercase digits, exactly eight below 2^32. */
  lemma IdShape(n: nat)
    ensures var id := NumToId(n);
            && |id| >= 9 && id[0] == '!' && (n < 0x1_0000_0000 ==> |id| == 9)
            && forall i | 1 <= i < |id| :: '0' <= id[i] <= '9' || 'a' <= id[i] <= 'f'
  {
    Pow16Of8();
    HexLength(n, 8);
    var h := HexPadded(n, 8);
    assert forall i | 1 <= i < |NumToId(n)| :: NumToId(n)[i] == h[i - 1];
  }

  /** What `id_to_num` accepts: an exclamation mark and hexadecimal digits of either case. */
  lemma IdToNumIff(id: string)
    ensures IdToNum(id).Some? <==> |id| > 1 && id[0] == '!' && AllHex(id[1..])
  {
  }

  function DefaultNodeId(n: nat): (id: string) {
    "!" + HexPadded(n % SPAN, 8)
  }

  lemma Pow16Of8()
    ensures Pow16(8) == SPAN
  {
    assert Pow16(2) == 256 by { assert Pow16(1) == 16; }
    assert Pow16(4) == 0x1_0000 by { assert Pow16(3) == 0x1000; }
    assert Pow16(6) == 0x100_0000 by { assert Pow16(5) == 0x10_0000; }
    assert Pow16(7) == 0x1000_0000;
  }

  /** Default ids repeat exactly when the numbers agree modulo 2^32. */
  lemma DefaultIdAliases(m: nat, n: nat)
    ensures DefaultNodeId(m) == DefaultNodeId(n) <==> m % SPAN == n % SPAN
  {
    if DefaultNodeId(m) == DefaultNodeId(n) {
      assert DefaultNodeId(m)[1..] == HexPadded(m % SPAN, 8);
      assert DefaultNodeId(n)[1..] == HexPadded(n % SPAN, 8);
      HexValueOfPadded(m % SPAN, 8);
      HexValueOfPadded(n % SPAN, 8);
    }
  }

  /** A normalized node id: `!` and one to nine lowercase hexadecimal digits. */
  predicate IsNodeId(id: string) {
    2 <= |id| <= 10 && id[0] == '!' && AllHexLower(id[1..])
  }

  /** `_node_num_seed_from_node_id`. */
  function Seed(id: string): nat
    requires IsNodeId(id)
  {
    var base := HexValue(id[1..]);
    if base >= VIRTUAL_NODE_NUM_START then base
    else
      var increments := (VIRTUAL_NODE_NUM_START - base + SPAN - 1) / SPAN;
      base + increments * SPAN
  }

  /** The seed is in the virtual range and stands for the same id modulo 2^32. */
  lemma SeedInRange(id: string)
    requires IsNodeId(id)
    ensures Seed(id) >= VIRTUAL_NODE_NUM_START
    ensures Seed(id) % SPAN == HexValue(id[1..]) % SPAN
  {
    var base := HexValue(id[1..]);
    if base < VIRTUAL_NODE_NUM_START {
      assert (VIRTUAL_NODE_NUM_START - base + SPAN - 1) / SPAN == 1;
    }
  }

  /** An id in the virtual range is its own seed; below it the seed is the first number of the range
      that stands for the id. */
  lemma SeedIsFirst(id: string)
    requires IsNodeId(id)
    ensures HexValue(id[1..]) >= 1_000_000_000 ==> Seed(id) == HexValue(id[1..])
    ensures HexValue(id[1..]) < 1_000_000_000 ==>
              forall n: nat | 1_000_000_000 <= n < Seed(id) :: n % 0x1_0000_0000 != HexValue(id[1..])
  {
    var base := HexValue(id[1..]);
    if base < VIRTUAL_NODE_NUM_START {
      assert Seed(id) == base + SPAN;
    }
  }

  /** For an eight-digit id the default id of its seed is the id itself. */
  lemma SeedRoundTrip(id: string)
    requires IsNodeId(id) && |id| == 9
    ensures DefaultNodeId(Seed(id)) == id
  {
    var body := id[1..];
    SeedInRange(id);
    HexValueBound(body);
    Pow16Of8();
    assert Seed(id) % SPAN == HexValue(body);
    HexLength(HexValue(body), 8);
    HexValueOfPadded(HexValue(body), 8);
    HexTextDetermined(HexPadded(HexValue(body), 8), body);
  }

  lemma {:induction false} HexValueBound(s: string)
    requires AllHex(s)
    ensures HexValue(s) < Pow16(|s|)
  {
    if s != "" {
      HexValueBound(s[..|s| - 1]);
    }
  }

  // ------------------------------------------------------------ MAC addresses

  function Upper(c: char): char {
    if 'a' <= c <= 'z' then (c as int - 32) as char else c
  }

  function UpperAll(s: string): (u: string)
    ensures |u| == |s| && forall i | 0 <= i < |s| :: u[i] == Upper(s[i])
  {
    seq(|s|, i requires 0 <= i < |s| => Upper(s[i]))
  }

  /** Six colon-separated pairs out of the first twelve characters. */
  function Grouped(h: string): (m: string)
    requires |h| >= 12
    ensures |m| == 17
  {
    h[0..2] + ":" + h[2..4] + ":" + h[4..6] + ":" + h[6..8] + ":" + h[8..10] + ":" + h[10..12]
  }

  /** `num_to_mac(n).upper()`: with more than twelve digits the low ones are dropped. */
  function DefaultMac(n: nat): (m: string)
    ensures |m| == 17
  {
    UpperAll(Grouped(HexPadded(n, 12)))
  }

  lemma GroupedDetermines(g: string, h: string)
    requires |g| >= 12 && |h| >= 12 && Grouped(g) == Grouped(h)
    ensures g[..12] == h[..12]
  {
    var m := Grouped(g);
    assert g[0..2] == m[0..2] == h[0..2];
    assert g[2..4] == m[3..5] == h[2..4];
    assert g[4..6] == m[6..8] == h[4..6];
    assert g[6..8] == m[9..11] == h[6..8];
    assert g[8..10] == m[12..14] == h[8..10];
    assert g[10..12] == m[15..17] == h[10..12];
    assert g[..12] == g[0..2] + g[2..4] + g[4..6] + g[6..8] + g[8..10] + g[10..12];
    assert h[..12] == h[0..2] + h[2..4] + h[4..6] + h[6..8] + h[8..10] + h[10..12];
  }

  predicate MacChar(c: char) {
    IsHexLower(c) || c == ':'
  }

  lemma GroupedChars(h: string)
    requires |h| >= 12 && AllHexLower(h)
    ensures forall i | 0 <= i < 17 :: MacChar(Grouped(h)[i])
  {
  }

  lemma UpperDetermines(s: string, t: string)
    requires |s| == |t| && UpperAll(s) == UpperAll(t)
    requires forall i | 0 <= i < |s| :: MacChar(s[i]) && MacChar(t[i])
    ensures s == t
  {
    forall i | 0 <= i < |s|
      ensures s[i] == t[i]
    {
      assert UpperAll(s)[i] == UpperAll(t)[i];
    }
  }

  lemma MacDetermines(m: nat, n: nat)
    requires DefaultMac(m) == DefaultMac(n)
    ensures HexPadded(m, 12)[..12] == HexPadded(n, 12)[..12]
  {
    hide Grouped;
    GroupedChars(HexPadded(m, 12));
    GroupedChars(HexPadded(n, 12));
    UpperDetermines(Grouped(HexPadded(m, 12)), Grouped(HexPadded(n, 12)));
    GroupedDetermines(HexPadded(m, 12), HexPadded(n, 12));
  }

  /** Below 2^48 every number has its own MAC. */
  lemma MacInjective(m: nat, n: nat)
    requires m < Pow16(12) && n < Pow16(12) && DefaultMac(m) == DefaultMac(n)
    ensures m == n
  {
    hide DefaultMac;
    MacDetermines(m, n);
    HexLength(m, 12);
    HexLength(n, 12);
    assert HexPadded(m, 12)[..12] == HexPadded(m, 12) && HexPadded(n, 12)[..12] == HexPadded(n, 12);
    HexValueOfPadded(m, 12);
    HexValueOfPadded(n, 12);
  }

  /** The digits of a MAC, without its separators. */
  function MacDigits(m: string): (h: string)
    requires |m| == 17
    ensures |h| == 12
  {
    m[0..2] + m[3..5] + m[6..8] + m[9..11] + m[12..14] + m[15..17]
  }

  lemma GroupedAt(h: string, k: nat)
    requires |h| >= 12 && k < 6
    ensures Grouped(h)[3 * k] == h[2 * k] && Grouped(h)[3 * k + 1] == h[2 * k + 1]
    ensures k < 5 ==> Grouped(h)[3 * k + 2] == ':'
  {
    var m := Grouped(h);
    assert m[0..2] == h[0..2] && m[3..5] == h[2..4] && m[6..8] == h[4..6];
    assert m[9..11] == h[6..8] && m[12..14] == h[8..10] && m[15..17] == h[10..12];
    hide Grouped;
    Pairs(m, h, k);
  }

  lemma Pairs(m: string, h: string, k: nat)
    requires |h| >= 12 && |m| == 17 && k < 6
    requires m[0..2] == h[0..2] && m[3..5] == h[2..4] && m[6..8] == h[4..6]
    requires m[9..11] == h[6..8] && m[12..14] == h[8..10] && m[15..17] == h[10..12]
    ensures m[3 * k] == h[2 * k] && m[3 * k + 1] == h[2 * k + 1]
  {
    var p, q := m[3 * k..3 * k + 2], h[2 * k..2 * k + 2];
    assert p == q;
    assert p[0] == q[0] && p[1] == q[1];
  }

  lemma MacDigitsAt(m: string, k: nat)
    requires |m| == 17 && k < 6
    ensures MacDigits(m)[2 * k] == m[3 * k] && MacDigits(m)[2 * k + 1] == m[3 * k + 1]
  {
    var h := MacDigits(m);
    assert m[0..2] == h[0..2] && m[3..5] == h[2..4] && m[6..8] == h[4..6];
    assert m[9..11] == h[6..8] && m[12..14] == h[8..10] && m[15..17] == h[10..12];
    hide MacDigits;
    Pairs(m, h, k);
  }

  lemma MacDigitsOfGrouped(h: string)
    requires |h| == 12
    ensures MacDigits(UpperAll(Grouped(h))) == UpperAll(h)
    ensures forall k | 0 <= k < 5 :: UpperAll(Grouped(h))[3 * k + 2] == ':'
  {
    var m := UpperAll(Grouped(h));
    hide Grouped, MacDigits, UpperAll;
    forall i | 0 <= i < 12
      ensures MacDigits(m)[i] == UpperAll(h)[i]
    {
      GroupedAt(h, i / 2);
      MacDigitsAt(m, i / 2);
      assert i == 2 * (i / 2) || i == 2 * (i / 2) + 1;
    }
    forall k | 0 <= k < 5
      ensures m[3 * k + 2] == ':'
    {
      GroupedAt(h, k);
    }
  }

  lemma {:induction false} UpperKeepsValue(h: string)
    requires AllHexLower(h)
    ensures AllHex(UpperAll(h)) && HexValue(UpperAll(h)) == HexValue(h)
  {
    if h != "" {
      var n := |h| - 1;
      UpperKeepsValue(h[..n]);
      assert UpperAll(h)[..n] == UpperAll(h[..n]);
      assert IsHexLower(h[n]);
    }
  }

  /** The default MAC of a number below 2^48: colons between six pairs of uppercase digits, which
      read as the number. */
  lemma DefaultMacReads(n: nat)
    requires n < Pow16(12)
    ensures var m := DefaultMac(n);
            && m[2] == m[5] == m[8] == m[11] == m[14] == ':'
            && (forall i | 0 <= i < 12 :: IsHexUpper(MacDigits(m)[i])) && HexValue(MacDigits(m)) == n
  {
    var h := HexPadded(n, 12);
    HexLength(n, 12);
    HexValueOfPadded(n, 12);
    hide HexValue, HexPadded, Hex, Pow16, Grouped, MacDigits;
    MacDigitsOfGrouped(h);
    UpperKeepsValue(h);
    var m := DefaultMac(n);
    assert m[3 * 0 + 2] == m[3 * 1 + 2] == m[3 * 2 + 2] == m[3 * 3 + 2] == m[3 * 4 + 2] == ':';
    forall i | 0 <= i < 12
      ensures IsHexUpper(UpperAll(h)[i])
    {
      assert IsHexLower(h[i]);
    }
  }

  /** Appending `e` hexadecimal digits leaves the leading digits as they were. */
  lemma {:induction false} LeadingDigits(t: nat, e: nat, r: nat)
    requires t > 0 && r < Pow16(e)
    ensures |Hex(t * Pow16(e) + r)| == |Hex(t)| + e
    ensures Hex(t * Pow16(e) + r)[..|Hex(t)|] == Hex(t)
  {
    if e > 0 {
      var n := t * Pow16(e) + r;
      assert n == 16 * (t * Pow16(e - 1)) + r;
      assert n / 16 == t * Pow16(e - 1) + r / 16;
      assert t * Pow16(e - 1) >= 1;
      LeadingDigits(t, e - 1, r / 16);
      assert Hex(n) == Hex(n / 16) + [Digit(n % 16)];
    } else {
      assert Hex(t)[..|Hex(t)|] == Hex(t);
    }
  }
}
