/** Virtual node identities: the probe over three unique columns, its pigeonhole termination, and
    the registry that create, update and delete keep. */
module NodeRegistry {
  import opened Prelude
  import opened Identifiers

  type Pk = nat

  datatype Node = Node(number: int, nodeId: string, mac: string, isVirtual: bool,
                       publicKey: Option<string>, privateKey: Option<string>)

  type Table = map<Pk, Node>

  // ------------------------------------------------------------ counting

  ghost predicate Distinct<T>(k: nat, f: nat -> T) {
    forall i: nat, j: nat | i < j < k :: f(i) != f(j)
  }

  /** Pigeonhole over three columns: more distinct candidates than taken values leaves one free. */
  lemma {:induction false} Pigeonhole<A, B, C>(k: nat, f: nat -> A, a: set<A>, g: nat -> B, b: set<B>, h: nat -> C, c: set<C>)
    returns (j: nat)
    requires Distinct(k, f) && (b == {} || Distinct(k, g)) && (c == {} || Distinct(k, h))
    requires k > |a| + |b| + |c|
    ensures j < k && f(j) !in a && g(j) !in b && h(j) !in c
    decreases k
  {
    j := k - 1;
    if f(j) in a {
      j := Pigeonhole(k - 1, f, a - {f(k - 1)}, g, b, h, c);
    } else if g(j) in b {
      j := Pigeonhole(k - 1, f, a, g, b - {g(k - 1)}, h, c);
    } else if h(j) in c {
      j := Pigeonhole(k - 1, f, a, g, b, h, c - {h(k - 1)});
    }
  }

  // ------------------------------------------------------------ columns

  function Others(rows: Table, exclude: Option<Pk>): set<Pk> {
    set p | p in rows && Some(p) != exclude
  }

  function Numbers(rows: Table, exclude: Option<Pk>): set<int> {
    set p | p in Others(rows, exclude) :: rows[p].number
  }

  function Ids(rows: Table, exclude: Option<Pk>): set<string> {
    set p | p in Others(rows, exclude) :: rows[p].nodeId
  }

  function Macs(rows: Table, exclude: Option<Pk>): set<string> {
    set p | p in Others(rows, exclude) :: rows[p].mac
  }

  lemma ColumnSizes(rows: Table, exclude: Option<Pk>)
    ensures |Numbers(rows, exclude)| <= |rows|
    ensures |Ids(rows, exclude)| <= |rows|
    ensures |Macs(rows, exclude)| <= |rows|
  {
    var ps := Others(rows, exclude);
    SubsetSize(ps, rows.Keys);
    var blank := Node(0, "", "", false, None, None);
    ImageSize(ps, (p: Pk) => (if p in rows then rows[p] else blank).number, Numbers(rows, exclude));
    ImageSize(ps, (p: Pk) => (if p in rows then rows[p] else blank).nodeId, Ids(rows, exclude));
    ImageSize(ps, (p: Pk) => (if p in rows then rows[p] else blank).mac, Macs(rows, exclude));
  }

  // ------------------------------------------------------------ the probe

  datatype Identity = Identity(number: int, nodeId: string, mac: string)

  datatype Error =
    | NotNumeric | IdNotText | IdEmpty | IdTooLong | IdNotHex
    | MacNotText | MacWrongLength | MacNotHex
    | MacInUse | NumberInUse | NumberReserved | IdInUse
    | NotVirtual | NoUniqueKeyPair

  // ------------------------------------------------------------ normalization

  /** A caller-supplied value. `asInt` is the answer of Python's `int(text, 0)`. */
  datatype Value = Absent | Number(n: int) | Text(text: string, asInt: Option<int>) | Other

  /** The ASCII characters that `str.strip` removes. */
  predicate IsSpace(c: char) {
    c == ' ' || '\t' <= c <= '\r' || 28 <= c as int <= 31
  }

  function Strip(s: string): string {
    if s == "" then s
    else if IsSpace(s[0]) then Strip(s[1..])
    else if IsSpace(s[|s| - 1]) then Strip(s[..|s| - 1])
    else s
  }

  function Lower(c: char): char {
    if 'A' <= c <= 'Z' then (c as int + 32) as char else c
  }

  function LowerAll(s: string): (l: string)
    ensures |l| == |s| && forall i | 0 <= i < |s| :: l[i] == Lower(s[i])
  {
    seq(|s|, i requires 0 <= i < |s| => Lower(s[i]))
  }

  function NormalizeNumber(v: Value): Result<int, Error> {
    match v
    case Number(n) => Ok(n)
    case Text(_, Some(n)) => Ok(n)
    case _ => Err(NotNumeric)
  }

  function NormalizeNodeId(v: Value): (r: Result<string, Error>)
    ensures r.Ok? ==> IsNodeId(r.value)
  {
    if !v.Text? then Err(IdNotText)
    else
      var stripped := LowerAll(Strip(v.text));
      if stripped == "" then Err(IdEmpty)
      else
        var id := if stripped[0] == '!' then stripped else "!" + stripped;
        if |id| > 10 then Err(IdTooLong)
        else if id == "!" then Err(IdEmpty)
        else if !AllHexLower(id[1..]) then Err(IdNotHex)
        else Ok(id)
  }

  function Without(s: string, drop: set<char>): (r: string)
    ensures forall i | 0 <= i < |r| :: r[i] !in drop
  {
    if s == "" then "" else (if s[0] in drop then "" else [s[0]]) + Without(s[1..], drop)
  }

  predicate AllHexUpper(s: string) {
    forall i | 0 <= i < |s| :: IsHexUpper(s[i])
  }

  function NormalizeMac(v: Value): (r: Result<string, Error>)
    ensures r.Ok? ==> |r.value| == 17
  {
    if !v.Text? then Err(MacNotText)
    else
      var cleaned := UpperAll(Without(v.text, {'-', ':'}));
      if |cleaned| != 12 then Err(MacWrongLength)
      else if !AllHexUpper(cleaned) then Err(MacNotHex)
      else Ok(Grouped(cleaned))
  }

  /** Spelled out once more, by code. */
  predicate Blank(s: string) {
    forall i | 0 <= i < |s| :: s[i] as int in {9, 10, 11, 12, 13, 28, 29, 30, 31, 32}
  }

  predicate NoBlankEnds(s: string) {
    s != "" ==> !Blank([s[0]]) && !Blank([s[|s| - 1]])
  }

  lemma BlankIsSpace(c: char)
    ensures Blank([c]) <==> IsSpace(c)
  {
    assert [c][0] == c;
  }

  lemma StripFirst(s: string)
    requires s != "" && Blank([s[0]])
    ensures Strip(s) == Strip(s[1..])
  {
    BlankIsSpace(s[0]);
  }

  lemma StripLast(s: string)
    requires s != "" && !Blank([s[0]]) && Blank([s[|s| - 1]])
    ensures Strip(s) == Strip(s[..|s| - 1])
  {
    BlankIsSpace(s[0]);
    BlankIsSpace(s[|s| - 1]);
  }

  lemma StripNothing(s: string)
    requires NoBlankEnds(s)
    ensures Strip(s) == s
  {
    if s != "" {
      BlankIsSpace(s[0]);
      BlankIsSpace(s[|s| - 1]);
    }
  }

  lemma {:induction false} StripAfter(core: string, post: string)
    requires Blank(post) && NoBlankEnds(core)
    ensures Strip(core + post) == core
  {
    var s := core + post;
    hide Strip;
    if post == "" {
      assert s == core;
      StripNothing(core);
    } else if core == "" {
      assert s == post && s[1..] == core + post[1..];
      assert [s[0]][0] == post[0];
      StripFirst(s);
      StripAfter(core, post[1..]);
    } else {
      var n := |post| - 1;
      assert s[0] == core[0] && s[|s| - 1] == post[n] && s[..|s| - 1] == core + post[..n];
      assert [s[|s| - 1]][0] == post[n];
      StripLast(s);
      StripAfter(core, post[..n]);
    }
  }

  lemma {:induction false} StripPadded(pre: string, core: string, post: string)
    requires Blank(pre) && Blank(post) && NoBlankEnds(core)
    ensures Strip(pre + core + post) == core
  {
    var s := pre + core + post;
    hide Strip, NoBlankEnds;
    if pre == "" {
      assert s == core + post;
      StripAfter(core, post);
    } else {
      assert s[0] == pre[0] && s[1..] == pre[1..] + core + post;
      assert [s[0]][0] == pre[0];
      StripFirst(s);
      StripPadded(pre[1..], core, post);
    }
  }

  /** Every text is a core between blanks. */
  lemma {:induction false} TextParts(s: string) returns (pre: string, core: string, post: string)
    ensures s == pre + core + post && Blank(pre) && Blank(post) && NoBlankEnds(core)
    decreases |s|
  {
    pre, core, post := "", s, "";
    if s != "" {
      var n := |s| - 1;
      if Blank([s[0]]) {
        pre, core, post := TextParts(s[1..]);
        assert s == [s[0]] + s[1..];
        pre := [s[0]] + pre;
      } else if Blank([s[n]]) {
        pre, core, post := TextParts(s[..n]);
        assert s == s[..n] + [s[n]];
        post := post + [s[n]];
      }
    }
  }

  lemma {:induction false} LowerHex(s: string)
    ensures AllHex(s) <==> AllHexLower(LowerAll(s))
    ensures AllHex(s) ==> HexValue(LowerAll(s)) == HexValue(s)
  {
    if s != "" {
      var n := |s| - 1;
      LowerHex(s[..n]);
      assert LowerAll(s)[..n] == LowerAll(s[..n]);
      assert AllHex(s) <==> AllHex(s[..n]) && (IsHexLower(s[n]) || IsHexUpper(s[n]));
      assert AllHexLower(LowerAll(s)) <==> AllHexLower(LowerAll(s[..n])) && IsHexLower(LowerAll(s)[n]);
    }
  }

  /** What becomes of a node id given as text: blanks around it are dropped, a leading exclamation
      mark may be missing, at most nine digits of either case may follow, and the id is the same digits
      in lower case after an exclamation mark. */
  lemma NodeIdAnswer(text: string, asInt: Option<int>, pre: string, core: string, post: string)
    requires text == pre + core + post && Blank(pre) && Blank(post) && NoBlankEnds(core)
    ensures var r := NormalizeNodeId(Text(text, asInt));
            var body := if core != "" && core[0] == '!' then core[1..] else core;
            if |body| > 9 then r == Err(IdTooLong)
            else if body == "" then r == Err(IdEmpty)
            else if !AllHex(body) then r == Err(IdNotHex)
            else r.Ok? && |r.value| == 1 + |body| && r.value[0] == '!' && AllHexLower(r.value[1..]) && HexValue(r.value[1..]) == HexValue(body)
  {
    StripPadded(pre, core, post);
    var stripped := LowerAll(core);
    if core != "" {
      assert stripped[0] == '!' <==> core[0] == '!';
      assert core[0] == '!' ==> stripped[1..] == LowerAll(core[1..]);
      var id := if stripped[0] == '!' then stripped else "!" + stripped;
      assert id[1..] == LowerAll(if core[0] == '!' then core[1..] else core);
    }
    LowerHex(if core != "" && core[0] == '!' then core[1..] else core);
    hide Strip, LowerAll, AllHex, HexValue;
  }

  /** `h` is what is left of the text without dashes and colons. */
  predicate Separated(text: string, h: string) {
    if text == "" then h == ""
    else if text[0] == '-' || text[0] == ':' then Separated(text[1..], h)
    else h != "" && h[0] == text[0] && Separated(text[1..], h[1..])
  }

  lemma {:induction false} SeparatedIff(text: string, h: string)
    ensures Separated(text, h) <==> Without(text, {'-', ':'}) == h
  {
    if text != "" {
      if text[0] == '-' || text[0] == ':' {
        SeparatedIff(text[1..], h);
        assert Without(text, {'-', ':'}) == Without(text[1..], {'-', ':'});
      } else {
        assert Without(text, {'-', ':'}) == [text[0]] + Without(text[1..], {'-', ':'});
        if h != "" {
          SeparatedIff(text[1..], h[1..]);
          assert h == [h[0]] + h[1..];
        }
      }
    }
  }

  lemma {:induction false} UpperHex(s: string)
    ensures AllHex(s) <==> AllHexUpper(UpperAll(s))
    ensures AllHex(s) ==> AllHex(UpperAll(s)) && HexValue(UpperAll(s)) == HexValue(s)
  {
    if s != "" {
      var n := |s| - 1;
      UpperHex(s[..n]);
      assert UpperAll(s)[..n] == UpperAll(s[..n]);
      assert AllHex(s) <==> AllHex(s[..n]) && (IsHexLower(s[n]) || IsHexUpper(s[n]));
      assert AllHexUpper(UpperAll(s)) <==> AllHexUpper(UpperAll(s[..n])) && IsHexUpper(UpperAll(s)[n]);
    }
  }

  /** What becomes of a MAC given as text: dashes and colons anywhere are dropped, exactly twelve
      digits of either case must remain, and the MAC is those in upper case, in pairs with colons. */
  lemma MacAnswer(text: string, asInt: Option<int>, h: string)
    requires Separated(text, h)
    ensures var r := NormalizeMac(Text(text, asInt));
            if |h| != 12 then r == Err(MacWrongLength)
            else if !AllHex(h) then r == Err(MacNotHex)
            else
              && r.Ok? && r.value[2] == r.value[5] == r.value[8] == r.value[11] == r.value[14] == ':'
              && AllHexUpper(MacDigits(r.value)) && HexValue(MacDigits(r.value)) == HexValue(h)
  {
    SeparatedIff(text, h);
    UpperHex(h);
    if |h| == 12 {
      var u := UpperAll(h);
      DigitsOfGrouped(u);
    }
    hide Without, UpperAll, AllHex, HexValue, Grouped, MacDigits;
  }

  lemma DigitsOfGrouped(u: string)
    requires |u| == 12
    ensures MacDigits(Grouped(u)) == u
    ensures var m := Grouped(u); m[2] == m[5] == m[8] == m[11] == m[14] == ':'
  {
    hide Grouped, MacDigits;
    forall i | 0 <= i < 12
      ensures MacDigits(Grouped(u))[i] == u[i]
    {
      GroupedAt(u, i / 2);
      MacDigitsAt(Grouped(u), i / 2);
      assert i == 2 * (i / 2) || i == 2 * (i / 2) + 1;
    }
    GroupedAt(u, 0);
    GroupedAt(u, 1);
    GroupedAt(u, 2);
    GroupedAt(u, 3);
    GroupedAt(u, 4);
  }

  /** A number given as such is itself, one given as text is what Python reads, and nothing else is a
      number; only text can be an id or a MAC. */
  lemma OtherValues(v: Value)
    ensures NormalizeNumber(v) == if v.Number? then Ok(v.n) else if v.Text? && v.asInt.Some? then Ok(v.asInt.value) else Err(NotNumeric)
    ensures !v.Text? ==> NormalizeNodeId(v) == Err(IdNotText) && NormalizeMac(v) == Err(MacNotText)
  {
  }

  lemma StripNodeId(id: string)
    requires IsNodeId(id)
    ensures Strip(id) == id && LowerAll(id) == id
  {
    assert !IsSpace(id[0]) && IsHexLower(id[1..][|id| - 2]);
    assert forall i | 1 <= i < |id| :: id[i] == id[1..][i - 1];
    assert LowerAll(id) == id;
  }

  /** A node id is left alone by normalization exactly when it is already in normal form. */
  lemma NodeIdNormalForm(id: string, asInt: Option<int>)
    ensures NormalizeNodeId(Text(id, asInt)) == Ok(id) <==> IsNodeId(id)
  {
    if IsNodeId(id) {
      StripNodeId(id);
    }
  }

  lemma {:induction false} WithoutConcat(a: string, b: string, drop: set<char>)
    ensures Without(a + b, drop) == Without(a, drop) + Without(b, drop)
  {
    if a == "" {
      assert a + b == b;
    } else {
      assert (a + b)[1..] == a[1..] + b;
      WithoutConcat(a[1..], b, drop);
    }
  }

  lemma {:induction false} WithoutNothing(a: string, drop: set<char>)
    requires forall i | 0 <= i < |a| :: a[i] !in drop
    ensures Without(a, drop) == a
  {
    if a != "" {
      WithoutNothing(a[1..], drop);
    }
  }

  /** Whatever separators and case a MAC is written with, its normal form is what normalizing it
      again gives, and it is the colon-grouped uppercase form. */
  lemma MacNormalForm(v: Value, asInt: Option<int>)
    requires NormalizeMac(v).Ok?
    ensures NormalizeMac(Text(NormalizeMac(v).value, asInt)) == NormalizeMac(v)
  {
    hide Strip, LowerAll;
    var h := UpperAll(Without(v.text, {'-', ':'}));
    UngroupGrouped(h);
    assert UpperAll(h) == h;
  }

  lemma UngroupGrouped(h: string)
    requires |h| == 12 && AllHexUpper(h)
    ensures Without(Grouped(h), {'-', ':'}) == h
  {
    hide Without;
    var d := {'-', ':'};
    var r5 := h[10..12];
    var r4 := h[8..10] + ":" + r5;
    var r3 := h[6..8] + ":" + r4;
    var r2 := h[4..6] + ":" + r3;
    var r1 := h[2..4] + ":" + r2;
    assert Grouped(h) == h[0..2] + ":" + r1;
    WithoutNothing(r5, d);
    DropColon(h[8..10], r5, d);
    DropColon(h[6..8], r4, d);
    DropColon(h[4..6], r3, d);
    DropColon(h[2..4], r2, d);
    DropColon(h[0..2], r1, d);
    assert h == h[0..2] + (h[2..4] + (h[4..6] + (h[6..8] + (h[8..10] + h[10..12]))));
  }

  lemma DropColon(pair: string, rest: string, drop: set<char>)
    requires ':' in drop && forall i | 0 <= i < |pair| :: pair[i] !in drop
    ensures Without(pair + ":" + rest, drop) == pair + Without(rest, drop)
  {
    WithoutColon(drop);
    hide Without;
    WithoutConcat(pair + ":", rest, drop);
    WithoutConcat(pair, ":", drop);
    WithoutNothing(pair, drop);
    assert pair + "" == pair;
  }

  lemma WithoutColon(drop: set<char>)
    requires ':' in drop
    ensures Without(":", drop) == ""
  {
    assert ":"[1..] == "";
  }

  /** The parts of an identity a caller supplied, already normalized. */
  datatype Request = Request(number: Option<int>, nodeId: Option<string>, mac: Option<string>)

  function IdFor(req: Request, c: nat): string {
    req.nodeId.GetOr(DefaultNodeId(c))
  }

  function MacFor(req: Request, c: nat): string {
    req.mac.GetOr(DefaultMac(c))
  }

  /** The candidate collides in no column. */
  predicate Free(rows: Table, exclude: Option<Pk>, req: Request, c: nat) {
    c !in Numbers(rows, exclude) && IdFor(req, c) !in Ids(rows, exclude) && MacFor(req, c) !in Macs(rows, exclude)
  }

  /** The probe moves past `c`: it collides in a column the caller left open. */
  predicate Skipped(rows: Table, exclude: Option<Pk>, req: Request, c: nat) {
    if c in Numbers(rows, exclude) then req.number == None
    else if IdFor(req, c) in Ids(rows, exclude) then req.nodeId == None
    else MacFor(req, c) in Macs(rows, exclude) && req.mac == None
  }

  /** What the probe answers at the first candidate it does not skip. */
  function Verdict(rows: Table, exclude: Option<Pk>, req: Request, c: nat): Result<Identity, Error> {
    if c in Numbers(rows, exclude) then Err(NumberInUse)
    else if IdFor(req, c) in Ids(rows, exclude) then Err(IdInUse)
    else if MacFor(req, c) in Macs(rows, exclude) then Err(MacInUse)
    else Ok(Identity(c, IdFor(req, c), MacFor(req, c)))
  }

  /** Candidates whose default id and MAC are free too are never skipped. */
  lemma OpenIsNotSkipped(rows: Table, exclude: Option<Pk>, req: Request, c: nat)
    requires c !in Numbers(rows, exclude)
    requires DefaultNodeId(c) !in Ids(rows, exclude) && DefaultMac(c) !in Macs(rows, exclude)
    ensures !Skipped(rows, exclude, req, c)
  {
    hide DefaultNodeId, DefaultMac, Numbers, Ids, Macs;
  }

  lemma CloseCandidatesDiffer(m: nat, n: nat)
    requires m < n < m + SPAN && n < Pow16(12)
    ensures DefaultNodeId(m) != DefaultNodeId(n) && DefaultMac(m) != DefaultMac(n)
  {
    hide DefaultNodeId, DefaultMac;
    DefaultIdAliases(m, n);
    if DefaultMac(m) == DefaultMac(n) {
      MacInjective(m, n);
    }
  }

  /** Below 2^48, three candidates per row and one more always contain one that is not skipped. */
  lemma NearStop(rows: Table, exclude: Option<Pk>, req: Request, from: nat) returns (stop: nat)
    requires 3 * |rows| + 1 <= SPAN && from + 3 * |rows| < Pow16(12)
    ensures from <= stop <= from + 3 * |rows| && !Skipped(rows, exclude, req, stop)
  {
    hide DefaultNodeId, DefaultMac, Numbers, Ids, Macs, Skipped, Pow16;
    ColumnSizes(rows, exclude);
    var k := 3 * |rows| + 1;
    var number := (j: nat) => from + j as int;
    var nodeId := (j: nat) => DefaultNodeId(from + j);
    var mac := (j: nat) => DefaultMac(from + j);
    forall i: nat, j: nat | i < j < k
      ensures nodeId(i) != nodeId(j) && mac(i) != mac(j)
    {
      CloseCandidatesDiffer(from + i, from + j);
    }
    var j := Pigeonhole(k, number, Numbers(rows, exclude), nodeId, Ids(rows, exclude), mac, Macs(rows, exclude));
    stop := from + j;
    OpenIsNotSkipped(rows, exclude, req, stop);
  }

  // Beyond 2^48 MACs repeat, so the probe may walk further; it still stops.

  /** A number with `e` low digits equal to `r` and the given leading part. */
  function Spread(e: nat, r: nat, j: nat): nat {
    (Pow16(11) + j) * Pow16(e) + r
  }

  lemma SpreadDiffers(e: nat, r: nat, i: nat, j: nat)
    requires r < Pow16(e) && i < j && Pow16(11) + j < Pow16(12)
    ensures Spread(e, r, i) != Spread(e, r, j) && DefaultMac(Spread(e, r, i)) != DefaultMac(Spread(e, r, j))
  {
    hide *;
    LeadingOfSpread(e, r, i);
    LeadingOfSpread(e, r, j);
    LeadingDiffers(Pow16(11) + i, Pow16(11) + j, Spread(e, r, i), Spread(e, r, j));
  }

  /** Numbers with different leading digits have different MACs. */
  lemma LeadingDiffers(s: nat, t: nat, m: nat, n: nat)
    requires s != t && HexPadded(m, 12)[..12] == Hex(s) && HexPadded(n, 12)[..12] == Hex(t)
    ensures m != n && DefaultMac(m) != DefaultMac(n)
  {
    hide *;
    HexValueOfHex(s);
    HexValueOfHex(t);
    if DefaultMac(m) == DefaultMac(n) {
      MacDetermines(m, n);
    }
  }

  lemma LeadingOfSpread(e: nat, r: nat, i: nat)
    requires r < Pow16(e) && Pow16(11) + i < Pow16(12)
    ensures HexPadded(Spread(e, r, i), 12)[..12] == Hex(Pow16(11) + i)
  {
    hide Hex, HexPadded, Pow16;
    LeadingTwelve(Pow16(11) + i, e, r);
  }

  lemma LeadingTwelve(t: nat, e: nat, r: nat)
    requires Pow16(11) <= t < Pow16(12) && r < Pow16(e)
    ensures HexPadded(t * Pow16(e) + r, 12)[..12] == Hex(t)
  {
    hide Hex;
    HexLength(t, 11);
    HexLength(t, 12);
    LeadingDigits(t, e, r);
  }

  lemma {:induction false} PowGrows(k: nat)
    ensures Pow16(k) > k
  {
    if k > 0 {
      PowGrows(k - 1);
    }
  }

  lemma {:induction false} PowSplit(k: nat)
    ensures Pow16(8 + k) == SPAN * Pow16(k)
  {
    if k == 0 {
      Pow16Of8();
    } else {
      PowSplit(k - 1);
    }
  }

  lemma Aliased(m: nat, k: nat, r: nat)
    requires r < SPAN
    ensures (m * Pow16(8 + k) + r) % SPAN == r
  {
    PowSplit(k);
    var q := m * Pow16(k);
    assert m * (SPAN * Pow16(k)) == q * SPAN;
    assert (q * SPAN + r) / SPAN == q;
  }

  /** Some default id is free as long as the table has fewer than 2^32 rows. */
  lemma FreeResidue(rows: Table, exclude: Option<Pk>) returns (r: nat)
    requires |rows| < SPAN
    ensures r < SPAN && DefaultNodeId(r) !in Ids(rows, exclude)
  {
    hide DefaultNodeId, Ids;
    ColumnSizes(rows, exclude);
    var nodeId := (j: nat) => DefaultNodeId(j);
    forall i: nat, j: nat | i < j < |rows| + 1
      ensures nodeId(i) != nodeId(j)
    {
      DefaultIdAliases(i, j);
    }
    r := Pigeonhole<string, int, int>(|rows| + 1, nodeId, Ids(rows, exclude), (j: nat) => j as int, {}, (j: nat) => j as int, {});
  }

  /** The probe stops from any starting number, given fewer than 2^32 rows. */
  lemma Stops(rows: Table, exclude: Option<Pk>, req: Request, from: nat) returns (stop: nat)
    requires |rows| < SPAN
    ensures from <= stop && !Skipped(rows, exclude, req, stop)
  {
    hide DefaultNodeId, DefaultMac, Numbers, Ids, Macs, Skipped, Spread, Pow16;
    ColumnSizes(rows, exclude);
    var r := FreeResidue(rows, exclude);
    var e := 8 + from;
    PowSplit(from);
    assert Pow16(from) >= 1;
    var k := 2 * |rows| + 1;
    var number := (j: nat) => Spread(e, r, j) as int;
    var mac := (j: nat) => DefaultMac(Spread(e, r, j));
    RoomForSpread(|rows|);
    forall i: nat, j: nat | i < j < k
      ensures number(i) != number(j) && mac(i) != mac(j)
    {
      SpreadDiffers(e, r, i, j);
    }
    var j := Pigeonhole<int, string, string>(k, number, Numbers(rows, exclude), mac, Macs(rows, exclude), (j: nat) => "", {});
    stop := Spread(e, r, j);
    SpreadFar(from, r, j);
    DefaultIdAliases(stop, r);
    OpenIsNotSkipped(rows, exclude, req, stop);
  }

  lemma RoomForSpread(n: nat)
    requires n < SPAN
    ensures Pow16(11) + 2 * n + 1 < Pow16(12)
  {
    Pow16Of8();
    assert Pow16(11) == 16 * Pow16(10) && Pow16(10) == 16 * Pow16(9) && Pow16(9) == 16 * Pow16(8);
    assert Pow16(12) == 16 * Pow16(11);
  }

  lemma SpreadFar(from: nat, r: nat, j: nat)
    requires r < SPAN
    ensures Spread(8 + from, r, j) >= from && Spread(8 + from, r, j) % SPAN == r % SPAN
  {
    Aliased(Pow16(11) + j, from, r);
    PowGrows(8 + from);
    assert (Pow16(11) + j) * Pow16(8 + from) >= Pow16(8 + from);
  }

  // ------------------------------------------------------------ keys

  datatype KeyPair = KeyPair(publicKey: string, privateKey: string)

  /** `_key_material_in_use`. */
  predicate KeysInUse(rows: Table, exclude: Option<Pk>, k: KeyPair) {
    || (exists p | p in rows && Some(p) != exclude :: rows[p].publicKey == Some(k.publicKey))
    || (k.privateKey != "" && exists p | p in rows && Some(p) != exclude :: rows[p].privateKey == Some(k.privateKey))
  }

  /** No other row holds either key. */
  ghost predicate KeysFree(rows: Table, exclude: Option<Pk>, k: KeyPair) {
    forall p | p in rows && Some(p) != exclude :: rows[p].publicKey != Some(k.publicKey) && rows[p].privateKey != Some(k.privateKey)
  }

  ghost predicate AllDrawsUsed(rows: Table, exclude: Option<Pk>, draws: seq<KeyPair>) {
    forall k | k in draws :: !KeysFree(rows, exclude, k)
  }

  ghost predicate FirstFreeDraw(rows: Table, exclude: Option<Pk>, draws: seq<KeyPair>, k: KeyPair) {
    exists i :: 0 <= i < |draws| && k == draws[i] && KeysFree(rows, exclude, draws[i]) && forall j | 0 <= j < i :: !KeysFree(rows, exclude, draws[j])
  }

  const MAX_KEY_GENERATION_ATTEMPTS := 32

  /** What the key generator yields over one allocation: base64 texts, never empty. */
  predicate Drawn(draws: seq<KeyPair>) {
    |draws| == MAX_KEY_GENERATION_ATTEMPTS && forall k | k in draws :: k.publicKey != "" && k.privateKey != ""
  }

  /** `draws` are the key pairs the generator produces, one per attempt. */
  method GenerateKeyPair(rows: Table, exclude: Option<Pk>, draws: seq<KeyPair>) returns (r: Result<KeyPair, Error>)
    requires Drawn(draws)
    ensures if AllDrawsUsed(rows, exclude, draws) then r == Err(NoUniqueKeyPair) else r.Ok? && FirstFreeDraw(rows, exclude, draws, r.value)
  {
    assert forall k | k in draws :: KeysFree(rows, exclude, k) <==> !KeysInUse(rows, exclude, k);
    hide KeysFree, KeysInUse;
    for i := 0 to MAX_KEY_GENERATION_ATTEMPTS
      invariant forall j | 0 <= j < i :: KeysInUse(rows, exclude, draws[j])
    {
      if !KeysInUse(rows, exclude, draws[i]) {
        return Ok(draws[i]);
      }
    }
    return Err(NoUniqueKeyPair);
  }

  // ------------------------------------------------------------ the registry

  ghost predicate UniqueColumns(rows: Table) {
    forall p, q | p in rows && q in rows && p != q ::
      rows[p].number != rows[q].number && rows[p].nodeId != rows[q].nodeId && rows[p].mac != rows[q].mac
  }

  ghost predicate VirtualNumbersReserved(rows: Table) {
    forall p | p in rows && rows[p].isVirtual :: rows[p].number >= VIRTUAL_NODE_NUM_START
  }

  /** No other row holds a virtual node's public or private key. */
  ghost predicate VirtualKeysUnshared(rows: Table) {
    forall p, q | p in rows && q in rows && p != q && rows[p].isVirtual ::
      && (rows[p].publicKey.Some? ==> rows[p].publicKey != rows[q].publicKey)
      && (rows[p].privateKey.Some? ==> rows[p].privateKey != rows[q].privateKey)
  }

  ghost predicate Registered(rows: Table) {
    UniqueColumns(rows) && VirtualNumbersReserved(rows) && VirtualKeysUnshared(rows)
  }

  /** An identity that collides with no other row and lies in the virtual range. */
  predicate Available(rows: Table, exclude: Option<Pk>, i: Identity) {
    && i.number >= VIRTUAL_NODE_NUM_START
    && i.number !in Numbers(rows, exclude) && i.nodeId !in Ids(rows, exclude) && i.mac !in Macs(rows, exclude)
  }

  // What the caller of an allocation can observe, spelled out over the rows.

  ghost predicate NumberTaken(rows: Table, exclude: Option<Pk>, n: int) {
    exists p :: p in rows && Some(p) != exclude && rows[p].number == n
  }

  ghost predicate IdTaken(rows: Table, exclude: Option<Pk>, id: string) {
    exists p :: p in rows && Some(p) != exclude && rows[p].nodeId == id
  }

  ghost predicate MacTaken(rows: Table, exclude: Option<Pk>, mac: string) {
    exists p :: p in rows && Some(p) != exclude && rows[p].mac == mac
  }

  /** The first fault of a request, in the order in which they are looked for. */
  ghost function FirstFault(rows: Table, exclude: Option<Pk>, number: Value, nodeId: Value, mac: Value): Option<Error> {
    if nodeId != Absent && NormalizeNodeId(nodeId).Err? then Some(NormalizeNodeId(nodeId).error)
    else if mac != Absent && NormalizeMac(mac).Err? then Some(NormalizeMac(mac).error)
    else if number != Absent && NormalizeNumber(number).Err? then Some(NotNumeric)
    else if mac != Absent && MacTaken(rows, exclude, NormalizeMac(mac).value) then Some(MacInUse)
    else if number != Absent && NumberTaken(rows, exclude, NormalizeNumber(number).value) then Some(NumberInUse)
    else if number != Absent && NormalizeNumber(number).value < 1_000_000_000 then Some(NumberReserved)
    else None
  }

  /** A request has no fault exactly when each given field normalizes, a given MAC belongs to no other
      row, and a given number belongs to none and is at least 10^9. */
  lemma NoFaultIff(rows: Table, exclude: Option<Pk>, number: Value, nodeId: Value, mac: Value)
    ensures FirstFault(rows, exclude, number, nodeId, mac) == None <==>
              && (nodeId != Absent ==> NormalizeNodeId(nodeId).Ok?)
              && (mac != Absent ==> NormalizeMac(mac).Ok? && !MacTaken(rows, exclude, NormalizeMac(mac).value))
              && (number != Absent ==>
                    && NormalizeNumber(number).Ok? && NormalizeNumber(number).value >= 1_000_000_000
                    && !NumberTaken(rows, exclude, NormalizeNumber(number).value))
  {
    hide NormalizeNodeId, NormalizeMac;
  }

  /** The identity a number would get: given fields as given, the others by default. */
  ghost function IdentityAt(nodeId: Value, mac: Value, c: nat): Identity {
    Identity(c,
             if nodeId != Absent && NormalizeNodeId(nodeId).Ok? then NormalizeNodeId(nodeId).value else DefaultNodeId(c),
             if mac != Absent && NormalizeMac(mac).Ok? then NormalizeMac(mac).value else DefaultMac(c))
  }

  ghost predicate AllFree(rows: Table, exclude: Option<Pk>, i: Identity) {
    !NumberTaken(rows, exclude, i.number) && !IdTaken(rows, exclude, i.nodeId) && !MacTaken(rows, exclude, i.mac)
  }

  /** The first number looked at: the one given, else the seed of the id given, else one past the
      largest in the table but never below 10^9. */
  ghost predicate FirstNumber(rows: Table, number: Value, nodeId: Value, from: nat) {
    if number != Absent then NormalizeNumber(number) == Ok(from)
    else if nodeId != Absent then NormalizeNodeId(nodeId).Ok? && from == Seed(NormalizeNodeId(nodeId).value)
    else
      && from >= 1_000_000_000 && (forall p | p in rows :: rows[p].number < from)
      && (from == 1_000_000_000 || exists p :: p in rows && rows[p].number == from - 1)
  }

  /** The whole answer of an allocation. Faults first; then a given id that is taken; otherwise the
      first number from `from` on whose identity is free, except that a given number gives up at the
      first number that is taken. `stop` is the last number looked at. */
  ghost predicate Answer(rows: Table, exclude: Option<Pk>, number: Value, nodeId: Value, mac: Value, from: nat, stop: nat, r: Result<Identity, Error>) {
    var fault := FirstFault(rows, exclude, number, nodeId, mac);
    if fault.Some? then r == Err(fault.value)
    else if nodeId != Absent && IdTaken(rows, exclude, NormalizeNodeId(nodeId).value) then r == Err(IdInUse)
    else
      && FirstNumber(rows, number, nodeId, from) && from <= stop
      && (forall c: nat | from <= c < stop :: !AllFree(rows, exclude, IdentityAt(nodeId, mac, c))
                                              && (number != Absent ==> !NumberTaken(rows, exclude, c)))
      && (if number != Absent && NumberTaken(rows, exclude, stop) then r == Err(NumberInUse)
          else AllFree(rows, exclude, IdentityAt(nodeId, mac, stop)) && r == Ok(IdentityAt(nodeId, mac, stop)))
  }

  /** A given number is kept whenever it is acceptable and the identity that goes with it is free. */
  lemma GivenNumberAnswered(rows: Table, exclude: Option<Pk>, number: Value, nodeId: Value, mac: Value, from: nat, stop: nat, r: Result<Identity, Error>, n: nat)
    requires Answer(rows, exclude, number, nodeId, mac, from, stop, r)
    requires number != Absent && NormalizeNumber(number) == Ok(n) && n >= 1_000_000_000
    requires nodeId != Absent ==> NormalizeNodeId(nodeId).Ok?
    requires mac != Absent ==> NormalizeMac(mac).Ok?
    requires AllFree(rows, exclude, IdentityAt(nodeId, mac, n))
    ensures r == Ok(IdentityAt(nodeId, mac, n))
  {
    hide NormalizeNodeId, NormalizeMac, NumberTaken, IdTaken, MacTaken, DefaultNodeId, DefaultMac;
    assert stop > n ==> !AllFree(rows, exclude, IdentityAt(nodeId, mac, n));
  }

  /** Without a number, an allocation without fault fails only for an id that is given and taken. */
  lemma OpenNumberAnswered(rows: Table, exclude: Option<Pk>, nodeId: Value, mac: Value, from: nat, stop: nat, r: Result<Identity, Error>)
    requires Answer(rows, exclude, Absent, nodeId, mac, from, stop, r)
    requires FirstFault(rows, exclude, Absent, nodeId, mac) == None
    ensures r.Err? <==> nodeId != Absent && IdTaken(rows, exclude, NormalizeNodeId(nodeId).value)
    ensures r.Err? ==> r.error == IdInUse
  {
    hide FirstFault, NormalizeNodeId, NormalizeMac, NumberTaken, IdTaken, MacTaken, DefaultNodeId, DefaultMac;
  }

  lemma ColumnsAre(rows: Table, exclude: Option<Pk>)
    ensures forall n :: n in Numbers(rows, exclude) <==> NumberTaken(rows, exclude, n)
    ensures forall id :: id in Ids(rows, exclude) <==> IdTaken(rows, exclude, id)
    ensures forall mac :: mac in Macs(rows, exclude) <==> MacTaken(rows, exclude, mac)
  {
    forall n
      ensures n in Numbers(rows, exclude) <==> NumberTaken(rows, exclude, n)
    {
      if p :| p in rows && Some(p) != exclude && rows[p].number == n {
        assert p in Others(rows, exclude);
      }
    }
    forall id
      ensures id in Ids(rows, exclude) <==> IdTaken(rows, exclude, id)
    {
      if p :| p in rows && Some(p) != exclude && rows[p].nodeId == id {
        assert p in Others(rows, exclude);
      }
    }
    forall mac
      ensures mac in Macs(rows, exclude) <==> MacTaken(rows, exclude, mac)
    {
      if p :| p in rows && Some(p) != exclude && rows[p].mac == mac {
        assert p in Others(rows, exclude);
      }
    }
  }

  lemma CheckedFaults(rows: Table, exclude: Option<Pk>, number: Value, nodeId: Value, mac: Value)
    ensures var checked, fault := Checked(rows, exclude, number, nodeId, mac), FirstFault(rows, exclude, number, nodeId, mac);
            if checked.Err? then fault == Some(checked.error) else fault == None
  {
    ColumnsAre(rows, exclude);
    hide NormalizeNodeId, NormalizeMac, Numbers, Ids, Macs, NumberTaken, IdTaken, MacTaken;
  }

  lemma CandidateIs(rows: Table, exclude: Option<Pk>, number: Value, nodeId: Value, mac: Value, c: nat)
    requires Checked(rows, exclude, number, nodeId, mac).Ok?
    ensures var req, i := Checked(rows, exclude, number, nodeId, mac).value, IdentityAt(nodeId, mac, c);
            && IdFor(req, c) == i.nodeId && MacFor(req, c) == i.mac
            && (Free(rows, exclude, req, c) <==> AllFree(rows, exclude, i))
  {
    ColumnsAre(rows, exclude);
    CheckedFields(rows, exclude, number, nodeId, mac);
    CheckedOpen(rows, exclude, number, nodeId, mac);
    hide NormalizeNodeId, NormalizeMac, Numbers, Ids, Macs, NumberTaken, IdTaken, MacTaken, Checked, DefaultNodeId, DefaultMac;
  }

  /** One candidate: passed over, or decided on. */
  lemma CandidateAnswered(rows: Table, exclude: Option<Pk>, number: Value, nodeId: Value, mac: Value, c: nat)
    requires Checked(rows, exclude, number, nodeId, mac).Ok?
    ensures var req, i := Checked(rows, exclude, number, nodeId, mac).value, IdentityAt(nodeId, mac, c);
            var idTaken := nodeId != Absent && IdTaken(rows, exclude, i.nodeId);
            && (Skipped(rows, exclude, req, c) ==>
                  && !AllFree(rows, exclude, i) && (number != Absent ==> !NumberTaken(rows, exclude, c))
                  && (idTaken ==> NumberTaken(rows, exclude, c)))
            && (!Skipped(rows, exclude, req, c) ==>
                  var v := Verdict(rows, exclude, req, c);
                  if number != Absent && NumberTaken(rows, exclude, c) then v == Err(NumberInUse)
                  else if idTaken then v == Err(IdInUse)
                  else AllFree(rows, exclude, i) && v == Ok(i))
  {
    ColumnsAre(rows, exclude);
    CandidateIs(rows, exclude, number, nodeId, mac, c);
    CheckedFields(rows, exclude, number, nodeId, mac);
    CheckedOpen(rows, exclude, number, nodeId, mac);
    var req := Checked(rows, exclude, number, nodeId, mac).value;
    assert req.mac.Some? ==> !MacTaken(rows, exclude, req.mac.value);
    hide NormalizeNodeId, NormalizeMac, NormalizeNumber, Numbers, Ids, Macs, NumberTaken, IdTaken, MacTaken, Checked, DefaultNodeId, DefaultMac, IdentityAt;
  }

  lemma StartIs(rows: Table, exclude: Option<Pk>, number: Value, nodeId: Value, mac: Value, from: nat)
    requires Checked(rows, exclude, number, nodeId, mac).Ok? && StartsAt(rows, Checked(rows, exclude, number, nodeId, mac).value, from)
    ensures FirstNumber(rows, number, nodeId, from)
    ensures number != Absent ==> !NumberTaken(rows, exclude, from)
  {
    ColumnsAre(rows, exclude);
    CheckedFields(rows, exclude, number, nodeId, mac);
    CheckedOpen(rows, exclude, number, nodeId, mac);
    var req := Checked(rows, exclude, number, nodeId, mac).value;
    assert req.number.Some? ==> !NumberTaken(rows, exclude, req.number.value);
    hide NormalizeNodeId, NormalizeMac, NormalizeNumber, Numbers, Ids, Macs, NumberTaken, Checked, Seed, IsNodeId;
  }

  /** The checks and the probe together give the answer spelled out above. */
  lemma ProbedIsAnswer(rows: Table, exclude: Option<Pk>, number: Value, nodeId: Value, mac: Value, from: nat, stop: nat, r: Result<Identity, Error>)
    requires var checked := Checked(rows, exclude, number, nodeId, mac);
             if checked.Err? then r == Err(checked.error) else Probed(rows, exclude, checked.value, from, stop, r)
    ensures Answer(rows, exclude, number, nodeId, mac, from, stop, r)
  {
    CheckedFaults(rows, exclude, number, nodeId, mac);
    if Checked(rows, exclude, number, nodeId, mac).Ok? {
      CheckedFields(rows, exclude, number, nodeId, mac);
      hide NormalizeNodeId, NormalizeMac, NormalizeNumber, Checked, FirstFault, Probed, NumberTaken, IdTaken, MacTaken, AllFree, FirstNumber;
      PassedOverAnswer(rows, exclude, number, nodeId, mac, from, stop, r);
      CandidateAnswered(rows, exclude, number, nodeId, mac, stop);
      CandidateAnswered(rows, exclude, number, nodeId, mac, from);
    }
  }

  lemma PassedOverAnswer(rows: Table, exclude: Option<Pk>, number: Value, nodeId: Value, mac: Value, from: nat, stop: nat, r: Result<Identity, Error>)
    requires Checked(rows, exclude, number, nodeId, mac).Ok?
    requires Probed(rows, exclude, Checked(rows, exclude, number, nodeId, mac).value, from, stop, r)
    ensures var req := Checked(rows, exclude, number, nodeId, mac).value;
            && !Skipped(rows, exclude, req, stop) && r == Verdict(rows, exclude, req, stop) && (from < stop ==> Skipped(rows, exclude, req, from))
    ensures FirstNumber(rows, number, nodeId, from) && from <= stop
    ensures number != Absent ==> !NumberTaken(rows, exclude, from)
    ensures forall c: nat | from <= c < stop ::
              !AllFree(rows, exclude, IdentityAt(nodeId, mac, c)) && (number != Absent ==> !NumberTaken(rows, exclude, c))
  {
    var req := Checked(rows, exclude, number, nodeId, mac).value;
    StartIs(rows, exclude, number, nodeId, mac, from);
    hide NormalizeNodeId, NormalizeMac, NormalizeNumber, Checked, FirstFault, StartsAt, Skipped, Verdict, NumberTaken, IdTaken, MacTaken, AllFree, FirstNumber;
    forall c: nat | from <= c < stop
      ensures !AllFree(rows, exclude, IdentityAt(nodeId, mac, c)) && (number != Absent ==> !NumberTaken(rows, exclude, c))
    {
      assert Skipped(rows, exclude, req, c);
      CandidateAnswered(rows, exclude, number, nodeId, mac, c);
    }
  }

  /** The checks `_resolve_identity` makes before it probes. */
  function Checked(rows: Table, exclude: Option<Pk>, number: Value, nodeId: Value, mac: Value): (r: Result<Request, Error>)
    ensures r.Ok? && r.value.nodeId.Some? ==> IsNodeId(r.value.nodeId.value)
    ensures r.Ok? && r.value.number.Some? ==> r.value.number.value >= VIRTUAL_NODE_NUM_START && r.value.number.value !in Numbers(rows, exclude)
    ensures r.Ok? && r.value.mac.Some? ==> r.value.mac.value !in Macs(rows, exclude)
  {
    var id :- if nodeId == Absent then Ok(None) else WrapOk(NormalizeNodeId(nodeId));
    var m :- if mac == Absent then Ok(None) else WrapOk(NormalizeMac(mac));
    var n :- if number == Absent then Ok(None) else WrapOk(NormalizeNumber(number));
    if m.Some? && m.value in Macs(rows, exclude) then Err(MacInUse)
    else if n.Some? && n.value in Numbers(rows, exclude) then Err(NumberInUse)
    else if n.Some? && n.value < VIRTUAL_NODE_NUM_START then Err(NumberReserved)
    else Ok(Request(n, id, m))
  }

  function WrapOk<T>(r: Result<T, Error>): Result<Option<T>, Error> {
    match r
    case Ok(v) => Ok(Some(v))
    case Err(e) => Err(e)
  }

  /** Where the probe starts: the given number, the seed of the given id, or one past the largest
      number in the table, but never below the virtual range. */
  ghost predicate StartsAt(rows: Table, req: Request, from: nat) {
    match (req.number, req.nodeId)
    case (Some(n), _) => from == n
    case (None, Some(id)) => IsNodeId(id) && from == Seed(id)
    case (None, None) =>
      && from >= VIRTUAL_NODE_NUM_START
      && (forall p | p in rows :: rows[p].number < from)
      && (from == VIRTUAL_NODE_NUM_START || exists p :: p in rows && rows[p].number == from - 1)
  }

  method LargestNumber(rows: Table) returns (largest: Option<int>)
    ensures largest == None <==> rows == map[]
    ensures largest.Some? ==> (exists p :: p in rows && rows[p].number == largest.value) && forall p | p in rows :: rows[p].number <= largest.value
  {
    largest := None;
    var todo := rows.Keys;
    while todo != {}
      invariant todo <= rows.Keys
      invariant largest == None <==> todo == rows.Keys
      invariant largest.Some? ==> exists p :: p in rows && rows[p].number == largest.value
      invariant largest.Some? ==> forall p | p in rows && p !in todo :: rows[p].number <= largest.value
      decreases todo
    {
      var p :| p in todo;
      todo := todo - {p};
      if largest == None || rows[p].number > largest.value {
        largest := Some(rows[p].number);
      }
    }
  }

  /** `_next_available_node_num`. With no start it begins past the largest number in the table. */
  method NextAvailableNumber(rows: Table, start: Option<int>) returns (n: int)
    ensures n !in Numbers(rows, None)
    ensures start.Some? ==> n >= start.value && forall k | start.value <= k < n :: k in Numbers(rows, None)
    ensures start == None ==> n >= 0 && StartsAt(rows, Request(None, None, None), n)
  {
    var largest := LargestNumber(rows);
    var top := largest.GetOr(0);
    n := if start.Some? then start.value else Max(VIRTUAL_NODE_NUM_START, top + 1);
    ghost var first := n;
    while n in Numbers(rows, None)
      invariant n >= first
      invariant forall k | first <= k < n :: k in Numbers(rows, None)
      invariant start == None ==> n == first
      decreases if top >= n then top - n + 1 else 0
    {
      var p :| p in rows && rows[p].number == n;
      n := n + 1;
    }
  }

  method StartingCandidate(rows: Table, req: Request) returns (from: nat)
    requires req.nodeId.Some? ==> IsNodeId(req.nodeId.value)
    requires req.number.Some? ==> req.number.value >= VIRTUAL_NODE_NUM_START
    ensures StartsAt(rows, req, from) && from >= VIRTUAL_NODE_NUM_START
  {
    hide Seed, Numbers;
    if req.number.Some? {
      from := req.number.value;
    } else if req.nodeId.Some? {
      SeedInRange(req.nodeId.value);
      from := Seed(req.nodeId.value);
    } else {
      from := NextAvailableNumber(rows, None);
    }
  }

  /** Everything the probe from `from` to `stop` says: all candidates before `stop` collide in an
      open column, `stop` decides the answer, and it is reached within three candidates a row. */
  ghost predicate Probed(rows: Table, exclude: Option<Pk>, req: Request, from: nat, stop: nat, r: Result<Identity, Error>) {
    && StartsAt(rows, req, from) && from <= stop
    && (forall c | from <= c < stop :: Skipped(rows, exclude, req, c))
    && !Skipped(rows, exclude, req, stop)
    && r == Verdict(rows, exclude, req, stop)
    && (3 * |rows| + 1 <= SPAN && from + 3 * |rows| < Pow16(12) ==> stop - from + 1 <= 3 * |rows| + 1)
  }

  lemma Bound(rows: Table, exclude: Option<Pk>, req: Request, from: nat) returns (bound: nat)
    requires |rows| < SPAN
    ensures from <= bound && !Skipped(rows, exclude, req, bound)
    ensures 3 * |rows| + 1 <= SPAN && from + 3 * |rows| < Pow16(12) ==> bound <= from + 3 * |rows|
  {
    hide Skipped;
    if 3 * |rows| + 1 <= SPAN && from + 3 * |rows| < Pow16(12) {
      bound := NearStop(rows, exclude, req, from);
    } else {
      bound := Stops(rows, exclude, req, from);
    }
  }

  /** The probe loop of `_resolve_identity`. `stop` is the last candidate examined. */
  method Probe(rows: Table, exclude: Option<Pk>, req: Request, from: nat) returns (r: Result<Identity, Error>, ghost stop: nat)
    requires |rows| < SPAN && StartsAt(rows, req, from)
    ensures Probed(rows, exclude, req, from, stop, r)
    ensures r.Ok? ==> r.value.number >= from && Free(rows, exclude, req, r.value.number)
    ensures r.Ok? ==> r.value.nodeId == IdFor(req, r.value.number) && r.value.mac == MacFor(req, r.value.number)
  {
    hide DefaultNodeId, DefaultMac, Numbers, Ids, Macs, StartsAt, Pow16;
    var candidate := from;
    ghost var bound := Bound(rows, exclude, req, from);
    while true
      invariant from <= candidate <= bound
      invariant forall c | from <= c < candidate :: Skipped(rows, exclude, req, c)
      decreases bound - candidate
    {
      stop := candidate;
      if candidate in Numbers(rows, exclude) {
        if req.number.Some? {
          return Err(NumberInUse), stop;
        }
        candidate := candidate + 1;
        continue;
      }
      var targetNodeId := IdFor(req, candidate);
      if targetNodeId in Ids(rows, exclude) {
        if req.nodeId.Some? {
          return Err(IdInUse), stop;
        }
        candidate := candidate + 1;
        continue;
      }
      var targetMac := MacFor(req, candidate);
      if targetMac in Macs(rows, exclude) {
        if req.mac.Some? {
          return Err(MacInUse), stop;
        }
        candidate := candidate + 1;
        continue;
      }
      return Ok(Identity(candidate, targetNodeId, targetMac)), stop;
    }
  }

  /** `_resolve_identity`. `from` is the first candidate of the probe, `stop` the last one. */
  method ResolveIdentity(rows: Table, number: Value, nodeId: Value, mac: Value, exclude: Option<Pk>)
    returns (r: Result<Identity, Error>, ghost from: nat, ghost stop: nat)
    requires |rows| < SPAN
    ensures var checked := Checked(rows, exclude, number, nodeId, mac);
            if checked.Err? then r == Err(checked.error) else Probed(rows, exclude, checked.value, from, stop, r)
    ensures r.Ok? ==> Available(rows, exclude, r.value)
    ensures Answer(rows, exclude, number, nodeId, mac, from, stop, r)
  {
    hide Answer, StartsAt, IdFor, MacFor, Skipped, Numbers, Ids, Macs, NormalizeNodeId, NormalizeMac, Pow16;
    var checked := Checked(rows, exclude, number, nodeId, mac);
    if checked.Err? {
      r, from, stop := Err(checked.error), 0, 0;
      ProbedIsAnswer(rows, exclude, number, nodeId, mac, from, stop, r);
      return;
    }
    hide Checked;
    from := 0;
    var first := StartingCandidate(rows, checked.value);
    from := first;
    r, stop := Probe(rows, exclude, checked.value, first);
    ProbedIsAnswer(rows, exclude, number, nodeId, mac, from, stop, r);
  }

  /** An explicit number is kept exactly when its own id and MAC are free as well; otherwise the
      probe moves on to another number or fails. `probe` is the outcome of the loop above. */
  lemma ExplicitNumberKeptIff(rows: Table, exclude: Option<Pk>, req: Request, stop: nat)
    requires req.number.Some? && 0 <= req.number.value <= stop && req.number.value !in Numbers(rows, exclude)
    requires forall c | req.number.value <= c < stop :: Skipped(rows, exclude, req, c)
    requires !Skipped(rows, exclude, req, stop)
    ensures Verdict(rows, exclude, req, stop).Ok? && Verdict(rows, exclude, req, stop).value.number == req.number.value
       <==> Free(rows, exclude, req, req.number.value)
  {
    hide DefaultNodeId, DefaultMac, Numbers, Ids, Macs;
    if stop > req.number.value {
      assert Skipped(rows, exclude, req, req.number.value);
    }
  }

  /** It is given up, for example, when a physical node holds the id: its number is `m`, the request
      asks for `m` plus 2^32, whose default id is the same, and gets the next number. */
  lemma ExplicitNumberMoves(m: nat)
    requires m < SPAN - 1
    ensures var n: nat := m + SPAN;
            var rows: Table := map[1 := Node(m, DefaultNodeId(m), DefaultMac(m), false, None, None)];
            var req := Request(Some(n), None, None);
            && n !in Numbers(rows, None) && !Free(rows, None, req, n)
            && Skipped(rows, None, req, n) && !Skipped(rows, None, req, n + 1)
            && Verdict(rows, None, req, n + 1) == Ok(Identity(n + 1, DefaultNodeId(n + 1), DefaultMac(n + 1)))
  {
    hide *;
    var n: nat := m + SPAN;
    NextIdDiffers(m);
    MacsDiffer(m, n + 1);
    OneIdTaken(map[1 := Node(m, DefaultNodeId(m), DefaultMac(m), false, None, None)], 1, n);
  }

  lemma NextIdDiffers(m: nat)
    requires m < SPAN - 1
    ensures DefaultNodeId(m) == DefaultNodeId(m + SPAN) != DefaultNodeId(m + SPAN + 1)
  {
    hide *;
    Wraps(m);
    Wraps(m + 1);
    DefaultIdAliases(m, m + SPAN);
    DefaultIdAliases(m, m + 1 + SPAN);
  }

  lemma Wraps(m: nat)
    requires m < SPAN
    ensures (m + SPAN) % SPAN == m == m % SPAN
  {
    hide *;
  }

  lemma OneIdTaken(rows: Table, pk: Pk, n: nat)
    requires rows.Keys == {pk} && rows[pk].number !in {n, n + 1}
    requires rows[pk].nodeId == DefaultNodeId(n) != DefaultNodeId(n + 1) && rows[pk].mac != DefaultMac(n + 1)
    ensures var req := Request(Some(n), None, None);
            && n !in Numbers(rows, None) && !Free(rows, None, req, n)
            && Skipped(rows, None, req, n) && !Skipped(rows, None, req, n + 1)
            && Verdict(rows, None, req, n + 1) == Ok(Identity(n + 1, DefaultNodeId(n + 1), DefaultMac(n + 1)))
  {
    hide DefaultNodeId, DefaultMac, Numbers, Ids, Macs;
    OneRowColumns(rows, pk);
  }

  lemma MacsDiffer(m: nat, n: nat)
    requires m < n <= 2 * SPAN
    ensures DefaultMac(m) != DefaultMac(n)
  {
    hide DefaultMac;
    PowSplit(4);
    PowGrows(4);
    assert Pow16(4) >= 5 && SPAN * Pow16(4) >= SPAN * 5;
    hide Pow16;
    if DefaultMac(m) == DefaultMac(n) {
      MacInjective(m, n);
    }
  }

  lemma OneRowColumns(rows: Table, pk: Pk)
    requires rows.Keys == {pk}
    ensures Numbers(rows, None) == {rows[pk].number} && Ids(rows, None) == {rows[pk].nodeId} && Macs(rows, None) == {rows[pk].mac}
  {
    assert Others(rows, None) == {pk};
  }

  /** The fields of an update that concern identity: outer None when the key is not in the data. */
  datatype IdentityUpdate = IdentityUpdate(number: Option<Value>, nodeId: Option<Value>, mac: Option<Value>)

  function AsText(s: string): Value {
    Text(s, None)
  }

  lemma PlacingKeepsRegistered(rows: Table, pk: Pk, n: Node)
    requires Registered(rows) && n.isVirtual
    requires Available(rows, Some(pk), Identity(n.number, n.nodeId, n.mac))
    requires forall q | q in rows && q != pk ::
               && (n.publicKey.Some? ==> rows[q].publicKey != n.publicKey)
               && (n.privateKey.Some? ==> rows[q].privateKey != n.privateKey)
    ensures Registered(rows[pk := n])
  {
    var t := rows[pk := n];
    forall q | q in rows && q != pk
      ensures n.number != rows[q].number && n.nodeId != rows[q].nodeId && n.mac != rows[q].mac
    {
      assert q in Others(rows, Some(pk));
      assert rows[q].number in Numbers(rows, Some(pk));
      assert rows[q].nodeId in Ids(rows, Some(pk));
      assert rows[q].mac in Macs(rows, Some(pk));
    }
  }

  class VirtualNodeService {
    var rows: Table

    constructor (initial: Table)
      requires Registered(initial)
      ensures rows == initial && Registered(rows)
    {
      rows := initial;
    }

    /** `pk` is the key the database gives the new row. The identity is the allocation's answer and the
        keys are the first free draw; whatever fails changes nothing. */
    method CreateVirtualNode(number: Value, nodeId: Value, mac: Value, draws: seq<KeyPair>, pk: Pk)
      returns (r: Result<Pk, Error>, ghost identity: Result<Identity, Error>, ghost from: nat, ghost stop: nat)
      requires Registered(rows) && |rows| < SPAN && pk !in rows && Drawn(draws)
      modifies this
      ensures Registered(rows)
      ensures Answer(old(rows), None, number, nodeId, mac, from, stop, identity)
      ensures r.Err? ==> rows == old(rows)
      ensures r == if identity.Err? then Err(identity.error) else if AllDrawsUsed(old(rows), None, draws) then Err(NoUniqueKeyPair) else Ok(pk)
      ensures r.Ok? ==>
                var i := identity.value;
                && Available(old(rows), None, i)
                && exists k :: FirstFreeDraw(old(rows), None, draws, k)
                               && rows == old(rows)[pk := Node(i.number, i.nodeId, i.mac, true, Some(k.publicKey), Some(k.privateKey))]
      ensures forall n: nat |
                && number != Absent && NormalizeNumber(number) == Ok(n) && n >= 1_000_000_000
                && (nodeId != Absent ==> NormalizeNodeId(nodeId).Ok?) && (mac != Absent ==> NormalizeMac(mac).Ok?)
                && AllFree(old(rows), None, IdentityAt(nodeId, mac, n)) && !AllDrawsUsed(old(rows), None, draws) ::
                r == Ok(pk) && rows[pk].number == n
    {
      hide Checked, Skipped, Verdict, StartsAt, Probed, Numbers, Ids, Macs, Registered, Answer, AllDrawsUsed, FirstFreeDraw, AllFree, NormalizeNodeId, NormalizeMac;
      var resolved, f, t := ResolveIdentity(rows, number, nodeId, mac, None);
      identity, from, stop := resolved, f, t;
      forall n: nat |
        && number != Absent && NormalizeNumber(number) == Ok(n) && n >= 1_000_000_000
        && (nodeId != Absent ==> NormalizeNodeId(nodeId).Ok?) && (mac != Absent ==> NormalizeMac(mac).Ok?)
        && AllFree(rows, None, IdentityAt(nodeId, mac, n))
        ensures identity == Ok(IdentityAt(nodeId, mac, n))
      {
        GivenNumberAnswered(rows, None, number, nodeId, mac, from, stop, identity, n);
      }
      if resolved.Err? {
        r := Err(resolved.error);
        return;
      }
      var keys := GenerateKeyPair(rows, None, draws);
      if keys.Err? {
        r := Err(keys.error);
        return;
      }
      var i, k := resolved.value, keys.value;
      var node := Node(i.number, i.nodeId, i.mac, true, Some(k.publicKey), Some(k.privateKey));
      FreshRowAvailable(rows, pk, i);
      DrawIsUnshared(rows, None, draws, k, pk);
      PlacingKeepsRegistered(rows, pk, node);
      rows := rows[pk := node];
      r := Ok(pk);
    }

    /** An update either fails and changes nothing, or rewrites the one row. A changed node id is
        always honoured as given; number and MAC are then allocated afresh. */
    method UpdateVirtualNode(pk: Pk, data: IdentityUpdate, regenerate: bool, draws: seq<KeyPair>)
      returns (r: Result<Pk, Error>, ghost identity: Result<Identity, Error>, ghost from: nat, ghost stop: nat)
      requires Registered(rows) && |rows| < SPAN && pk in rows && Drawn(draws)
      modifies this
      ensures Registered(rows)
      ensures r.Err? ==> rows == old(rows)
      ensures old(rows)[pk].isVirtual ==> UpdateAnswer(old(rows), pk, data, from, stop, identity)
      ensures r == if !old(rows)[pk].isVirtual then Err(NotVirtual)
                   else if identity.Err? then Err(identity.error)
                   else if regenerate && AllDrawsUsed(old(rows), Some(pk), draws) then Err(NoUniqueKeyPair)
                   else Ok(pk)
      ensures r.Ok? ==>
                && pk in rows && rows == old(rows)[pk := rows[pk]] && rows[pk].isVirtual
                && identity == Ok(Identity(rows[pk].number, rows[pk].nodeId, rows[pk].mac))
                && Available(old(rows), Some(pk), Identity(rows[pk].number, rows[pk].nodeId, rows[pk].mac))
                && (data.nodeId.Some? ==> NormalizeNodeId(data.nodeId.value) == Ok(rows[pk].nodeId))
                && (SameId(old(rows)[pk], data) ==> Kept(old(rows)[pk], Identity(rows[pk].number, rows[pk].nodeId, rows[pk].mac), data))
                && NumberIs(old(rows), pk, data, Identity(rows[pk].number, rows[pk].nodeId, rows[pk].mac))
                && (if regenerate
                    then rows[pk].publicKey.Some? && rows[pk].privateKey.Some?
                         && FirstFreeDraw(old(rows), Some(pk), draws, KeyPair(rows[pk].publicKey.value, rows[pk].privateKey.value))
                    else rows[pk].publicKey == old(rows)[pk].publicKey && rows[pk].privateKey == old(rows)[pk].privateKey)
    {
      hide Checked, Skipped, Verdict, StartsAt, Probed, Numbers, Ids, Macs, Registered, NormalizeNodeId, NormalizeMac, Strip, LowerAll;
      hide UpdateAnswer, AllDrawsUsed, FirstFreeDraw, NumberIs, Kept;
      var node := rows[pk];
      identity, from, stop := Err(NotVirtual), 0, 0;
      if !node.isVirtual {
        r := Err(NotVirtual);
        return;
      }
      var updated, f, t := UpdatedIdentity(pk, data);
      identity, from, stop := updated, f, t;
      if updated.Err? {
        r := Err(updated.error);
        return;
      }
      var publicKey, privateKey := node.publicKey, node.privateKey;
      if regenerate {
        var keys := GenerateKeyPair(rows, Some(pk), draws);
        if keys.Err? {
          r := Err(keys.error);
          return;
        }
        publicKey, privateKey := Some(keys.value.publicKey), Some(keys.value.privateKey);
        DrawIsUnshared(rows, Some(pk), draws, keys.value, pk);
      } else {
        OwnKeysUnshared(rows, pk);
      }
      var i := updated.value;
      node := Node(i.number, i.nodeId, i.mac, true, publicKey, privateKey);
      PlacingKeepsRegistered(rows, pk, node);
      rows := rows[pk := node];
      r := Ok(pk);
    }

    /** The identity part of an update. */
    method UpdatedIdentity(pk: Pk, data: IdentityUpdate) returns (r: Result<Identity, Error>, ghost from: nat, ghost stop: nat)
      requires Registered(rows) && |rows| < SPAN && pk in rows && rows[pk].isVirtual
      ensures UpdateAnswer(rows, pk, data, from, stop, r)
      ensures r.Ok? ==> Available(rows, Some(pk), r.value)
      ensures r.Ok? && data.nodeId.Some? ==> NormalizeNodeId(data.nodeId.value) == Ok(r.value.nodeId)
      ensures r.Ok? && SameId(rows[pk], data) ==> Kept(rows[pk], r.value, data)
      ensures r.Ok? ==> NumberIs(rows, pk, data, r.value)
    {
      hide Skipped, StartsAt, Numbers, Ids, Macs, Registered, NormalizeMac, Strip, LowerAll, IsNodeId, Seed, DefaultMac, DefaultNodeId, FirstOpen, Answer;
      from, stop := 0, 0;
      var node := rows[pk];
      var nodeIdChange := false;
      var nodeId, number, mac := AsText(node.nodeId), data.number, data.mac;
      if data.nodeId.Some? {
        var normalized := NormalizeNodeId(data.nodeId.value);
        if normalized.Err? {
          r := Err(normalized.error);
          return;
        }
        if normalized.value != node.nodeId {
          nodeIdChange := true;
          nodeId, number, mac := AsText(normalized.value), None, None;
        }
        NodeIdNormalForm(normalized.value, None);
      }
      OwnIdentityAvailable(rows, pk);
      if !nodeIdChange && number == None && mac == None {
        r := Ok(Identity(node.number, node.nodeId, node.mac));
        return;
      }
      var n := number.GetOr(if nodeIdChange then Absent else Number(node.number));
      var m := mac.GetOr(if nodeIdChange then Absent else AsText(node.mac));
      var identity, f, t := ResolveIdentity(rows, n, nodeId, m, Some(pk));
      r, from, stop := identity, f, t;
      if identity.Ok? {
        GivenFieldsKept(rows, Some(pk), n, nodeId, m, from, stop, identity);
        NumberFound(rows, pk, n, nodeId, m, from, stop, identity);
      }
    }

    method DeleteVirtualNode(pk: Pk) returns (r: Result<Pk, Error>)
      requires Registered(rows) && pk in rows
      modifies this
      ensures Registered(rows)
      ensures r == if old(rows)[pk].isVirtual then Ok(pk) else Err(NotVirtual)
      ensures rows == if r.Ok? then old(rows) - {pk} else old(rows)
    {
      if !rows[pk].isVirtual {
        return Err(NotVirtual);
      }
      rows := rows - {pk};
      return Ok(pk);
    }
  }

  /** The data holds no node id, or the one the node already has. */
  predicate SameId(before: Node, data: IdentityUpdate) {
    data.nodeId == None || NormalizeNodeId(data.nodeId.value) == Ok(before.nodeId)
  }

  /** The identity after an update that does not change the node id. Every field given is honoured;
      those not mentioned are kept, if need be in normal form. The number can move only if it is asked
      for but left open, or the MAC is; `NumberIs` says to what. */
  predicate Kept(before: Node, after: Identity, data: IdentityUpdate) {
    && (after.nodeId == before.nodeId || NormalizeNodeId(AsText(before.nodeId)) == Ok(after.nodeId))
    && (data.mac == None ==> after.mac == before.mac || NormalizeMac(AsText(before.mac)) == Ok(after.mac))
    && (data.mac.Some? && data.mac.value != Absent ==> NormalizeMac(data.mac.value) == Ok(after.mac))
    && (data.mac != Some(Absent) && data.number == None ==> after.number == before.number)
    && (data.mac != Some(Absent) && data.number.Some? && data.number.value != Absent ==> NormalizeNumber(data.number.value) == Ok(after.number))
    && (data.mac == None && data.number == None ==> after == Identity(before.number, before.nodeId, before.mac))
  }

  /** The number is the first from `from` on that no other row has and, if the MAC is left open, whose
      default MAC no other row has. */
  ghost predicate FirstOpen(rows: Table, pk: Pk, from: nat, after: Identity, macOpen: bool) {
    && from <= after.number
    && forall c: nat | from <= c < after.number :: c in Numbers(rows, Some(pk)) || (macOpen && DefaultMac(c) in Macs(rows, Some(pk)))
  }

  /** What the number becomes: with a new node id, or when it is asked for but left open, the first
      open one from the id's seed on; otherwise the first open one from the number given or kept. */
  ghost predicate NumberIs(rows: Table, pk: Pk, data: IdentityUpdate, after: Identity)
    requires pk in rows
  {
    if SameId(rows[pk], data) then
      data.number.Some? || data.mac.Some? ==>
        if data.number == Some(Absent) then
          IsNodeId(after.nodeId) && FirstOpen(rows, pk, Seed(after.nodeId), after, data.mac == Some(Absent))
        else
          exists n: nat :: NormalizeNumber(data.number.GetOr(Number(rows[pk].number))) == Ok(n)
                           && FirstOpen(rows, pk, n, after, data.mac == Some(Absent))
    else IsNodeId(after.nodeId) && FirstOpen(rows, pk, Seed(after.nodeId), after, true)
  }

  /** The answer an update gets for its identity. A new node id is allocated with everything else
      open; without one, the fields the data mention are, with the rest as they are; if none is
      mentioned nothing is allocated. */
  ghost predicate UpdateAnswer(rows: Table, pk: Pk, data: IdentityUpdate, from: nat, stop: nat, r: Result<Identity, Error>)
    requires pk in rows
  {
    var node := rows[pk];
    if data.nodeId.Some? && NormalizeNodeId(data.nodeId.value).Err? then r == Err(NormalizeNodeId(data.nodeId.value).error)
    else if data.nodeId.Some? && NormalizeNodeId(data.nodeId.value).value != node.nodeId then
      Answer(rows, Some(pk), Absent, AsText(NormalizeNodeId(data.nodeId.value).value), Absent, from, stop, r)
    else if data.number == None && data.mac == None then r == Ok(Identity(node.number, node.nodeId, node.mac))
    else
      Answer(rows, Some(pk), data.number.GetOr(Number(node.number)), AsText(node.nodeId), data.mac.GetOr(AsText(node.mac)), from, stop, r)
  }

  lemma DrawIsUnshared(rows: Table, exclude: Option<Pk>, draws: seq<KeyPair>, k: KeyPair, pk: Pk)
    requires FirstFreeDraw(rows, exclude, draws, k) && (exclude == Some(pk) || (exclude == None && pk !in rows))
    ensures forall q | q in rows && q != pk :: rows[q].publicKey != Some(k.publicKey) && rows[q].privateKey != Some(k.privateKey)
  {
  }

  lemma OwnKeysUnshared(rows: Table, pk: Pk)
    requires Registered(rows) && pk in rows && rows[pk].isVirtual
    ensures forall q | q in rows && q != pk ::
              && (rows[pk].publicKey.Some? ==> rows[q].publicKey != rows[pk].publicKey)
              && (rows[pk].privateKey.Some? ==> rows[q].privateKey != rows[pk].privateKey)
  {
  }

  lemma OwnIdentityAvailable(rows: Table, pk: Pk)
    requires Registered(rows) && pk in rows && rows[pk].isVirtual
    ensures Available(rows, Some(pk), Identity(rows[pk].number, rows[pk].nodeId, rows[pk].mac))
  {
  }

  /** A node id or MAC the caller gave is that of the answer, and with all three given the number
      is too. */
  lemma GivenFieldsKept(rows: Table, exclude: Option<Pk>, number: Value, nodeId: Value, mac: Value, from: nat, stop: nat, r: Result<Identity, Error>)
    requires r.Ok? && Checked(rows, exclude, number, nodeId, mac).Ok?
    requires Probed(rows, exclude, Checked(rows, exclude, number, nodeId, mac).value, from, stop, r)
    ensures nodeId != Absent ==> NormalizeNodeId(nodeId) == Ok(r.value.nodeId)
    ensures mac != Absent ==> NormalizeMac(mac) == Ok(r.value.mac)
    ensures number != Absent && nodeId != Absent && mac != Absent ==> NormalizeNumber(number) == Ok(r.value.number)
  {
    hide NormalizeNodeId, NormalizeMac, Numbers, Ids, Macs, Checked, Probed;
    CheckedFields(rows, exclude, number, nodeId, mac);
    RequestKept(rows, exclude, Checked(rows, exclude, number, nodeId, mac).value, from, stop, r);
  }

  /** Where the probe for a given node id starts and what it passes over. */
  lemma NumberFound(rows: Table, pk: Pk, number: Value, nodeId: Value, mac: Value, from: nat, stop: nat, r: Result<Identity, Error>)
    requires r.Ok? && nodeId != Absent && Checked(rows, Some(pk), number, nodeId, mac).Ok?
    requires Probed(rows, Some(pk), Checked(rows, Some(pk), number, nodeId, mac).value, from, stop, r)
    ensures IsNodeId(r.value.nodeId)
    ensures FirstOpen(rows, pk, from, r.value, mac == Absent)
    ensures from == Seed(r.value.nodeId) || number != Absent
    ensures number != Absent ==> NormalizeNumber(number) == Ok(from)
  {
    hide NormalizeNodeId, NormalizeMac, NormalizeNumber, Numbers, Ids, Macs, Checked, Probed, FirstOpen, IsNodeId, Seed;
    CheckedFields(rows, Some(pk), number, nodeId, mac);
    CheckedOpen(rows, Some(pk), number, nodeId, mac);
    RequestKept(rows, Some(pk), Checked(rows, Some(pk), number, nodeId, mac).value, from, stop, r);
    PassedOver(rows, pk, Checked(rows, Some(pk), number, nodeId, mac).value, from, stop, r);
  }

  lemma CheckedOpen(rows: Table, exclude: Option<Pk>, number: Value, nodeId: Value, mac: Value)
    requires Checked(rows, exclude, number, nodeId, mac).Ok?
    ensures var req := Checked(rows, exclude, number, nodeId, mac).value;
            (number == Absent ==> req.number == None) && (nodeId == Absent ==> req.nodeId == None) && (mac == Absent <==> req.mac == None)
  {
    hide NormalizeNodeId, NormalizeMac, NormalizeNumber, Numbers, Macs;
  }

  lemma PassedOver(rows: Table, pk: Pk, req: Request, from: nat, stop: nat, r: Result<Identity, Error>)
    requires r.Ok? && req.nodeId.Some? && IsNodeId(req.nodeId.value) && Probed(rows, Some(pk), req, from, stop, r)
    ensures FirstOpen(rows, pk, from, r.value, req.mac == None)
    ensures from == if req.number.Some? then req.number.value else Seed(req.nodeId.value)
  {
    hide Numbers, Ids, Macs, DefaultMac, Seed, IsNodeId, Pow16;
    forall c: nat | from <= c < stop
      ensures c in Numbers(rows, Some(pk)) || (req.mac == None && DefaultMac(c) in Macs(rows, Some(pk)))
    {
      assert Skipped(rows, Some(pk), req, c);
    }
  }

  lemma CheckedFields(rows: Table, exclude: Option<Pk>, number: Value, nodeId: Value, mac: Value)
    requires Checked(rows, exclude, number, nodeId, mac).Ok?
    ensures var req := Checked(rows, exclude, number, nodeId, mac).value;
            && (nodeId != Absent ==> req.nodeId.Some? && NormalizeNodeId(nodeId) == Ok(req.nodeId.value))
            && (mac != Absent ==> req.mac.Some? && NormalizeMac(mac) == Ok(req.mac.value))
            && (number != Absent ==> req.number.Some? && NormalizeNumber(number) == Ok(req.number.value))
  {
    hide NormalizeNodeId, NormalizeMac, NormalizeNumber, Numbers, Macs;
  }

  lemma RequestKept(rows: Table, exclude: Option<Pk>, req: Request, from: nat, stop: nat, r: Result<Identity, Error>)
    requires r.Ok? && Probed(rows, exclude, req, from, stop, r)
    requires req.number.Some? ==> req.number.value !in Numbers(rows, exclude)
    ensures req.nodeId.Some? ==> req.nodeId.value == r.value.nodeId
    ensures req.mac.Some? ==> req.mac.value == r.value.mac
    ensures req.number.Some? && req.nodeId.Some? && req.mac.Some? ==> req.number.value == r.value.number
  {
    hide Numbers, Ids, Macs, DefaultNodeId, DefaultMac, Seed, Pow16;
    if stop > from {
      assert Skipped(rows, exclude, req, from);
    }
  }

  lemma FreshRowAvailable(rows: Table, pk: Pk, i: Identity)
    requires pk !in rows && Available(rows, None, i)
    ensures Available(rows, Some(pk), i)
  {
    assert Others(rows, Some(pk)) == Others(rows, None);
  }
}
