/** The logical link index: canonical node ordering, the direction label shown for a packet, and
    `record_activity` as a protocol of separate database statements run by concurrent calls. */
module Links {
  import opened Prelude

  type Pk = nat
  type LinkId = nat
  type CallId = nat

  // ------------------------------------------------------------ canonical order

  /** `number` is None when the node number is missing or not convertible to an integer. */
  datatype Node = Node(number: Option<int>, nodeId: string)

  datatype SortKey = ByNumber(number: int, pk: Pk) | ById(nodeId: string, pk: Pk) | ByPk(pk: Pk)

  function KeyOf(n: Node, pk: Pk): SortKey {
    if n.number.Some? then ByNumber(n.number.value, pk)
    else if n.nodeId != "" then ById(n.nodeId, pk)
    else ByPk(pk)
  }

  function PkOf(k: SortKey): Pk {
    k.pk
  }

  /** Lexicographic order of strings by code point. */
  predicate TextLess(a: string, b: string) {
    b != "" && (a == "" || a[0] < b[0] || (a[0] == b[0] && TextLess(a[1..], b[1..])))
  }

  /** Python's `<=` on the key tuples `(0, number, pk)`, `(1, node_id, pk)` and `(2, 0, pk)`. */
  predicate KeyLe(x: SortKey, y: SortKey) {
    match (x, y)
    case (ByNumber(m, p), ByNumber(n, q)) => m < n || (m == n && p <= q)
    case (ById(s, p), ById(t, q)) => TextLess(s, t) || (s == t && p <= q)
    case (ByPk(p), ByPk(q)) => p <= q
    case (ByNumber(_, _), _) => true
    case (ById(_, _), ByPk(_)) => true
    case _ => false
  }

  datatype Direction = AToB | BToA | Unknown

  type Directory = map<Pk, Node>

  /** `_normalize_nodes`: the canonical pair and the direction of travel, from the keys of the two
      node objects. */
  function Order(from: Pk, to: Pk, fromKey: SortKey, toKey: SortKey): (Pk, Pk, Direction) {
    if KeyLe(fromKey, toKey) then (from, to, AToB) else (to, from, BToA)
  }

  /** The same for objects that are up to date with the node table. */
  function Normalize(nodes: Directory, from: Pk, to: Pk): (r: (Pk, Pk, Direction))
    requires from in nodes && to in nodes
  {
    Order(from, to, KeyOf(nodes[from], from), KeyOf(nodes[to], to))
  }

  /** `serialize_link_packet`: the direction shown for a packet on a link. */
  function Label(from: Pk, to: Pk, a: Pk, b: Pk): Direction {
    if from == a && to == b then AToB else if from == b && to == a then BToA else Unknown
  }

  lemma {:induction false} TextTrichotomy(a: string, b: string)
    ensures a == b || TextLess(a, b) || TextLess(b, a)
    ensures !(TextLess(a, b) && TextLess(b, a)) && !TextLess(a, a)
  {
    if a != "" && b != "" {
      TextTrichotomy(a[1..], b[1..]);
      TextTrichotomy(a[1..], a[1..]);
      if a[0] == b[0] && a[1..] == b[1..] {
        assert a == [a[0]] + a[1..] == b;
      }
    } else if a != "" {
      TextTrichotomy(a[1..], a[1..]);
    }
  }

  /** The texts agree up to some place where the first one ends or has the smaller character. */
  ghost predicate Precedes(a: string, b: string) {
    exists i :: 0 <= i <= |a| && i < |b| && a[..i] == b[..i] && (i == |a| || a[i] < b[i])
  }

  /** The first place where the texts differ, or the first one ends. */
  lemma {:induction false} LessPlace(a: string, b: string) returns (i: nat)
    requires TextLess(a, b)
    ensures i <= |a| && i < |b| && a[..i] == b[..i] && (i == |a| || a[i] < b[i])
  {
    i := 0;
    if a != "" && a[0] == b[0] {
      i := LessPlace(a[1..], b[1..]);
      i := i + 1;
      assert a[..i] == [a[0]] + a[1..][..i - 1] && b[..i] == [b[0]] + b[1..][..i - 1];
    }
  }

  lemma {:induction false} LessAt(a: string, b: string, i: nat)
    requires i <= |a| && i < |b| && a[..i] == b[..i] && (i == |a| || a[i] < b[i])
    ensures TextLess(a, b)
  {
    if i > 0 {
      assert a[0] == a[..i][0] == b[..i][0] == b[0];
      assert a[1..][..i - 1] == a[..i][1..] == b[..i][1..] == b[1..][..i - 1];
      LessAt(a[1..], b[1..], i - 1);
    }
  }

  lemma TextLessIff(a: string, b: string)
    ensures TextLess(a, b) <==> Precedes(a, b)
  {
    if TextLess(a, b) {
      var i := LessPlace(a, b);
    }
    if i: nat :| i <= |a| && i < |b| && a[..i] == b[..i] && (i == |a| || a[i] < b[i]) {
      LessAt(a, b, i);
    }
    hide TextLess;
  }

  /** Of two nodes, the canonical first is the one with a number; of two numbers the smaller; without
      numbers the one with an id, of two ids the one first in the alphabet; else the older row. */
  lemma CanonicalFirstIff(nodes: Directory, p: Pk, q: Pk)
    requires p in nodes && q in nodes && p != q
    ensures var x, y := nodes[p], nodes[q];
            Normalize(nodes, p, q).0 == p <==>
              if x.number.Some? && y.number.Some? then x.number.value < y.number.value || (x.number == y.number && p < q)
              else if x.number.Some? || y.number.Some? then x.number.Some?
              else if x.nodeId != "" && y.nodeId != "" then Precedes(x.nodeId, y.nodeId) || (x.nodeId == y.nodeId && p < q)
              else if x.nodeId != "" || y.nodeId != "" then x.nodeId != ""
              else p < q
  {
    TextLessIff(nodes[p].nodeId, nodes[q].nodeId);
    hide TextLess, Precedes;
  }

  /** The canonical pair does not depend on which endpoint sent the packet, and the two
      directions are each other's opposite. */
  lemma EitherOrder(nodes: Directory, p: Pk, q: Pk)
    requires p in nodes && q in nodes && p != q
    ensures var there, back := Normalize(nodes, p, q), Normalize(nodes, q, p);
            && (there.0, there.1) == (back.0, back.1)
            && {there.2, back.2} == {AToB, BToA}
            && there.2 == Label(p, q, there.0, there.1)
            && back.2 == Label(q, p, there.0, there.1)
  {
    TextTrichotomy(nodes[p].nodeId, nodes[q].nodeId);
  }

  /** A packet is labelled on a canonical link only if that link is its own canonical pair. */
  lemma LabelledOnOwnLink(nodes: Directory, from: Pk, to: Pk, a: Pk, b: Pk)
    requires from in nodes && to in nodes && a in nodes && b in nodes && a != b
    requires Normalize(nodes, a, b).2 == AToB
    ensures var n := Normalize(nodes, from, to);
            if (n.0, n.1) == (a, b) && from != to then Label(from, to, a, b) == n.2 != Unknown
            else Label(from, to, a, b) == Unknown
  {
    EitherOrder(nodes, a, b);
    if from != to {
      EitherOrder(nodes, from, to);
    }
  }

  // ------------------------------------------------------------ the protocol

  datatype Link = Link(a: Pk, b: Pk, aToB: nat, bToA: nat, bidirectional: bool,
                       lastActivity: int, lastPacket: Option<nat>)

  /** Where one call of `record_activity` stands between its database statements. */
  datatype Pc =
    | Start
    | Missing
    | Found(link: LinkId)
    | Counted(link: LinkId)
    | Refreshed(link: LinkId, seen: Link)
    | Finished(result: Option<LinkId>)

  /** `a`, `b` and `direction` are what `_normalize_nodes` makes of the two node objects the caller
      holds; the keys are those of the objects as they were loaded. */
  datatype Call = Call(from: Pk, to: Pk, fromKey: SortKey, toKey: SortKey, a: Pk, b: Pk, direction: Direction, packet: nat, time: Option<int>, pc: Pc)

  /** One committed counter update, on the link from `a` to `b`: the packet log. */
  datatype Entry = Entry(call: CallId, from: Pk, to: Pk, a: Pk, b: Pk, packet: nat, time: int)

  /** `had` holds every key a node has had so far, and `packets` the rows of the packet table with
      their two ends. */
  datatype System = System(nodes: Directory, had: set<SortKey>, packets: map<nat, (Pk, Pk)>, links: map<LinkId, Link>,
                           calls: map<CallId, Call>, log: seq<Entry>)

  datatype Action =
    | Spawn(id: CallId, from: Pk, to: Pk, fromKey: SortKey, toKey: SortKey, packet: nat, time: Option<int>)
    | Look(id: CallId, hit: Option<LinkId>)
    | Insert(id: CallId, hit: Option<LinkId>, newId: LinkId, now: int)
    | Count(id: CallId, now: int)
    | Refresh(id: CallId)
    | Flag(id: CallId)
    | Renumber(pk: Pk, node: Node)

  /** `hit` is the answer of a SELECT by node pair. */
  ghost predicate Selects(s: System, pair: (Pk, Pk), hit: Option<LinkId>) {
    match hit
    case Some(l) => l in s.links && (s.links[l].a, s.links[l].b) == pair
    case None => forall l | l in s.links :: (s.links[l].a, s.links[l].b) != pair
  }

  /** A delivery loads its two nodes one after the other, so the keys it holds need not be of one
      moment, and gets or creates the packet row, so a packet delivered twice has one row. */
  ghost predicate Enabled(s: System, act: Action) {
    match act
    case Spawn(id, from, to, fromKey, toKey, packet, _) =>
      && id !in s.calls
      && fromKey in s.had && PkOf(fromKey) == from && toKey in s.had && PkOf(toKey) == to
      && (packet in s.packets ==> s.packets[packet] == (from, to))
    case Look(id, hit) =>
      && id in s.calls && s.calls[id].pc == Start
      && (s.calls[id].from != s.calls[id].to ==> Selects(s, (s.calls[id].a, s.calls[id].b), hit))
    case Insert(id, hit, newId, _) =>
      && id in s.calls && s.calls[id].pc == Missing
      && Selects(s, (s.calls[id].a, s.calls[id].b), hit)
      && newId !in s.links
    case Count(id, _) => id in s.calls && s.calls[id].pc.Found? && s.calls[id].pc.link in s.links
    case Refresh(id) => id in s.calls && s.calls[id].pc.Counted? && s.calls[id].pc.link in s.links
    case Flag(id) => id in s.calls && s.calls[id].pc.Refreshed? && s.calls[id].pc.link in s.links
    case Renumber(pk, _) => pk in s.nodes
  }

  function At(s: System, id: CallId, pc: Pc): map<CallId, Call>
    requires id in s.calls
  {
    s.calls[id := s.calls[id].(pc := pc)]
  }

  function Incremented(row: Link, d: Direction, packet: nat, time: int): Link {
    var row' := row.(lastActivity := time, lastPacket := Some(packet));
    if d == AToB then row'.(aToB := row.aToB + 1) else row'.(bToA := row.bToA + 1)
  }

  /** The effect of each database statement. The counter update is a single UPDATE with an SQL
      expression; the unique constraint turns a losing INSERT into a second SELECT. */
  function Apply(s: System, act: Action): System
    requires Enabled(s, act)
  {
    match act
    case Spawn(id, from, to, fromKey, toKey, packet, time) =>
      var n := Order(from, to, fromKey, toKey);
      s.(packets := s.packets[packet := (from, to)],
         calls := s.calls[id := Call(from, to, fromKey, toKey, n.0, n.1, n.2, packet, time, Start)])
    case Look(id, hit) =>
      if s.calls[id].from == s.calls[id].to then s.(calls := At(s, id, Finished(None)))
      else if hit.Some? then s.(calls := At(s, id, Found(hit.value)))
      else s.(calls := At(s, id, Missing))
    case Insert(id, hit, newId, now) =>
      if hit.Some? then s.(calls := At(s, id, Found(hit.value)))
      else
        s.(links := s.links[newId := Link(s.calls[id].a, s.calls[id].b, 0, 0, false, now, None)], calls := At(s, id, Found(newId)))
    case Count(id, now) =>
      var c := s.calls[id];
      var time := c.time.GetOr(now);
      var row := Incremented(s.links[c.pc.link], c.direction, c.packet, time);
      s.(links := s.links[c.pc.link := row], calls := At(s, id, Counted(c.pc.link)),
         log := s.log + [Entry(id, c.from, c.to, c.a, c.b, c.packet, time)])
    case Refresh(id) =>
      var l := s.calls[id].pc.link;
      s.(calls := At(s, id, Refreshed(l, s.links[l])))
    case Flag(id) =>
      var c := s.calls[id];
      var l := c.pc.link;
      var t := s.(calls := At(s, id, Finished(Some(l))));
      if !c.pc.seen.bidirectional && c.pc.seen.aToB > 0 && c.pc.seen.bToA > 0
      then t.(links := t.links[l := t.links[l].(bidirectional := true)])
      else t
    case Renumber(pk, node) => s.(nodes := s.nodes[pk := node], had := s.had + {KeyOf(node, pk)})
  }

  // ------------------------------------------------------------ what every step keeps

  /** Packets of the log that were counted on the link from `a` to `b`, and went from `p` to `q`. */
  function CountedOn(log: seq<Entry>, a: Pk, b: Pk, p: Pk, q: Pk): nat {
    if log == [] then 0
    else
      var e := log[|log| - 1];
      CountedOn(log[..|log| - 1], a, b, p, q) + if (e.a, e.b) == (a, b) && (e.from, e.to) == (p, q) then 1 else 0
  }

  /** The last log entry of the link from `a` to `b`. */
  function LastOn(log: seq<Entry>, a: Pk, b: Pk): Option<Entry> {
    if log == [] then None
    else
      var e := log[|log| - 1];
      if (e.a, e.b) == (a, b) then Some(e) else LastOn(log[..|log| - 1], a, b)
  }

  /** Counters, flag and last-packet pair of a link agree with the log. */
  ghost predicate RowAgrees(log: seq<Entry>, row: Link) {
    && row.a != row.b
    && row.aToB == CountedOn(log, row.a, row.b, row.a, row.b)
    && row.bToA == CountedOn(log, row.a, row.b, row.b, row.a)
    && (row.bidirectional ==> row.aToB > 0 && row.bToA > 0)
    && match LastOn(log, row.a, row.b) {
         case None => row.lastPacket == None
         case Some(e) => row.lastPacket == Some(e.packet) && row.lastActivity == e.time
       }
  }

  ghost predicate RowsAgree(s: System) {
    forall l | l in s.links :: RowAgrees(s.log, s.links[l])
  }

  ghost predicate OneLinkPerPair(s: System) {
    forall k, l | k in s.links && l in s.links && (s.links[k].a, s.links[k].b) == (s.links[l].a, s.links[l].b) :: k == l
  }

  /** The call's canonical pair is its two nodes in the order of the keys it holds. */
  predicate Oriented(c: Call) {
    && PkOf(c.fromKey) == c.from && PkOf(c.toKey) == c.to
    && (c.a, c.b, c.direction) == Order(c.from, c.to, c.fromKey, c.toKey)
  }

  /** The call works on the link of its own canonical pair. */
  ghost predicate OnLink(s: System, c: Call, l: LinkId) {
    c.from != c.to && l in s.links && (s.links[l].a, s.links[l].b) == (c.a, c.b)
  }

  ghost predicate CallAgrees(s: System, c: Call) {
    && Oriented(c)
    && match c.pc
       case Start => true
       case Missing => c.from != c.to
       case Found(l) => OnLink(s, c, l)
       case Counted(l) => OnLink(s, c, l)
       case Refreshed(l, seen) => OnLink(s, c, l) && seen.aToB <= s.links[l].aToB && seen.bToA <= s.links[l].bToA
       case Finished(None) => c.from == c.to
       case Finished(Some(l)) => OnLink(s, c, l)
  }

  ghost predicate CallsAgree(s: System) {
    forall id | id in s.calls :: CallAgrees(s, s.calls[id])
  }

  predicate HasLink(pc: Pc) {
    pc.Found? || HasCounted(pc)
  }

  predicate HasCounted(pc: Pc) {
    pc.Counted? || pc.Refreshed? || (pc.Finished? && pc.result.Some?)
  }

  ghost predicate EntryAgrees(s: System, e: Entry) {
    && e.call in s.calls && HasCounted(s.calls[e.call].pc)
    && (e.from, e.to, e.a, e.b, e.packet)
       == (s.calls[e.call].from, s.calls[e.call].to, s.calls[e.call].a, s.calls[e.call].b, s.calls[e.call].packet)
  }

  /** The log holds each call that has passed its counter update, exactly once. */
  ghost predicate LogAgrees(s: System) {
    && (forall i | 0 <= i < |s.log| :: EntryAgrees(s, s.log[i]))
    && (forall i, j | 0 <= i < j < |s.log| :: s.log[i].call != s.log[j].call)
    && (forall id | id in s.calls && HasCounted(s.calls[id].pc) :: exists i :: 0 <= i < |s.log| && s.log[i].call == id)
  }

  /** A call that will still set the flag of link `l`. */
  ghost predicate WillFlag(c: Call, l: LinkId) {
    || c.pc == Counted(l)
    || (c.pc.Refreshed? && c.pc.link == l && !c.pc.seen.bidirectional && c.pc.seen.aToB > 0 && c.pc.seen.bToA > 0)
  }

  ghost predicate FlagsOwed(s: System) {
    forall l | l in s.links && s.links[l].aToB > 0 && s.links[l].bToA > 0 && !s.links[l].bidirectional ::
      exists id :: id in s.calls && WillFlag(s.calls[id], l)
  }

  /** No link without a call that found or made it. */
  ghost predicate LinksUsed(s: System) {
    forall l | l in s.links :: exists id :: id in s.calls && HasLink(s.calls[id].pc) && OnLink(s, s.calls[id], l)
  }

  ghost predicate Inv(s: System) {
    RowsAgree(s) && OneLinkPerPair(s) && CallsAgree(s) && LogAgrees(s) && FlagsOwed(s) && LinksUsed(s)
  }

  lemma {:induction false} NothingCounted(log: seq<Entry>, a: Pk, b: Pk)
    requires forall i | 0 <= i < |log| :: (log[i].a, log[i].b) != (a, b)
    ensures CountedOn(log, a, b, a, b) == 0 && CountedOn(log, a, b, b, a) == 0
    ensures LastOn(log, a, b) == None
  {
    if log != [] {
      NothingCounted(log[..|log| - 1], a, b);
    }
  }

  lemma NewLinkAgrees(s: System, id: CallId, newId: LinkId, now: int)
    requires Inv(s) && Enabled(s, Insert(id, None, newId, now))
    ensures RowAgrees(s.log, Link(s.calls[id].a, s.calls[id].b, 0, 0, false, now, None))
  {
    var c := s.calls[id];
    assert CallsAgree(s) && LogAgrees(s);
    hide Inv, FlagsOwed, LinksUsed, OneLinkPerPair, RowsAgree, Oriented, Order;
    assert CallAgrees(s, c);
    forall i | 0 <= i < |s.log|
      ensures (s.log[i].a, s.log[i].b) != (c.a, c.b)
    {
      var e := s.log[i];
      assert EntryAgrees(s, e) && CallAgrees(s, s.calls[e.call]);
    }
    NothingCounted(s.log, c.a, c.b);
  }

  lemma CountKeepsRow(s: System, id: CallId, now: int, l: LinkId)
    requires RowsAgree(s) && CallsAgree(s) && OneLinkPerPair(s) && Enabled(s, Count(id, now)) && l in s.links
    ensures RowAgrees(Apply(s, Count(id, now)).log, Apply(s, Count(id, now)).links[l])
  {
    hide KeyLe, KeyOf;
    var t := Apply(s, Count(id, now));
    assert CallAgrees(s, s.calls[id]) && RowAgrees(s.log, s.links[l]);
    assert t.log[..|t.log| - 1] == s.log;
  }

  lemma StepKeepsRows(s: System, act: Action)
    requires Inv(s) && Enabled(s, act)
    ensures RowsAgree(Apply(s, act))
  {
    hide RowAgrees, Order;
    var t := Apply(s, act);
    forall l | l in t.links
      ensures RowAgrees(t.log, t.links[l])
    {
      if act.Count? {
        CountKeepsRow(s, act.id, act.now, l);
      } else {
        QuietStepKeepsRow(s, act, l);
      }
    }
  }

  lemma FlagKeepsRow(s: System, id: CallId, l: LinkId)
    requires RowsAgree(s) && CallsAgree(s) && Enabled(s, Flag(id)) && l in s.links
    ensures RowAgrees(Apply(s, Flag(id)).log, Apply(s, Flag(id)).links[l])
  {
    assert RowAgrees(s.log, s.links[l]) && CallAgrees(s, s.calls[id]);
    hide Oriented, CountedOn, LastOn, RowsAgree, CallsAgree;
  }

  /** Statements other than the counter and flag updates change no existing link. */
  lemma LinkUntouched(s: System, act: Action, l: LinkId)
    requires Enabled(s, act) && !act.Count? && !act.Flag? && l in s.links
    ensures l in Apply(s, act).links && Apply(s, act).links[l] == s.links[l] && Apply(s, act).log == s.log
  {
    hide Order, KeyOf, Selects;
  }

  lemma InsertedRow(s: System, act: Action, l: LinkId)
    requires Enabled(s, act) && l in Apply(s, act).links && l !in s.links
    ensures var t := Apply(s, act);
            && act.Insert? && act.hit == None && l == act.newId && t.log == s.log
            && t.links[l] == Link(s.calls[act.id].a, s.calls[act.id].b, 0, 0, false, act.now, None)
  {
    hide Order, KeyOf, Selects;
  }

  lemma QuietStepKeepsRow(s: System, act: Action, l: LinkId)
    requires Inv(s) && Enabled(s, act) && !act.Count? && l in Apply(s, act).links
    ensures RowAgrees(Apply(s, act).log, Apply(s, act).links[l])
  {
    assert l in s.links ==> RowAgrees(s.log, s.links[l]);
    assert RowsAgree(s) && CallsAgree(s);
    hide RowAgrees, Inv, Apply, Enabled, RowsAgree, CallsAgree;
    if l !in s.links {
      InsertedRow(s, act, l);
      NewLinkAgrees(s, act.id, act.newId, act.now);
    } else if act.Flag? {
      FlagKeepsRow(s, act.id, l);
    } else {
      LinkUntouched(s, act, l);
    }
  }

  lemma StepKeepsLinksUnique(s: System, act: Action)
    requires Inv(s) && Enabled(s, act)
    ensures OneLinkPerPair(Apply(s, act))
  {
    hide Order, KeyOf, RowsAgree, CallsAgree, LogAgrees, FlagsOwed, LinksUsed, CountedOn;
  }

  lemma StepKeepsOnLink(s: System, act: Action, c: Call, l: LinkId)
    requires Enabled(s, act) && OnLink(s, c, l)
    ensures OnLink(Apply(s, act), c, l)
    ensures Apply(s, act).links[l].aToB >= s.links[l].aToB && Apply(s, act).links[l].bToA >= s.links[l].bToA
  {
    hide Order, KeyOf;
  }

  lemma StepKeepsOtherCall(s: System, act: Action, id: CallId)
    requires Enabled(s, act) && id in s.calls && CallAgrees(s, s.calls[id])
    ensures CallAgrees(Apply(s, act), s.calls[id])
  {
    hide Order, KeyOf, Apply, Enabled, Selects, OnLink;
    var c := s.calls[id];
    if c.pc.Found? || c.pc.Counted? || c.pc.Refreshed? {
      StepKeepsOnLink(s, act, c, c.pc.link);
    } else if c.pc.Finished? && c.pc.result.Some? {
      StepKeepsOnLink(s, act, c, c.pc.result.value);
    }
  }

  /** The call whose statement it is; only renumbering a node belongs to no call. */
  predicate Of(act: Action, id: CallId) {
    !act.Renumber? && act.id == id
  }

  lemma SpawnAgrees(s: System, act: Action)
    requires act.Spawn? && Enabled(s, act)
    ensures act.id in Apply(s, act).calls && CallAgrees(Apply(s, act), Apply(s, act).calls[act.id])
  {
    hide KeyLe;
  }

  lemma StaysOriented(c: Call, pc: Pc)
    requires Oriented(c)
    ensures Oriented(c.(pc := pc))
  {
    hide Order;
  }

  lemma LookAgrees(s: System, act: Action)
    requires (act.Look? || act.Insert?) && Enabled(s, act) && CallAgrees(s, s.calls[act.id])
    ensures act.id in Apply(s, act).calls && CallAgrees(Apply(s, act), Apply(s, act).calls[act.id])
  {
    StaysOriented(s.calls[act.id], Apply(s, act).calls[act.id].pc);
    hide Oriented, Order;
  }

  lemma CountAgrees(s: System, act: Action)
    requires (act.Count? || act.Refresh? || act.Flag?) && Enabled(s, act) && CallAgrees(s, s.calls[act.id])
    ensures act.id in Apply(s, act).calls && CallAgrees(Apply(s, act), Apply(s, act).calls[act.id])
  {
    StaysOriented(s.calls[act.id], Apply(s, act).calls[act.id].pc);
    hide Oriented, Order;
  }

  lemma StepKeepsOwnCall(s: System, act: Action)
    requires CallsAgree(s) && Enabled(s, act) && !act.Renumber?
    ensures var t := Apply(s, act);
            act.id in t.calls && CallAgrees(t, t.calls[act.id])
  {
    assert act.id in s.calls ==> CallAgrees(s, s.calls[act.id]);
    assert !act.Spawn? ==> act.id in s.calls;
    hide *;
    if act.Spawn? {
      SpawnAgrees(s, act);
    } else if act.Look? || act.Insert? {
      LookAgrees(s, act);
    } else {
      CountAgrees(s, act);
    }
  }

  lemma OtherCallsStay(s: System, act: Action, id: CallId)
    requires Enabled(s, act) && id in Apply(s, act).calls && !Of(act, id)
    ensures id in s.calls && Apply(s, act).calls[id] == s.calls[id]
  {
    hide Order, KeyOf;
  }

  lemma StepKeepsCalls(s: System, act: Action)
    requires Inv(s) && Enabled(s, act)
    ensures CallsAgree(Apply(s, act))
  {
    hide Order, KeyOf, CallAgrees, RowsAgree, LogAgrees, FlagsOwed, OneLinkPerPair, LinksUsed, Apply, Enabled;
    var t := Apply(s, act);
    forall id | id in t.calls
      ensures CallAgrees(t, t.calls[id])
    {
      if Of(act, id) {
        StepKeepsOwnCall(s, act);
      } else {
        OtherCallsStay(s, act, id);
        StepKeepsOtherCall(s, act, id);
      }
    }
  }

  lemma CountKeepsLog(s: System, id: CallId, now: int)
    requires LogAgrees(s) && Enabled(s, Count(id, now))
    ensures LogAgrees(Apply(s, Count(id, now)))
  {
    hide Order, KeyOf;
    var t := Apply(s, Count(id, now));
    assert forall i | 0 <= i < |s.log| :: t.log[i] == s.log[i] && EntryAgrees(s, s.log[i]);
    assert t.log[|s.log|].call == id;
  }

  lemma QuietStepKeepsLog(s: System, act: Action)
    requires LogAgrees(s) && Enabled(s, act) && !act.Count?
    ensures LogAgrees(Apply(s, act))
  {
    var t := Apply(s, act);
    hide Order, KeyOf, Selects, Apply, Enabled;
    QuietStepCalls(s, act);
    assert forall i | 0 <= i < |s.log| :: EntryAgrees(s, s.log[i]);
    QuietStepCounts(s, act);
  }

  /** No other statement changes who has counted, nor any at all what a call is about. */
  lemma QuietStepCalls(s: System, act: Action)
    requires Enabled(s, act)
    ensures !act.Count? ==> Apply(s, act).log == s.log
    ensures forall id | id in s.calls :: id in Apply(s, act).calls && SameCall(s.calls[id], Apply(s, act).calls[id])
  {
    hide Order, KeyOf, Selects, Incremented;
  }

  predicate SameCall(c: Call, d: Call) {
    (c.from, c.to, c.a, c.b) == (d.from, d.to, d.a, d.b) && c.packet == d.packet
  }

  lemma QuietStepCounts(s: System, act: Action)
    requires Enabled(s, act) && !act.Count?
    ensures var t := Apply(s, act);
            forall id | id in t.calls :: HasCounted(t.calls[id].pc) <==> id in s.calls && HasCounted(s.calls[id].pc)
  {
    hide Order, KeyOf, Selects, Incremented;
  }

  /** A call that owes a flag still owes it, or has set it, after any step. */
  lemma StillOwed(s: System, act: Action, id: CallId, l: LinkId)
    requires Enabled(s, act) && id in s.calls && WillFlag(s.calls[id], l) && l in s.links
    requires !act.Count? || s.calls[act.id].pc.link != l
    ensures var t := Apply(s, act);
            l in t.links && (t.links[l].aToB > 0 && t.links[l].bToA > 0 && !t.links[l].bidirectional && s.links[l].aToB > 0 && s.links[l].bToA > 0
                             ==> id in t.calls && WillFlag(t.calls[id], l))
  {
    hide Order, KeyOf, Selects;
  }

  /** A link that lacks its flag after a step lacked it before, with the same counters, unless the
      step counted on it. */
  lemma LackedBefore(s: System, act: Action, l: LinkId)
    requires Enabled(s, act) && l in Apply(s, act).links && !(act.Count? && s.calls[act.id].pc.link == l)
    requires var row := Apply(s, act).links[l]; row.aToB > 0 && row.bToA > 0 && !row.bidirectional
    ensures l in s.links && s.links[l] == Apply(s, act).links[l]
  {
    hide Order, KeyOf, Selects;
  }

  lemma CountOwes(s: System, act: Action)
    requires Enabled(s, act) && act.Count?
    ensures act.id in Apply(s, act).calls && WillFlag(Apply(s, act).calls[act.id], s.calls[act.id].pc.link)
  {
    hide Order, KeyOf, Selects, Incremented;
  }

  lemma StepKeepsFlags(s: System, act: Action)
    requires FlagsOwed(s) && Enabled(s, act)
    ensures FlagsOwed(Apply(s, act))
  {
    var t := Apply(s, act);
    if act.Count? {
      CountOwes(s, act);
    }
    assert act.Count? ==> act.id in s.calls && s.calls[act.id].pc.Found?;
    hide Apply, Enabled, WillFlag;
    forall l | l in t.links && t.links[l].aToB > 0 && t.links[l].bToA > 0 && !t.links[l].bidirectional
      ensures exists id :: id in t.calls && WillFlag(t.calls[id], l)
    {
      if !(act.Count? && s.calls[act.id].pc.link == l) {
        LackedBefore(s, act, l);
        var id :| id in s.calls && WillFlag(s.calls[id], l);
        StillOwed(s, act, id, l);
      }
    }
  }

  lemma StepKeepsUser(s: System, act: Action, id: CallId, l: LinkId)
    requires Enabled(s, act) && id in s.calls && HasLink(s.calls[id].pc) && OnLink(s, s.calls[id], l)
    ensures var t := Apply(s, act);
            id in t.calls && HasLink(t.calls[id].pc) && OnLink(t, t.calls[id], l)
  {
    StepKeepsOnLink(s, act, s.calls[id], l);
    QuietStepCalls(s, act);
    StepKeepsHasLink(s, act, id);
    hide Apply, Enabled, HasLink;
  }

  lemma StepKeepsHasLink(s: System, act: Action, id: CallId)
    requires Enabled(s, act) && id in s.calls && HasLink(s.calls[id].pc)
    ensures id in Apply(s, act).calls && HasLink(Apply(s, act).calls[id].pc)
  {
    hide Order, KeyOf, Selects, Incremented;
  }

  lemma StepKeepsLinksUsed(s: System, act: Action)
    requires Inv(s) && Enabled(s, act)
    ensures LinksUsed(Apply(s, act))
  {
    hide Order, KeyOf, RowsAgree, CallAgrees, LogAgrees, FlagsOwed, OneLinkPerPair, HasLink;
    var t := Apply(s, act);
    forall l | l in t.links
      ensures exists id :: id in t.calls && HasLink(t.calls[id].pc) && OnLink(t, t.calls[id], l)
    {
      if l in s.links {
        var id :| id in s.calls && HasLink(s.calls[id].pc) && OnLink(s, s.calls[id], l);
        StepKeepsUser(s, act, id, l);
      } else {
        InsertUses(s, act, l);
      }
    }
  }

  lemma InsertUses(s: System, act: Action, l: LinkId)
    requires CallsAgree(s) && Enabled(s, act) && l in Apply(s, act).links && l !in s.links
    ensures var t := Apply(s, act);
            act.Insert? && act.id in t.calls && HasLink(t.calls[act.id].pc) && OnLink(t, t.calls[act.id], l)
  {
    assert CallAgrees(s, s.calls[act.id]);
  }

  /** Every database statement of every call, and every renumbering of a node, keeps the whole
      invariant. */
  lemma StepKeepsInv(s: System, act: Action)
    requires Inv(s) && Enabled(s, act)
    ensures Inv(Apply(s, act))
  {
    StepKeepsRows(s, act);
    StepKeepsLinksUnique(s, act);
    StepKeepsCalls(s, act);
    if act.Count? {
      CountKeepsLog(s, act.id, act.now);
    } else {
      QuietStepKeepsLog(s, act);
    }
    StepKeepsFlags(s, act);
    StepKeepsLinksUsed(s, act);
  }

  // ------------------------------------------------------------ whole runs

  function Empty(nodes: Directory): System {
    System(nodes, set p | p in nodes :: KeyOf(nodes[p], p), map[], map[], map[], [])
  }

  /** `acts` can be executed one after the other: an interleaving of any number of calls. */
  ghost predicate Runs(s: System, acts: seq<Action>)
    decreases |acts|
  {
    acts == [] || (Enabled(s, acts[0]) && Runs(Apply(s, acts[0]), acts[1..]))
  }

  ghost function After(s: System, acts: seq<Action>): System
    requires Runs(s, acts)
    decreases |acts|
  {
    if acts == [] then s else After(Apply(s, acts[0]), acts[1..])
  }

  lemma {:induction false} RunKeepsInv(s: System, acts: seq<Action>)
    requires Inv(s) && Runs(s, acts)
    ensures Inv(After(s, acts))
    decreases |acts|
  {
    if acts != [] {
      StepKeepsInv(s, acts[0]);
      RunKeepsInv(Apply(s, acts[0]), acts[1..]);
    }
  }

  /** Over every interleaving, renumberings included: a true flag only with both counters positive,
      the last packet and its time taken from one and the same call, no two links with the same
      ordered pair, none from a node to itself. */
  lemma SafeAlways(nodes: Directory, acts: seq<Action>, l: LinkId)
    requires Runs(Empty(nodes), acts) && l in After(Empty(nodes), acts).links
    ensures var s := After(Empty(nodes), acts);
            var row := s.links[l];
            && row.a != row.b
            && (forall k | k in s.links && (s.links[k].a, s.links[k].b) == (row.a, row.b) :: k == l)
            && (row.bidirectional ==> row.aToB > 0 && row.bToA > 0)
            && (LastOn(s.log, row.a, row.b).Some? ==>
                  (row.lastPacket, row.lastActivity) == (Some(LastOn(s.log, row.a, row.b).value.packet), LastOn(s.log, row.a, row.b).value.time))
  {
    hide CallsAgree, LogAgrees, FlagsOwed, LinksUsed, CountedOn, LastOn;
    RunKeepsInv(Empty(nodes), acts);
    var s := After(Empty(nodes), acts);
    assert RowAgrees(s.log, s.links[l]);
  }

  /** Once every call has finished, the flag says exactly whether both counters are positive. */
  lemma FlagExactWhenQuiet(nodes: Directory, acts: seq<Action>, l: LinkId)
    requires Runs(Empty(nodes), acts) && l in After(Empty(nodes), acts).links
    requires forall id | id in After(Empty(nodes), acts).calls :: After(Empty(nodes), acts).calls[id].pc.Finished?
    ensures var row := After(Empty(nodes), acts).links[l];
            row.bidirectional <==> row.aToB > 0 && row.bToA > 0
  {
    hide CallsAgree, LogAgrees, OneLinkPerPair, LinksUsed;
    RunKeepsInv(Empty(nodes), acts);
    var s := After(Empty(nodes), acts);
    assert RowAgrees(s.log, s.links[l]);
  }

  // ------------------------------------------------------------ counters and packets

  /** The calls past their counter update that went from `p` to `q`. */
  ghost function Travelled(s: System, p: Pk, q: Pk): set<CallId> {
    set id | id in s.calls && HasCounted(s.calls[id].pc) && s.calls[id].from == p && s.calls[id].to == q
  }

  ghost function LoggedCalls(log: seq<Entry>, p: Pk, q: Pk): set<CallId> {
    if log == [] then {}
    else
      var e := log[|log| - 1];
      LoggedCalls(log[..|log| - 1], p, q) + if e.from == p && e.to == q then {e.call} else {}
  }

  lemma {:induction false} LoggedMember(log: seq<Entry>, p: Pk, q: Pk, id: CallId)
    ensures id in LoggedCalls(log, p, q) <==> exists i :: 0 <= i < |log| && log[i].call == id && log[i].from == p && log[i].to == q
  {
    if log != [] {
      var init, e := log[..|log| - 1], log[|log| - 1];
      LoggedMember(init, p, q, id);
      if id in LoggedCalls(log, p, q) && id in LoggedCalls(init, p, q) {
        var i :| 0 <= i < |init| && init[i].call == id && init[i].from == p && init[i].to == q;
        assert log[i] == init[i];
      }
    }
  }

  /** A packet between two nodes is counted on one of the two links they can have. */
  lemma {:induction false} CountedOnEither(log: seq<Entry>, p: Pk, q: Pk)
    requires p != q
    requires forall i, j | 0 <= i < j < |log| :: log[i].call != log[j].call
    requires forall i | 0 <= i < |log| && (log[i].from, log[i].to) == (p, q) :: (log[i].a, log[i].b) == (p, q) || (log[i].a, log[i].b) == (q, p)
    ensures CountedOn(log, p, q, p, q) + CountedOn(log, q, p, p, q) == |LoggedCalls(log, p, q)|
  {
    if log != [] {
      var init, e := log[..|log| - 1], log[|log| - 1];
      CountedOnEither(init, p, q);
      LoggedMember(init, p, q, e.call);
    }
  }

  lemma LoggedAreTravelled(s: System, p: Pk, q: Pk)
    requires LogAgrees(s)
    ensures LoggedCalls(s.log, p, q) == Travelled(s, p, q)
  {
    forall id
      ensures id in LoggedCalls(s.log, p, q) <==> id in Travelled(s, p, q)
    {
      LoggedMember(s.log, p, q, id);
      assert forall i | 0 <= i < |s.log| :: EntryAgrees(s, s.log[i]);
    }
  }

  ghost predicate HasPair(s: System, a: Pk, b: Pk) {
    exists l :: l in s.links && (s.links[l].a, s.links[l].b) == (a, b)
  }

  /** The counters of the link from `a` to `b`, or two zeros if there is no such link. */
  ghost function Counters(s: System, a: Pk, b: Pk): (nat, nat) {
    if HasPair(s, a, b) then
      var l :| l in s.links && (s.links[l].a, s.links[l].b) == (a, b);
      (s.links[l].aToB, s.links[l].bToA)
    else (0, 0)
  }

  lemma CountersCount(s: System, a: Pk, b: Pk)
    requires Inv(s)
    ensures Counters(s, a, b) == (CountedOn(s.log, a, b, a, b), CountedOn(s.log, a, b, b, a))
  {
    hide CountedOn, FlagsOwed, LinksUsed;
    if HasPair(s, a, b) {
      var l :| l in s.links && (s.links[l].a, s.links[l].b) == (a, b);
      assert RowAgrees(s.log, s.links[l]);
    } else {
      forall i | 0 <= i < |s.log|
        ensures (s.log[i].a, s.log[i].b) != (a, b)
      {
        var e := s.log[i];
        assert EntryAgrees(s, e) && CallAgrees(s, s.calls[e.call]);
      }
      NothingCounted(s.log, a, b);
    }
  }

  /** No increment is lost, even if nodes are renumbered on the way: the packets from `p` to `q` past
      their update are those counted in that direction on the two links the pair can have. */
  lemma NoIncrementLost(nodes: Directory, acts: seq<Action>, p: Pk, q: Pk)
    requires Runs(Empty(nodes), acts) && p != q
    ensures var s := After(Empty(nodes), acts);
            Counters(s, p, q).0 + Counters(s, q, p).1 == |Travelled(s, p, q)|
  {
    hide CountedOn, Counters, LoggedCalls, Travelled;
    RunKeepsInv(Empty(nodes), acts);
    var s := After(Empty(nodes), acts);
    CountersCount(s, p, q);
    CountersCount(s, q, p);
    forall i | 0 <= i < |s.log| && (s.log[i].from, s.log[i].to) == (p, q)
      ensures (s.log[i].a, s.log[i].b) == (p, q) || (s.log[i].a, s.log[i].b) == (q, p)
    {
      assert EntryAgrees(s, s.log[i]) && CallAgrees(s, s.calls[s.log[i].call]);
    }
    CountedOnEither(s.log, p, q);
    LoggedAreTravelled(s, p, q);
  }

  /** Packets a node sends to itself never touch the index. */
  lemma SelfPacketsIgnored(nodes: Directory, acts: seq<Action>, id: CallId)
    requires Runs(Empty(nodes), acts) && id in After(Empty(nodes), acts).calls
    ensures var s := After(Empty(nodes), acts);
            var c := s.calls[id];
            && (c.from == c.to ==> c.pc == Start || c.pc == Finished(None))
            && (c.pc == Finished(None) ==> c.from == c.to)
  {
    hide RowsAgree, LogAgrees, FlagsOwed, OneLinkPerPair, LinksUsed, Oriented;
    RunKeepsInv(Empty(nodes), acts);
    var s := After(Empty(nodes), acts);
    assert CallAgrees(s, s.calls[id]);
  }

  // ------------------------------------------------------------ renumbered nodes

  function KeyHeld(c: Call, p: Pk): SortKey {
    if c.from == p then c.fromKey else c.toKey
  }

  /** A call between `p` and `q` that found or made a link. */
  predicate LinksPair(c: Call, p: Pk, q: Pk) {
    HasLink(c.pc) && ((c.from, c.to) == (p, q) || (c.from, c.to) == (q, p))
  }

  /** In the node objects the call holds, `p` sorts before `q`. */
  predicate SortsBefore(c: Call, p: Pk, q: Pk) {
    KeyLe(KeyHeld(c, p), KeyHeld(c, q))
  }

  lemma KeyTotal(x: SortKey, y: SortKey)
    requires PkOf(x) != PkOf(y)
    ensures KeyLe(x, y) != KeyLe(y, x)
  {
    if x.ById? && y.ById? {
      TextTrichotomy(x.nodeId, y.nodeId);
    }
  }

  lemma OneOrder(c: Call, p: Pk, q: Pk)
    requires Oriented(c) && p != q && LinksPair(c, p, q)
    ensures LinksPair(c, q, p) && SortsBefore(c, p, q) != SortsBefore(c, q, p)
  {
    KeyTotal(c.fromKey, c.toKey);
  }

  lemma PairOfCall(c: Call, p: Pk, q: Pk)
    requires Oriented(c) && p != q && ((c.from, c.to) == (p, q) || (c.from, c.to) == (q, p))
    ensures (c.a, c.b) == if SortsBefore(c, p, q) then (p, q) else (q, p)
  {
    KeyTotal(c.fromKey, c.toKey);
  }

  lemma HasPairIff(s: System, p: Pk, q: Pk)
    requires Inv(s) && p != q
    ensures HasPair(s, p, q) <==> exists id :: id in s.calls && LinksPair(s.calls[id], p, q) && SortsBefore(s.calls[id], p, q)
  {
    hide RowsAgree, LogAgrees, FlagsOwed, OneLinkPerPair, KeyLe, Oriented, SortsBefore;
    if HasPair(s, p, q) {
      var l :| l in s.links && (s.links[l].a, s.links[l].b) == (p, q);
      var id :| id in s.calls && HasLink(s.calls[id].pc) && OnLink(s, s.calls[id], l);
      assert CallAgrees(s, s.calls[id]);
      CallEnds(s.calls[id]);
      PairOfCall(s.calls[id], p, q);
    }
    if id :| id in s.calls && LinksPair(s.calls[id], p, q) && SortsBefore(s.calls[id], p, q) {
      assert CallAgrees(s, s.calls[id]);
      PairOfCall(s.calls[id], p, q);
    }
  }

  lemma CallEnds(c: Call)
    requires Oriented(c)
    ensures (c.a, c.b) == (c.from, c.to) || (c.a, c.b) == (c.to, c.from)
  {
  }

  /** A pair of nodes ends up with two links if and only if two calls that reached a link held its
      nodes in opposite orders: the order flipped between them. */
  lemma SecondLinkIff(nodes: Directory, acts: seq<Action>, p: Pk, q: Pk)
    requires Runs(Empty(nodes), acts) && p != q
    ensures var s := After(Empty(nodes), acts);
            (HasPair(s, p, q) && HasPair(s, q, p))
            <==> exists i, j :: i in s.calls && j in s.calls && LinksPair(s.calls[i], p, q) && LinksPair(s.calls[j], p, q)
                                && SortsBefore(s.calls[i], p, q) && !SortsBefore(s.calls[j], p, q)
  {
    RunKeepsInv(Empty(nodes), acts);
    var s := After(Empty(nodes), acts);
    HasPairIff(s, p, q);
    HasPairIff(s, q, p);
    assert CallsAgree(s);
    hide Inv, HasPair, SortsBefore, Runs, After, Oriented, RowsAgree, LogAgrees, FlagsOwed, LinksUsed, OneLinkPerPair;
    forall id | id in s.calls && LinksPair(s.calls[id], p, q)
      ensures LinksPair(s.calls[id], q, p) && SortsBefore(s.calls[id], p, q) != SortsBefore(s.calls[id], q, p)
    {
      assert CallAgrees(s, s.calls[id]);
      OneOrder(s.calls[id], p, q);
    }
  }

  /** The statements of a call that finds no link and is not interrupted. */
  ghost function FreshCall(nodes: Directory, id: CallId, from: Pk, to: Pk, packet: nat, newId: LinkId): seq<Action>
    requires from in nodes && to in nodes
  {
    [UpToDateSpawn(nodes, id, from, to, packet), Look(id, None), Insert(id, None, newId, 0)] + [Count(id, 0), Refresh(id), Flag(id)]
  }

  function UpToDateSpawn(nodes: Directory, id: CallId, from: Pk, to: Pk, packet: nat): Action
    requires from in nodes && to in nodes
  {
    Spawn(id, from, to, KeyOf(nodes[from], from), KeyOf(nodes[to], to), packet, Some(0))
  }

  /** What lets an up-to-date delivery of packet `packet` begin. */
  predicate CanSpawn(s: System, id: CallId, from: Pk, to: Pk, packet: nat) {
    && from in s.nodes && to in s.nodes && id !in s.calls
    && KeyOf(s.nodes[from], from) in s.had && KeyOf(s.nodes[to], to) in s.had
    && (packet in s.packets ==> s.packets[packet] == (from, to))
  }

  /** The link a first packet leaves behind. */
  function FirstLink(nodes: Directory, from: Pk, to: Pk, packet: nat): Link
    requires from in nodes && to in nodes
  {
    var n := Normalize(nodes, from, to);
    Incremented(Link(n.0, n.1, 0, 0, false, 0, None), n.2, packet, 0)
  }

  lemma RunThree(s: System, a: Action, b: Action, c: Action)
    requires Enabled(s, a) && Enabled(Apply(s, a), b) && Enabled(Apply(Apply(s, a), b), c)
    ensures Runs(s, [a, b, c]) && After(s, [a, b, c]) == Apply(Apply(Apply(s, a), b), c)
  {
    hide Enabled, Apply;
    var t := Apply(s, a);
    var u := Apply(t, b);
    assert Runs(Apply(u, c), []) && After(Apply(u, c), []) == Apply(u, c);
    hide Runs, After;
    RunOneThen(u, c, []);
    RunOneThen(t, b, [c]);
    RunOneThen(s, a, [b, c]);
    assert [c] + [] == [c] && [b] + [c] == [b, c] && [a] + [b, c] == [a, b, c];
  }

  lemma {:induction false} RunsConcat(s: System, a: seq<Action>, b: seq<Action>)
    requires Runs(s, a) && Runs(After(s, a), b)
    ensures Runs(s, a + b) && After(s, a + b) == After(After(s, a), b)
    decreases |a|
  {
    hide Enabled, Apply;
    if a == [] {
      assert a + b == b;
    } else {
      assert (a + b)[1..] == a[1..] + b;
      RunsConcat(Apply(s, a[0]), a[1..], b);
    }
  }

  lemma FreshCallFinds(s: System, id: CallId, from: Pk, to: Pk, packet: nat, newId: LinkId)
    requires CanSpawn(s, id, from, to, packet) && from != to && newId !in s.links
    requires Selects(s, (Normalize(s.nodes, from, to).0, Normalize(s.nodes, from, to).1), None)
    ensures var acts := [UpToDateSpawn(s.nodes, id, from, to, packet), Look(id, None), Insert(id, None, newId, 0)];
            && Runs(s, acts)
            && var t, n := After(s, acts), Normalize(s.nodes, from, to);
            && t.nodes == s.nodes && t.had == s.had && t.packets == s.packets[packet := (from, to)] && t.log == s.log
            && t.links == s.links[newId := Link(n.0, n.1, 0, 0, false, 0, None)]
            && t.calls == s.calls[id := Call(from, to, KeyOf(s.nodes[from], from), KeyOf(s.nodes[to], to), n.0, n.1, n.2, packet, Some(0), Found(newId))]
  {
    hide KeyLe, KeyOf, Order;
    var a, b, c := UpToDateSpawn(s.nodes, id, from, to, packet), Look(id, None), Insert(id, None, newId, 0);
    KeyOfPk(s.nodes[from], from);
    KeyOfPk(s.nodes[to], to);
    var t1 := Apply(s, a);
    assert Enabled(t1, b);
    var t2 := Apply(t1, b);
    assert Enabled(t2, c);
    RunThree(s, a, b, c);
    assert Apply(t2, c).calls == s.calls[id := Apply(t2, c).calls[id]];
  }

  lemma KeyOfPk(n: Node, pk: Pk)
    ensures PkOf(KeyOf(n, pk)) == pk
  {
  }

  /** A link none of whose counters becomes positive together with the other is not flagged. */
  lemma FreshCallCounts(s: System, id: CallId, l: LinkId)
    requires id in s.calls && s.calls[id].pc == Found(l) && s.calls[id].time == Some(0) && l in s.links
    requires var row := Incremented(s.links[l], s.calls[id].direction, s.calls[id].packet, 0);
             row.aToB == 0 || row.bToA == 0
    ensures var acts := [Count(id, 0), Refresh(id), Flag(id)];
            && Runs(s, acts)
            && var t, c := After(s, acts), s.calls[id];
            && t.nodes == s.nodes && t.had == s.had && t.packets == s.packets
            && t.links == s.links[l := Incremented(s.links[l], c.direction, c.packet, 0)]
            && t.calls == s.calls[id := c.(pc := Finished(Some(l)))]
  {
    var a, b, c := Count(id, 0), Refresh(id), Flag(id);
    var t1 := Apply(s, a);
    assert Enabled(t1, b);
    var t2 := Apply(t1, b);
    assert Enabled(t2, c);
    RunThree(s, a, b, c);
    assert Apply(t2, c).calls == s.calls[id := s.calls[id].(pc := Finished(Some(l)))];
    assert Apply(t2, c).links == s.links[l := Incremented(s.links[l], s.calls[id].direction, s.calls[id].packet, 0)];
  }

  lemma FreshCallLeaves(s: System, id: CallId, from: Pk, to: Pk, packet: nat, newId: LinkId)
    requires CanSpawn(s, id, from, to, packet) && from != to && newId !in s.links
    requires Selects(s, (Normalize(s.nodes, from, to).0, Normalize(s.nodes, from, to).1), None)
    ensures var acts := FreshCall(s.nodes, id, from, to, packet, newId);
            && Runs(s, acts)
            && var t := After(s, acts);
            && t.nodes == s.nodes && t.had == s.had && t.packets == s.packets[packet := (from, to)]
            && t.links == s.links[newId := FirstLink(s.nodes, from, to, packet)]
            && t.calls.Keys == s.calls.Keys + {id} && t.calls[id].pc == Finished(Some(newId))
            && (forall k | k in s.calls :: t.calls[k] == s.calls[k])
  {
    var first, last := [UpToDateSpawn(s.nodes, id, from, to, packet), Look(id, None), Insert(id, None, newId, 0)], [Count(id, 0), Refresh(id), Flag(id)];
    FreshCallFinds(s, id, from, to, packet, newId);
    hide Runs, After, Selects, Order, KeyOf, CanSpawn, Normalize;
    var t := After(s, first);
    assert t.links[newId].aToB == t.links[newId].bToA == 0;
    FreshCallCounts(t, id, newId);
    RunsConcat(s, first, last);
    assert After(t, last).links == s.links[newId := FirstLink(s.nodes, from, to, packet)];
    hide Incremented;
  }

  const NUMBERED_5_AND_9: Directory := map[1 := Node(Some(5), ""), 2 := Node(Some(9), "")]

  /** It does happen. Nodes 5 and 9 exchange a packet each way, and the first is renumbered to 20 in
      between: two links, each with one packet, and neither ever flagged as bidirectional. */
  lemma FlippedOrderSplits()
    ensures var nodes := NUMBERED_5_AND_9;
            var renumbered := nodes[1 := Node(Some(20), "")];
            var acts := FreshCall(nodes, 0, 1, 2, 100, 10) + ([Renumber(1, renumbered[1])] + FreshCall(renumbered, 1, 2, 1, 101, 11));
            && Runs(Empty(nodes), acts)
            && var s := After(Empty(nodes), acts);
            && s.links == map[10 := Link(1, 2, 1, 0, false, 0, Some(100)), 11 := Link(2, 1, 1, 0, false, 0, Some(101))]
            && s.calls.Keys == {0, 1} && s.calls[0].pc == Finished(Some(10)) && s.calls[1].pc == Finished(Some(11))
  {
    var nodes := NUMBERED_5_AND_9;
    var renumbered := nodes[1 := Node(Some(20), "")];
    var first, second, flip := FreshCall(nodes, 0, 1, 2, 100, 10), FreshCall(renumbered, 1, 2, 1, 101, 11), Renumber(1, renumbered[1]);
    var s := Empty(nodes);
    FirstDelivery(nodes);
    var t := After(s, first);
    FlipRest(t);
    RunOneThen(t, flip, second);
    hide Runs, After, FreshCall, Apply, Enabled;
    RunsConcat(s, first, [flip] + second);
  }

  lemma FirstDelivery(nodes: Directory)
    requires nodes == NUMBERED_5_AND_9
    ensures var acts := FreshCall(nodes, 0, 1, 2, 100, 10);
            && Runs(Empty(nodes), acts)
            && var t := After(Empty(nodes), acts);
            && t.nodes == nodes && t.had == Empty(nodes).had && t.packets == map[100 := (1, 2)]
            && t.links == map[10 := Link(1, 2, 1, 0, false, 0, Some(100))]
            && t.calls.Keys == {0} && t.calls[0].pc == Finished(Some(10))
  {
    assert Normalize(nodes, 1, 2) == (1, 2, AToB);
    assert CanSpawn(Empty(nodes), 0, 1, 2, 100);
    FreshCallLeaves(Empty(nodes), 0, 1, 2, 100, 10);
    hide Runs, After, FreshCall, Apply, Enabled, Normalize;
  }

  lemma FlipRest(t: System)
    requires t.nodes == NUMBERED_5_AND_9 && t.had == Empty(NUMBERED_5_AND_9).had && t.packets == map[100 := (1, 2)]
    requires t.links == map[10 := Link(1, 2, 1, 0, false, 0, Some(100))]
    requires t.calls.Keys == {0} && t.calls[0].pc == Finished(Some(10))
    ensures var renumbered := t.nodes[1 := Node(Some(20), "")];
            var flip, acts := Renumber(1, renumbered[1]), FreshCall(renumbered, 1, 2, 1, 101, 11);
            && Enabled(t, flip) && Runs(Apply(t, flip), acts)
            && var s := After(Apply(t, flip), acts);
            && s.links == map[10 := Link(1, 2, 1, 0, false, 0, Some(100)), 11 := Link(2, 1, 1, 0, false, 0, Some(101))]
            && s.calls.Keys == {0, 1} && s.calls[0] == t.calls[0] && s.calls[1].pc == Finished(Some(11))
  {
    var u := Apply(t, Renumber(1, Node(Some(20), "")));
    assert u.links == t.links && u.calls == t.calls;
    assert Normalize(u.nodes, 2, 1) == (2, 1, AToB);
    assert KeyOf(t.nodes[2], 2) in t.had;
    assert CanSpawn(u, 1, 2, 1, 101);
    FreshCallLeaves(u, 1, 2, 1, 101, 11);
    hide Runs, After, FreshCall, Normalize;
  }

  lemma RunOneThen(s: System, a: Action, acts: seq<Action>)
    requires Enabled(s, a) && Runs(Apply(s, a), acts)
    ensures Runs(s, [a] + acts) && After(s, [a] + acts) == After(Apply(s, a), acts)
  {
    hide Enabled, Apply;
    assert ([a] + acts)[1..] == acts;
  }

  // ------------------------------------------------------------ stable nodes

  /** No node is renumbered during the run. */
  predicate Stable(acts: seq<Action>) {
    forall i | 0 <= i < |acts| :: !acts[i].Renumber?
  }

  /** No node has had another key than it has, and so the calls hold these. */
  ghost predicate UpToDate(s: System) {
    && (forall k | k in s.had :: PkOf(k) in s.nodes && k == KeyOf(s.nodes[PkOf(k)], PkOf(k)))
    && (forall id | id in s.calls ::
          var c := s.calls[id];
          && c.fromKey in s.had && PkOf(c.fromKey) == c.from
          && c.toKey in s.had && PkOf(c.toKey) == c.to)
  }

  lemma StepKeepsUpToDate(s: System, act: Action)
    requires UpToDate(s) && Enabled(s, act) && !act.Renumber?
    ensures UpToDate(Apply(s, act))
  {
    hide Order, KeyOf;
  }

  lemma {:induction false} RunKeepsUpToDate(s: System, acts: seq<Action>)
    requires UpToDate(s) && Runs(s, acts) && Stable(acts)
    ensures UpToDate(After(s, acts))
    decreases |acts|
  {
    if acts != [] {
      StepKeepsUpToDate(s, acts[0]);
      hide UpToDate, Enabled, Apply;
      RunKeepsUpToDate(Apply(s, acts[0]), acts[1..]);
    }
  }

  /** As long as no node is renumbered, a pair of nodes has one link, whichever sends first. */
  lemma OneLink(nodes: Directory, acts: seq<Action>, p: Pk, q: Pk)
    requires Runs(Empty(nodes), acts) && Stable(acts) && p != q
    ensures !(HasPair(After(Empty(nodes), acts), p, q) && HasPair(After(Empty(nodes), acts), q, p))
  {
    var s := After(Empty(nodes), acts);
    RunKeepsUpToDate(Empty(nodes), acts);
    SecondLinkIff(nodes, acts, p, q);
    forall i, j | i in s.calls && j in s.calls && LinksPair(s.calls[i], p, q) && LinksPair(s.calls[j], p, q)
      ensures SortsBefore(s.calls[i], p, q) == SortsBefore(s.calls[j], p, q)
    {
    }
    hide HasPair, SortsBefore;
  }

  // ------------------------------------------------------------ the packet table

  /** Each call is the delivery of a packet row between its two nodes, and each row was delivered. */
  ghost predicate PacketsAgree(s: System) {
    && (forall id | id in s.calls :: var c := s.calls[id]; c.packet in s.packets && s.packets[c.packet] == (c.from, c.to))
    && (forall p | p in s.packets :: exists id :: id in s.calls && s.calls[id].packet == p)
  }

  /** A step changes neither the packet of a call nor its ends; only a delivery adds a packet. */
  lemma StepKeepsDeliveries(s: System, act: Action)
    requires Enabled(s, act)
    ensures var t := Apply(s, act);
            && (forall id | id in t.calls && id !in s.calls ::
                  act.Spawn? && id == act.id && (t.calls[id].packet, t.calls[id].from, t.calls[id].to) == (act.packet, act.from, act.to))
            && (if act.Spawn? then act.id in t.calls && t.packets == s.packets[act.packet := (act.from, act.to)] else t.packets == s.packets)
  {
    hide Order, KeyOf, Selects, Incremented;
  }

  lemma KnownPacketsStay(s: System, act: Action)
    requires Enabled(s, act)
    ensures var t := Apply(s, act);
            forall p | p in s.packets :: p in t.packets && t.packets[p] == s.packets[p]
  {
    hide Order, KeyOf, Selects, Incremented;
  }

  lemma StepKeepsPackets(s: System, act: Action)
    requires PacketsAgree(s) && Enabled(s, act)
    ensures PacketsAgree(Apply(s, act))
  {
    StepKeepsDeliveries(s, act);
    QuietStepCalls(s, act);
    KnownPacketsStay(s, act);
    var t := Apply(s, act);
    hide Apply, Enabled;
    forall p | p in t.packets
      ensures exists id :: id in t.calls && t.calls[id].packet == p
    {
      if p in s.packets {
        var id :| id in s.calls && s.calls[id].packet == p;
        assert t.calls[id].packet == p;
      } else {
        assert t.calls[act.id].packet == p;
      }
    }
  }

  lemma {:induction false} RunKeepsPackets(s: System, acts: seq<Action>)
    requires PacketsAgree(s) && Runs(s, acts)
    ensures PacketsAgree(After(s, acts))
    decreases |acts|
  {
    if acts != [] {
      StepKeepsPackets(s, acts[0]);
      hide PacketsAgree, Enabled, Apply;
      RunKeepsPackets(Apply(s, acts[0]), acts[1..]);
    }
  }

  /** The packet rows that `serialize_link_packet` labels `d` on the link from `a` to `b`. */
  ghost function LabelledRows(s: System, a: Pk, b: Pk, d: Direction): set<nat> {
    set p | p in s.packets && Label(s.packets[p].0, s.packets[p].1, a, b) == d
  }

  /** The packets of the calls from `p` to `q` that are past their counter update. */
  ghost function CountedRows(s: System, p: Pk, q: Pk): set<nat> {
    set id | id in Travelled(s, p, q) :: s.calls[id].packet
  }

  /** No packet from `p` to `q` has been counted in two deliveries. */
  ghost predicate CountedOnce(s: System, p: Pk, q: Pk) {
    forall i, j | i in Travelled(s, p, q) && j in Travelled(s, p, q) && i != j :: s.calls[i].packet != s.calls[j].packet
  }

  lemma CountedRowsSize(s: System, p: Pk, q: Pk)
    ensures |CountedRows(s, p, q)| <= |Travelled(s, p, q)|
    ensures |CountedRows(s, p, q)| == |Travelled(s, p, q)| <==> CountedOnce(s, p, q)
  {
    var ids := Travelled(s, p, q);
    var f := (id: CallId) => if id in s.calls then s.calls[id].packet else 0;
    assert CountedRows(s, p, q) == set id | id in ids :: f(id);
    ImageSize(ids, f, CountedRows(s, p, q));
  }

  lemma LabelledIff(s: System, p: Pk, q: Pk, k: nat)
    requires p != q
    ensures k in LabelledRows(s, p, q, AToB) <==> k in s.packets && s.packets[k] == (p, q)
    ensures k in LabelledRows(s, q, p, BToA) <==> k in s.packets && s.packets[k] == (p, q)
  {
  }

  lemma DeliveryOf(s: System, k: nat) returns (id: CallId)
    requires PacketsAgree(s) && k in s.packets
    ensures id in s.calls && s.calls[id].packet == k && s.packets[k] == (s.calls[id].from, s.calls[id].to)
  {
    id :| id in s.calls && s.calls[id].packet == k;
  }

  lemma PacketOf(s: System, id: CallId)
    requires PacketsAgree(s) && id in s.calls
    ensures s.calls[id].packet in s.packets && s.packets[s.calls[id].packet] == (s.calls[id].from, s.calls[id].to)
  {
  }

  /** Counted packets are labelled with the direction of their calls; once every call has finished
      they are all the labelled ones. */
  lemma CountedAreLabelled(s: System, p: Pk, q: Pk)
    requires CallsAgree(s) && PacketsAgree(s) && p != q
    ensures CountedRows(s, p, q) <= LabelledRows(s, p, q, AToB)
    ensures LabelledRows(s, p, q, AToB) == LabelledRows(s, q, p, BToA)
    ensures (forall id | id in s.calls :: s.calls[id].pc.Finished?) ==> CountedRows(s, p, q) == LabelledRows(s, p, q, AToB)
  {
    hide CallsAgree, PacketsAgree, LabelledRows, HasCounted;
    forall k
      ensures k in LabelledRows(s, p, q, AToB) <==> k in LabelledRows(s, q, p, BToA)
    {
      LabelledIff(s, p, q, k);
    }
    forall k | k in CountedRows(s, p, q)
      ensures k in LabelledRows(s, p, q, AToB)
    {
      var id :| id in Travelled(s, p, q) && s.calls[id].packet == k;
      TravelledCall(s, p, q, id);
      PacketOf(s, id);
      LabelledIff(s, p, q, k);
    }
    if forall id | id in s.calls :: s.calls[id].pc.Finished? {
      forall k | k in LabelledRows(s, p, q, AToB)
        ensures k in CountedRows(s, p, q)
      {
        LabelledIff(s, p, q, k);
        var id := DeliveryOf(s, k);
        TravelledCall(s, p, q, id);
      }
    }
  }

  lemma TravelledCall(s: System, p: Pk, q: Pk, id: CallId)
    requires CallsAgree(s) && p != q
    ensures id in Travelled(s, p, q) ==> id in s.calls && (s.calls[id].from, s.calls[id].to) == (p, q)
    ensures id in s.calls && (s.calls[id].from, s.calls[id].to) == (p, q) && s.calls[id].pc.Finished? ==> id in Travelled(s, p, q)
  {
    if id in s.calls {
      assert CallAgrees(s, s.calls[id]);
    }
    hide CallsAgree, Oriented, OnLink;
  }

  /** The index against the packet table. With stable nodes, each counter of a pair's only link is the
      number of deliveries counted in its direction, and so never below the number of different
      packets counted; it equals that number if and only if no packet was counted twice. Once every
      call has finished, those packets are the rows that the serializer labels with the direction. */
  lemma IndexAgreesWithLog(nodes: Directory, acts: seq<Action>, l: LinkId)
    requires Runs(Empty(nodes), acts) && Stable(acts) && l in After(Empty(nodes), acts).links
    ensures var s := After(Empty(nodes), acts);
            var row := s.links[l];
            && (forall k | k in s.links && {s.links[k].a, s.links[k].b} == {row.a, row.b} :: k == l)
            && DirectionAgrees(s, row.a, row.b, row.aToB, LabelledRows(s, row.a, row.b, AToB))
            && DirectionAgrees(s, row.b, row.a, row.bToA, LabelledRows(s, row.a, row.b, BToA))
  {
    var s := After(Empty(nodes), acts);
    var row := s.links[l];
    RunKeepsInv(Empty(nodes), acts);
    RunKeepsPackets(Empty(nodes), acts);
    SafeAlways(nodes, acts, l);
    OneLink(nodes, acts, row.a, row.b);
    assert OneLinkPerPair(s);
    LinkCounters(s, l);
    NoIncrementLost(nodes, acts, row.a, row.b);
    NoIncrementLost(nodes, acts, row.b, row.a);
    assert CallsAgree(s);
    hide Inv, Travelled, Runs, After, Counters, PacketsAgree, LabelledRows, CallsAgree, DirectionAgrees;
    EachDirection(s, row.a, row.b);
    EachDirection(s, row.b, row.a);
    assert HasPair(s, row.a, row.b);
    NoPairNoCounters(s, row.b, row.a);
    OnlyLink(s, l);
  }

  lemma EachDirection(s: System, p: Pk, q: Pk)
    requires CallsAgree(s) && PacketsAgree(s) && p != q
    ensures LabelledRows(s, p, q, AToB) == LabelledRows(s, q, p, BToA)
    ensures DirectionAgrees(s, p, q, |Travelled(s, p, q)|, LabelledRows(s, p, q, AToB))
  {
    hide CallsAgree, PacketsAgree, LabelledRows, CountedRows, CountedOnce, Travelled;
    CountedRowsSize(s, p, q);
    CountedAreLabelled(s, p, q);
  }

  /** What a counter of packets from `p` to `q` says about the rows labelled with that direction. */
  ghost predicate DirectionAgrees(s: System, p: Pk, q: Pk, counter: nat, labelled: set<nat>) {
    && counter == |Travelled(s, p, q)|
    && counter >= |CountedRows(s, p, q)| && (counter == |CountedRows(s, p, q)| <==> CountedOnce(s, p, q))
    && CountedRows(s, p, q) <= labelled
    && ((forall id | id in s.calls :: s.calls[id].pc.Finished?) ==>
          CountedRows(s, p, q) == labelled && (counter == |labelled| <==> CountedOnce(s, p, q)))
  }

  /** The statements of a delivery that finds link `l`. */
  ghost function RepeatedCall(nodes: Directory, id: CallId, from: Pk, to: Pk, packet: nat, l: LinkId): seq<Action>
    requires from in nodes && to in nodes
  {
    [UpToDateSpawn(nodes, id, from, to, packet), Look(id, Some(l))] + [Count(id, 0), Refresh(id), Flag(id)]
  }

  lemma RepeatedCallFinds(s: System, id: CallId, from: Pk, to: Pk, packet: nat, l: LinkId)
    requires CanSpawn(s, id, from, to, packet) && from != to
    requires Selects(s, (Normalize(s.nodes, from, to).0, Normalize(s.nodes, from, to).1), Some(l))
    ensures var acts := [UpToDateSpawn(s.nodes, id, from, to, packet), Look(id, Some(l))];
            && Runs(s, acts)
            && var t, n := After(s, acts), Normalize(s.nodes, from, to);
            && t.packets == s.packets[packet := (from, to)] && t.links == s.links
            && t.calls == s.calls[id := Call(from, to, KeyOf(s.nodes[from], from), KeyOf(s.nodes[to], to), n.0, n.1, n.2, packet, Some(0), Found(l))]
  {
    hide KeyLe, KeyOf, Order;
    var a, b := UpToDateSpawn(s.nodes, id, from, to, packet), Look(id, Some(l));
    KeyOfPk(s.nodes[from], from);
    KeyOfPk(s.nodes[to], to);
    var t := Apply(s, a);
    assert Enabled(t, b);
    var u := Apply(t, b);
    assert Runs(u, []) && After(u, []) == u;
    assert u.calls == s.calls[id := u.calls[id]];
    hide Runs, After, Enabled, Apply;
    RunOneThen(t, b, []);
    RunOneThen(s, a, [b]);
    assert [b] + [] == [b] && [a] + [b] == [a, b];
  }

  /** It does happen: one packet, delivered by two gateways, is one row and two increments. */
  lemma TwoDeliveriesCountTwice()
    ensures var nodes := NUMBERED_5_AND_9;
            var acts := FreshCall(nodes, 0, 1, 2, 100, 10) + RepeatedCall(nodes, 1, 1, 2, 100, 10);
            && Runs(Empty(nodes), acts)
            && var s := After(Empty(nodes), acts);
            && s.links == map[10 := Link(1, 2, 2, 0, false, 0, Some(100))] && LabelledRows(s, 1, 2, AToB) == {100}
            && s.calls.Keys == {0, 1} && s.calls[0].pc == s.calls[1].pc == Finished(Some(10))
  {
    var nodes := NUMBERED_5_AND_9;
    var first, second := FreshCall(nodes, 0, 1, 2, 100, 10), RepeatedCall(nodes, 1, 1, 2, 100, 10);
    FirstDelivery(nodes);
    SecondDelivery(After(Empty(nodes), first));
    hide Runs, After, FreshCall, RepeatedCall;
    RunsConcat(Empty(nodes), first, second);
  }

  lemma SecondDelivery(t: System)
    requires t.nodes == NUMBERED_5_AND_9 && t.had == Empty(NUMBERED_5_AND_9).had && t.packets == map[100 := (1, 2)]
    requires t.links == map[10 := Link(1, 2, 1, 0, false, 0, Some(100))]
    requires t.calls.Keys == {0} && t.calls[0].pc == Finished(Some(10))
    ensures var acts := RepeatedCall(t.nodes, 1, 1, 2, 100, 10);
            && Runs(t, acts)
            && var s := After(t, acts);
            && s.links == map[10 := Link(1, 2, 2, 0, false, 0, Some(100))] && LabelledRows(s, 1, 2, AToB) == {100}
            && s.calls.Keys == {0, 1} && s.calls[0].pc == s.calls[1].pc == Finished(Some(10))
  {
    assert Normalize(t.nodes, 1, 2) == (1, 2, AToB);
    assert CanSpawn(t, 1, 1, 2, 100) by { assert KeyOf(t.nodes[1], 1) in t.had && KeyOf(t.nodes[2], 2) in t.had; }
    assert Selects(t, (1, 2), Some(10));
    hide Normalize, KeyOf, CanSpawn, Empty, Selects;
    RepeatedCallLeaves(t, 1, 1, 2, 100, 10);
    hide Runs, After, RepeatedCall;
  }

  lemma RepeatedCallLeaves(s: System, id: CallId, from: Pk, to: Pk, packet: nat, l: LinkId)
    requires CanSpawn(s, id, from, to, packet) && from != to
    requires Selects(s, (Normalize(s.nodes, from, to).0, Normalize(s.nodes, from, to).1), Some(l))
    requires var row := Incremented(s.links[l], Normalize(s.nodes, from, to).2, packet, 0);
             row.aToB == 0 || row.bToA == 0
    ensures var acts := RepeatedCall(s.nodes, id, from, to, packet, l);
            && Runs(s, acts)
            && var t := After(s, acts);
            && t.packets == s.packets[packet := (from, to)]
            && t.links == s.links[l := Incremented(s.links[l], Normalize(s.nodes, from, to).2, packet, 0)]
            && t.calls.Keys == s.calls.Keys + {id} && t.calls[id].pc == Finished(Some(l))
            && (forall k | k in s.calls :: t.calls[k] == s.calls[k])
  {
    var find, count := [UpToDateSpawn(s.nodes, id, from, to, packet), Look(id, Some(l))], [Count(id, 0), Refresh(id), Flag(id)];
    RepeatedCallFinds(s, id, from, to, packet, l);
    hide Runs, After, Order, KeyOf;
    FreshCallCounts(After(s, find), id, l);
    RunsConcat(s, find, count);
  }

  lemma NoPairNoCounters(s: System, a: Pk, b: Pk)
    requires !HasPair(s, a, b)
    ensures Counters(s, a, b) == (0, 0)
  {
  }

  lemma OnlyLink(s: System, l: LinkId)
    requires l in s.links && OneLinkPerPair(s) && !HasPair(s, s.links[l].b, s.links[l].a)
    ensures forall k | k in s.links && {s.links[k].a, s.links[k].b} == {s.links[l].a, s.links[l].b} :: k == l
  {
    var row := s.links[l];
    forall k | k in s.links && {s.links[k].a, s.links[k].b} == {row.a, row.b}
      ensures k == l
    {
      assert s.links[k].a in {row.a, row.b} && s.links[k].b in {row.a, row.b};
      assert row.a in {s.links[k].a, s.links[k].b} && row.b in {s.links[k].a, s.links[k].b};
    }
  }

  lemma LinkCounters(s: System, l: LinkId)
    requires OneLinkPerPair(s) && l in s.links
    ensures Counters(s, s.links[l].a, s.links[l].b) == (s.links[l].aToB, s.links[l].bToA)
  {
  }

  // ------------------------------------------------------------ one uninterrupted call

  lemma FoundOnOwnPair(s: System, id: CallId, l: LinkId)
    requires Inv(s) && id in s.calls && s.calls[id].pc == Found(l)
    ensures OnLink(s, s.calls[id], l)
    ensures s.calls[id].direction == AToB <==> s.calls[id].from == s.calls[id].a
  {
    assert CallAgrees(s, s.calls[id]);
  }

  lemma FlagNeedsBoth(s: System, l: LinkId)
    requires Inv(s) && l in s.links
    ensures s.links[l].bidirectional ==> s.links[l].aToB > 0 && s.links[l].bToA > 0
  {
    assert RowAgrees(s.log, s.links[l]);
  }

  /** The manager over the link table. Its one method runs the statements of a single call in a
      row; `StepKeepsInv` covers the runs where other calls come in between. */
  class NodeLinkManager {
    var s: System

    constructor (nodes: Directory)
      ensures s == Empty(nodes) && Inv(s)
    {
      s := Empty(nodes);
    }

    method RecordActivity(from: Pk, to: Pk, fromKey: SortKey, toKey: SortKey, packet: nat, time: Option<int>,
                          now: int, id: CallId, newId: LinkId)
      returns (link: Option<LinkId>)
      requires Inv(s) && Enabled(s, Spawn(id, from, to, fromKey, toKey, packet, time)) && newId !in s.links
      modifies this
      ensures Inv(s) && s.nodes == old(s.nodes)
      ensures from == to ==> link == None && s.links == old(s.links) && s.log == old(s.log)
      ensures from != to ==>
                var n := Order(from, to, fromKey, toKey);
                && link.Some? && link.value in s.links
                && (s.links[link.value].a, s.links[link.value].b) == (n.0, n.1)
                && s.log == old(s.log) + [Entry(id, from, to, n.0, n.1, packet, time.GetOr(now))]
                && (s.links[link.value].bidirectional <==> s.links[link.value].aToB > 0 && s.links[link.value].bToA > 0)
                && s.links.Keys == old(s.links.Keys) + {link.value}
                && (s.links[link.value].lastPacket, s.links[link.value].lastActivity) == (Some(packet), time.GetOr(now))
                && (var before := if link.value in old(s.links) then (old(s.links)[link.value].aToB, old(s.links)[link.value].bToA) else (0, 0);
                    (s.links[link.value].aToB, s.links[link.value].bToA) == if from == n.0 then (before.0 + 1, before.1) else (before.0, before.1 + 1))
                && (forall k | k in old(s.links) && k != link.value :: s.links[k] == old(s.links[k]))
    {
      hide Inv, OnLink, Selects, KeyLe, KeyOf;
      Do(Spawn(id, from, to, fromKey, toKey, packet, time));
      if from == to {
        Do(Look(id, None));
        return None;
      }
      var l := GetOrCreate(id, newId, now);
      CountAndFlag(id, l, now);
      return Some(l);
    }

    /** `get_or_create`: a SELECT, then an INSERT when nothing was found. */
    method GetOrCreate(id: CallId, newId: LinkId, now: int) returns (l: LinkId)
      requires Inv(s) && id in s.calls && s.calls[id].pc == Start && s.calls[id].from != s.calls[id].to
      requires newId !in s.links
      modifies this
      ensures Inv(s) && s.nodes == old(s.nodes) && s.log == old(s.log)
      ensures id in s.calls && s.calls[id] == old(s.calls[id]).(pc := Found(l))
      ensures l in s.links && s.links.Keys == old(s.links.Keys) + {l}
      ensures (s.links[l].a, s.links[l].b) == (s.calls[id].a, s.calls[id].b)
      ensures l !in old(s.links) ==> (s.links[l].aToB, s.links[l].bToA, s.links[l].bidirectional) == (0, 0, false)
      ensures forall k | k in old(s.links) :: s.links[k] == old(s.links[k])
    {
      hide Normalize, Inv;
      var hit := Select((s.calls[id].a, s.calls[id].b));
      Do(Look(id, hit));
      if hit == None {
        Do(Insert(id, None, newId, now));
      }
      l := s.calls[id].pc.link;
    }

    /** The counter update, the refresh and the conditional flag update. */
    method CountAndFlag(id: CallId, l: LinkId, now: int)
      requires Inv(s) && id in s.calls && s.calls[id].pc == Found(l) && l in s.links
      modifies this
      ensures Inv(s) && s.nodes == old(s.nodes)
      ensures var c := old(s.calls[id]);
              && s.log == old(s.log) + [Entry(id, c.from, c.to, c.a, c.b, c.packet, c.time.GetOr(now))]
              && s.links.Keys == old(s.links.Keys)
              && (s.links[l].a, s.links[l].b) == old((s.links[l].a, s.links[l].b)) == (c.a, c.b)
              && (s.links[l].aToB, s.links[l].bToA)
                 == (if c.from == c.a then (old(s.links[l].aToB) + 1, old(s.links[l].bToA)) else (old(s.links[l].aToB), old(s.links[l].bToA) + 1))
      ensures (s.links[l].lastPacket, s.links[l].lastActivity) == old((Some(s.calls[id].packet), s.calls[id].time.GetOr(now)))
      ensures s.links[l].bidirectional <==> s.links[l].aToB > 0 && s.links[l].bToA > 0
      ensures forall k | k in old(s.links) && k != l :: s.links[k] == old(s.links[k])
    {
      hide Inv, KeyLe, KeyOf, RowAgrees, CallAgrees, CountedOn, LastOn;
      FoundOnOwnPair(s, id, l);
      Do(Count(id, now));
      Do(Refresh(id));
      Do(Flag(id));
      FlagNeedsBoth(s, l);
    }

    method Select(pair: (Pk, Pk)) returns (hit: Option<LinkId>)
      ensures Selects(s, pair, hit)
    {
      if l: LinkId :| l in s.links && (s.links[l].a, s.links[l].b) == pair {
        return Some(l);
      } else {
        return None;
      }
    }

    method Do(act: Action)
      requires Inv(s) && Enabled(s, act)
      modifies this
      ensures s == old(Apply(s, act)) && Inv(s)
    {
      StepKeepsInv(s, act);
      s := Apply(s, act);
    }
  }
}
