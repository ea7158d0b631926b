/** Reassembling packets from fragments that arrive in any order, again and again, among other keys. */
module CombineModel {
  import opened Basics
  import opened DnsCodec
  import opened Options

  /** A content address and a fragment count: the header without its index. */
  type Key = seq<Byte>

  datatype Partial = Partial(
    key: Key,
    addr: Addr,
    packets: seq<Option<seq<Byte>>>,
    count: nat,
    updateAddr: Addr,
    updateTime: int)

  datatype Outcome = BadIndex | Limited | Stored | Output(data: seq<Byte>, addr: Addr)

  type Partials = map<Key, Partial>

  datatype Event =
    | Arrive(addr: Addr, header: Header, data: seq<Byte>, now: int, full: bool)
    | Expire(minUpdateTime: int)

  function KeyOf(header: Header): Key { header[..17] }

  function Filled(packets: seq<Option<seq<Byte>>>): (n: nat)
    ensures n <= |packets|
    ensures n == |packets| <==> forall k | 0 <= k < |packets| :: packets[k].Some?
  {
    if packets == [] then 0
    else
      assert forall k | 0 < k < |packets| :: packets[k] == packets[1..][k - 1];
      assert forall k | 0 <= k < |packets| - 1 :: packets[1..][k] == packets[k + 1];
      (if packets[0].Some? then 1 else 0) + Filled(packets[1..])
  }

  lemma {:induction false} FilledUpdate(packets: seq<Option<seq<Byte>>>, i: nat, data: seq<Byte>)
    requires i < |packets|
    ensures Filled(packets[i := Some(data)]) == Filled(packets) + if packets[i].None? then 1 else 0
  {
    if i == 0 {
      assert packets[i := Some(data)][1..] == packets[1..];
    } else {
      assert packets[i := Some(data)][1..] == packets[1..][i - 1 := Some(data)];
      FilledUpdate(packets[1..], i - 1, data);
    }
  }

  /** The received fragments one after the other. */
  function Joined(packets: seq<Option<seq<Byte>>>): seq<Byte> {
    if packets == [] then []
    else (if packets[0].Some? then packets[0].value else []) + Joined(packets[1..])
  }

  function Flat(chunks: seq<seq<Byte>>): seq<Byte> {
    if chunks == [] then [] else chunks[0] + Flat(chunks[1..])
  }

  predicate WellFormed(p: Partial) {
    && |p.key| == 17 && |p.packets| == p.key[16]
    && p.count == Filled(p.packets) && p.count < |p.packets|
  }

  ghost predicate AllWellFormed(items: Partials) {
    forall k <- items :: WellFormed(items[k]) && items[k].key == k
  }

  function NewPartial(key: Key, addr: Addr): (p: Partial)
    requires |key| == 17
    ensures 0 < key[16] ==> WellFormed(p)
  {
    var packets := seq(key[16], _ => None);
    assert 0 < key[16] ==> packets[0].None?;
    NoneFilled(packets);
    Partial(key, addr, packets, 0, addr, 0)
  }

  lemma {:induction false} NoneFilled(packets: seq<Option<seq<Byte>>>)
    requires forall k | 0 <= k < |packets| :: packets[k].None?
    ensures Filled(packets) == 0
  {
    if packets != [] {
      NoneFilled(packets[1..]);
    }
  }

  /** The partial packet with one more fragment. */
  function WithFragment(p: Partial, i: nat, data: seq<Byte>, addr: Addr, now: int): (q: Partial)
    requires i < |p.packets|
  {
    p.(packets := p.packets[i := Some(data)],
       count := p.count + if p.packets[i].None? then 1 else 0,
       updateAddr := addr, updateTime := now)
  }

  /** The fragment goes into the partial packet of its key, which comes out once it is complete. */
  function Merged(items: Partials, key: Key, i: nat, data: seq<Byte>, addr: Addr, now: int): (r: (Partials, Outcome))
    requires AllWellFormed(items) && |key| == 17 && i < key[16]
    ensures AllWellFormed(r.0)
  {
    var p := if key in items then items[key] else NewPartial(key, addr);
    var q := WithFragment(p, i, data, addr, now);
    FilledUpdate(p.packets, i, data);
    if q.count == |q.packets| then (items - {key}, Output(Joined(q.packets), addr)) else (items[key := q], Stored)
  }

  /** What one event does to the partial packets; `full` refuses new keys. */
  function Step(items: Partials, e: Event): (r: (Partials, Outcome))
    requires AllWellFormed(items)
    ensures AllWellFormed(r.0)
  {
    match e
    case Expire(minUpdateTime) => (map k <- items | minUpdateTime <= items[k].updateTime :: items[k], Stored)
    case Arrive(addr, header, data, now, full) =>
      var key := KeyOf(header);
      if header[16] <= header[17] then (items, BadIndex)
      else if key !in items && full then (items, Limited)
      else Merged(items, key, header[17], data, addr, now)
  }

  // The count of partial packets by address

  type Counts = map<Addr, int>

  function CountOf(counts: Counts, addr: Addr): int { if addr in counts then counts[addr] else 0 }

  function Up(counts: Counts, addr: Addr): Counts { counts[addr := CountOf(counts, addr) + 1] }

  function Down(counts: Counts, addr: Addr): Counts {
    if CountOf(counts, addr) <= 1 then counts - {addr} else counts[addr := CountOf(counts, addr) - 1]
  }

  /** Completion counts down the address of the last fragment, not that of the first. */
  function ArriveCounts(items: Partials, counts: Counts, key: Key, addr: Addr, r: Outcome): Counts {
    if r.Output? && key in items then Down(counts, addr)
    else if r.Stored? && key !in items then Up(counts, addr)
    else counts
  }

  ghost function KeysOf(items: Partials, addr: Addr): set<Key> { set k <- items | items[k].addr == addr }

  ghost predicate CountsMatch(items: Partials, counts: Counts) {
    forall a :: CountOf(counts, a) == |KeysOf(items, a)|
  }

  lemma CountsAfterRemove(items: Partials, counts: Counts, key: Key)
    requires CountsMatch(items, counts) && key in items
    ensures CountsMatch(items - {key}, Down(counts, items[key].addr))
  {
    var addr := items[key].addr;
    forall a ensures CountOf(Down(counts, addr), a) == |KeysOf(items - {key}, a)| {
      KeysAfterRemove(items, key, a);
    }
  }

  lemma KeysAfterRemove(items: Partials, key: Key, a: Addr)
    requires key in items
    ensures |KeysOf(items - {key}, a)| == |KeysOf(items, a)| - if a == items[key].addr then 1 else 0
  {
    if a == items[key].addr {
      assert key in KeysOf(items, a) && KeysOf(items - {key}, a) == KeysOf(items, a) - {key};
    } else {
      assert KeysOf(items - {key}, a) == KeysOf(items, a);
    }
  }

  lemma CountsAfterAdd(items: Partials, counts: Counts, key: Key, p: Partial)
    requires CountsMatch(items, counts) && key !in items
    ensures CountsMatch(items[key := p], Up(counts, p.addr))
  {
    forall a ensures CountOf(Up(counts, p.addr), a) == |KeysOf(items[key := p], a)| {
      KeysAfterAdd(items, key, p, a);
    }
  }

  lemma KeysAfterAdd(items: Partials, key: Key, p: Partial, a: Addr)
    requires key !in items
    ensures |KeysOf(items[key := p], a)| == |KeysOf(items, a)| + if a == p.addr then 1 else 0
  {
    if a == p.addr {
      assert KeysOf(items[key := p], a) == KeysOf(items, a) + {key};
    } else {
      assert KeysOf(items[key := p], a) == KeysOf(items, a);
    }
  }

  lemma CountsAfterReplace(items: Partials, counts: Counts, key: Key, p: Partial)
    requires CountsMatch(items, counts) && key in items && items[key].addr == p.addr
    ensures CountsMatch(items[key := p], counts)
  {
    forall a ensures KeysOf(items[key := p], a) == KeysOf(items, a) {
    }
  }

  /** The fragment fills the last slot of a packet that another address began. */
  predicate CompletesForAnother(items: Partials, key: Key, i: nat, addr: Addr) {
    && key in items && items[key].addr != addr
    && i < |items[key].packets| && items[key].packets[i].None? && items[key].count + 1 == |items[key].packets|
  }

  /** Exact counts stay exact if and only if the fragment does not complete the packet of another address. */
  lemma MergeCounts(items: Partials, counts: Counts, key: Key, i: nat, data: seq<Byte>, addr: Addr, now: int)
    requires AllWellFormed(items) && |key| == 17 && i < key[16] && CountsMatch(items, counts)
    ensures var r := Merged(items, key, i, data, addr, now);
            CountsMatch(r.0, ArriveCounts(items, counts, key, addr, r.1)) <==> !CompletesForAnother(items, key, i, addr)
  {
    var p := if key in items then items[key] else NewPartial(key, addr);
    var q := WithFragment(p, i, data, addr, now);
    if CompletesForAnother(items, key, i, addr) {
      KeysAfterRemove(items, key, p.addr);
      assert CountOf(Down(counts, addr), p.addr) == |KeysOf(items, p.addr)|;
    } else if q.count == |q.packets| {
      if key in items {
        CountsAfterRemove(items, counts, key);
      } else {
        assert items - {key} == items;
      }
    } else if key in items {
      CountsAfterReplace(items, counts, key, q);
    } else {
      CountsAfterAdd(items, counts, key, q);
    }
  }

  /** With two addresses on one key, the first keeps a count without an item. */
  lemma TwoAddressesLeaveACount(key: Key, a: Addr, b: Addr, x: seq<Byte>, y: seq<Byte>)
    requires |key| == 17 && key[16] == 2 && a != b
    ensures var first := Merged(map[], key, 0, x, a, 0);
            var second := Merged(first.0, key, 1, y, b, 0);
            var counts := ArriveCounts(map[], map[], key, a, first.1);
            second.0 == map[] && CountOf(ArriveCounts(first.0, counts, key, b, second.1), a) == 1
  {
    var p := NewPartial(key, a);
    NoneFilled(p.packets);
    FilledUpdate(p.packets, 0, x);
    var q := WithFragment(p, 0, x, a, 0);
    assert q.count == 1 && Merged(map[], key, 0, x, a, 0) == (map[key := q], Stored);
    var t := WithFragment(q, 1, y, b, 0);
    assert t.count == 2 && map[key := q] - {key} == map[];
  }

  /** The partial packets and counts once some keys are forgotten one after the other. */
  function Forgotten(items: Partials, counts: Counts, order: seq<Key>): (Partials, Counts) {
    if order == [] then (items, counts)
    else if order[0] !in items then Forgotten(items, counts, order[1..])
    else Forgotten(items - {order[0]}, Down(counts, items[order[0]].addr), order[1..])
  }

  lemma {:induction false} ForgottenMore(items: Partials, counts: Counts, order: seq<Key>, key: Key)
    ensures var r := Forgotten(items, counts, order);
            key in r.0 ==>
              Forgotten(items, counts, order + [key]) == (r.0 - {key}, Down(r.1, r.0[key].addr))
  {
    if order == [] {
      assert [key][1..] == [];
    } else {
      assert (order + [key])[1..] == order[1..] + [key];
      if order[0] !in items {
        ForgottenMore(items, counts, order[1..], key);
      } else {
        ForgottenMore(items - {order[0]}, Down(counts, items[order[0]].addr), order[1..], key);
      }
    }
  }

  lemma {:induction false} ForgottenMatch(items: Partials, counts: Counts, order: seq<Key>)
    requires CountsMatch(items, counts)
    ensures CountsMatch(Forgotten(items, counts, order).0, Forgotten(items, counts, order).1)
  {
    if order != [] {
      if order[0] in items {
        CountsAfterRemove(items, counts, order[0]);
        ForgottenMatch(items - {order[0]}, Down(counts, items[order[0]].addr), order[1..]);
      } else {
        ForgottenMatch(items, counts, order[1..]);
      }
    }
  }

  /** What one event does to the counts; expiry forgets the keys in any order. */
  ghost predicate CountsStep(items: Partials, counts: Counts, e: Event, after: Counts)
    requires AllWellFormed(items)
  {
    match e
    case Arrive(addr, header, _, _, _) => after == ArriveCounts(items, counts, KeyOf(header), addr, Step(items, e).1)
    case Expire(_) => exists order :: Forgotten(items, counts, order) == (Step(items, e).0, after)
  }

  // The limits

  function AtLeastZero(n: int): nat { if n < 0 then 0 else n }

  ghost predicate CountsBounded(counts: Counts, maxPerAddress: int) {
    forall a :: CountOf(counts, a) <= AtLeastZero(maxPerAddress)
  }

  /** The queue and every address are within their limits. */
  ghost predicate Bounded(items: Partials, counts: Counts, max: int, maxPerAddress: int) {
    |items| <= AtLeastZero(max) && CountsBounded(counts, maxPerAddress)
  }

  /** A new key is refused when its address or the whole queue is at its limit. */
  predicate AtLimit(items: Partials, counts: Counts, addr: Addr, max: int, maxPerAddress: int) {
    maxPerAddress <= CountOf(counts, addr) || max <= |items|
  }

  lemma DownBounded(counts: Counts, addr: Addr, maxPerAddress: int)
    requires CountsBounded(counts, maxPerAddress)
    ensures CountsBounded(Down(counts, addr), maxPerAddress)
  {
    forall a ensures CountOf(Down(counts, addr), a) <= AtLeastZero(maxPerAddress) {
      assert CountOf(counts, a) <= AtLeastZero(maxPerAddress);
    }
  }

  lemma UpBounded(counts: Counts, addr: Addr, maxPerAddress: int)
    requires CountsBounded(counts, maxPerAddress) && CountOf(counts, addr) < maxPerAddress
    ensures CountsBounded(Up(counts, addr), maxPerAddress)
  {
    forall a ensures CountOf(Up(counts, addr), a) <= AtLeastZero(maxPerAddress) {
      assert CountOf(counts, a) <= AtLeastZero(maxPerAddress);
    }
  }

  lemma {:induction false} ForgottenBounded(items: Partials, counts: Counts, order: seq<Key>, max: int, maxPerAddress: int)
    requires Bounded(items, counts, max, maxPerAddress)
    ensures var r := Forgotten(items, counts, order); Bounded(r.0, r.1, max, maxPerAddress)
  {
    if order != [] {
      if order[0] in items {
        FewerItems(items, order[0]);
        DownBounded(counts, items[order[0]].addr, maxPerAddress);
        ForgottenBounded(items - {order[0]}, Down(counts, items[order[0]].addr), order[1..], max, maxPerAddress);
      } else {
        ForgottenBounded(items, counts, order[1..], max, maxPerAddress);
      }
    }
  }

  lemma FewerItems(items: Partials, key: Key)
    ensures |items - {key}| <= |items|
  {
    if key in items {
      assert (items - {key}).Keys == items.Keys - {key};
    } else {
      assert items - {key} == items;
    }
  }

  lemma OneMoreItem(items: Partials, key: Key, p: Partial)
    ensures |items[key := p]| == |items| + if key in items then 0 else 1
  {
    assert items[key := p].Keys == items.Keys + {key};
  }

  lemma MergeBounded(items: Partials, counts: Counts, key: Key, i: nat, data: seq<Byte>, addr: Addr, now: int,
                     max: int, maxPerAddress: int)
    requires AllWellFormed(items) && |key| == 17 && i < key[16] && Bounded(items, counts, max, maxPerAddress)
    requires key !in items ==> !AtLimit(items, counts, addr, max, maxPerAddress)
    ensures var r := Merged(items, key, i, data, addr, now);
            Bounded(r.0, ArriveCounts(items, counts, key, addr, r.1), max, maxPerAddress)
  {
    var p := if key in items then items[key] else NewPartial(key, addr);
    FewerItems(items, key);
    OneMoreItem(items, key, WithFragment(p, i, data, addr, now));
    if key in items {
      DownBounded(counts, addr, maxPerAddress);
    } else {
      UpBounded(counts, addr, maxPerAddress);
    }
  }

  /** No event takes the queue or an address beyond its limit. */
  lemma StepBounded(items: Partials, counts: Counts, e: Event, after: Counts, max: int, maxPerAddress: int)
    requires AllWellFormed(items) && CountsStep(items, counts, e, after) && Bounded(items, counts, max, maxPerAddress)
    requires e.Arrive? ==> e.full == AtLimit(items, counts, e.addr, max, maxPerAddress)
    ensures Bounded(Step(items, e).0, after, max, maxPerAddress)
  {
    if e.Expire? {
      var order :| Forgotten(items, counts, order) == (Step(items, e).0, after);
      ForgottenBounded(items, counts, order, max, maxPerAddress);
    } else if e.header[17] < e.header[16] && !(KeyOf(e.header) !in items && e.full) {
      MergeBounded(items, counts, KeyOf(e.header), e.header[17], e.data, e.addr, e.now, max, maxPerAddress);
    }
  }

  predicate Miscounts(items: Partials, e: Event) {
    e.Arrive? && e.header[17] < e.header[16] && CompletesForAnother(items, KeyOf(e.header), e.header[17], e.addr)
  }

  lemma StepCounts(items: Partials, counts: Counts, e: Event, after: Counts)
    requires AllWellFormed(items) && CountsMatch(items, counts) && CountsStep(items, counts, e, after)
    ensures CountsMatch(Step(items, e).0, after) <==> !Miscounts(items, e)
  {
    if e.Expire? {
      var order :| Forgotten(items, counts, order) == (Step(items, e).0, after);
      ForgottenMatch(items, counts, order);
    } else if e.header[17] < e.header[16] && !(KeyOf(e.header) !in items && e.full) {
      MergeCounts(items, counts, KeyOf(e.header), e.header[17], e.data, e.addr, e.now);
    }
  }

  /** A run of the queue from its start, with its counts. */
  ghost predicate IsRun(items: seq<Partials>, counts: seq<Counts>, events: seq<Event>) {
    && |items| == |counts| == |events| + 1 && items[0] == map[] && counts[0] == map[]
    && forall k | 0 <= k < |events| ::
         && AllWellFormed(items[k]) && items[k + 1] == Step(items[k], events[k]).0
         && CountsStep(items[k], counts[k], events[k], counts[k + 1])
  }

  /**
   Over a whole run the count of every address is the number of its partial packets, if and only if no
   fragment ever completes a packet that another address began.
   */
  lemma CountsAreExact(items: seq<Partials>, counts: seq<Counts>, events: seq<Event>)
    requires IsRun(items, counts, events)
    ensures (forall k | 0 <= k <= |events| :: CountsMatch(items[k], counts[k]))
            <==> (forall k | 0 <= k < |events| :: !Miscounts(items[k], events[k]))
  {
    if forall k | 0 <= k <= |events| :: CountsMatch(items[k], counts[k]) {
      forall k | 0 <= k < |events| ensures !Miscounts(items[k], events[k]) {
        assert CountsMatch(items[k + 1], counts[k + 1]);
        StepCounts(items[k], counts[k], events[k], counts[k + 1]);
      }
    }
    if forall k | 0 <= k < |events| :: !Miscounts(items[k], events[k]) {
      forall k | 0 <= k <= |events| ensures CountsMatch(items[k], counts[k]) {
        CountsMatchAt(items, counts, events, k);
      }
    }
  }

  lemma {:induction false} CountsMatchAt(items: seq<Partials>, counts: seq<Counts>, events: seq<Event>, k: nat)
    requires IsRun(items, counts, events) && k <= |events|
    requires forall j | 0 <= j < |events| :: !Miscounts(items[j], events[j])
    ensures CountsMatch(items[k], counts[k])
  {
    if k == 0 {
      assert forall a :: KeysOf(map[], a) == {};
    } else {
      CountsMatchAt(items, counts, events, k - 1);
      StepCounts(items[k - 1], counts[k - 1], events[k - 1], counts[k]);
    }
  }

  /** The fragments of a key come from one address. */
  ghost predicate OneAddress(events: seq<Event>, owner: Key -> Addr) {
    forall e <- events | e.Arrive? :: e.addr == owner(KeyOf(e.header))
  }

  /** With one address for each key the counts are exact throughout. */
  lemma OneAddressCounts(items: seq<Partials>, counts: seq<Counts>, events: seq<Event>, owner: Key -> Addr, k: nat)
    requires IsRun(items, counts, events) && OneAddress(events, owner) && k <= |events|
    ensures CountsMatch(items[k], counts[k])
  {
    forall j | 0 <= j < |events| ensures !Miscounts(items[j], events[j]) {
      OwnersHold(items, counts, events, owner, j);
      assert events[j] in events;
    }
    CountsAreExact(items, counts, events);
  }

  lemma {:induction false} OwnersHold(
      items: seq<Partials>, counts: seq<Counts>, events: seq<Event>, owner: Key -> Addr, k: nat)
    requires IsRun(items, counts, events) && OneAddress(events, owner) && k <= |events|
    ensures forall key <- items[k] :: items[k][key].addr == owner(key)
  {
    if k != 0 {
      OwnersHold(items, counts, events, owner, k - 1);
      assert events[k - 1] in events;
    }
  }

  // Whole runs

  function Run(items: Partials, events: seq<Event>): (r: Partials)
    requires AllWellFormed(items)
    ensures AllWellFormed(r)
    decreases |events|
  {
    if events == [] then items else Run(Step(items, events[0]).0, events[1..])
  }

  /** The packets output for a key, in order. */
  function Outputs(items: Partials, events: seq<Event>, key: Key): seq<seq<Byte>>
    requires AllWellFormed(items)
    decreases |events|
  {
    if events == [] then []
    else
      var r := Step(items, events[0]);
      (if events[0].Arrive? && KeyOf(events[0].header) == key && r.1.Output? then [r.1.data] else [])
      + Outputs(r.0, events[1..], key)
  }

  /** The event is for the key and carries a fragment at a good index. */
  predicate IsFragment(e: Event, key: Key) {
    e.Arrive? && KeyOf(e.header) == key && e.header[17] < e.header[16]
  }

  /** Every fragment of the key is the chunk of its index. */
  ghost predicate Faithful(events: seq<Event>, key: Key, chunks: seq<seq<Byte>>) {
    |key| == 17 && |chunks| == key[16] &&
    forall e <- events :: IsFragment(e, key) ==> e.data == chunks[e.header[17]]
  }

  /** The slots that are filled hold the chunks. */
  ghost predicate Holds(items: Partials, key: Key, chunks: seq<seq<Byte>>) {
    key in items ==>
      && |items[key].packets| == |chunks|
      && forall k | 0 <= k < |chunks| :: items[key].packets[k].Some? ==> items[key].packets[k].value == chunks[k]
  }

  lemma {:induction false} JoinedIsFlat(packets: seq<Option<seq<Byte>>>, chunks: seq<seq<Byte>>)
    requires |packets| == |chunks| && forall k | 0 <= k < |chunks| :: packets[k] == Some(chunks[k])
    ensures Joined(packets) == Flat(chunks)
  {
    if packets != [] {
      JoinedIsFlat(packets[1..], chunks[1..]);
    }
  }

  lemma StepHolds(items: Partials, e: Event, key: Key, chunks: seq<seq<Byte>>)
    requires AllWellFormed(items) && Faithful([e], key, chunks) && Holds(items, key, chunks)
    ensures Holds(Step(items, e).0, key, chunks)
    ensures IsFragment(e, key) && Step(items, e).1.Output? ==> Step(items, e).1.data == Flat(chunks)
  {
    if IsFragment(e, key) && !(key !in items && e.full) {
      assert e in [e];
      var p := if key in items then items[key] else NewPartial(key, e.addr);
      var q := WithFragment(p, e.header[17], e.data, e.addr, e.now);
      FilledUpdate(p.packets, e.header[17], e.data);
      if q.count == |q.packets| {
        JoinedIsFlat(q.packets, chunks);
      }
    }
  }

  /** Whatever is output for a key is the packet, in any order, with repeats, limits and expiry. */
  lemma {:induction false} OutputsAreThePacket(
      items: Partials, events: seq<Event>, key: Key, chunks: seq<seq<Byte>>, n: nat)
    requires AllWellFormed(items) && Faithful(events, key, chunks) && Holds(items, key, chunks)
    requires n < |Outputs(items, events, key)|
    ensures Outputs(items, events, key)[n] == Flat(chunks)
    decreases |events|
  {
    var e, r := events[0], Step(items, events[0]);
    assert Faithful([e], key, chunks) && Faithful(events[1..], key, chunks);
    StepHolds(items, e, key, chunks);
    var first := e.Arrive? && KeyOf(e.header) == key && r.1.Output?;
    if !first {
      OutputsAreThePacket(r.0, events[1..], key, chunks, n);
    } else if n > 0 {
      OutputsAreThePacket(r.0, events[1..], key, chunks, n - 1);
    }
  }

  /** No fragment of the key is refused and the key does not expire. */
  ghost predicate Undisturbed(items: Partials, events: seq<Event>, key: Key)
    requires AllWellFormed(items)
    decreases |events|
  {
    events == [] ||
    var e := events[0];
    && (IsFragment(e, key) && key !in items ==> !e.full)
    && (e.Expire? && key in items ==> e.minUpdateTime <= items[key].updateTime)
    && Undisturbed(Step(items, e).0, events[1..], key)
  }

  predicate HasSlot(items: Partials, key: Key, k: nat) {
    key in items && k < |items[key].packets| && items[key].packets[k].Some?
  }

  lemma StepKeepsSlots(items: Partials, e: Event, key: Key, k: nat)
    requires AllWellFormed(items) && |key| == 17 && Undisturbed(items, [e], key)
    requires !(IsFragment(e, key) && Step(items, e).1.Output?)
    requires HasSlot(items, key, k) || (IsFragment(e, key) && e.header[17] == k)
    ensures HasSlot(Step(items, e).0, key, k)
  {
  }

  /** A fragment of the index is among the events. */
  ghost predicate Arrived(events: seq<Event>, key: Key, k: nat) {
    exists e <- events :: IsFragment(e, key) && e.header[17] == k
  }

  /** Once every index has arrived, the packet has been output. */
  lemma {:induction false} AllIndicesOutput(items: Partials, events: seq<Event>, key: Key)
    requires AllWellFormed(items) && |key| == 17 && 0 < key[16] && Undisturbed(items, events, key)
    requires forall k: nat | k < key[16] :: HasSlot(items, key, k) || Arrived(events, key, k)
    ensures Outputs(items, events, key) != []
    decreases |events|
  {
    if events == [] {
      assert HasSlot(items, key, 0);
      var p := items[key];
      forall k: nat | k < |p.packets| ensures p.packets[k].Some? { assert HasSlot(items, key, k); }
      assert false;
    } else if !(IsFragment(events[0], key) && Step(items, events[0]).1.Output?) {
      var e, next := events[0], Step(items, events[0]).0;
      assert Undisturbed(items, [e], key);
      forall k: nat | k < key[16]
        ensures HasSlot(next, key, k) || Arrived(events[1..], key, k)
      {
        if HasSlot(items, key, k) || (IsFragment(e, key) && e.header[17] == k) {
          StepKeepsSlots(items, e, key, k);
        } else {
          var f :| f in events && IsFragment(f, key) && f.header[17] == k;
          assert f in events[1..];
        }
      }
      AllIndicesOutput(next, events[1..], key);
    }
  }
}
