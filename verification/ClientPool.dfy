/** The pool of private websocket clients: capped creation with in-flight markers, owner sets,
    release and removal. Each action is one stretch of code between two awaits, so a run of
    actions is an interleaving of asyncio tasks. */
module ClientPool {
  import opened Common

  /** The string "<exchange>:<user>"; exchange ids contain no colon. */
  datatype Key = Key(exchange: string, user: string)

  /** The caps in force. A missing cap does not limit. */
  datatype Caps = Caps(global: Option<int>, perExchange: map<string, int>)

  /** A creation that holds its exchange's lock and has reserved its slot. */
  datatype Creation = Creation(key: Key, owner: string)

  datatype Pool = Pool(
    clients: set<Key>,
    owners: map<Key, set<string>>,
    inflight: set<Key>,
    creating: map<string, Creation>)

  datatype Action =
    | Acquire(key: Key, owner: string)
    | Reserve(key: Key, owner: string, supported: bool)
    | Complete(exchange: string)
    | Abort(exchange: string)
    | Release(key: Key, owner: string)
    | Remove(key: Key)

  const EMPTY := Pool({}, map[], {}, map[])

  function BaseKey(id: string): string {
    if id == "kucoin" then "kucoinfutures" else id
  }

  function OfExchange(keys: set<Key>, exchange: string): set<Key> {
    set k | k in keys && k.exchange == exchange
  }

  function Load(p: Pool): int {
    |p.clients| + |p.inflight|
  }

  function ExchangeLoad(p: Pool, exchange: string): int {
    |OfExchange(p.clients, exchange)| + |OfExchange(p.inflight, exchange)|
  }

  /** setdefault(key, set()).add(owner) */
  function WithOwner(owners: map<Key, set<string>>, key: Key, owner: string): map<Key, set<string>> {
    owners[key := (if key in owners then owners[key] else {}) + {owner}]
  }

  /** Both cap checks, clients and in-flight markers together. */
  predicate HasRoom(p: Pool, caps: Caps, exchange: string) {
    && (caps.global.Some? ==> Load(p) < caps.global.value)
    && (exchange in caps.perExchange ==> ExchangeLoad(p, exchange) < caps.perExchange[exchange])
  }

  function Without(p: Pool, key: Key): Pool {
    p.(clients := p.clients - {key}, owners := p.owners - {key})
  }

  function Next(p: Pool, caps: Caps, a: Action): Pool {
    match a
    case Acquire(key, owner) =>
      if key in p.clients then p.(owners := WithOwner(p.owners, key, owner)) else p
    case Reserve(key, owner, supported) =>
      if key.exchange in p.creating then p
      else if key in p.clients then p.(owners := WithOwner(p.owners, key, owner))
      else if !HasRoom(p, caps, key.exchange) || !supported then p
      else p.(inflight := p.inflight + {key}, creating := p.creating[key.exchange := Creation(key, owner)])
    case Complete(e) =>
      if e in p.creating then
        var c := p.creating[e];
        p.(clients := p.clients + {c.key}, owners := WithOwner(p.owners, c.key, c.owner),
           inflight := p.inflight - {c.key}, creating := p.creating - {e})
      else p
    case Abort(e) =>
      if e in p.creating
      then p.(inflight := p.inflight - {p.creating[e].key}, creating := p.creating - {e})
      else p
    case Release(key, owner) =>
      if key in p.owners && p.owners[key] - {owner} != {}
      then p.(owners := p.owners[key := p.owners[key] - {owner}])
      else Without(p, key)
    case Remove(key) => Without(p, key)
  }

  function Exec(p: Pool, caps: Caps, actions: seq<Action>): Pool
    decreases |actions|
  {
    if actions == [] then p else Exec(Next(p, caps, actions[0]), caps, actions[1..])
  }

  // ---------------------------------------------------------------- the invariant

  function Bound(cap: int): nat {
    if cap < 0 then 0 else cap
  }

  /** Owner keys are client keys, and every client has an owner. */
  ghost predicate Owned(p: Pool) {
    p.owners.Keys == p.clients && forall k :: k in p.owners ==> p.owners[k] != {}
  }

  /** One creation per exchange, each with its marker, none for a client that exists. */
  ghost predicate Serialized(p: Pool) {
    && (forall e :: e in p.creating ==> p.creating[e].key.exchange == e && p.creating[e].key in p.inflight)
    && (forall k :: k in p.inflight ==> k.exchange in p.creating && p.creating[k.exchange].key == k)
    && p.inflight !! p.clients
  }

  ghost predicate WithinCaps(p: Pool, caps: Caps) {
    && (caps.global.Some? ==> Load(p) <= Bound(caps.global.value))
    && (forall e :: e in caps.perExchange ==> ExchangeLoad(p, e) <= Bound(caps.perExchange[e]))
  }

  ghost predicate Inv(p: Pool, caps: Caps) {
    Owned(p) && Serialized(p) && WithinCaps(p, caps)
  }

  lemma AddToExchange(keys: set<Key>, key: Key, e: string)
    requires key !in keys
    ensures |OfExchange(keys + {key}, e)| == |OfExchange(keys, e)| + (if key.exchange == e then 1 else 0)
  {
    if key.exchange == e {
      assert OfExchange(keys + {key}, e) == OfExchange(keys, e) + {key};
    } else {
      assert OfExchange(keys + {key}, e) == OfExchange(keys, e);
    }
  }

  lemma SubsetCard<T>(a: set<T>, b: set<T>)
    requires a <= b
    ensures |a| <= |b|
  {
    if a != {} {
      var x :| x in a;
      SubsetCard(a - {x}, b - {x});
    }
  }

  /** Fewer clients and markers stay within the caps. */
  lemma ShrinkKeepsCaps(p: Pool, q: Pool, caps: Caps)
    requires WithinCaps(p, caps) && q.clients <= p.clients && q.inflight <= p.inflight
    ensures WithinCaps(q, caps)
  {
    SubsetCard(q.clients, p.clients);
    SubsetCard(q.inflight, p.inflight);
    forall e | e in caps.perExchange ensures ExchangeLoad(q, e) <= Bound(caps.perExchange[e]) {
      SubsetCard(OfExchange(q.clients, e), OfExchange(p.clients, e));
      SubsetCard(OfExchange(q.inflight, e), OfExchange(p.inflight, e));
    }
  }

  lemma ReserveKeepsCaps(p: Pool, caps: Caps, key: Key, q: Pool)
    requires WithinCaps(p, caps) && HasRoom(p, caps, key.exchange) && key !in p.inflight
    requires q.clients == p.clients && q.inflight == p.inflight + {key}
    ensures WithinCaps(q, caps)
  {
    forall e | e in caps.perExchange ensures ExchangeLoad(q, e) <= Bound(caps.perExchange[e]) {
      AddToExchange(p.inflight, key, e);
    }
  }

  /** A completed creation turns its marker into a client, so no load changes. */
  lemma CompleteKeepsCaps(p: Pool, caps: Caps, key: Key, q: Pool)
    requires WithinCaps(p, caps) && key in p.inflight && key !in p.clients
    requires q.clients == p.clients + {key} && q.inflight == p.inflight - {key}
    ensures WithinCaps(q, caps)
  {
    assert q.inflight + {key} == p.inflight;
    forall e | e in caps.perExchange ensures ExchangeLoad(q, e) <= Bound(caps.perExchange[e]) {
      AddToExchange(p.clients, key, e);
      AddToExchange(q.inflight, key, e);
    }
  }

  lemma AcquireKeepsInv(p: Pool, caps: Caps, key: Key, owner: string)
    requires Inv(p, caps)
    ensures Inv(Next(p, caps, Acquire(key, owner)), caps)
  {
    ShrinkKeepsCaps(p, Next(p, caps, Acquire(key, owner)), caps);
  }

  lemma ReserveKeepsInv(p: Pool, caps: Caps, key: Key, owner: string, supported: bool)
    requires Inv(p, caps)
    ensures Inv(Next(p, caps, Reserve(key, owner, supported)), caps)
  {
    var q := Next(p, caps, Reserve(key, owner, supported));
    if key.exchange in p.creating {
    } else if key in p.clients {
      AcquireKeepsInv(p, caps, key, owner);
    } else if HasRoom(p, caps, key.exchange) && supported {
      assert key !in p.inflight;
      ReserveKeepsCaps(p, caps, key, q);
    }
  }

  /** Ending a creation, with or without a client, leaves the others serialized. */
  lemma EndKeepsSerialized(p: Pool, e: string, inflight: set<Key>, clients: set<Key>)
    requires Serialized(p) && e in p.creating && inflight == p.inflight - {p.creating[e].key}
    requires clients == p.clients || clients == p.clients + {p.creating[e].key}
    ensures Serialized(p.(clients := clients, inflight := inflight, creating := p.creating - {e}))
  {
    forall f | f in p.creating && f != e ensures p.creating[f].key in inflight {
      assert p.creating[f].key.exchange == f;
    }
  }

  lemma CompleteKeepsInv(p: Pool, caps: Caps, e: string)
    requires Inv(p, caps)
    ensures Inv(Next(p, caps, Complete(e)), caps)
  {
    if e in p.creating {
      var q := Next(p, caps, Complete(e));
      CompleteKeepsCaps(p, caps, p.creating[e].key, q);
      EndKeepsSerialized(p, e, q.inflight, q.clients);
    }
  }

  lemma AbortKeepsInv(p: Pool, caps: Caps, e: string)
    requires Inv(p, caps)
    ensures Inv(Next(p, caps, Abort(e)), caps)
  {
    var q := Next(p, caps, Abort(e));
    ShrinkKeepsCaps(p, q, caps);
    if e in p.creating {
      EndKeepsSerialized(p, e, q.inflight, q.clients);
    }
  }

  lemma RemoveKeepsInv(p: Pool, caps: Caps, key: Key)
    requires Inv(p, caps)
    ensures Inv(Without(p, key), caps)
  {
    ShrinkKeepsCaps(p, Without(p, key), caps);
  }

  lemma ReleaseKeepsInv(p: Pool, caps: Caps, key: Key, owner: string)
    requires Inv(p, caps)
    ensures Inv(Next(p, caps, Release(key, owner)), caps)
  {
    if key in p.owners && p.owners[key] - {owner} != {} {
      LeaveKeepsInv(p, caps, key, p.owners[key] - {owner});
    } else {
      RemoveKeepsInv(p, caps, key);
    }
  }

  lemma LeaveKeepsInv(p: Pool, caps: Caps, key: Key, left: set<string>)
    requires Inv(p, caps) && key in p.owners && left != {}
    ensures Inv(p.(owners := p.owners[key := left]), caps)
  {
    ShrinkKeepsCaps(p, p.(owners := p.owners[key := left]), caps);
  }

  lemma StepKeepsInv(p: Pool, caps: Caps, a: Action)
    requires Inv(p, caps)
    ensures Inv(Next(p, caps, a), caps)
  {
    match a
    case Acquire(key, owner) => AcquireKeepsInv(p, caps, key, owner);
    case Reserve(key, owner, supported) => ReserveKeepsInv(p, caps, key, owner, supported);
    case Complete(e) => CompleteKeepsInv(p, caps, e);
    case Abort(e) => AbortKeepsInv(p, caps, e);
    case Release(key, owner) => ReleaseKeepsInv(p, caps, key, owner);
    case Remove(key) => RemoveKeepsInv(p, caps, key);
  }

  lemma {:induction false} RunKeepsInv(p: Pool, caps: Caps, actions: seq<Action>)
    requires Inv(p, caps)
    ensures Inv(Exec(p, caps, actions), caps)
    decreases |actions|
  {
    if actions != [] {
      StepKeepsInv(p, caps, actions[0]);
      RunKeepsInv(Next(p, caps, actions[0]), caps, actions[1..]);
    }
  }

  /** Under every interleaving, clients and in-flight creations together respect both caps, an
      exchange has at most one creation in flight, and exactly the clients have owners. */
  lemma PoolIsSafe(caps: Caps, actions: seq<Action>)
    ensures var p := Exec(EMPTY, caps, actions);
            && (caps.global.Some? ==> |p.clients| + |p.inflight| <= Bound(caps.global.value))
            && (forall e :: e in caps.perExchange ==>
                  |OfExchange(p.clients, e)| + |OfExchange(p.inflight, e)| <= Bound(caps.perExchange[e]))
            && (forall e :: |OfExchange(p.inflight, e)| <= 1)
            && p.owners.Keys == p.clients && (forall k :: k in p.clients ==> p.owners[k] != {})
  {
    RunKeepsInv(EMPTY, caps, actions);
    var p := Exec(EMPTY, caps, actions);
    forall e ensures |OfExchange(p.inflight, e)| <= 1 {
      OneCreation(p, e);
    }
    forall e | e in caps.perExchange
      ensures |OfExchange(p.clients, e)| + |OfExchange(p.inflight, e)| <= Bound(caps.perExchange[e])
    {
      assert ExchangeLoad(p, e) <= Bound(caps.perExchange[e]);
    }
  }

  lemma OneCreation(p: Pool, e: string)
    requires Serialized(p)
    ensures |OfExchange(p.inflight, e)| <= 1
  {
    if e in p.creating {
      assert OfExchange(p.inflight, e) == {p.creating[e].key};
    } else {
      assert OfExchange(p.inflight, e) == {};
    }
  }

  /** A release closes a client exactly when the caller is its last owner, and no other client. */
  lemma ReleaseClosesIffLastOwner(p: Pool, caps: Caps, key: Key, owner: string)
    requires Inv(p, caps) && key in p.clients
    ensures var q := Next(p, caps, Release(key, owner));
            && (key !in q.clients <==> p.owners[key] == {owner})
            && q.clients - {key} == p.clients - {key}
            && (key in q.clients ==> q.owners[key] == p.owners[key] - {owner})
            && (forall k :: k in p.owners && k != key ==> k in q.owners && q.owners[k] == p.owners[k])
  {
    if p.owners[key] - {owner} == {} {
      assert p.owners[key] <= {owner} && p.owners[key] != {};
      assert p.owners[key] == {owner};
    } else {
      assert p.owners[key] != {owner};
    }
  }

  /** What one owner acquires and releases leaves everyone else's ownership as it was. */
  lemma AcquireReleaseRoundTrip(p: Pool, caps: Caps, key: Key, owner: string)
    requires Inv(p, caps) && key in p.clients && owner !in p.owners[key]
    ensures Next(Next(p, caps, Acquire(key, owner)), caps, Release(key, owner)) == p
  {
    assert (p.owners[key] + {owner}) - {owner} == p.owners[key];
  }

  // ---------------------------------------------------------------- what a run leaves in the pool

  ghost predicate Owns(p: Pool, key: Key, owner: string) {
    key in p.owners && owner in p.owners[key]
  }

  /** The steps that make an owner: sharing an existing client, or completing a creation of one's own. */
  ghost predicate Gains(p: Pool, a: Action, key: Key, owner: string) {
    match a
    case Acquire(k, o) => k == key && o == owner && key in p.clients
    case Reserve(k, o, _) => k == key && o == owner && key in p.clients && key.exchange !in p.creating
    case Complete(e) => e in p.creating && p.creating[e] == Creation(key, owner)
    case _ => false
  }

  ghost predicate Loses(a: Action, key: Key, owner: string) {
    a == Release(key, owner) || a == Remove(key)
  }

  /** The step that opens a creation: no other one of the exchange, no such client, and room under both caps. */
  ghost predicate Opens(p: Pool, caps: Caps, a: Action, e: string, c: Creation) {
    && a == Reserve(c.key, c.owner, true) && c.key.exchange == e && e !in p.creating && c.key !in p.clients
    && (caps.global.Some? ==> |p.clients| + |p.inflight| < caps.global.value)
    && (e in caps.perExchange ==>
          |OfExchange(p.clients, e)| + |OfExchange(p.inflight, e)| < caps.perExchange[e])
  }

  ghost predicate IsCreating(p: Pool, e: string, c: Creation) {
    e in p.creating && p.creating[e] == c
  }

  lemma StepOwns(p: Pool, caps: Caps, a: Action, key: Key, owner: string)
    ensures Owns(Next(p, caps, a), key, owner)
       <==> Gains(p, a, key, owner) || (Owns(p, key, owner) && !Loses(a, key, owner))
  {
    if a.Release? && key in p.owners && owner in p.owners[key] && owner != a.owner {
      assert owner in p.owners[key] - {a.owner};
    }
  }

  lemma StepCreates(p: Pool, caps: Caps, a: Action, e: string, c: Creation)
    ensures IsCreating(Next(p, caps, a), e, c)
       <==> Opens(p, caps, a, e, c) || (IsCreating(p, e, c) && a != Complete(e) && a != Abort(e))
  {
  }

  lemma {:induction false} ExecSnoc(p: Pool, caps: Caps, actions: seq<Action>, a: Action)
    ensures Exec(p, caps, actions + [a]) == Next(Exec(p, caps, actions), caps, a)
    decreases |actions|
  {
    if actions == [] {
      assert [a][1..] == [];
    } else {
      assert (actions + [a])[1..] == actions[1..] + [a];
      ExecSnoc(Next(p, caps, actions[0]), caps, actions[1..], a);
    }
  }

  /** The pool before the action at position `i` of a run. */
  ghost function Before(caps: Caps, actions: seq<Action>, i: nat): Pool
    requires i <= |actions|
  {
    Exec(EMPTY, caps, actions[..i])
  }

  ghost predicate GainedAt(caps: Caps, actions: seq<Action>, i: nat, key: Key, owner: string) {
    && i < |actions| && Gains(Before(caps, actions, i), actions[i], key, owner)
    && forall j :: i < j < |actions| ==> !Loses(actions[j], key, owner)
  }

  ghost predicate OpenedAt(caps: Caps, actions: seq<Action>, i: nat, e: string, c: Creation) {
    && i < |actions| && Opens(Before(caps, actions, i), caps, actions[i], e, c)
    && forall j :: i < j < |actions| ==> actions[j] != Complete(e) && actions[j] != Abort(e)
  }

  lemma LastStep(caps: Caps, actions: seq<Action>)
    requires actions != []
    ensures var n := |actions| - 1;
            && Exec(EMPTY, caps, actions) == Next(Exec(EMPTY, caps, actions[..n]), caps, actions[n])
            && forall i: nat :: i <= n ==> Before(caps, actions[..n], i) == Before(caps, actions, i)
  {
    var n := |actions| - 1;
    assert actions == actions[..n] + [actions[n]];
    ExecSnoc(EMPTY, caps, actions[..n], actions[n]);
    forall i: nat | i <= n ensures Before(caps, actions[..n], i) == Before(caps, actions, i) {
      assert actions[..n][..i] == actions[..i];
    }
  }

  lemma GainedOneMore(caps: Caps, actions: seq<Action>, key: Key, owner: string)
    requires actions != []
    ensures var n := |actions| - 1;
            (exists i: nat :: GainedAt(caps, actions, i, key, owner))
            <==> Gains(Exec(EMPTY, caps, actions[..n]), actions[n], key, owner)
                 || ((exists i: nat :: GainedAt(caps, actions[..n], i, key, owner)) && !Loses(actions[n], key, owner))
  {
    var n := |actions| - 1;
    LastStep(caps, actions);
    if i: nat :| GainedAt(caps, actions, i, key, owner) {
      if i < n {
        assert GainedAt(caps, actions[..n], i, key, owner);
      }
    }
    if i: nat :| GainedAt(caps, actions[..n], i, key, owner) {
      if !Loses(actions[n], key, owner) {
        assert GainedAt(caps, actions, i, key, owner);
      }
    }
    if Gains(Exec(EMPTY, caps, actions[..n]), actions[n], key, owner) {
      assert GainedAt(caps, actions, n, key, owner);
    }
  }

  /** After any run, an owner has a client if and only if it shared that client or completed its creation at
      some step, and has not released it nor seen it removed since. */
  lemma {:induction false} OwnedIffGained(caps: Caps, actions: seq<Action>, key: Key, owner: string)
    ensures Owns(Exec(EMPTY, caps, actions), key, owner)
       <==> exists i: nat :: GainedAt(caps, actions, i, key, owner)
    decreases |actions|
  {
    if actions != [] {
      var n := |actions| - 1;
      OwnedIffGained(caps, actions[..n], key, owner);
      LastStep(caps, actions);
      StepOwns(Exec(EMPTY, caps, actions[..n]), caps, actions[n], key, owner);
      GainedOneMore(caps, actions, key, owner);
    }
  }

  lemma OpenedOneMore(caps: Caps, actions: seq<Action>, e: string, c: Creation)
    requires actions != []
    ensures var n := |actions| - 1;
            (exists i: nat :: OpenedAt(caps, actions, i, e, c))
            <==> Opens(Exec(EMPTY, caps, actions[..n]), caps, actions[n], e, c)
                 || ((exists i: nat :: OpenedAt(caps, actions[..n], i, e, c))
                     && actions[n] != Complete(e) && actions[n] != Abort(e))
  {
    var n := |actions| - 1;
    LastStep(caps, actions);
    if i: nat :| OpenedAt(caps, actions, i, e, c) {
      if i < n {
        assert OpenedAt(caps, actions[..n], i, e, c);
      }
    }
    if i: nat :| OpenedAt(caps, actions[..n], i, e, c) {
      if actions[n] != Complete(e) && actions[n] != Abort(e) {
        assert OpenedAt(caps, actions, i, e, c);
      }
    }
    if Opens(Exec(EMPTY, caps, actions[..n]), caps, actions[n], e, c) {
      assert OpenedAt(caps, actions, n, e, c);
    }
  }

  /** After any run, a creation is in flight if and only if a reservation opened it under the caps and it has
      neither completed nor failed since. */
  lemma {:induction false} CreatingIffOpened(caps: Caps, actions: seq<Action>, e: string, c: Creation)
    ensures IsCreating(Exec(EMPTY, caps, actions), e, c) <==> exists i: nat :: OpenedAt(caps, actions, i, e, c)
    decreases |actions|
  {
    if actions != [] {
      var n := |actions| - 1;
      CreatingIffOpened(caps, actions[..n], e, c);
      LastStep(caps, actions);
      StepCreates(Exec(EMPTY, caps, actions[..n]), caps, actions[n], e, c);
      OpenedOneMore(caps, actions, e, c);
    }
  }

  /** The clients after any run are those with such an owner. */
  lemma ClientsAreGained(caps: Caps, actions: seq<Action>, key: Key)
    ensures key in Exec(EMPTY, caps, actions).clients
       <==> exists owner, i: nat :: GainedAt(caps, actions, i, key, owner)
  {
    var p := Exec(EMPTY, caps, actions);
    RunKeepsInv(EMPTY, caps, actions);
    if key in p.clients {
      var owner :| owner in p.owners[key];
      assert Owns(p, key, owner);
      OwnedIffGained(caps, actions, key, owner);
    }
    if owner, i: nat :| GainedAt(caps, actions, i, key, owner) {
      OwnedIffGained(caps, actions, key, owner);
    }
  }

  // ---------------------------------------------------------------- the pool object

  datatype Answer = NoClient | Client(key: Key) | Creating

  class Exchange {
    var clients: set<Key>
    var owners: map<Key, set<string>>
    var inflight: set<Key>
    var creating: map<string, Creation>
    const caps: Caps

    constructor (caps: Caps)
      ensures View() == EMPTY && Inv(View(), caps) && this.caps == caps
    {
      this.caps := caps;
      clients, owners, inflight, creating := {}, map[], {}, map[];
      new;
    }

    ghost function View(): Pool
      reads this
    {
      Pool(clients, owners, inflight, creating)
    }

    /** The fast path: an existing client gets one more owner. */
    method TryExisting(key: Key, owner: string) returns (answer: Answer)
      requires Inv(View(), caps)
      modifies this`owners
      ensures View() == Next(old(View()), caps, Acquire(key, owner)) && Inv(View(), caps)
      ensures answer == if key in clients then Client(key) else NoClient
      ensures owners == if key in clients then old(owners)[key := old(owners)[key] + {owner}] else old(owners)
    {
      StepKeepsInv(View(), caps, Acquire(key, owner));
      if key in clients {
        owners := WithOwner(owners, key, owner);
        return Client(key);
      }
      answer := NoClient;
    }

    /** From the acquisition of the exchange's creation lock to the await of the new client. */
    method CheckAndReserve(id: string, user: string, owner: string, supported: bool) returns (answer: Answer)
      requires Inv(View(), caps) && BaseKey(id) !in creating
      modifies this`owners, this`inflight, this`creating
      ensures Inv(View(), caps)
      ensures BaseKey(id) == "bitget" ==> View() == old(View()) && answer == NoClient
      ensures BaseKey(id) != "bitget" ==>
                View() == Next(old(View()), caps, Reserve(Key(BaseKey(id), user), owner, supported))
      ensures var base := BaseKey(id);
              var key := Key(base, user);
              answer == if base == "bitget" then NoClient
                        else if key in clients then Client(key)
                        else if !supported
                          || (caps.global.Some? && old(|clients| + |inflight|) >= caps.global.value)
                          || (base in caps.perExchange
                              && old(|OfExchange(clients, base)| + |OfExchange(inflight, base)|)
                                 >= caps.perExchange[base]) then NoClient
                        else Creating
      ensures answer == NoClient ==> View() == old(View())
      ensures answer == Creating ==>
                && inflight == old(inflight) + {Key(BaseKey(id), user)} && owners == old(owners)
                && creating == old(creating)[BaseKey(id) := Creation(Key(BaseKey(id), user), owner)]
      ensures answer.Client? ==>
                && inflight == old(inflight) && creating == old(creating)
                && owners == old(owners)[answer.key := old(owners)[answer.key] + {owner}]
    {
      var base := BaseKey(id);
      if base == "bitget" {
        return NoClient;
      }
      var key := Key(base, user);
      StepKeepsInv(View(), caps, Reserve(key, owner, supported));
      if key in clients {
        answer := TryExisting(key, owner);
        return;
      }
      if caps.global.Some? && |clients| + |inflight| >= caps.global.value {
        return NoClient;
      }
      if base in caps.perExchange {
        var current := |OfExchange(clients, base)|;
        var pending := |OfExchange(inflight, base)|;
        if current + pending >= caps.perExchange[base] {
          return NoClient;
        }
      }
      if !supported {
        return NoClient;
      }
      inflight, creating := inflight + {key}, creating[base := Creation(key, owner)];
      answer := Creating;
    }

    /** After the await: the client is stored and its marker dropped in one stretch. */
    method CompleteCreation(exchange: string)
      requires Inv(View(), caps) && exchange in creating
      modifies this
      ensures View() == Next(old(View()), caps, Complete(exchange)) && Inv(View(), caps)
      ensures var c := old(creating[exchange]);
              && clients == old(clients) + {c.key} && owners == old(owners)[c.key := {c.owner}]
              && inflight == old(inflight) - {c.key} && creating == old(creating) - {exchange}
    {
      StepKeepsInv(View(), caps, Complete(exchange));
      var c := creating[exchange];
      assert c.key !in owners && {} + {c.owner} == {c.owner};
      clients := clients + {c.key};
      owners := WithOwner(owners, c.key, c.owner);
      inflight, creating := inflight - {c.key}, creating - {exchange};
    }

    /** A failed or cancelled creation only drops its marker. */
    method AbortCreation(exchange: string)
      requires Inv(View(), caps) && exchange in creating
      modifies this`inflight, this`creating
      ensures View() == Next(old(View()), caps, Abort(exchange)) && Inv(View(), caps)
      ensures inflight == old(inflight) - {old(creating[exchange].key)} && creating == old(creating) - {exchange}
    {
      StepKeepsInv(View(), caps, Abort(exchange));
      inflight, creating := inflight - {creating[exchange].key}, creating - {exchange};
    }

    /** One owner leaves; the result tells whether a client was closed. */
    method ReleaseClient(key: Key, owner: string) returns (closed: bool)
      requires Inv(View(), caps)
      modifies this`clients, this`owners
      ensures View() == Next(old(View()), caps, Release(key, owner)) && Inv(View(), caps)
      ensures closed <==> key in old(clients) && old(owners)[key] == {owner}
      ensures clients == if closed then old(clients) - {key} else old(clients)
      ensures owners == if closed then old(owners) - {key}
                        else if key in old(clients) then old(owners)[key := old(owners)[key] - {owner}]
                        else old(owners)
    {
      StepKeepsInv(View(), caps, Release(key, owner));
      if key in clients {
        ReleaseClosesIffLastOwner(View(), caps, key, owner);
      }
      if key in owners {
        var left := owners[key] - {owner};
        if left != {} {
          owners := owners[key := left];
          return false;
        }
      }
      closed := key in clients;
      clients, owners := clients - {key}, owners - {key};
    }

    /** One removal of a pruning pass, between two awaits. */
    method RemoveClient(key: Key)
      requires Inv(View(), caps)
      modifies this`clients, this`owners
      ensures View() == Next(old(View()), caps, Remove(key)) && Inv(View(), caps)
      ensures clients == old(clients) - {key} && owners == old(owners) - {key}
    {
      StepKeepsInv(View(), caps, Remove(key));
      clients, owners := clients - {key}, owners - {key};
    }
  }
}
