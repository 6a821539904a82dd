/** Configuration payloads reaching the watch by several routes, in no particular order. */
module WatchIngest {
  import opened Wrappers
  import opened Text

  /** One entry of a payload's server list; None is a field that is absent or of another
      type. */
  datatype RawServer = RawServer(
    id: Option<string>, addr: Option<string>, name: Option<string>, token: Option<string>,
    ignoreCert: Option<bool>, allowInsecure: Option<bool>)

  /** A delivered dictionary: its stamp, 0 when it has none, and its server list, None
      when this is not a configuration at all. */
  datatype Payload = Payload(ts: int, servers: Option<seq<RawServer>>)

  datatype Server = Server(id: string, name: string, addr: string, ignoreCert: bool, allowInsecure: bool)

  function Or<T>(o: Option<T>, default: T): T {
    if o.Some? then o.value else default
  }

  predicate Usable(raw: RawServer) {
    raw.id.Some? && raw.addr.Some? && raw.id.value != "" && Trim(raw.addr.value) != ""
  }

  function ServerOf(raw: RawServer): Server
    requires Usable(raw)
  {
    var addr := Trim(raw.addr.value);
    Server(raw.id.value, Or(raw.name, addr), addr, Or(raw.ignoreCert, false), Or(raw.allowInsecure, false))
  }

  function ParseServers(raws: seq<RawServer>): seq<Server> {
    if raws == [] then []
    else if Usable(raws[0]) then [ServerOf(raws[0])] + ParseServers(raws[1..])
    else ParseServers(raws[1..])
  }

  /** The token of each server; the last entry with an id decides, and none is empty. */
  function ParseTokens(raws: seq<RawServer>): map<string, string> {
    if raws == [] then map[]
    else
      var n := |raws| - 1;
      var before := ParseTokens(raws[..n]);
      if Usable(raws[n]) then before[raws[n].id.value := Or(raws[n].token, "")] else before
  }

  method Parse(payload: Payload) returns (r: Option<(seq<Server>, map<string, string>)>)
    ensures r == if payload.servers.None? then None
                 else Some((ParseServers(payload.servers.value), ParseTokens(payload.servers.value)))
  {
    if payload.servers.None? {
      return None;
    }
    var raws := payload.servers.value;
    var servers: seq<Server> := [];
    var tokens: map<string, string> := map[];
    for i := 0 to |raws|
      invariant servers + ParseServers(raws[i..]) == ParseServers(raws)
      invariant tokens == ParseTokens(raws[..i])
    {
      assert raws[i..][1..] == raws[i + 1..] && raws[..i + 1][..i] == raws[..i];
      if !Usable(raws[i]) {
        continue;
      }
      servers := servers + [ServerOf(raws[i])];
      tokens := tokens[raws[i].id.value := Or(raws[i].token, "")];
    }
    assert raws[..|raws|] == raws && raws[|raws|..] == [];
    assert servers + [] == servers;
    r := Some((servers, tokens));
  }

  /** An entry counts if and only if it has an id and an address with something in it. */
  lemma UsableIff(raw: RawServer)
    ensures Usable(raw) <==>
            && raw.id.Some? && raw.id.value != "" && raw.addr.Some?
            && exists k :: 0 <= k < |raw.addr.value| && !IsSpace(raw.addr.value[k])
  {
    if raw.addr.Some? {
      var a, b := Padding(raw.addr.value);
      var addr := Trim(raw.addr.value);
      assert addr == "" ==> raw.addr.value == a + b;
      assert addr != "" ==> raw.addr.value[|a|] == addr[0];
    }
  }

  /** What the phone sends for a server; an address can have white space around it. */
  function Sent(s: Server, token: Option<string>, a: string, b: string): RawServer {
    RawServer(Some(s.id), Some(a + s.addr + b), Some(s.name), token, Some(s.ignoreCert), Some(s.allowInsecure))
  }

  predicate Sendable(s: Server) {
    s.id != "" && s.addr != "" && Unpadded(s.addr)
  }

  /** The server comes back as it was sent; of one sent by id and address alone the address
      is the name, and nothing is allowed that is not asked for. */
  lemma SentComesBack(s: Server, token: Option<string>, a: string, b: string)
    requires Sendable(s) && AllSpace(a) && AllSpace(b)
    ensures Usable(Sent(s, token, a, b)) && ServerOf(Sent(s, token, a, b)) == s
    ensures var bare := RawServer(Some(s.id), Some(a + s.addr + b), None, token, None, None);
            Usable(bare) && ServerOf(bare) == Server(s.id, s.addr, s.addr, false, false)
  {
    TrimIs(a, s.addr, b);
  }

  /** And so does a whole list, in its order. */
  lemma {:induction false} ListComesBack(servers: seq<Server>, raws: seq<RawServer>)
    requires |servers| == |raws| && forall i :: 0 <= i < |servers| ==> Sendable(servers[i])
    requires forall i :: 0 <= i < |servers| ==> raws[i] == Sent(servers[i], raws[i].token, "", "")
    ensures ParseServers(raws) == servers
  {
    if servers != [] {
      assert raws[0] == Sent(servers[0], raws[0].token, "", "");
      SentComesBack(servers[0], raws[0].token, "", "");
      ListComesBack(servers[1..], raws[1..]);
      assert servers == [servers[0]] + servers[1..];
    }
  }

  function Ids(servers: seq<Server>): set<string> {
    set i | 0 <= i < |servers| :: servers[i].id
  }

  /** The tokens of a payload are of exactly its servers. */
  lemma {:induction false} TokensOfServers(raws: seq<RawServer>)
    ensures ParseTokens(raws).Keys == Ids(ParseServers(raws))
  {
    if raws == [] {
    } else {
      var n := |raws| - 1;
      TokensOfServers(raws[..n]);
      ParseServersAppend(raws[..n], [raws[n]]);
      assert raws == raws[..n] + [raws[n]];
      var a := ParseServers(raws[..n]);
      assert ParseServers([raws[n]]) == if Usable(raws[n]) then [ServerOf(raws[n])] else [];
      if Usable(raws[n]) {
        IdsAppend(a, ServerOf(raws[n]));
      } else {
        assert a + [] == a;
      }
    }
  }

  lemma {:induction false} ParseServersAppend(a: seq<RawServer>, b: seq<RawServer>)
    ensures ParseServers(a + b) == ParseServers(a) + ParseServers(b)
  {
    if a == [] {
      assert a + b == b;
    } else {
      assert (a + b)[1..] == a[1..] + b;
      ParseServersAppend(a[1..], b);
    }
  }

  /** The servers are those of the usable entries. */
  lemma {:induction false} ServersFrom(raws: seq<RawServer>, s: Server)
    ensures s in ParseServers(raws) <==> exists i :: 0 <= i < |raws| && Usable(raws[i]) && s == ServerOf(raws[i])
  {
    if raws != [] {
      ServersFrom(raws[1..], s);
      if exists i :: 0 <= i < |raws| && Usable(raws[i]) && s == ServerOf(raws[i]) {
        var i :| 0 <= i < |raws| && Usable(raws[i]) && s == ServerOf(raws[i]);
        assert i > 0 ==> raws[1..][i - 1] == raws[i];
      }
    }
  }

  /** Where an id is repeated its last usable entry decides the token; an absent one is
      empty, which is how a revoked token is cleared. */
  lemma {:induction false} LastTokenDecides(raws: seq<RawServer>, i: nat)
    requires i < |raws| && Usable(raws[i])
    requires forall j :: i < j < |raws| && Usable(raws[j]) ==> raws[j].id != raws[i].id
    ensures raws[i].id.value in ParseTokens(raws)
    ensures ParseTokens(raws)[raws[i].id.value] == Or(raws[i].token, "")
  {
    var n := |raws| - 1;
    if i < n {
      LastTokenDecides(raws[..n], i);
    }
  }

  lemma IdsAppend(a: seq<Server>, s: Server)
    ensures Ids(a + [s]) == Ids(a) + {s.id}
  {
    var r := a + [s];
    assert r[|a|] == s;
    assert forall i :: 0 <= i < |a| ==> r[i] == a[i];
  }

  // ---------- The store ----------

  /** What the watch keeps: the server list, the keychain's tokens and legacy passwords,
      and the last readings. */
  datatype Stored = Stored(servers: seq<Server>, tokens: map<string, string>, legacy: set<string>, snapshots: map<string, int>)

  /** The tokens that are stored at all: the ones that are not empty. */
  function NonEmpty(tokens: map<string, string>): map<string, string> {
    map id | id in tokens && tokens[id] != "" :: tokens[id]
  }

  /** What applying a configuration leaves: its list, its tokens and nothing else of
      tokens or legacy passwords, and the readings of the servers still in it. */
  function Configured(s: Stored, raws: seq<RawServer>): Stored {
    var servers := ParseServers(raws);
    Stored(servers, NonEmpty(ParseTokens(raws)), {}, map id | id in s.snapshots && id in Ids(servers) :: s.snapshots[id])
  }

  class WatchStore {
    var servers: seq<Server>
    var tokens: map<string, string>
    var legacy: set<string>
    var snapshots: map<string, int>

    constructor (s: Stored)
      ensures Value() == s
    {
      servers, tokens, legacy, snapshots := s.servers, s.tokens, s.legacy, s.snapshots;
    }

    function Value(): Stored
      reads this
    {
      Stored(servers, tokens, legacy, snapshots)
    }

    /** Deletes, then adds again unless there is nothing to add. */
    method SetToken(token: Option<string>, id: string)
      modifies this
      ensures tokens == if token.Some? && token.value != "" then old(tokens)[id := token.value] else old(tokens) - {id}
      ensures legacy == old(legacy) - {id} && servers == old(servers) && snapshots == old(snapshots)
    {
      tokens := tokens - {id};
      legacy := legacy - {id};
      if token.None? || token.value == "" {
        assert tokens == old(tokens) - {id};
        return;
      }
      tokens := tokens[id := token.value];
    }

    /** Stores the list and drops what belongs to servers outside it. */
    method SetServers(list: seq<Server>)
      modifies this
      ensures servers == list
      ensures tokens == map id | id in old(tokens) && id in Ids(list) :: old(tokens)[id]
      ensures legacy == old(legacy) * Ids(list)
      ensures snapshots == map id | id in old(snapshots) && id in Ids(list) :: old(snapshots)[id]
    {
      servers := list;
      var live := Ids(list);
      var stale := snapshots.Keys - live;
      while stale != {}
        invariant stale <= old(snapshots).Keys - live
        invariant snapshots == map id | id in old(snapshots) && (id in live || id in stale) :: old(snapshots)[id]
        invariant servers == list && tokens == old(tokens) && legacy == old(legacy)
        decreases stale
      {
        var id :| id in stale;
        stale := stale - {id};
        snapshots := snapshots - {id};
      }
      stale := tokens.Keys - live;
      while stale != {}
        invariant stale <= old(tokens).Keys - live
        invariant tokens == map id | id in old(tokens) && (id in live || id in stale) :: old(tokens)[id]
        invariant servers == list && legacy <= old(legacy) && legacy * live == old(legacy) * live
        invariant snapshots == map id | id in old(snapshots) && id in live :: old(snapshots)[id]
        decreases stale
      {
        var id :| id in stale;
        stale := stale - {id};
        SetToken(None, id);
      }
      stale := legacy - live;
      while stale != {}
        invariant stale == legacy - live
        invariant tokens == map id | id in old(tokens) && id in live :: old(tokens)[id]
        invariant servers == list && legacy <= old(legacy) && legacy * live == old(legacy) * live
        invariant snapshots == map id | id in old(snapshots) && id in live :: old(snapshots)[id]
        decreases stale
      {
        var id :| id in stale;
        SetToken(None, id);
        stale := stale - {id};
      }
      forall id | id in legacy
        ensures id in live
      {
        assert id in legacy - live || id in live;
      }
    }
  }

  /** The connection: the store, and the stamp of the newest payload applied. */
  class PhoneConnMgr {
    const store: WatchStore
    var appliedAt: int

    constructor (store: WatchStore)
      ensures this.store == store && appliedAt == 0
    {
      this.store, appliedAt := store, 0;
    }

    method Ingest(payload: Payload)
      modifies this, store
      ensures Mgr(store.Value(), appliedAt) == Ingested(Mgr(old(store.Value()), old(appliedAt)), payload)
    {
      var parsed := Parse(payload);
      if parsed.None? {
        return;
      }
      var stamp := payload.ts;
      if stamp != 0 && stamp <= appliedAt {
        return;
      }
      appliedAt := if appliedAt < stamp then stamp else appliedAt;
      var (servers, tokens) := parsed.value;
      ghost var before := store.Value();
      var todo := tokens.Keys;
      while todo != {}
        invariant todo <= tokens.Keys
        invariant appliedAt == if old(appliedAt) < stamp then stamp else old(appliedAt)
        invariant store.servers == before.servers && store.snapshots == before.snapshots
        invariant forall id :: id in store.tokens <==>
                    if id in tokens && id !in todo then tokens[id] != "" else id in before.tokens
        invariant forall id :: id in store.tokens && id in tokens && id !in todo ==> store.tokens[id] == tokens[id]
        invariant store.legacy == before.legacy - (tokens.Keys - todo)
        decreases todo
      {
        var id :| id in todo;
        todo := todo - {id};
        store.SetToken(Some(tokens[id]), id);
      }
      store.SetServers(servers);
      TokensOfServers(payload.servers.value);
      assert store.tokens == NonEmpty(tokens);
      assert store.legacy == {};
    }
  }

  // ---------- Deliveries ----------

  datatype MgrState = Mgr(stored: Stored, appliedAt: int)

  /** What one delivery does. */
  function Ingested(m: MgrState, p: Payload): MgrState {
    if p.servers.None? then m
    else if p.ts != 0 && p.ts <= m.appliedAt then m
    else Mgr(Configured(m.stored, p.servers.value), if m.appliedAt < p.ts then p.ts else m.appliedAt)
  }

  function Delivered(m: MgrState, ps: seq<Payload>): MgrState
    decreases |ps|
  {
    if ps == [] then m else Delivered(Ingested(m, ps[0]), ps[1..])
  }

  lemma {:induction false} DeliveredAppend(m: MgrState, ps: seq<Payload>, p: Payload)
    ensures Delivered(m, ps + [p]) == Ingested(Delivered(m, ps), p)
    decreases |ps|
  {
    if ps == [] {
      assert ps + [p] == [p] && [p][1..] == [];
    } else {
      assert (ps + [p])[1..] == ps[1..] + [p];
      DeliveredAppend(Ingested(m, ps[0]), ps[1..], p);
    }
  }

  /** After any deliveries, one more is applied whole or not at all. It is applied exactly
      when it is a configuration with no stamp or with one beyond any applied before; then
      the readings of the servers in it stay as they were. */
  lemma OneMoreDelivery(m: MgrState, ps: seq<Payload>, p: Payload)
    ensures var before, after := Delivered(m, ps), Delivered(m, ps + [p]);
            if p.servers.Some? && (p.ts == 0 || p.ts > before.appliedAt) then
              && after.stored.servers == ParseServers(p.servers.value) && after.stored.legacy == {}
              && (forall id :: id in after.stored.tokens <==> id in ParseTokens(p.servers.value) && ParseTokens(p.servers.value)[id] != "")
              && (forall id :: id in after.stored.tokens ==> after.stored.tokens[id] == ParseTokens(p.servers.value)[id])
              && (forall id :: id in after.stored.snapshots <==> id in before.stored.snapshots && id in Ids(after.stored.servers))
              && (forall id :: id in after.stored.snapshots ==> after.stored.snapshots[id] == before.stored.snapshots[id])
            else after == before
  {
    DeliveredAppend(m, ps, p);
  }

  /** The stamp kept is the largest of all configurations delivered, or the one at the start;
      so it never goes back, not even for one without a stamp. */
  lemma {:induction false} StampIsLargest(m: MgrState, ps: seq<Payload>)
    ensures var at := Delivered(m, ps).appliedAt;
            && at >= m.appliedAt && (at == m.appliedAt || exists p :: p in ps && p.servers.Some? && p.ts == at)
            && (forall p :: p in ps && p.servers.Some? ==> p.ts <= at)
    decreases |ps|
  {
    if ps != [] {
      var n := Ingested(m, ps[0]);
      assert ps[0] in ps && forall p :: p in ps <==> p == ps[0] || p in ps[1..];
      StampIsLargest(n, ps[1..]);
    }
  }

  /** A configuration that says which revision it is. */
  predicate Stamped(p: Payload) {
    p.servers.Some? && p.ts > 0
  }

  /** The newest of some deliveries: none of them has a larger stamp. */
  ghost predicate NewestOf(p: Payload, ps: seq<Payload>) {
    p in ps && Stamped(p) && forall q :: q in ps && Stamped(q) ==> q.ts <= p.ts
  }

  /** Each stamp names one revision. */
  ghost predicate OneRevisionPerStamp(ps: seq<Payload>) {
    forall p, q :: p in ps && q in ps && Stamped(p) && Stamped(q) && p.ts == q.ts ==> p == q
  }

  /** The list and tokens are those of `p`, and no legacy password is left. */
  ghost predicate Shows(m: MgrState, p: Payload)
    requires Stamped(p)
  {
    && m.stored.servers == ParseServers(p.servers.value)
    && m.stored.tokens == NonEmpty(ParseTokens(p.servers.value))
    && m.stored.legacy == {}
    && m.stored.snapshots.Keys <= Ids(m.stored.servers)
    && m.appliedAt == p.ts
  }

  /** Payloads without a stamp are old phones'; they are not ordered by anything. */
  ghost predicate AllStamped(ps: seq<Payload>) {
    forall p :: p in ps && p.servers.Some? ==> p.ts != 0
  }

  lemma {:induction false} Overtaken(m: MgrState, ps: seq<Payload>, best: Payload)
    requires Stamped(best) && Shows(m, best) && AllStamped(ps)
    requires forall q :: q in ps && Stamped(q) ==> q.ts <= best.ts
    ensures Delivered(m, ps) == m
    decreases |ps|
  {
    if ps != [] {
      assert ps[0] in ps;
      assert Ingested(m, ps[0]) == m;
      Overtaken(m, ps[1..], best);
    }
  }

  /** Whatever the order, and however often each payload is delivered, the watch ends with
      the list and the tokens of the newest, and nothing of any other. */
  lemma {:induction false} Converges(m: MgrState, ps: seq<Payload>, best: Payload)
    requires NewestOf(best, ps) && OneRevisionPerStamp(ps) && AllStamped(ps)
    requires m.appliedAt < best.ts
    ensures Shows(Delivered(m, ps), best)
    decreases |ps|
  {
    var p, rest := ps[0], ps[1..];
    var n := Ingested(m, p);
    assert p in ps;
    assert forall q :: q in rest ==> q in ps;
    if p == best {
      TokensOfServers(p.servers.value);
      Overtaken(n, rest, best);
    } else {
      assert best in rest;
      Converges(n, rest, best);
    }
  }

  /** So two watches that start alike and are sent the same payloads agree on the servers
      and the tokens, in whatever order each of them got them. */
  lemma OrderDoesNotMatter(m: MgrState, ps: seq<Payload>, qs: seq<Payload>, best: Payload)
    requires forall p :: p in ps <==> p in qs
    requires NewestOf(best, ps) && OneRevisionPerStamp(ps) && AllStamped(ps)
    requires m.appliedAt < best.ts
    ensures Delivered(m, ps).stored.servers == Delivered(m, qs).stored.servers
    ensures Delivered(m, ps).stored.tokens == Delivered(m, qs).stored.tokens
  {
    Converges(m, ps, best);
    Converges(m, qs, best);
  }

  /** No token and no reading is stored for a server outside the list. */
  ghost predicate TokensMatchList(m: MgrState) {
    m.stored.tokens.Keys <= Ids(m.stored.servers) && m.stored.snapshots.Keys <= Ids(m.stored.servers)
  }

  predicate Applies(m: MgrState, p: Payload) {
    p.servers.Some? && (p.ts == 0 || p.ts > m.appliedAt)
  }

  /** Some delivery of the run is applied. */
  predicate EverApplies(m: MgrState, ps: seq<Payload>)
    decreases |ps|
  {
    ps != [] && (Applies(m, ps[0]) || EverApplies(Ingested(m, ps[0]), ps[1..]))
  }

  /** That is so from the first configuration that is applied on, whatever was stored before
      it, and until then nothing changes. */
  lemma {:induction false} TokensAlwaysMatch(m: MgrState, ps: seq<Payload>)
    ensures EverApplies(m, ps) || TokensMatchList(m) ==> TokensMatchList(Delivered(m, ps))
    ensures !EverApplies(m, ps) ==> Delivered(m, ps) == m
    decreases |ps|
  {
    if ps != [] {
      if ps[0].servers.Some? {
        TokensOfServers(ps[0].servers.value);
      }
      TokensAlwaysMatch(Ingested(m, ps[0]), ps[1..]);
    }
  }

  /** The last readings do depend on the order: an older list that is applied first drops
      the reading of a server the newer one has again. */
  lemma ReadingsDependOnOrder(older: Payload, newer: Payload, m: MgrState, id: string)
    requires Stamped(older) && Stamped(newer) && m.appliedAt < older.ts < newer.ts
    requires id in m.stored.snapshots
    requires id !in Ids(ParseServers(older.servers.value)) && id in Ids(ParseServers(newer.servers.value))
    ensures id !in Delivered(m, [older, newer]).stored.snapshots
    ensures id in Delivered(m, [newer, older]).stored.snapshots
  {
    assert [older, newer][1..] == [newer] && [newer, older][1..] == [older];
    assert [newer][1..] == [] && [older][1..] == [];
    var a := Ingested(m, older);
    assert id !in a.stored.snapshots;
    assert Delivered(a, [newer]) == Ingested(a, newer);
    var b := Ingested(m, newer);
    assert Delivered(b, [older]) == Ingested(b, older) == b;
  }
}
