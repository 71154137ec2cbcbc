/** What the hybrid limiter stores: settings rows in PostgreSQL, and in one Redis their copies and the token keys.
    Every operation works on the account of one client; when do the accounts of two clients share a key? */
module HybridStore {
  import opened Machine
  import opened RateLimit
  import opened Trace
  import LuaBucket
  import SettingsCache

  // ----- Redis keys -----

  function SettingsKey(client: string): string { "ratelimit:settings:" + client }
  function TokensKey(client: string): string { "ratelimit:" + client + ":tokens" }
  function LastRefillKey(client: string): string { "ratelimit:" + client + ":last_refill" }

  lemma KeepsMiddle(head: string, a: string, b: string, tail: string)
    ensures head + a + tail == head + b + tail <==> a == b
  {
    if head + a + tail == head + b + tail {
      assert |a| == |b|;
      assert (head + a + tail)[|head|..|head| + |a|] == a;
      assert (head + b + tail)[|head|..|head| + |b|] == b;
    }
  }

  /** Keys of one kind are distinct for distinct clients, and the two token keys never meet. */
  lemma KeysOfOneKindAreDistinct(a: string, b: string)
    ensures SettingsKey(a) == SettingsKey(b) <==> a == b
    ensures TokensKey(a) == TokensKey(b) <==> a == b
    ensures LastRefillKey(a) == LastRefillKey(b) <==> a == b
    ensures TokensKey(a) != LastRefillKey(b)
  {
    KeepsMiddle("ratelimit:settings:", a, b, "");
    KeepsMiddle("ratelimit:", a, b, ":tokens");
    KeepsMiddle("ratelimit:", a, b, ":last_refill");
    assert TokensKey(a)[|TokensKey(a)| - 1] == 's';
    assert LastRefillKey(b)[|LastRefillKey(b)| - 1] == 'l';
  }

  /** The copy of a's settings is stored where a token key of b is. */
  predicate Meets(a: string, b: string) {
    SettingsKey(a) == TokensKey(b) || SettingsKey(a) == LastRefillKey(b)
  }

  predicate Apart(a: string, b: string) {
    !Meets(a, b) && !Meets(b, a)
  }

  lemma SettingsKeyIs(a: string, b: string, tail: string)
    ensures SettingsKey(a) == "ratelimit:" + b + tail <==> "settings:" <= b + tail && a == (b + tail)[9..]
  {
    var rest := b + tail;
    assert "ratelimit:" + b + tail == "ratelimit:" + rest;
    assert SettingsKey(a) == "ratelimit:" + ("settings:" + a);
    KeepsMiddle("ratelimit:", rest, "settings:" + a, "");
    if "settings:" <= rest {
      assert rest == "settings:" + rest[9..];
    }
    if rest == "settings:" + a {
      assert rest[9..] == a;
    }
  }

  /** The namespaces of settings and token keys do meet: a's settings key is a token key of b exactly when b and
      the key's ending start like "settings:" and a is the rest. The shortest such b is "settings". */
  lemma KeysMeetExactly(a: string, b: string)
    ensures SettingsKey(a) == TokensKey(b) <==> "settings:" <= b + ":tokens" && a == (b + ":tokens")[9..]
    ensures SettingsKey(a) == LastRefillKey(b)
      <==> "settings:" <= b + ":last_refill" && a == (b + ":last_refill")[9..]
    ensures SettingsKey("tokens") == TokensKey("settings") == "ratelimit:settings:tokens"
    ensures SettingsKey("last_refill") == LastRefillKey("settings") == "ratelimit:settings:last_refill"
  {
    SettingsKeyIs(a, b, ":tokens");
    SettingsKeyIs(a, b, ":last_refill");
    MeetingPairs();
  }

  lemma MeetingPairs()
    ensures SettingsKey("tokens") == TokensKey("settings") == "ratelimit:settings:tokens"
    ensures SettingsKey("last_refill") == LastRefillKey("settings") == "ratelimit:settings:last_refill"
  {
    assert "settings:" + "tokens" == "settings" + ":tokens";
    assert "settings:" + "last_refill" == "settings" + ":last_refill";
    Regroup("ratelimit:", "settings:", "tokens", "settings", ":tokens");
    Regroup("ratelimit:", "settings:", "last_refill", "settings", ":last_refill");
    assert "ratelimit:" + "settings:" == "ratelimit:settings:";
  }

  lemma Regroup(head: string, a: string, b: string, c: string, d: string)
    requires a + b == c + d
    ensures head + a + b == head + c + d
  {
    assert head + a + b == head + (a + b);
    assert head + c + d == head + (c + d);
  }

  /** The id that the HTTP middleware gives a request: from its API key, else from the host of its remote
      address, else (`host` is None) the remote address as it is. */
  function ClientId(apiKey: string, remoteAddr: string, host: Option<string>): string {
    if apiKey != "" then "api_" + apiKey
    else if host.None? then remoteAddr
    else "ip_" + host.value
  }

  lemma StartsWithWord(word: string, b: string, tail: string)
    requires ':' !in word && tail != "" && tail[0] == ':' && word + ":" <= b + tail
    ensures word <= b
  {
    var rest := b + tail;
    assert rest[|b|] == ':';
    assert forall k :: 0 <= k < |word| ==> rest[k] == (word + ":")[k] == word[k];
    assert |b| >= |word|;
    assert word == rest[..|word|] == b[..|word|];
  }

  /** Only a name that starts with "settings" has token keys that meet a settings key. */
  lemma OnlySettingsNamesMeet(a: string, b: string)
    requires Meets(a, b)
    ensures "settings" <= b
  {
    KeysMeetExactly(a, b);
    StartsWithWord("settings", b, if SettingsKey(a) == TokensKey(b) then ":tokens" else ":last_refill");
  }

  /** An API key decides alone and keeps clients apart; without one the host decides, whatever the port; ids from
      keys and from hosts never meet. */
  lemma ClientIdsDistinguish(
      key1: string, addr1: string, host1: Option<string>, key2: string, addr2: string, host2: Option<string>)
    ensures var a, b := ClientId(key1, addr1, host1), ClientId(key2, addr2, host2);
      && (key1 != "" && key2 != "" ==> (a == b <==> key1 == key2))
      && (key1 == "" && key2 == "" && host1.Some? && host2.Some? ==> (a == b <==> host1 == host2))
      && (key1 == "" && key2 == "" && host1.None? && host2.None? ==> (a == b <==> addr1 == addr2))
      && (key1 != "" && key2 == "" && host2.Some? ==> a != b)
  {
    var a, b := ClientId(key1, addr1, host1), ClientId(key2, addr2, host2);
    KeepsMiddle("api_", key1, key2, "");
    if host1.Some? && host2.Some? {
      KeepsMiddle("ip_", host1.value, host2.value, "");
    }
    if key1 != "" && key2 == "" && host2.Some? {
      assert a[0] == 'a' && b[0] == 'i';
    }
  }

  lemma ClientIdStart(apiKey: string, remoteAddr: string, host: Option<string>)
    requires !("settings" <= remoteAddr)
    ensures !("settings" <= ClientId(apiKey, remoteAddr, host))
  {
    var id := ClientId(apiKey, remoteAddr, host);
    if apiKey != "" {
      assert id[0] == 'a';
    } else if host.Some? {
      assert id[0] == 'i';
    }
  }

  /** The ids of any two requests have keys that do not meet, unless a remote address starts with "settings". */
  lemma RequestsAreApart(
      key1: string, addr1: string, host1: Option<string>, key2: string, addr2: string, host2: Option<string>)
    requires !("settings" <= addr1) && !("settings" <= addr2)
    ensures Apart(ClientId(key1, addr1, host1), ClientId(key2, addr2, host2))
  {
    var a, b := ClientId(key1, addr1, host1), ClientId(key2, addr2, host2);
    ClientIdStart(key1, addr1, host1);
    ClientIdStart(key2, addr2, host2);
    if Meets(a, b) {
      OnlySettingsNamesMeet(a, b);
    }
    if Meets(b, a) {
      OnlySettingsNamesMeet(b, a);
    }
  }

  // ----- Accounts -----

  /** A Redis string: a number that the script wrote, or a copy of settings and when it expires. */
  datatype Value = Number(n: int) | Json(settings: Settings, until: int)

  datatype Store = Store(rows: map<string, Settings>, redis: map<string, Value>)

  const EMPTY := Store(map[], map[])

  /** What is stored for one client. */
  datatype Account = Account(
    row: Option<Settings>, copy: Option<Value>, tokens: Option<Value>, last: Option<Value>)

  function At<V>(m: map<string, V>, key: string): Option<V> {
    if key in m then Some(m[key]) else None
  }

  function Put<V>(m: map<string, V>, key: string, v: Option<V>): map<string, V> {
    if v.Some? then m[key := v.value] else m - {key}
  }

  function View(s: Store, client: string): Account {
    Account(At(s.rows, client),
            At(s.redis, SettingsKey(client)), At(s.redis, TokensKey(client)), At(s.redis, LastRefillKey(client)))
  }

  function Update(s: Store, client: string, acc: Account): Store {
    Store(Put(s.rows, client, acc.row),
          Put(Put(Put(s.redis, SettingsKey(client), acc.copy), TokensKey(client), acc.tokens),
              LastRefillKey(client), acc.last))
  }

  lemma OwnKeysDiffer(client: string)
    ensures SettingsKey(client) != TokensKey(client) && SettingsKey(client) != LastRefillKey(client)
    ensures TokensKey(client) != LastRefillKey(client)
  {
    KeysOfOneKindAreDistinct(client, client);
  }

  lemma ViewOfUpdate(s: Store, client: string, acc: Account)
    ensures View(Update(s, client, acc), client) == acc
  {
    OwnKeysDiffer(client);
  }

  lemma PutAgain<V>(m: map<string, V>, k: string, l: string, v: Option<V>, w: Option<V>)
    ensures Put(Put(m, k, v), k, w) == Put(m, k, w)
    ensures k != l ==> Put(Put(m, k, v), l, w) == Put(Put(m, l, w), k, v)
  {
  }

  /** Three keys written twice. */
  lemma PutThreeAgain<V>(
      m: map<string, V>, k1: string, k2: string, k3: string,
      v1: Option<V>, v2: Option<V>, v3: Option<V>, w1: Option<V>, w2: Option<V>, w3: Option<V>)
    requires k1 != k2 && k1 != k3 && k2 != k3
    ensures Put(Put(Put(Put(Put(Put(m, k1, v1), k2, v2), k3, v3), k1, w1), k2, w2), k3, w3)
         == Put(Put(Put(m, k1, w1), k2, w2), k3, w3)
  {
    var m1 := Put(m, k1, v1);
    var m2 := Put(m1, k2, v2);
    PutAgain(m2, k3, k1, v3, w1);
    PutAgain(m1, k2, k1, v2, w1);
    PutAgain(m, k1, k1, v1, w1);
    var n1 := Put(m, k1, w1);
    PutAgain(Put(n1, k2, v2), k3, k2, v3, w2);
    PutAgain(n1, k2, k2, v2, w2);
    PutAgain(Put(n1, k2, w2), k3, k3, v3, w3);
  }

  lemma UpdateTwice(s: Store, client: string, acc: Account, again: Account)
    ensures Update(Update(s, client, acc), client, again) == Update(s, client, again)
  {
    OwnKeysDiffer(client);
    PutAgain(s.rows, client, client, acc.row, again.row);
    PutThreeAgain(s.redis, SettingsKey(client), TokensKey(client), LastRefillKey(client),
                  acc.copy, acc.tokens, acc.last, again.copy, again.tokens, again.last);
  }

  lemma OthersKeepTheirAccount(s: Store, a: string, acc: Account, b: string)
    requires a != b && Apart(a, b)
    ensures View(Update(s, a, acc), b) == View(s, b)
  {
    KeysOfOneKindAreDistinct(a, b);
    KeysOfOneKindAreDistinct(b, a);
  }

  // ----- Operations -----

  /** `reached`, `stored`, `saved`, `deleted` and `dropped` say whether the Redis GET of `getSettings`, its SET,
      the SQL upsert, the SQL delete and the Redis DEL arrive. */
  datatype Op =
    | Allow(client: string, now: int, reached: bool, stored: bool)
    | SetRateLimit(client: string, settings: Settings, saved: bool, dropped: bool)
    | RemoveRateLimit(client: string, deleted: bool, dropped: bool)

  /** `Crash` is the nil dereference of `Allow` when `getSettings` finds neither a copy nor a row. */
  datatype Outcome = Decided(allowed: bool) | Crash | Returned(ok: bool)

  /** The copy that a GET at `now` finds; what is not JSON counts as a miss. */
  function Hit(acc: Account, now: int, reached: bool): Option<Settings> {
    if reached && acc.copy.Some? && acc.copy.value.Json? && now < acc.copy.value.until
    then Some(acc.copy.value.settings) else None
  }

  /** What `getSettings` answers, and the account after it. */
  function Effective(acc: Account, now: int, reached: bool): Option<Settings> {
    if Hit(acc, now, reached).Some? then Hit(acc, now, reached) else acc.row
  }

  function LookedUp(acc: Account, now: int, reached: bool, stored: bool): Account {
    if Hit(acc, now, reached).None? && acc.row.Some? && stored
    then acc.(copy := Some(Json(acc.row.value, now + SettingsCache.HOUR)))
    else acc
  }

  /** What the script's GET finds at `now`. */
  function Live(v: Option<Value>, now: int): Option<Value> {
    if v.Some? && v.value.Json? && v.value.until <= now then None else v
  }

  function ToNumber(v: Option<Value>): Option<int> {
    if v.Some? && v.value.Number? then Some(v.value.n) else None
  }

  /** The script computes with nil, fails, and writes nothing: the request is let through. */
  predicate ScriptFails(tokens: Option<Value>, last: Option<Value>) {
    tokens.Some? && (ToNumber(tokens).None? || ToNumber(last).None?)
  }

  /** One evaluation of the script. */
  function Evaluated(acc: Account, c: Settings, now: int): (Account, bool) {
    var tokens, last := Live(acc.tokens, now), Live(acc.last, now);
    if ScriptFails(tokens, last) then (acc, true)
    else
      var (keys, verdict) := LuaBucket.Script(c, LuaBucket.Keys(ToNumber(tokens), ToNumber(last)), now);
      if verdict == Admitted
      then (acc.(tokens := Some(Number(keys.tokens.value)), last := Some(Number(now))), true)
      else (acc, false)
  }

  /** What an operation does to the account of its client. */
  function Serve(acc: Account, op: Op): (Account, Outcome) {
    match op
    case Allow(_, now, reached, stored) =>
      var settings, seen := Effective(acc, now, reached), LookedUp(acc, now, reached, stored);
      if settings.None? then (seen, Crash)
      else (Evaluated(seen, settings.value, now).0, Decided(Evaluated(seen, settings.value, now).1))
    case SetRateLimit(_, settings, saved, dropped) =>
      if !saved then (acc, Returned(false))
      else (acc.(row := Some(settings), copy := if dropped then None else acc.copy), Returned(true))
    case RemoveRateLimit(_, deleted, dropped) =>
      var row := if deleted then None else acc.row;
      (if dropped then Account(row, None, None, None) else acc.(row := row), Returned(deleted && dropped))
  }

  /** An operation on the whole store. */
  function Do(s: Store, op: Op): (Store, Outcome) {
    var (acc, outcome) := Serve(View(s, op.client), op);
    (Update(s, op.client, acc), outcome)
  }

  // ----- Isolation -----

  /** A client's account is out of reach of every operation on another client exactly if their keys do not meet. */
  lemma IsolatedExactly(a: string, b: string)
    requires a != b
    ensures Apart(a, b) <==>
      forall s: Store, op: Op {:trigger Do(s, op)} :: op.client == a ==> View(Do(s, op).0, b) == View(s, b)
  {
    if Apart(a, b) {
      forall s: Store, op: Op | op.client == a ensures View(Do(s, op).0, b) == View(s, b) {
        OthersKeepTheirAccount(s, a, Serve(View(s, a), op).0, b);
      }
    } else {
      var shared := if Meets(a, b) then SettingsKey(a) else SettingsKey(b);
      var s, op := Store(map[], map[shared := Number(0)]), RemoveRateLimit(a, true, true);
      assert shared !in Do(s, op).0.redis;
      assert View(Do(s, op).0, b) != View(s, b);
    }
  }

  function Exec(s: Store, ops: seq<Op>): Store
    decreases |ops|
  {
    if ops == [] then s else Exec(Do(s, ops[0]).0, ops[1..])
  }

  /** What the client is answered during a run. */
  function Outcomes(s: Store, ops: seq<Op>, client: string): seq<Outcome>
    decreases |ops|
  {
    if ops == [] then []
    else
      (if ops[0].client == client then [Do(s, ops[0]).1] else []) + Outcomes(Do(s, ops[0]).0, ops[1..], client)
  }

  /** The client's own operations of a run, and the run of these alone on its account. */
  function Own(ops: seq<Op>, client: string): seq<Op> {
    if ops == [] then [] else (if ops[0].client == client then [ops[0]] else []) + Own(ops[1..], client)
  }

  function ServeAll(acc: Account, ops: seq<Op>): Account
    decreases |ops|
  {
    if ops == [] then acc else ServeAll(Serve(acc, ops[0]).0, ops[1..])
  }

  function Answers(acc: Account, ops: seq<Op>): seq<Outcome>
    decreases |ops|
  {
    if ops == [] then [] else [Serve(acc, ops[0]).1] + Answers(Serve(acc, ops[0]).0, ops[1..])
  }

  /** No other client of the run has keys that meet this client's. */
  predicate Undisturbed(ops: seq<Op>, client: string) {
    forall k :: 0 <= k < |ops| ==> ops[k].client == client || Apart(ops[k].client, client)
  }

  /** Whatever clients with other keys do, a client is answered, and its account changes, as if it were alone. */
  lemma {:induction false} ClientSeesItsAccount(s: Store, ops: seq<Op>, client: string)
    requires Undisturbed(ops, client)
    ensures Outcomes(s, ops, client) == Answers(View(s, client), Own(ops, client))
    ensures View(Exec(s, ops), client) == ServeAll(View(s, client), Own(ops, client))
    decreases |ops|
  {
    if ops != [] {
      var op, next, rest := ops[0], Do(s, ops[0]).0, Own(ops[1..], client);
      ClientSeesItsAccount(next, ops[1..], client);
      if op.client == client {
        ViewOfUpdate(s, client, Serve(View(s, client), op).0);
        assert ([op] + rest)[1..] == rest;
      } else {
        OthersKeepTheirAccount(s, op.client, Serve(View(s, op.client), op).0, client);
        assert [] + rest == rest;
      }
    }
  }

  lemma DropLeavesTheRest(s: Store, a: string, settings: Settings, b: string)
    requires a != b
    ensures var acc, key := View(s, b), SettingsKey(a);
      View(Do(s, SetRateLimit(a, settings, true, true)).0, b)
      == acc.(tokens := if key == TokensKey(b) then None else acc.tokens,
              last := if key == LastRefillKey(b) then None else acc.last)
  {
    KeysOfOneKindAreDistinct(a, b);
    KeysOfOneKindAreDistinct(b, a);
    OwnKeysDiffer(a);
  }

  /** Where a settings key does meet a token key of b, storing settings for a opens b's limit: the next request
      of b passes, whatever its bucket holds. */
  lemma MeetingKeysOpenTheLimit(
      s: Store, a: string, settings: Settings, b: string, now: int, reached: bool, stored: bool)
    requires Meets(a, b) && a != b
    requires var c := Effective(View(s, b), now, reached); c.Some? && 0 < c.value.capacity
    ensures var s' := Do(s, SetRateLimit(a, settings, true, true)).0;
      Do(s', Allow(b, now, reached, stored)).1 == Decided(true)
  {
    DropLeavesTheRest(s, a, settings, b);
  }

  // ----- The settings cache -----

  /** At `now` Redis holds no copy, or one that says what the row says; so at every later time, too. */
  predicate Current(acc: Account, now: int) {
    Hit(acc, now, true).Some? ==> Hit(acc, now, true) == acc.row
  }

  ghost predicate Coherent(s: Store, now: int) {
    forall client: string :: Current(View(s, client), now)
  }

  lemma CoherentFromNowOn(s: Store, now: int, later: int)
    requires Coherent(s, now) && now <= later
    ensures Coherent(s, later)
  {
    forall client: string ensures Current(View(s, client), later) {
      assert Current(View(s, client), now);
    }
  }

  /** The operation leaves no copy behind that at `now` still says something else than the row. */
  predicate Harmless(acc: Account, op: Op, now: int) {
    match op
    case Allow(_, _, _, _) => true
    case SetRateLimit(_, settings, saved, dropped) =>
      !saved || dropped || Hit(acc, now, true).None? || Hit(acc, now, true) == Some(settings)
    case RemoveRateLimit(_, deleted, dropped) =>
      !deleted || dropped || Hit(acc, now, true).None?
  }

  lemma CopyAfterUpdate(s: Store, a: string, acc: Account, b: string)
    requires a != b
    ensures var key, copy := SettingsKey(b), View(Update(s, a, acc), b).copy;
      || copy == View(s, b).copy
      || (key == TokensKey(a) && copy == acc.tokens)
      || (key == LastRefillKey(a) && copy == acc.last)
  {
    KeysOfOneKindAreDistinct(a, b);
  }

  /** The token keys are as before, deleted, or numbers. */
  predicate WritesNumbers(before: Account, after: Account) {
    && (after.tokens == before.tokens || after.tokens.None? || after.tokens.value.Number?)
    && (after.last == before.last || after.last.None? || after.last.value.Number?)
  }

  /** Even where keys meet, another client's operation leaves no copy that says something new. */
  lemma OnlyOwnCopyIsWritten(s: Store, a: string, acc: Account, b: string, now: int)
    requires a != b && WritesNumbers(View(s, a), acc) && Current(View(s, b), now)
    ensures Current(View(Update(s, a, acc), b), now)
  {
    CopyAfterUpdate(s, a, acc, b);
    assert View(Update(s, a, acc), b).row == View(s, b).row;
  }

  lemma CoherentUpdate(s: Store, a: string, acc: Account, now: int)
    requires Coherent(s, now) && WritesNumbers(View(s, a), acc)
    ensures Coherent(Update(s, a, acc), now) <==> Current(acc, now)
  {
    ViewOfUpdate(s, a, acc);
    assert Current(View(Update(s, a, acc), a), now) <==> Current(acc, now);
    forall b: string | b != a ensures Current(View(Update(s, a, acc), b), now) {
      assert Current(View(s, b), now);
      OnlyOwnCopyIsWritten(s, a, acc, b, now);
    }
  }

  /** At any time, an operation keeps all copies that Redis holds equal to their rows exactly if it is harmless
      to its own client's. */
  lemma CoherenceKeptExactly(s: Store, op: Op, now: int)
    requires Coherent(s, now)
    ensures Coherent(Do(s, op).0, now) <==> Harmless(View(s, op.client), op, now)
  {
    assert Current(View(s, op.client), now);
    CoherentUpdate(s, op.client, Serve(View(s, op.client), op).0, now);
  }

  /** The client's row and copy as a state of the cache protocol. */
  function Protocol(acc: Account, now: int): SettingsCache.State {
    SettingsCache.State(
      now, acc.row, 0, now,
      if acc.copy.Some? && acc.copy.value.Json?
      then Some(SettingsCache.Entry(acc.copy.value.settings, 0, acc.copy.value.until)) else None,
      map[], map[])
  }

  /** `getSettings` is the call of the cache protocol that runs alone. */
  lemma LookupIsProtocolCall(acc: Account, now: int, reached: bool, stored: bool)
    ensures var after := SettingsCache.Alone(Protocol(acc, now), SettingsCache.GetSettings(0, reached, stored));
      && after.answers == map[0 := Effective(acc, now, reached)]
      && Protocol(LookedUp(acc, now, reached, stored), now) == after.(answers := map[])
  {
  }
}
