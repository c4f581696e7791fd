/**
 The vCenter credentials kept from a Kubernetes secret or a directory of secret files.
 A secret is a map that is walked in an arbitrary order, so every statement about a parse is
 about all orders.
 */
module Credentials {
  import opened Strings
  import opened Wrappers

  datatype Credential = Credential(user: string, password: string)

  datatype Field = User | Password

  datatype Slot = Slot(server: string, field: Field)

  datatype Fault = CredentialMissing | UnknownKey | SecretGone | LookupFailed | DirectoryUnreadable | NotFound

  // ---------- what a key of a secret means ----------

  predicate HasSuffix(s: string, suffix: string) {
    |suffix| <= |s| && s[|s| - |suffix|..] == suffix
  }

  /** What precedes the first separator, or everything when there is none. */
  function Before(s: string, separator: string): string {
    if s == "" || separator <= s then "" else [s[0]] + Before(s[1..], separator)
  }

  function SlotOf(key: string): Option<Slot> {
    var k := ToLower(key);
    if HasSuffix(k, "password") then Some(Slot(Before(k, ".password"), Password))
    else if HasSuffix(k, "username") then Some(Slot(Before(k, ".username"), User))
    else None
  }

  // ---------- parsing in one given order ----------

  function Value(config: map<string, Credential>, t: Slot): string {
    if t.server !in config then ""
    else if t.field.User? then config[t.server].user
    else config[t.server].password
  }

  function Put(config: map<string, Credential>, t: Slot, v: string): map<string, Credential> {
    var c := if t.server in config then config[t.server] else Credential("", "");
    config[t.server := if t.field.User? then c.(user := v) else c.(password := v)]
  }

  /** The configuration after the keys of order, and whether an unknown one stopped the walk. */
  function Applied(order: seq<string>, data: map<string, string>, config: map<string, Credential>)
    : (map<string, Credential>, bool)
    requires forall k | k in order :: k in data
  {
    if order == [] then (config, false)
    else
      var (before, stopped) := Applied(order[..|order| - 1], data, config);
      var key := order[|order| - 1];
      if stopped || SlotOf(key).None? then (before, true)
      else (Put(before, SlotOf(key).value, data[key]), false)
  }

  predicate Complete(config: map<string, Credential>) {
    forall s | s in config :: config[s].user != "" && config[s].password != ""
  }

  function Parsed(order: seq<string>, data: map<string, string>, config: map<string, Credential>)
    : (map<string, Credential>, Option<Fault>)
    requires forall k | k in order :: k in data
  {
    if |data| == 0 then (config, Some(CredentialMissing))
    else
      var (after, stopped) := Applied(order, data, config);
      (after, if stopped then Some(UnknownKey) else if Complete(after) then None else Some(CredentialMissing))
  }

  /** order lists every key of data once. */
  ghost predicate IsOrder(order: seq<string>, data: map<string, string>) {
    (forall k :: k in order <==> k in data) && (forall i, j | 0 <= i < j < |order| :: order[i] != order[j])
  }

  // ---------- a parse does not depend on the order, exactly when its keys agree ----------

  ghost predicate Known(data: map<string, string>) {
    forall k | k in data :: SlotOf(k).Some?
  }

  /** Keys that fold to the same server and field carry the same value. */
  ghost predicate Agreeing(data: map<string, string>) {
    forall k, k' | k in data && k' in data && SlotOf(k).Some? && SlotOf(k) == SlotOf(k') :: data[k] == data[k']
  }

  lemma PutFacts(config: map<string, Credential>, t: Slot, v: string)
    ensures Put(config, t, v).Keys == config.Keys + {t.server}
    ensures forall u :: Value(Put(config, t, v), u) == if u == t then v else Value(config, u)
  {
  }

  /** What the keys walked so far have left behind. */
  lemma {:induction false} AppliedFacts(order: seq<string>, data: map<string, string>, config: map<string, Credential>)
    requires (forall k | k in order :: k in data && SlotOf(k).Some?) && Agreeing(data)
    ensures var (after, stopped) := Applied(order, data, config);
            && !stopped
            && (forall s :: s in after <==> s in config || exists k | k in order :: SlotOf(k).value.server == s)
            && (forall k | k in order :: Value(after, SlotOf(k).value) == data[k])
            && (forall t | (forall k | k in order :: SlotOf(k).value != t) :: Value(after, t) == Value(config, t))
  {
    hide ToLower, HasSuffix, Before, SlotOf;
    if order != [] {
      var front, key := order[..|order| - 1], order[|order| - 1];
      AppliedFacts(front, data, config);
      PutFacts(Applied(front, data, config).0, SlotOf(key).value, data[key]);
      assert forall k :: k in order <==> k in front || k == key;
    }
  }

  lemma SameValues(a: map<string, Credential>, b: map<string, Credential>)
    requires a.Keys == b.Keys && forall t :: Value(a, t) == Value(b, t)
    ensures a == b
  {
    forall s | s in a ensures a[s] == b[s] {
      assert Value(a, Slot(s, User)) == Value(b, Slot(s, User));
      assert Value(a, Slot(s, Password)) == Value(b, Slot(s, Password));
    }
  }

  lemma SlotsAgree(o: seq<string>, o': seq<string>, data: map<string, string>, config: map<string, Credential>, t: Slot)
    requires IsOrder(o, data) && IsOrder(o', data) && Known(data) && Agreeing(data)
    ensures Value(Applied(o, data, config).0, t) == Value(Applied(o', data, config).0, t)
  {
    hide ToLower, HasSuffix, Before, SlotOf;
    AppliedFacts(o, data, config);
    AppliedFacts(o', data, config);
    if k :| k in data && SlotOf(k).value == t {
      assert k in o && k in o';
    } else {
      assert forall k | k in o :: SlotOf(k).value != t;
      assert forall k | k in o' :: SlotOf(k).value != t;
    }
  }

  lemma OrdersAgree(o: seq<string>, o': seq<string>, data: map<string, string>, config: map<string, Credential>)
    requires IsOrder(o, data) && IsOrder(o', data) && Known(data) && Agreeing(data)
    ensures Parsed(o, data, config) == Parsed(o', data, config)
  {
    hide ToLower, HasSuffix, Before, SlotOf;
    AppliedFacts(o, data, config);
    AppliedFacts(o', data, config);
    var a, b := Applied(o, data, config).0, Applied(o', data, config).0;
    forall t ensures Value(a, t) == Value(b, t) {
      SlotsAgree(o, o', data, config, t);
    }
    forall s ensures s in a <==> s in b {
      assert (exists k | k in o :: SlotOf(k).value.server == s) <==>
             (exists k | k in o' :: SlotOf(k).value.server == s);
    }
    SameValues(a, b);
  }

  /** Some order walks a chosen key last. */
  lemma {:induction false} OrderEndingIn(data: map<string, string>, last: string) returns (order: seq<string>)
    requires last in data
    ensures IsOrder(order, data) && order[|order| - 1] == last
  {
    var rest := data.Keys - {last};
    order := [];
    while rest != {}
      invariant last !in rest && rest <= data.Keys
      invariant forall k :: k in order <==> k in data && k !in rest && k != last
      invariant forall i, j | 0 <= i < j < |order| :: order[i] != order[j]
    {
      var k :| k in rest;
      order, rest := order + [k], rest - {k};
    }
    order := order + [last];
  }

  /** Every known key says what is cached already. */
  ghost predicate NothingNew(data: map<string, string>, config: map<string, Credential>) {
    forall k | k in data && SlotOf(k).Some? ::
      SlotOf(k).value.server in config && Value(config, SlotOf(k).value) == data[k]
  }

  ghost predicate OrderMatters(data: map<string, string>, config: map<string, Credential>) {
    exists o, o' :: IsOrder(o, data) && IsOrder(o', data) && Parsed(o, data, config) != Parsed(o', data, config)
  }

  /**
   All orders give one configuration and one verdict exactly when, without unknown keys, keys of
   the same server and field agree on the value, and, with one, no key says anything new: it
   depends on the order which keys are walked before the unknown one.
   */
  lemma OrderIndependence(data: map<string, string>, config: map<string, Credential>)
    ensures !OrderMatters(data, config) <==> if Known(data) then Agreeing(data) else NothingNew(data, config)
  {
    hide ToLower, HasSuffix, Before, SlotOf, Parsed, IsOrder, Agreeing, NothingNew;
    if Known(data) {
      KnownOrders(data, config);
    } else {
      UnknownOrders(data, config);
    }
  }

  lemma KnownOrders(data: map<string, string>, config: map<string, Credential>)
    requires Known(data)
    ensures !OrderMatters(data, config) <==> Agreeing(data)
  {
    hide ToLower, HasSuffix, Before, SlotOf;
    if Agreeing(data) {
      forall o, o' | IsOrder(o, data) && IsOrder(o', data) ensures Parsed(o, data, config) == Parsed(o', data, config) {
        OrdersAgree(o, o', data, config);
      }
    } else {
      var k, k' :| k in data && k' in data && SlotOf(k) == SlotOf(k') && data[k] != data[k'];
      var o := OrderEndingIn(data, k);
      var o' := OrderEndingIn(data, k');
      LastKeyWins(o, data, config);
      LastKeyWins(o', data, config);
      assert Parsed(o, data, config) != Parsed(o', data, config);
    }
  }

  lemma UnknownOrders(data: map<string, string>, config: map<string, Credential>)
    requires !Known(data)
    ensures !OrderMatters(data, config) <==> NothingNew(data, config)
  {
    hide ToLower, HasSuffix, Before, SlotOf;
    if NothingNew(data, config) {
      forall o, o' | IsOrder(o, data) && IsOrder(o', data) ensures Parsed(o, data, config) == Parsed(o', data, config) {
        NothingNewStays(o, data, config);
        NothingNewStays(o', data, config);
        UnknownKeyAlwaysReported(o, data, config);
        UnknownKeyAlwaysReported(o', data, config);
      }
    } else {
      var u :| u in data && SlotOf(u).None?;
      var k :| k in data && SlotOf(k).Some? &&
        (SlotOf(k).value.server !in config || Value(config, SlotOf(k).value) != data[k]);
      var o := UnknownFirst(data, config, u);
      var o' := KnownThenUnknown(data, config, k, u);
      PutFacts(config, SlotOf(k).value, data[k]);
      hide Applied;
      assert Parsed(o, data, config).0 != Parsed(o', data, config).0;
    }
  }

  lemma {:induction false} NothingNewStays(order: seq<string>, data: map<string, string>,
                                           config: map<string, Credential>)
    requires NothingNew(data, config) && forall k | k in order :: k in data
    ensures Applied(order, data, config).0 == config
  {
    hide ToLower, HasSuffix, Before, SlotOf;
    if order != [] {
      var front, key := order[..|order| - 1], order[|order| - 1];
      NothingNewStays(front, data, config);
      if SlotOf(key).Some? { PutAgain(config, SlotOf(key).value, data[key]); }
    }
  }

  lemma PutAgain(config: map<string, Credential>, t: Slot, v: string)
    requires t.server in config && Value(config, t) == v
    ensures Put(config, t, v) == config
  {
    PutFacts(config, t, v);
    SameValues(Put(config, t, v), config);
  }

  /** An order that starts with an unknown key caches nothing. */
  lemma UnknownFirst(data: map<string, string>, config: map<string, Credential>, u: string) returns (order: seq<string>)
    requires u in data && SlotOf(u).None?
    ensures IsOrder(order, data) && Applied(order, data, config) == (config, true)
  {
    hide ToLower, HasSuffix, Before, SlotOf;
    assert [u][..0] == [] && Applied([u], data, config) == (config, true);
    order := CompleteOrder([u], data, config);
  }

  /** One that starts with a known and an unknown key caches what the first says. */
  lemma KnownThenUnknown(data: map<string, string>, config: map<string, Credential>, k: string, u: string)
    returns (order: seq<string>)
    requires k in data && SlotOf(k).Some? && u in data && SlotOf(u).None?
    ensures IsOrder(order, data) && Applied(order, data, config) == (Put(config, SlotOf(k).value, data[k]), true)
  {
    hide ToLower, HasSuffix, Before, SlotOf;
    assert [k][..0] == [] && [k, u][..1] == [k];
    assert Applied([k], data, config) == (Put(config, SlotOf(k).value, data[k]), false);
    order := CompleteOrder([k, u], data, config);
  }

  lemma JunkIsUnknown()
    ensures SlotOf("junk").None?
  {
    assert ToLower("junk") == "junk";
    hide Before;
  }

  /** A typo in one key, and it depends on the order what is cached. */
  lemma TypoMakesOrderMatter()
    ensures var data := map["junk" := "x", "username" := "u"];
            && Agreeing(data) && OrderMatters(data, map[])
  {
    var data := map["junk" := "x", "username" := "u"];
    hide ToLower, HasSuffix, Before, SlotOf, Parsed, IsOrder;
    BareKey();
    JunkIsUnknown();
    assert "junk" in data && "username" in data;
    assert SlotOf("junk") != SlotOf("username");
    OrderIndependence(data, map[]);
  }

  lemma LastKeyWins(order: seq<string>, data: map<string, string>, config: map<string, Credential>)
    requires IsOrder(order, data) && Known(data) && order != []
    ensures var key := order[|order| - 1];
            Value(Parsed(order, data, config).0, SlotOf(key).value) == data[key]
  {
    hide ToLower, HasSuffix, Before, SlotOf;
    var key := order[|order| - 1];
    NeverStops(order, data, config);
    assert key in data;
    PutFacts(Applied(order[..|order| - 1], data, config).0, SlotOf(key).value, data[key]);
  }

  /** The walk is stopped exactly by an unknown key among those walked. */
  lemma {:induction false} NeverStops(order: seq<string>, data: map<string, string>, config: map<string, Credential>)
    requires forall k | k in order :: k in data
    ensures Applied(order, data, config).1 <==> exists k | k in order :: SlotOf(k).None?
  {
    hide ToLower, HasSuffix, Before, SlotOf;
    if order != [] {
      var front, key := order[..|order| - 1], order[|order| - 1];
      NeverStops(front, data, config);
      assert forall k :: k in order <==> k in front || k == key;
    }
  }

  /** An unknown key is reported in every order, whatever the other keys say. */
  lemma UnknownKeyAlwaysReported(order: seq<string>, data: map<string, string>, config: map<string, Credential>)
    requires IsOrder(order, data)
    ensures Parsed(order, data, config).1 == Some(UnknownKey) <==> !Known(data)
  {
    hide ToLower, HasSuffix, Before, SlotOf;
    NeverStops(order, data, config);
    if !Known(data) {
      var k :| k in data && SlotOf(k).None?;
      assert k in order;
    }
  }

  /** The value a slot has after parsing agreeing keys: the key's if there is one, else the old one. */
  ghost predicate Provided(data: map<string, string>, config: map<string, Credential>, t: Slot) {
    if exists k | k in data :: SlotOf(k) == Some(t)
    then exists k | k in data :: SlotOf(k) == Some(t) && data[k] != ""
    else Value(config, t) != ""
  }

  ghost predicate Mentioned(data: map<string, string>, server: string) {
    exists k | k in data :: SlotOf(k).Some? && SlotOf(k).value.server == server
  }

  /** The key that is walked last of those for the slot. */
  function LastKey(order: seq<string>, t: Slot): Option<string> {
    if order == [] then None
    else if SlotOf(order[|order| - 1]) == Some(t) then Some(order[|order| - 1])
    else LastKey(order[..|order| - 1], t)
  }

  lemma {:induction false} LastKeyFacts(order: seq<string>, t: Slot)
    ensures var k := LastKey(order, t);
            && (k.Some? ==> k.value in order && SlotOf(k.value) == Some(t))
            && (k.None? ==> forall k' | k' in order :: SlotOf(k') != Some(t))
  {
    hide SlotOf;
    if order != [] {
      LastKeyFacts(order[..|order| - 1], t);
      assert forall k' :: k' in order <==> k' in order[..|order| - 1] || k' == order[|order| - 1];
    }
  }

  /** After the walk a slot has the value of its last key, or its old one. */
  lemma {:induction false} AppliedValue(order: seq<string>, data: map<string, string>,
                                        config: map<string, Credential>, t: Slot)
    requires forall k | k in order :: k in data && SlotOf(k).Some?
    ensures LastKey(order, t).Some? ==> LastKey(order, t).value in data
    ensures Value(Applied(order, data, config).0, t) ==
            if LastKey(order, t).Some? then data[LastKey(order, t).value] else Value(config, t)
  {
    hide SlotOf;
    NeverStops(order, data, config);
    LastKeyFacts(order, t);
    if order != [] {
      var front, key := order[..|order| - 1], order[|order| - 1];
      AppliedValue(front, data, config, t);
      NeverStops(front, data, config);
      PutFacts(Applied(front, data, config).0, SlotOf(key).value, data[key]);
    }
  }

  lemma {:induction false} AppliedServers(order: seq<string>, data: map<string, string>,
                                          config: map<string, Credential>)
    requires forall k | k in order :: k in data && SlotOf(k).Some?
    ensures forall s :: s in Applied(order, data, config).0 <==>
              s in config || exists k | k in order :: SlotOf(k).value.server == s
  {
    hide SlotOf;
    if order != [] {
      var front, key := order[..|order| - 1], order[|order| - 1];
      AppliedServers(front, data, config);
      NeverStops(front, data, config);
      assert forall k :: k in order <==> k in front || k == key;
    }
  }

  /** The slot ends up with a value: the last key's if there is one, else the old one. */
  predicate ProvidedBy(order: seq<string>, data: map<string, string>, config: map<string, Credential>, t: Slot) {
    match LastKey(order, t)
    case Some(k) => k in data && data[k] != ""
    case None => Value(config, t) != ""
  }

  /** With agreeing keys it does not matter which one is last. */
  lemma ProvidedInAnyOrder(order: seq<string>, data: map<string, string>, config: map<string, Credential>, t: Slot)
    requires IsOrder(order, data) && Agreeing(data)
    ensures ProvidedBy(order, data, config, t) <==> Provided(data, config, t)
  {
    hide SlotOf;
    LastKeyFacts(order, t);
  }

  /**
   A parse succeeds exactly when the secret is not empty, knows all its keys and leaves every
   server, named by it or cached before, with a user and a password.
   */
  lemma SucceedsExactly(order: seq<string>, data: map<string, string>, config: map<string, Credential>)
    requires IsOrder(order, data)
    ensures Parsed(order, data, config).1.None? <==>
            && data != map[] && Known(data)
            && forall s | s in config || Mentioned(data, s) ::
                 ProvidedBy(order, data, config, Slot(s, User)) && ProvidedBy(order, data, config, Slot(s, Password))
  {
    hide SlotOf, Applied, LastKey;
    UnknownKeyAlwaysReported(order, data, config);
    if Known(data) && data != map[] {
      AppliedServers(order, data, config);
      var after := Applied(order, data, config).0;
      forall s ensures s in after <==> s in config || Mentioned(data, s) {}
      forall t ensures Value(after, t) != "" <==> ProvidedBy(order, data, config, t) {
        AppliedValue(order, data, config, t);
      }
      assert Complete(after) <==>
        forall s | s in after :: Value(after, Slot(s, User)) != "" && Value(after, Slot(s, Password)) != "";
    }
  }

  // ---------- the manager over many requests ----------

  datatype Secret = Secret(version: string, data: map<string, string>)

  datatype Cache = Cache(secret: Option<Secret>, file: Option<map<string, string>>, servers: map<string, Credential>)

  /** parsed says that the secrets directory has been tried. */
  datatype State = State(cache: Cache, parsed: bool)

  /** The sources of secrets an installation has configured. */
  datatype Sources = Sources(lister: bool, directory: bool)

  /**
   One GetCredential request, the answers of its look-ups, and the orders in which a secret
   that has to be parsed is walked.
   */
  datatype Request = Request(server: string, secret: Result<Secret, Fault>, files: Option<map<string, string>>,
                             listerOrder: seq<string>, fileOrder: seq<string>)

  /** One parse: what was parsed, and the verdict. */
  datatype Parse = Parse(data: map<string, string>, error: Option<Fault>)

  /** parse is None where nothing was parsed. */
  datatype Update = Update(state: State, error: Option<Fault>, parse: Option<Parse>)

  function ToParse(c: Cache): map<string, string> {
    if c.secret.Some? then c.secret.value.data else if c.file.Some? then c.file.value else map[]
  }

  function AfterParse(s: State, order: seq<string>): Update
    requires IsOrder(order, ToParse(s.cache))
  {
    var (servers, error) := Parsed(order, ToParse(s.cache), s.cache.servers);
    Update(s.(cache := s.cache.(servers := servers)), error, Some(Parse(ToParse(s.cache), error)))
  }

  /** The secret the lister has is stored and parsed unless its version is the stored one's. */
  predicate IsNews(s: State, got: Result<Secret, Fault>) {
    got.Ok? && (s.cache.secret.None? || s.cache.secret.value.version != got.value.version)
  }

  ghost predicate ListerOrder(s: State, q: Request) {
    IsNews(s, q.secret) ==> IsOrder(q.listerOrder, q.secret.value.data)
  }

  function AfterLister(s: State, q: Request): Update
    requires ListerOrder(s, q)
  {
    if q.secret.Err? then Update(s, Some(q.secret.error), None)
    else if !IsNews(s, q.secret) then Update(s, None, None)
    else AfterParse(s.(cache := s.cache.(secret := Some(q.secret.value))), q.listerOrder)
  }

  function WithFiles(s: State, files: map<string, string>): State {
    State(s.cache.(file := Some(files)), true)
  }

  ghost predicate FileOrder(s: State, q: Request) {
    !s.parsed && q.files.Some? ==> IsOrder(q.fileOrder, ToParse(WithFiles(s, q.files.value).cache))
  }

  /** The secrets directory is read at most once, whether or not that goes well. */
  function AfterFiles(s: State, q: Request): Update
    requires FileOrder(s, q)
  {
    if s.parsed then Update(s, None, None)
    else if q.files.None? then Update(s.(parsed := true), Some(DirectoryUnreadable), None)
    else AfterParse(WithFiles(s, q.files.value), q.fileOrder)
  }

  function Listed(src: Sources, s: State, q: Request): Update
    requires src.lister ==> ListerOrder(s, q)
  {
    if src.lister then AfterLister(s, q) else Update(s, None, None)
  }

  /** A deleted secret is no reason to refuse a request; every other error is. */
  predicate Blocks(u: Update) {
    u.error.Some? && u.error.value != SecretGone
  }

  ghost predicate Orderly(src: Sources, s: State, q: Request) {
    && (src.lister ==> ListerOrder(s, q))
    && (src.directory && !Blocks(Listed(src, s, q)) ==> FileOrder(Listed(src, s, q).state, q))
  }

  /** The state after a request, its answer, and the last parse it made. */
  function AfterRequest(src: Sources, s: State, q: Request): (State, Result<Credential, Fault>, Option<Parse>)
    requires Orderly(src, s, q)
  {
    var u := Listed(src, s, q);
    if Blocks(u) then (u.state, Err(u.error.value), u.parse)
    else
      var w := if src.directory then AfterFiles(u.state, q) else Update(u.state, None, None);
      var servers := w.state.cache.servers;
      (w.state, if q.server in servers then Ok(servers[q.server]) else Err(NotFound),
       if w.parse.Some? then w.parse else u.parse)
  }

  ghost predicate OrderlyRun(src: Sources, s: State, run: seq<Request>)
    decreases |run|
  {
    run == [] ||
    (Orderly(src, s, run[0]) && OrderlyRun(src, AfterRequest(src, s, run[0]).0, run[1..]))
  }

  function AfterRun(src: Sources, s: State, run: seq<Request>): State
    requires OrderlyRun(src, s, run)
    decreases |run|
  {
    if run == [] then s else AfterRun(src, AfterRequest(src, s, run[0]).0, run[1..])
  }

  /** The last parse of a run, given the last one before the run. */
  function LastParse(src: Sources, s: State, run: seq<Request>, before: Option<Parse>): Option<Parse>
    requires OrderlyRun(src, s, run)
    decreases |run|
  {
    if run == [] then before
    else
      var (next, _, parse) := AfterRequest(src, s, run[0]);
      LastParse(src, next, run[1..], if parse.Some? then parse else before)
  }

  lemma {:induction false} ParseKeepsServers(order: seq<string>, data: map<string, string>,
                                             config: map<string, Credential>)
    requires forall k | k in order :: k in data
    ensures config.Keys <= Applied(order, data, config).0.Keys
  {
    hide SlotOf;
    if order != [] {
      ParseKeepsServers(order[..|order| - 1], data, config);
    }
  }

  lemma RequestKeepsServers(src: Sources, s: State, q: Request)
    requires Orderly(src, s, q)
    ensures s.cache.servers.Keys <= AfterRequest(src, s, q).0.cache.servers.Keys
  {
    hide Applied, IsOrder, Complete;
    var u := Listed(src, s, q);
    if src.lister && IsNews(s, q.secret) {
      OrderCovers(q.listerOrder, q.secret.value.data);
      ParseKeepsServers(q.listerOrder, q.secret.value.data, s.cache.servers);
    }
    if src.directory && !Blocks(u) && !u.state.parsed && q.files.Some? {
      var data := ToParse(WithFiles(u.state, q.files.value).cache);
      OrderCovers(q.fileOrder, data);
      ParseKeepsServers(q.fileOrder, data, u.state.cache.servers);
    }
  }

  lemma OrderCovers(order: seq<string>, data: map<string, string>)
    requires IsOrder(order, data)
    ensures forall k | k in order :: k in data
  {
  }

  /** A server once known stays known, whatever secrets come, change or disappear. */
  lemma {:induction false} ServersNeverShrink(src: Sources, s: State, run: seq<Request>)
    requires OrderlyRun(src, s, run)
    ensures s.cache.servers.Keys <= AfterRun(src, s, run).cache.servers.Keys
    decreases |run|
  {
    hide Orderly, AfterRequest;
    if run != [] {
      RequestKeepsServers(src, s, run[0]);
      ServersNeverShrink(src, AfterRequest(src, s, run[0]).0, run[1..]);
    }
  }

  /** The configuration is what the parse says it is. */
  ghost predicate Tells(parse: Option<Parse>, servers: map<string, Credential>) {
    && (parse.None? || parse.value.error.None? ==> Complete(servers))
    && (parse.Some? && parse.value.data != map[] && parse.value.error == Some(CredentialMissing) ==> !Complete(servers))
  }

  lemma ParseDecides(src: Sources, s: State, q: Request)
    requires Orderly(src, s, q)
    ensures var (next, _, parse) := AfterRequest(src, s, q);
            && (parse.Some? ==> Tells(parse, next.cache.servers))
            && (parse.None? ==> next.cache.servers == s.cache.servers)
  {
    hide Applied, IsOrder;
  }

  /**
   Over a whole run that starts with nothing cached: after a last parse that did not fail every
   cached server has a user and a password, and after one of a secret without unknown keys that
   did fail, some cached server lacks one.
   */
  lemma {:induction false} LastParseDecides(src: Sources, s: State, run: seq<Request>, before: Option<Parse>)
    requires OrderlyRun(src, s, run) && Tells(before, s.cache.servers)
    ensures Tells(LastParse(src, s, run, before), AfterRun(src, s, run).cache.servers)
    decreases |run|
  {
    hide Orderly, AfterRequest, Complete, Tells;
    if run != [] {
      ParseDecides(src, s, run[0]);
      var (next, _, parse) := AfterRequest(src, s, run[0]);
      LastParseDecides(src, next, run[1..], if parse.Some? then parse else before);
    }
  }

  /**
   A request that finds the secret deleted is answered as if there were no secret to look up,
   and as one that finds the stored version still there; with no directory left to read it
   changes nothing.
   */
  lemma DeletedSecretChangesNothing(src: Sources, s: State, q: Request)
    requires src.lister && q.secret == Err(SecretGone)
    ensures Orderly(src, s, q) <==> Orderly(src.(lister := false), s, q)
    ensures Orderly(src, s, q) ==> AfterRequest(src, s, q) == AfterRequest(src.(lister := false), s, q)
    ensures forall kept | s.cache.secret == Some(kept) ::
              (Orderly(src, s, q.(secret := Ok(kept))) <==> Orderly(src, s, q)) &&
              (Orderly(src, s, q) ==> AfterRequest(src, s, q.(secret := Ok(kept))) == AfterRequest(src, s, q))
    ensures Orderly(src, s, q) && (src.directory ==> s.parsed) ==> AfterRequest(src, s, q).0 == s
  {
  }

  // ---------- what is served after a secret has been stored ----------

  /** The keys that are walked before the first unknown one. */
  function Walked(order: seq<string>): seq<string> {
    if order == [] || SlotOf(order[0]).None? then [] else [order[0]] + Walked(order[1..])
  }

  lemma {:induction false} WalkedFacts(order: seq<string>)
    ensures Walked(order) <= order && forall k | k in Walked(order) :: SlotOf(k).Some?
    ensures |Walked(order)| < |order| ==> SlotOf(order[|Walked(order)|]).None?
  {
    hide SlotOf;
    if order != [] { WalkedFacts(order[1..]); }
  }

  /** Walking on after an unknown key changes nothing. */
  lemma {:induction false} StoppedStays(order: seq<string>, n: nat, data: map<string, string>,
                                        config: map<string, Credential>)
    requires n < |order| && SlotOf(order[n]).None? && forall k | k in order :: k in data
    ensures forall k | k in order[..n] :: k in data
    ensures Applied(order, data, config).0 == Applied(order[..n], data, config).0 && Applied(order, data, config).1
  {
    hide SlotOf;
    var front := order[..|order| - 1];
    if n < |front| {
      assert front[..n] == order[..n];
      StoppedStays(front, n, data, config);
    }
  }

  lemma WalkedIsApplied(order: seq<string>, data: map<string, string>, config: map<string, Credential>)
    requires forall k | k in order :: k in data
    ensures forall k | k in Walked(order) :: k in data
    ensures Applied(order, data, config).0 == Applied(Walked(order), data, config).0
  {
    hide SlotOf, Walked, Applied;
    WalkedFacts(order);
    var walked, n := Walked(order), |Walked(order)|;
    assert walked == order[..n];
    if n < |order| {
      StoppedStays(order, n, data, config);
    } else {
      assert walked == order;
    }
  }

  /** One walk after another is one long walk. */
  lemma {:induction false} AppliedInTurn(a: seq<string>, b: seq<string>, data: map<string, string>,
                                         config: map<string, Credential>)
    requires (forall k | k in a :: k in data && SlotOf(k).Some?) && (forall k | k in b :: k in data)
    ensures Applied(a + b, data, config) == Applied(b, data, Applied(a, data, config).0)
  {
    hide SlotOf;
    NeverStops(a, data, config);
    if b == [] {
      assert a + b == a;
    } else {
      var front := b[..|b| - 1];
      assert (a + b)[..|a + b| - 1] == a + front;
      AppliedInTurn(a, front, data, config);
    }
  }

  /** The keys of the stored secret that one reading of the directory walks again. */
  function WalkedWithFiles(src: Sources, s: State, q: Request): seq<string> {
    if src.directory && !s.parsed && q.files.Some? then Walked(q.fileOrder) else []
  }

  /** All keys walked by a request that finds news, and by the next one at the same version. */
  function WalkedByBoth(src: Sources, s: State, q: Request, again: Request): seq<string>
    requires src.lister && Orderly(src, s, q)
  {
    var u := Listed(src, s, q);
    var afterFiles := AfterRequest(src, s, q).0;
    Walked(q.listerOrder) + (if Blocks(u) then [] else WalkedWithFiles(src, u.state, q)) +
    WalkedWithFiles(src, afterFiles, again)
  }

  /** The secret is stored, and the keys walked are all that has been put into base. */
  ghost predicate Stores(s: State, secret: Secret, walked: seq<string>, base: map<string, Credential>) {
    && s.cache.secret == Some(secret)
    && (forall k | k in walked :: k in secret.data && SlotOf(k).Some?)
    && s.cache.servers == Applied(walked, secret.data, base).0
  }

  lemma StoresMore(s: State, secret: Secret, walked: seq<string>, base: map<string, Credential>, order: seq<string>)
    requires Stores(s, secret, walked, base) && IsOrder(order, secret.data)
    ensures forall k | k in order :: k in secret.data
    ensures var servers := Parsed(order, secret.data, s.cache.servers).0;
            Stores(s.(cache := s.cache.(servers := servers)), secret, walked + Walked(order), base)
  {
    OrderCovers(order, secret.data);
    WalkedFacts(order);
    WalkedIsApplied(order, secret.data, s.cache.servers);
    AppliedInTurn(walked, Walked(order), secret.data, base);
    EmptyIsUnchanged(order, secret.data, s.cache.servers);
    hide SlotOf, Applied, Walked, IsOrder, Complete;
  }

  /** An empty secret has no keys to walk. */
  lemma EmptyIsUnchanged(order: seq<string>, data: map<string, string>, config: map<string, Credential>)
    requires forall k | k in order :: k in data
    ensures Parsed(order, data, config).0 == Applied(order, data, config).0
  {
    hide SlotOf, Complete;
    assert order == [] || order[0] in order;
  }

  lemma FilesStoreMore(s: State, secret: Secret, walked: seq<string>, base: map<string, Credential>, q: Request)
    requires Stores(s, secret, walked, base) && FileOrder(s, q)
    ensures Stores(AfterFiles(s, q).state, secret,
                   walked + WalkedWithFiles(Sources(true, true), s, q), base)
  {
    hide SlotOf, Applied, Walked, IsOrder, Complete, Parsed;
    if !s.parsed && q.files.Some? {
      StoresMore(WithFiles(s, q.files.value), secret, walked, base, q.fileOrder);
    } else {
      assert walked + [] == walked;
    }
  }

  lemma NewsIsStored(src: Sources, s: State, q: Request)
    requires src.lister && Orderly(src, s, q) && IsNews(s, q.secret)
    ensures var u := Listed(src, s, q);
            var walked := Walked(q.listerOrder) + if Blocks(u) then [] else WalkedWithFiles(src, u.state, q);
            Stores(AfterRequest(src, s, q).0, q.secret.value, walked, s.cache.servers)
  {
    hide SlotOf, Applied, Walked, IsOrder, Complete, Parsed, Stores, AfterFiles;
    var secret, base, u := q.secret.value, s.cache.servers, Listed(src, s, q);
    var taken := s.(cache := s.cache.(secret := Some(secret)));
    assert Stores(taken, secret, [], base) by { TakenIsStored(taken, secret, base); }
    StoresMore(taken, secret, [], base, q.listerOrder);
    assert [] + Walked(q.listerOrder) == Walked(q.listerOrder);
    if src.directory && !Blocks(u) {
      FilesStoreMore(u.state, secret, Walked(q.listerOrder), base, q);
    } else {
      assert Walked(q.listerOrder) + [] == Walked(q.listerOrder);
    }
  }

  lemma TakenIsStored(s: State, secret: Secret, base: map<string, Credential>)
    requires s.cache.secret == Some(secret) && s.cache.servers == base
    ensures Stores(s, secret, [], base)
  {
  }

  lemma SameVersionStaysStored(src: Sources, s: State, q: Request, secret: Secret, walked: seq<string>,
                               base: map<string, Credential>)
    requires src.lister && Orderly(src, s, q) && Stores(s, secret, walked, base)
    requires q.secret.Ok? && q.secret.value.version == secret.version
    ensures Stores(AfterRequest(src, s, q).0, secret, walked + WalkedWithFiles(src, s, q), base)
    ensures var next := AfterRequest(src, s, q).0;
            AfterRequest(src, s, q).1 ==
            if q.server in next.cache.servers then Ok(next.cache.servers[q.server]) else Err(NotFound)
  {
    hide SlotOf, Applied, Walked, IsOrder, Complete, Parsed, AfterFiles;
    if src.directory {
      FilesStoreMore(s, secret, walked, base, q);
    } else {
      assert walked + [] == walked;
    }
  }

  /** What the keys walked leave in a slot: the last key's value if there is one, else the old one. */
  function ValueBy(walked: seq<string>, data: map<string, string>, base: map<string, Credential>, t: Slot): string {
    match LastKey(walked, t)
    case Some(k) => if k in data then data[k] else ""
    case None => Value(base, t)
  }

  /**
   After a request has met a new secret, whether or not that parsed, the next request at the same
   version is answered exactly for the servers cached before or named by a key that was walked, and
   both fields are what the keys walked, and else the old cache, say.
   */
  lemma RetryServesExactly(src: Sources, s: State, q: Request, again: Request)
    requires src.lister && Orderly(src, s, q) && IsNews(s, q.secret)
    requires again.secret.Ok? && again.secret.value.version == q.secret.value.version
    requires Orderly(src, AfterRequest(src, s, q).0, again)
    ensures var data, base, walked := q.secret.value.data, s.cache.servers, WalkedByBoth(src, s, q, again);
            var answer := AfterRequest(src, AfterRequest(src, s, q).0, again).1;
            && (forall k | k in walked :: SlotOf(k).Some?)
            && (answer.Ok? <==>
                again.server in base || exists k | k in walked :: SlotOf(k).value.server == again.server)
            && (answer.Ok? ==> answer.value == Credential(ValueBy(walked, data, base, Slot(again.server, User)),
                                                          ValueBy(walked, data, base, Slot(again.server, Password))))
  {
    hide SlotOf, Applied, Walked, IsOrder, Complete, Parsed, LastKey, AfterFiles, AfterLister, Stores;
    var secret, base := q.secret.value, s.cache.servers;
    var next, u := AfterRequest(src, s, q).0, Listed(src, s, q);
    var before := Walked(q.listerOrder) + (if Blocks(u) then [] else WalkedWithFiles(src, u.state, q));
    NewsIsStored(src, s, q);
    var walked := WalkedByBoth(src, s, q, again);
    assert walked == before + WalkedWithFiles(src, next, again);
    hide AfterRequest, WalkedByBoth, Listed, Blocks, WalkedWithFiles;
    SameVersionStaysStored(src, next, again, secret, before, base);
    StoredAnswer(AfterRequest(src, next, again).0, secret, walked, base, again.server);
  }

  lemma StoredAnswer(s: State, secret: Secret, walked: seq<string>, base: map<string, Credential>, server: string)
    requires Stores(s, secret, walked, base)
    ensures forall k | k in walked :: SlotOf(k).Some?
    ensures server in s.cache.servers <==> server in base || exists k | k in walked :: SlotOf(k).value.server == server
    ensures server in s.cache.servers ==>
              s.cache.servers[server] == Credential(ValueBy(walked, secret.data, base, Slot(server, User)),
                                                    ValueBy(walked, secret.data, base, Slot(server, Password)))
  {
    hide SlotOf, Applied, LastKey;
    AppliedServers(walked, secret.data, base);
    AppliedValue(walked, secret.data, base, Slot(server, User));
    AppliedValue(walked, secret.data, base, Slot(server, Password));
  }

  /**
   For a secret without unknown keys, whose keys agree, the orders do not matter: the next request is
   answered exactly for the servers cached before or named by the secret, and with a user and with
   a password exactly where the secret, or else the old cache, provides one.
   */
  lemma RetryInAnyOrder(src: Sources, s: State, q: Request, again: Request)
    requires src.lister && Orderly(src, s, q) && IsNews(s, q.secret)
    requires Known(q.secret.value.data) && Agreeing(q.secret.value.data)
    requires again.secret.Ok? && again.secret.value.version == q.secret.value.version
    requires Orderly(src, AfterRequest(src, s, q).0, again)
    ensures var data, base := q.secret.value.data, s.cache.servers;
            var answer := AfterRequest(src, AfterRequest(src, s, q).0, again).1;
            && (answer.Ok? <==> again.server in base || Mentioned(data, again.server))
            && (answer.Ok? ==> (answer.value.user != "" <==> Provided(data, base, Slot(again.server, User))))
            && (answer.Ok? ==> (answer.value.password != "" <==> Provided(data, base, Slot(again.server, Password))))
  {
    hide SlotOf, Applied, IsOrder, Complete, Parsed, LastKey, AfterFiles, AfterLister, Stores, Agreeing, Known;
    RetryServesExactly(src, s, q, again);
    var data, base, walked := q.secret.value.data, s.cache.servers, WalkedByBoth(src, s, q, again);
    AllAreWalked(src, s, q, again);
    hide AfterRequest, WalkedByBoth, Orderly;
    WalkedMentions(walked, data, again.server);
    WalkedProvides(walked, data, base, Slot(again.server, User));
    WalkedProvides(walked, data, base, Slot(again.server, Password));
    hide Provided, Mentioned, ValueBy;
  }

  lemma AllAreWalked(src: Sources, s: State, q: Request, again: Request)
    requires src.lister && Orderly(src, s, q) && IsNews(s, q.secret) && Known(q.secret.value.data)
    requires again.secret.Ok? && again.secret.value.version == q.secret.value.version
    requires Orderly(src, AfterRequest(src, s, q).0, again)
    ensures forall k :: k in WalkedByBoth(src, s, q, again) <==> k in q.secret.value.data
  {
    var secret, u, next := q.secret.value, Listed(src, s, q), AfterRequest(src, s, q).0;
    NewsIsStored(src, s, q);
    KnownIsWalked(q.listerOrder, secret.data);
    hide SlotOf, Applied, Complete, Parsed, Walked;
    if src.directory && !Blocks(u) && !u.state.parsed && q.files.Some? { KnownIsWalked(q.fileOrder, secret.data); }
    if src.directory && !next.parsed && again.files.Some? { KnownIsWalked(again.fileOrder, secret.data); }
  }

  lemma KnownIsWalked(order: seq<string>, data: map<string, string>)
    requires IsOrder(order, data) && Known(data)
    ensures forall k :: k in Walked(order) <==> k in data
  {
    WalkedFacts(order);
    hide SlotOf, Walked;
    assert forall j | 0 <= j < |order| :: order[j] in order;
    assert |Walked(order)| == |order|;
  }

  lemma WalkedMentions(walked: seq<string>, data: map<string, string>, server: string)
    requires (forall k :: k in walked <==> k in data) && forall k | k in walked :: SlotOf(k).Some?
    ensures Mentioned(data, server) <==> exists k | k in walked :: SlotOf(k).value.server == server
  {
    hide SlotOf;
    if Mentioned(data, server) {
      var k :| k in data && SlotOf(k).Some? && SlotOf(k).value.server == server;
      assert k in walked;
    }
  }

  lemma WalkedProvides(walked: seq<string>, data: map<string, string>, base: map<string, Credential>, t: Slot)
    requires (forall k :: k in walked <==> k in data) && Agreeing(data)
    ensures ValueBy(walked, data, base, t) != "" <==> Provided(data, base, t)
  {
    hide SlotOf;
    LastKeyFacts(walked, t);
  }

  /**
   The secret is stored before it is parsed, so after a failed parse the same version is not
   parsed again: the first request is refused, and the second one gets an empty password.
   */
  lemma RetryServesIncomplete()
    ensures var src, start := Sources(true, false), State(Cache(None, None, map[]), false);
            var secret := Secret("1", map["username" := "u"]);
            var q := Request("username", Ok(secret), None, ["username"], []);
            && Orderly(src, start, q)
            && (var (s, refused, _) := AfterRequest(src, start, q);
                && refused == Err(CredentialMissing)
                && Orderly(src, s, q)
                && AfterRequest(src, s, q).1 == Ok(Credential("u", "")))
  {
    hide SlotOf, Parsed, IsOrder;
    var data := map["username" := "u"];
    OneUserOnly(data, ["username"]);
  }

  lemma OneUserOnly(data: map<string, string>, order: seq<string>)
    requires data == map["username" := "u"] && order == ["username"]
    ensures IsOrder(order, data)
    ensures Parsed(order, data, map[]) == (map["username" := Credential("u", "")], Some(CredentialMissing))
  {
    hide SlotOf;
    BareKey();
    assert order[..0] == [] && |data| > 0;
    var after := map["username" := Credential("u", "")];
    assert Applied([], data, map[]) == (map[], false);
    assert Applied(order, data, map[]) == (after, false);
    assert !Complete(after);
  }

  /** Without a dot the whole key is taken for the server's name. */
  lemma BareKey()
    ensures SlotOf("username") == Some(Slot("username", User))
  {
    var k := "username";
    assert ToLower(k) == k;
    assert k[0..] == k;
    NoSeparator(k, ".username");
  }

  lemma {:induction false} NoSeparator(s: string, separator: string)
    requires separator != "" && separator[0] !in s
    ensures Before(s, separator) == s
  {
    if s != "" {
      NoSeparator(s[1..], separator);
      assert s == [s[0]] + s[1..];
    }
  }

  // ---------- the cache and the manager ----------

  class SecretCache {
    var secret: Option<Secret>
    var file: Option<map<string, string>>
    var servers: map<string, Credential>

    constructor ()
      ensures Contents() == Cache(None, None, map[])
    {
      secret, file, servers := None, None, map[];
    }

    ghost function Contents(): Cache
      reads this
    {
      Cache(secret, file, servers)
    }

    /** order is the order in which the keys happened to be walked. */
    method ParseConfig(data: map<string, string>) returns (error: Option<Fault>, ghost order: seq<string>)
      modifies `servers
      ensures IsOrder(order, data)
      ensures (servers, error) == Parsed(order, data, old(servers))
    {
      hide SlotOf;
      order := [];
      if |data| == 0 {
        assert data == map[];
        return Some(CredentialMissing), [];
      }
      var rest := data.Keys;
      while rest != {}
        invariant rest <= data.Keys
        invariant forall k :: k in order <==> k in data && k !in rest
        invariant forall i, j | 0 <= i < j < |order| :: order[i] != order[j]
        invariant Applied(order, data, old(servers)) == (servers, false)
      {
        var key :| key in rest;
        ghost var now := order + [key];
        assert now[..|now| - 1] == order;
        rest := rest - {key};
        if SlotOf(key).None? {
          order := CompleteOrder(now, data, old(servers));
          return Some(UnknownKey), order;
        }
        servers := Put(servers, SlotOf(key).value, data[key]);
        order := now;
      }
      var left := servers.Keys;
      while left != {}
        invariant left <= servers.Keys
        invariant forall s | s in servers && s !in left :: servers[s].user != "" && servers[s].password != ""
      {
        var server :| server in left;
        if servers[server].user == "" || servers[server].password == "" {
          assert !Complete(servers);
          return Some(CredentialMissing), order;
        }
        left := left - {server};
      }
      return None, order;
    }

    method ParseSecret() returns (error: Option<Fault>, ghost order: seq<string>)
      modifies `servers
      ensures IsOrder(order, ToParse(old(Contents())))
      ensures (servers, error) == Parsed(order, ToParse(old(Contents())), old(servers))
    {
      var data := map[];
      if secret.Some? {
        data := secret.value.data;
      } else if file.Some? {
        data := file.value;
      }
      error, order := ParseConfig(data);
    }
  }

  /** An order that begins with a stopped walk may go on in any way. */
  lemma {:induction false} CompleteOrder(walked: seq<string>, data: map<string, string>,
                                         config: map<string, Credential>)
    returns (order: seq<string>)
    requires (forall k | k in walked :: k in data) && (forall i, j | 0 <= i < j < |walked| :: walked[i] != walked[j])
    requires Applied(walked, data, config).1
    ensures IsOrder(order, data) && Applied(order, data, config) == Applied(walked, data, config)
  {
    hide SlotOf;
    order := walked;
    var rest := set k | k in data && k !in walked;
    while rest != {}
      invariant rest <= data.Keys
      invariant forall k :: k in order <==> k in data && k !in rest
      invariant forall i, j | 0 <= i < j < |order| :: order[i] != order[j]
      invariant Applied(order, data, config) == Applied(walked, data, config)
    {
      var k :| k in rest;
      assert (order + [k])[..|order|] == order;
      order, rest := order + [k], rest - {k};
    }
  }

  class SecretCredentialManager {
    const sources: Sources
    const cache: SecretCache
    var parsed: bool

    constructor (sources: Sources)
      ensures this.sources == sources && fresh(cache) && Contents() == State(Cache(None, None, map[]), false)
    {
      this.sources := sources;
      cache := new SecretCache();
      parsed := false;
    }

    ghost function Contents(): State
      reads this, cache
    {
      State(cache.Contents(), parsed)
    }

    method UpdateCredentialsMapK8s(got: Result<Secret, Fault>) returns (error: Option<Fault>, ghost order: seq<string>)
      modifies cache
      ensures var q := Request("", got, None, order, []);
              && ListerOrder(old(Contents()), q)
              && Contents() == AfterLister(old(Contents()), q).state
              && error == AfterLister(old(Contents()), q).error
    {
      hide Parsed, IsOrder;
      if got.Err? { return Some(got.error), []; }
      if cache.secret.Some? && cache.secret.value.version == got.value.version { return None, []; }
      cache.secret := Some(got.value);
      error, order := cache.ParseSecret();
    }

    method UpdateCredentialsMapFile(files: Option<map<string, string>>)
      returns (error: Option<Fault>, ghost order: seq<string>)
      modifies this, cache
      ensures var q := Request("", Err(SecretGone), files, [], order);
              && FileOrder(old(Contents()), q)
              && Contents() == AfterFiles(old(Contents()), q).state
              && error == AfterFiles(old(Contents()), q).error
    {
      hide Parsed, IsOrder;
      if parsed { return None, []; }
      parsed := true;
      if files.None? { return Some(DirectoryUnreadable), []; }
      cache.file := files;
      error, order := cache.ParseSecret();
    }

    method GetCredential(server: string, got: Result<Secret, Fault>, files: Option<map<string, string>>)
      returns (r: Result<Credential, Fault>, ghost q: Request)
      modifies this, cache
      ensures q.server == server && q.secret == got && q.files == files && Orderly(sources, old(Contents()), q)
      ensures var (next, answer, _) := AfterRequest(sources, old(Contents()), q); Contents() == next && r == answer
    {
      hide Parsed, IsOrder;
      q := Request(server, got, files, [], []);
      if sources.lister {
        var error;
        ghost var order;
        error, order := UpdateCredentialsMapK8s(got);
        q := q.(listerOrder := order);
        if error.Some? && error.value != SecretGone {
          return Err(error.value), q;
        }
      }
      if sources.directory {
        var _, order := UpdateCredentialsMapFile(files);
        q := q.(fileOrder := order);
      }
      if server !in cache.servers { return Err(NotFound), q; }
      return Ok(cache.servers[server]), q;
    }
  }
}
