/**
 What a user of the credentials gets, said in terms of the keys of a secret and of the answers:
 how a key names a server, which secrets are served, and which failures a request reports.
 */
module CredentialsServed {
  import opened Strings
  import opened Wrappers
  import opened Credentials

  // ---------- how a key names a server ----------

  /** front is all of s before the separator first stands in it. */
  ghost predicate IsFront(s: string, separator: string, front: string) {
    && front <= s
    && (forall k: nat | k < |front| :: !StandsAt(s, separator, k))
    && (front == s || StandsAt(s, separator, |front|))
  }

  lemma {:induction false} BeforeIsFront(s: string, separator: string)
    requires separator != ""
    ensures IsFront(s, separator, Before(s, separator))
  {
    assert s[0..] == s;
    if s != "" && !(separator <= s) {
      var rest := Before(s[1..], separator);
      BeforeIsFront(s[1..], separator);
      assert s == [s[0]] + s[1..];
      forall k: nat | 0 < k <= |rest| ensures s[1..][k - 1..] == s[k..] {}
      forall k: nat | k < |[s[0]] + rest| ensures !StandsAt(s, separator, k) {
        if k > 0 { assert !StandsAt(s[1..], separator, k - 1); }
      }
      assert rest != s[1..] ==> s[1..][|rest|..] == s[|rest| + 1..];
    }
  }

  lemma OneFront(s: string, separator: string, a: string, b: string)
    requires separator != "" && IsFront(s, separator, a) && IsFront(s, separator, b)
    ensures a == b
  {
    assert a == s[..|a|] && b == s[..|b|];
  }

  /**
   What a key means, by its lower-case spelling: the field by how it ends, the server by what
   precedes the first separator, or all of the key where there is none.
   */
  lemma KeyMeans(key: string, lower: string, server: string)
    requires Spells(key, lower) && IsLower(lower)
    ensures SlotOf(key) == Some(Slot(server, User)) <==>
            EndsWith(lower, "username") && IsFront(lower, ".username", server)
    ensures SlotOf(key) == Some(Slot(server, Password)) <==>
            EndsWith(lower, "password") && IsFront(lower, ".password", server)
    ensures SlotOf(key).None? <==> !EndsWith(lower, "username") && !EndsWith(lower, "password")
  {
    hide ToLower, Before, Spells, IsFront, IsLower, HasSuffix, EndsWith;
    FoldsExactly(key, lower);
    Endings(lower);
    FrontExactly(lower, ".username", server);
    FrontExactly(lower, ".password", server);
  }

  lemma FrontExactly(s: string, separator: string, front: string)
    requires separator != ""
    ensures IsFront(s, separator, front) <==> front == Before(s, separator)
  {
    hide Before, IsFront;
    BeforeIsFront(s, separator);
    if IsFront(s, separator, front) { OneFront(s, separator, front, Before(s, separator)); }
  }

  lemma Endings(s: string)
    ensures forall end :: HasSuffix(s, end) <==> EndsWith(s, end)
    ensures !(EndsWith(s, "username") && EndsWith(s, "password"))
  {
    forall end | |end| <= |s| ensures StandsAt(s, end, |s| - |end|) <==> s[|s| - |end|..] == end {}
    if EndsWith(s, "username") {
      assert s[|s| - 8..] == "username" && "username"[0] != "password"[0];
    }
  }

  /** A separator with one dot, in front, can stand in a name that it follows only by standing inside the name. */
  lemma FrontOfName(server: string, separator: string)
    requires separator != "" && forall i | 0 < i < |separator| :: separator[i] != separator[0]
    ensures IsFront(server + separator, separator, server) <==> !Contains(server, separator)
  {
    var s := server + separator;
    assert s[|server|..] == separator && StandsAt(s, separator, |server|);
    forall k: nat | k < |server| ensures StandsAt(s, separator, k) <==> StandsAt(server, separator, k) {
      InsideName(server, separator, k);
    }
    assert server <= s;
    assert !StandsAt(server, separator, |server|);
  }

  lemma InsideName(server: string, separator: string, k: nat)
    requires separator != "" && (forall i | 0 < i < |separator| :: separator[i] != separator[0]) && k < |server|
    ensures StandsAt(server + separator, separator, k) <==> StandsAt(server, separator, k)
  {
    var s, n := server + separator, |separator|;
    assert s[k..] == server[k..] + separator;
    if StandsAt(s, separator, k) {
      assert s[|server|] == separator[0] && forall i | k <= i < k + n :: s[i] == separator[i - k];
      assert s[k..][..n] == server[k..][..n];
    }
  }

  /** The two keys of a server are taken for it, in any case, exactly when its name does not contain their ending. */
  lemma KeysOfServer(server: string, key: string)
    requires IsLower(server)
    ensures Spells(key, server + ".username") ==>
              (SlotOf(key) == Some(Slot(server, User)) <==> !Contains(server, ".username"))
    ensures Spells(key, server + ".password") ==>
              (SlotOf(key) == Some(Slot(server, Password)) <==> !Contains(server, ".password"))
  {
    if Spells(key, server + ".username") { UserKey(server, key); }
    if Spells(key, server + ".password") { PasswordKey(server, key); }
  }

  lemma UserKey(server: string, key: string)
    requires IsLower(server) && Spells(key, server + ".username")
    ensures SlotOf(key) == Some(Slot(server, User)) <==> !Contains(server, ".username")
  {
    NameAndEnding(server, ".username", "username");
    hide SlotOf, IsFront, Contains, Spells, StandsAt, IsLower, EndsWith;
    FrontOfName(server, ".username");
    KeyMeans(key, server + ".username", server);
  }

  lemma PasswordKey(server: string, key: string)
    requires IsLower(server) && Spells(key, server + ".password")
    ensures SlotOf(key) == Some(Slot(server, Password)) <==> !Contains(server, ".password")
  {
    NameAndEnding(server, ".password", "password");
    hide SlotOf, IsFront, Contains, Spells, StandsAt, IsLower, EndsWith;
    FrontOfName(server, ".password");
    KeyMeans(key, server + ".password", server);
  }

  lemma NameAndEnding(server: string, separator: string, end: string)
    requires IsLower(server) && IsLower(separator) && separator == "." + end
    ensures IsLower(server + separator) && EndsWith(server + separator, end)
  {
    var s := server + separator;
    assert s[|s| - |end|..] == end;
  }

  // ---------- which secrets are served ----------

  /** The secret holds one user and one password for the server, and nothing else. */
  ghost predicate IsPairFor(data: map<string, string>, server: string, user: string, password: string) {
    exists u, p :: Spells(u, server + ".username") && Spells(p, server + ".password") && u != p &&
                   data == map[u := user, p := password]
  }

  /** A name a key can be made for: no capitals, and neither ending inside. */
  predicate IsServerName(server: string) {
    IsLower(server) && !Contains(server, ".username") && !Contains(server, ".password")
  }

  ghost predicate OthersComplete(servers: map<string, Credential>, server: string) {
    forall k | k in servers && k != server :: servers[k].user != "" && servers[k].password != ""
  }

  lemma PairSlots(data: map<string, string>, server: string, user: string, password: string)
    returns (u: string, p: string)
    requires IsServerName(server) && IsPairFor(data, server, user, password)
    ensures u != p && data == map[u := user, p := password]
    ensures SlotOf(u) == Some(Slot(server, User)) && SlotOf(p) == Some(Slot(server, Password))
  {
    u, p :| Spells(u, server + ".username") && Spells(p, server + ".password") && u != p &&
            data == map[u := user, p := password];
    hide SlotOf, Spells, Contains;
    KeysOfServer(server, u);
    KeysOfServer(server, p);
  }

  lemma PairIsParsed(order: seq<string>, data: map<string, string>, config: map<string, Credential>,
                     server: string, user: string, password: string)
    requires IsServerName(server) && IsPairFor(data, server, user, password) && IsOrder(order, data)
    requires user != "" && password != "" && OthersComplete(config, server)
    ensures Parsed(order, data, config) == (config[server := Credential(user, password)], None)
  {
    hide SlotOf, IsServerName, IsPairFor, Applied, Complete;
    var u, p := PairSlots(data, server, user, password);
    assert u in data && data != map[];
    PairIsApplied(order, data, config, server, u, p);
    assert Complete(config[server := Credential(user, password)]) by { WithOneMore(config, server, user, password); }
  }

  lemma WithOneMore(config: map<string, Credential>, server: string, user: string, password: string)
    requires user != "" && password != "" && OthersComplete(config, server)
    ensures Complete(config[server := Credential(user, password)])
  {
  }

  lemma PairIsApplied(order: seq<string>, data: map<string, string>, config: map<string, Credential>,
                      server: string, u: string, p: string)
    requires u != p && data.Keys == {u, p} && IsOrder(order, data)
    requires SlotOf(u) == Some(Slot(server, User)) && SlotOf(p) == Some(Slot(server, Password))
    ensures Applied(order, data, config) == (config[server := Credential(data[u], data[p])], false)
  {
    hide SlotOf, Applied, Value;
    assert u in order && p in order && forall k | k in order :: k == u || k == p;
    AppliedFacts(order, data, config);
    var after, want := Applied(order, data, config).0, config[server := Credential(data[u], data[p])];
    forall t ensures Value(after, t) == Value(want, t) {
      ValueWithOneMore(config, server, data[u], data[p], t);
      if t.server == server {
        assert t == SlotOf(if t.field.User? then u else p).value;
      }
    }
    SameValues(after, want);
  }

  lemma ValueWithOneMore(config: map<string, Credential>, server: string, user: string, password: string, t: Slot)
    ensures Value(config[server := Credential(user, password)], t) ==
            if t == Slot(server, User) then user else if t == Slot(server, Password) then password else Value(config, t)
  {
  }

  /** The stored secret is of another version, or there is none. */
  predicate IsNewVersion(s: State, secret: Secret) {
    s.cache.secret.None? || s.cache.secret.value.version != secret.version
  }

  /**
   A secret of a new version that holds the two keys of a server is served: the request is answered
   with exactly those values, and so is everything else that was cached before.
   */
  lemma NewSecretIsServed(src: Sources, s: State, q: Request, user: string, password: string)
    requires src.lister && Orderly(src, s, q)
    requires q.secret.Ok? && IsNewVersion(s, q.secret.value)
    requires IsServerName(q.server) && IsPairFor(q.secret.value.data, q.server, user, password)
    requires user != "" && password != "" && OthersComplete(s.cache.servers, q.server)
    ensures AfterRequest(src, s, q).1 == Ok(Credential(user, password))
    ensures AfterRequest(src, s, q).0.cache.servers == s.cache.servers[q.server := Credential(user, password)]
    ensures AfterRequest(src, s, q).0.cache.secret == Some(q.secret.value)
  {
    hide IsOrder, Parsed, IsServerName, IsPairFor;
    var secret, want := q.secret.value, s.cache.servers[q.server := Credential(user, password)];
    PairIsParsed(q.listerOrder, secret.data, s.cache.servers, q.server, user, password);
    var u := Listed(src, s, q);
    assert u.error.None? && u.state.cache.servers == want;
    if src.directory && !u.state.parsed && q.files.Some? {
      PairIsParsed(q.fileOrder, secret.data, want, q.server, user, password);
      assert want[q.server := Credential(user, password)] == want;
    }
  }

  /** Without a stored secret the files of a directory are served, the first time it can be read. */
  lemma FilesAreServed(src: Sources, s: State, q: Request, user: string, password: string)
    requires src.directory && (src.lister ==> q.secret == Err(SecretGone)) && Orderly(src, s, q)
    requires s.cache.secret.None? && !s.parsed && q.files.Some?
    requires IsServerName(q.server) && IsPairFor(q.files.value, q.server, user, password)
    requires user != "" && password != "" && OthersComplete(s.cache.servers, q.server)
    ensures AfterRequest(src, s, q).1 == Ok(Credential(user, password))
    ensures AfterRequest(src, s, q).0.cache.servers == s.cache.servers[q.server := Credential(user, password)]
  {
    hide IsOrder, Parsed, IsServerName, IsPairFor;
    PairIsParsed(q.fileOrder, q.files.value, s.cache.servers, q.server, user, password);
  }

  // ---------- what is refused, and what does not matter ----------

  /**
   A request is refused, other than for an unknown server, exactly for a failing look-up of the
   secret, unless that is gone, and for a new secret that is empty, has an unknown key or leaves a
   server without a field; nothing about the directory is ever a reason.
   */
  lemma RefusedExactly(src: Sources, s: State, q: Request)
    requires Orderly(src, s, q)
    ensures var (next, answer, _) := AfterRequest(src, s, q);
            var bad := src.lister && q.secret.Ok? && IsNewVersion(s, q.secret.value) &&
                       Parsed(q.listerOrder, q.secret.value.data, s.cache.servers).1.Some?;
            && (src.lister && q.secret.Err? && q.secret.error != SecretGone ==>
                  next == s && answer == Err(q.secret.error))
            && (bad ==> answer == Err(if q.secret.value.data == map[] then CredentialMissing
                                      else if exists k | k in q.secret.value.data :: SlotOf(k).None? then UnknownKey
                                      else CredentialMissing))
            && (!bad && !(src.lister && q.secret.Err? && q.secret.error != SecretGone) ==>
                  answer == if q.server in next.cache.servers then Ok(next.cache.servers[q.server]) else Err(NotFound))
  {
    if src.lister && q.secret.Ok? && IsNewVersion(s, q.secret.value) {
      hide SlotOf, Applied, IsOrder, Complete;
      UnknownKeyAlwaysReported(q.listerOrder, q.secret.value.data, s.cache.servers);
    }
  }

  /** Once the directory has been tried, what it holds no longer matters; a request that is not refused tries it. */
  lemma DirectoryIsReadOnce(src: Sources, s: State, q: Request, files: Option<map<string, string>>, order: seq<string>)
    requires Orderly(src, s, q)
    ensures s.parsed ==> AfterRequest(src, s, q).0.parsed
    ensures src.directory && !Blocks(Listed(src, s, q)) ==> AfterRequest(src, s, q).0.parsed
    ensures s.parsed || !src.directory ==>
              var q' := q.(files := files, fileOrder := order);
              Orderly(src, s, q') && AfterRequest(src, s, q') == AfterRequest(src, s, q)
  {
    hide SlotOf, Applied, IsOrder, Complete;
  }
}
