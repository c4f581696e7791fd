/**
 What the functions on disk paths compute, said in terms of the characters of the path: which
 paths name one file, which part is the datastore, and what its base name and the normalised path are.
 */
module DiskPathExact {
  import opened Strings
  import opened Wrappers
  import opened DiskPath
  import opened DiskPathRewriting

  lemma Extended(path: string)
    ensures HasExtension(path) <==> EndsWith(path, ".vmdk")
    ensures EndsWith(path, ".vmdk") ==> path == TrimExtension(path) + ".vmdk"
    ensures EndsWith(path + ".vmdk", ".vmdk") && TrimExtension(path + ".vmdk") == path
  {
    assert (path + ".vmdk")[|path|..] == ".vmdk";
    if |path| >= 5 { assert path == path[..|path| - 5] + path[|path| - 5..]; }
  }

  /** Two paths name one file exactly when they are equal or one is the other with the extension, which it lacks. */
  lemma MatchesExactly(a: string, b: string)
    ensures Matches(a, b) <==>
            a == b || (a == b + ".vmdk" && !EndsWith(b, ".vmdk")) || (b == a + ".vmdk" && !EndsWith(a, ".vmdk"))
  {
    Extended(a);
    Extended(b);
    hide EndsWith;
  }

  /** A new disk's file has the extension, once if it was there. */
  lemma BackingExactly(path: string)
    ensures BackingName(path) == if path == "" || EndsWith(path, ".vmdk") then path else path + ".vmdk"
  {
    Extended(path);
  }

  // ---------- the base name ----------

  predicate AllSlashes(s: string) {
    forall k | 0 <= k < |s| :: s[k] == '/'
  }

  /** The name stands from i to j, between the start or a slash and slashes that go on to the end. */
  ghost predicate IsLastName(path: string, i: int, j: int) {
    && 0 <= i < j <= |path| && (i == 0 || path[i - 1] == '/')
    && (forall k | i <= k < j :: path[k] != '/')
    && (forall k | j <= k < |path| :: path[k] == '/')
  }

  /** The base name is the last name of the path, a slash where there are only slashes, a dot where there is nothing. */
  lemma BaseExactly(path: string)
    ensures path == "" ==> Base(path) == "."
    ensures path != "" && AllSlashes(path) ==> Base(path) == "/"
    ensures !AllSlashes(path) ==> exists i, j :: IsLastName(path, i, j) && Base(path) == path[i..j]
  {
    var s := StripSlashes(path);
    var name := AfterSlash(s);
    StripSplits(path);
    StripKeepsRest(path);
    AfterSlashSplits(s);
    AfterSlashIsLastPart(s);
    hide StripSlashes, AfterSlash;
    if AllSlashes(path) {
      assert s == path[..|s|];
    } else {
      var i, j := |s| - |name|, |s|;
      forall k | i <= k < j ensures path[k] != '/' { assert path[k] == s[k] == name[k - i] && name[k - i] in name; }
      assert path[i..j] == name;
      assert IsLastName(path, i, j);
    }
  }

  // ---------- the datastore ----------

  /** There is a datastore exactly when some bracket is closed on its line, and it is what the first such one holds. */
  lemma DatastoreExactly(path: string)
    ensures HasDatastore(path) <==> exists a: nat, c: nat :: Brackets(path, a, c)
    ensures HasDatastore(path) ==> exists o: nat :: Cut(path, o, DatastoreName(path)) && OpensFirst(path, o)
  {
    hide OpenBracket, CloseBracket, DatastoreName;
    if HasDatastore(path) {
      var o, name := Locate(path);
      CutBrackets(path, o, name);
    }
    if a: nat, c: nat :| Brackets(path, a, c) { OpenBracketIsFirst(path, 0, a, c); }
  }

  // ---------- the normalised path ----------

  lemma OccursStands(s: string, part: string, i: nat)
    requires i <= |s|
    ensures OccursAt(s, part, i) <==> StandsAt(s, part, i)
  {
    if i + |part| <= |s| { assert s[i..][..|part|] == s[i..i + |part|]; }
  }

  /** part stands at i and nowhere before. */
  ghost predicate StandsFirst(s: string, part: string, i: nat) {
    StandsAt(s, part, i) && forall n: nat | n < i :: !StandsAt(s, part, n)
  }

  /**
   A path whose datastore is its own base name stays as it is; in any other the place where that
   name first stands, and nothing else, becomes the base name.
   */
  lemma NormalizeExactly(path: string)
    requires HasDatastore(path)
    ensures Base(DatastoreName(path)) == DatastoreName(path) ==> Normalize(path) == path
    ensures Base(DatastoreName(path)) != DatastoreName(path) ==>
              var name := DatastoreName(path);
              exists i: nat | StandsFirst(path, name, i) && i + |name| <= |path| ::
                Normalize(path) == path[..i] + Base(name) + path[i + |name|..]
  {
    var _, name, i := Rewrite(path);
    hide *;
    FirstIsFirst(path, name, i);
    SplicedIs(path, i, |name|, Base(name));
  }

  lemma FirstIsFirst(path: string, name: string, i: nat)
    requires i <= |path| && FirstOccurrence(path, name, 0) == Some(i)
    ensures StandsFirst(path, name, i)
  {
    FirstOccurrenceBounds(path, name, 0);
    OccursStands(path, name, i);
    hide FirstOccurrence, StandsAt, OccursAt;
    forall n: nat | n < i ensures !StandsAt(path, name, n) {
      OccursStands(path, name, n);
      if OccursAt(path, name, n) { FirstOccurrenceIsFirst(path, name, 0, n); }
    }
  }

  lemma SplicedIs(p: string, i: nat, n: nat, b: string)
    requires i + n <= |p|
    ensures Spliced(p, i, n, b) == p[..i] + b + p[i + n..]
  {
  }
}
