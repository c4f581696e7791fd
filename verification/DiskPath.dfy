/**
 Virtual disk paths: "[datastore] folder/name.vmdk", where the datastore may be written
 with its cluster or folder in front, "[cluster/datastore] ...".
 */
module DiskPath {
  import opened Wrappers

  const EXTENSION: string := ".vmdk"

  predicate HasExtension(path: string) {
    |path| >= |EXTENSION| && path[|path| - |EXTENSION|..] == EXTENSION
  }

  /** strings.TrimSuffix(path, ".vmdk"): one extension goes, not all of them. */
  function TrimExtension(path: string): string {
    if HasExtension(path) then path[..|path| - |EXTENSION|] else path
  }

  /** The name the device library gives a new disk's backing file. */
  function BackingName(path: string): string {
    if path == "" || HasExtension(path) then path else path + EXTENSION
  }

  /** matchVirtualDiskAndVolPath. */
  predicate Matches(diskPath: string, volPath: string) {
    TrimExtension(diskPath) == TrimExtension(volPath)
  }

  /** A new disk is found under the path it was attached with, and under no other class of paths. */
  lemma BackingMatches(path: string, other: string)
    ensures Matches(BackingName(path), other) <==> Matches(path, other)
  {
    if path != "" && !HasExtension(path) {
      var named := path + EXTENSION;
      assert named[|named| - |EXTENSION|..] == EXTENSION;
      assert TrimExtension(named) == path;
    }
  }

  // ---------- filepath.Base ----------

  function StripSlashes(path: string): string {
    if path != "" && path[|path| - 1] == '/' then StripSlashes(path[..|path| - 1]) else path
  }

  function AfterSlash(path: string): string {
    if path == "" || path[|path| - 1] == '/' then "" else AfterSlash(path[..|path| - 1]) + [path[|path| - 1]]
  }

  function Base(path: string): string {
    if path == "" then "."
    else
      var last := AfterSlash(StripSlashes(path));
      if last == "" then "/" else last
  }

  lemma {:induction false} StripKeepsRest(path: string)
    ensures StripSlashes(path) <= path
    ensures var s := StripSlashes(path); s != "" ==> s[|s| - 1] != '/'
    ensures '/' !in path ==> StripSlashes(path) == path
  {
    if path != "" && path[|path| - 1] == '/' {
      StripKeepsRest(path[..|path| - 1]);
    }
  }

  lemma {:induction false} AfterSlashIsLastPart(path: string)
    ensures '/' !in AfterSlash(path)
    ensures forall c | c in AfterSlash(path) :: c in path
    ensures '/' !in path ==> AfterSlash(path) == path
    ensures |AfterSlash(path)| <= |path|
    ensures path != "" && path[|path| - 1] != '/' ==> AfterSlash(path) != ""
  {
    if path != "" && path[|path| - 1] != '/' {
      AfterSlashIsLastPart(path[..|path| - 1]);
      assert path == path[..|path| - 1] + [path[|path| - 1]];
    }
  }

  /** The base name of a non-empty path is made of its own characters and is its own base name. */
  lemma BaseFacts(path: string)
    requires path != ""
    ensures Base(path) != "" && Base(Base(path)) == Base(path)
    ensures forall c | c in Base(path) :: c in path
    ensures '/' !in path ==> Base(path) == path
  {
    StripKeepsRest(path);
    AfterSlashIsLastPart(StripSlashes(path));
    var last := AfterSlash(StripSlashes(path));
    if last == "" {
      assert StripSlashes(path) == "";
      assert path[|path| - 1] == '/';
      assert StripSlashes("/") == StripSlashes("/"[..0]) == "";
    } else {
      StripKeepsRest(last);
      AfterSlashIsLastPart(last);
    }
  }

  // ---------- the bracketed datastore ----------

  /** Where the first ']' at or after i is, unless the line ends before it. */
  function CloseBracket(path: string, i: nat): Option<nat>
    requires i <= |path|
    decreases |path| - i
  {
    if i == |path| || path[i] == '\n' then None
    else if path[i] == ']' then Some(i)
    else CloseBracket(path, i + 1)
  }

  /** Where the first '[' at or after i is that has its ']' on the same line. */
  function OpenBracket(path: string, i: nat): Option<nat>
    requires i <= |path|
    decreases |path| - i
  {
    if i == |path| then None
    else if path[i] == '[' && CloseBracket(path, i + 1).Some? then Some(i)
    else OpenBracket(path, i + 1)
  }

  lemma {:induction false} CloseBracketBounds(path: string, i: nat)
    requires i <= |path|
    ensures CloseBracket(path, i).Some? ==>
              var j := CloseBracket(path, i).value;
              i <= j < |path| && path[j] == ']' && forall k | i <= k < j :: path[k] != ']' && path[k] != '\n'
    decreases |path| - i
  {
    if i < |path| { CloseBracketBounds(path, i + 1); }
  }

  lemma {:induction false} CloseBracketAt(path: string, i: nat, j: nat)
    requires i <= j < |path| && path[j] == ']' && forall k | i <= k < j :: path[k] != ']' && path[k] != '\n'
    ensures CloseBracket(path, i) == Some(j)
    decreases |path| - i
  {
    if i < j { CloseBracketAt(path, i + 1, j); }
  }

  lemma {:induction false} OpenBracketBounds(path: string, i: nat)
    requires i <= |path|
    ensures OpenBracket(path, i).Some? ==>
              var k := OpenBracket(path, i).value;
              i <= k < |path| && path[k] == '[' && CloseBracket(path, k + 1).Some?
    decreases |path| - i
  {
    if i < |path| { OpenBracketBounds(path, i + 1); }
  }

  /** The source indexes the match without looking: a path without one is a crash. */
  predicate HasDatastore(path: string) {
    OpenBracket(path, 0).Some?
  }

  function DatastoreName(path: string): string
    requires HasDatastore(path)
  {
    OpenBracketBounds(path, 0);
    var i := OpenBracket(path, 0).value;
    CloseBracketBounds(path, i + 1);
    path[i + 1..CloseBracket(path, i + 1).value]
  }

  // ---------- strings.Replace with a count of one ----------

  predicate OccursAt(s: string, part: string, i: nat) {
    i + |part| <= |s| && s[i..i + |part|] == part
  }

  function FirstOccurrence(s: string, part: string, i: nat): Option<nat>
    requires i <= |s|
    decreases |s| - i
  {
    if OccursAt(s, part, i) then Some(i)
    else if i == |s| then None
    else FirstOccurrence(s, part, i + 1)
  }

  lemma {:induction false} FirstOccurrenceBounds(s: string, part: string, i: nat)
    requires i <= |s|
    ensures FirstOccurrence(s, part, i).Some? ==> OccursAt(s, part, FirstOccurrence(s, part, i).value)
    decreases |s| - i
  {
    if i < |s| { FirstOccurrenceBounds(s, part, i + 1); }
  }

  function ReplaceFirst(s: string, part: string, substitute: string): string {
    FirstOccurrenceBounds(s, part, 0);
    match FirstOccurrence(s, part, 0)
    case None => s
    case Some(i) => s[..i] + substitute + s[i + |part|..]
  }

  // ---------- RemoveStorageClusterORFolderNameFromVDiskPath ----------

  function Normalize(path: string): string
    requires HasDatastore(path)
  {
    var name := DatastoreName(path);
    if Base(name) != name then ReplaceFirst(path, name, Base(name)) else path
  }

  /** The form the vSphere interfaces speak: the datastore comes first. */
  predicate IsDatastorePath(path: string) {
    OpenBracket(path, 0) == Some(0)
  }

  lemma Bracketed(name: string, rest: string)
    requires ']' !in name && '\n' !in name
    ensures var p := "[" + name + "]" + rest;
            IsDatastorePath(p) && DatastoreName(p) == name
  {
    var p := "[" + name + "]" + rest;
    assert forall k | 1 <= k < 1 + |name| :: p[k] == name[k - 1];
    CloseBracketAt(p, 1, 1 + |name|);
  }

  lemma Unbracket(path: string) returns (name: string, rest: string)
    requires IsDatastorePath(path)
    ensures name == DatastoreName(path) && path == "[" + name + "]" + rest
    ensures ']' !in name && '\n' !in name
  {
    OpenBracketBounds(path, 0);
    CloseBracketBounds(path, 1);
    var j := CloseBracket(path, 1).value;
    name, rest := path[1..j], path[j + 1..];
  }

  /** A name with a slash cannot also start at the bracket: it would be brackets throughout. */
  lemma {:induction false} OccursAtBracket(name: string, rest: string, k: nat)
    requires OccursAt("[" + name + "]" + rest, name, 0) && k < |name|
    ensures name[k] == '['
    decreases k
  {
    var p := "[" + name + "]" + rest;
    assert name[k] == p[0..|name|][k] == p[k];
    if k > 0 {
      OccursAtBracket(name, rest, k - 1);
      assert p[k] == name[k - 1];
    }
  }

  lemma NameFirstOccursInBrackets(name: string, rest: string)
    requires '/' in name
    ensures FirstOccurrence("[" + name + "]" + rest, name, 0) == Some(1)
  {
    var p := "[" + name + "]" + rest;
    if OccursAt(p, name, 0) {
      var k :| 0 <= k < |name| && name[k] == '/';
      OccursAtBracket(name, rest, k);
      assert false;
    }
    assert p[1..1 + |name|] == name;
    assert FirstOccurrence(p, name, 0) == FirstOccurrence(p, name, 1);
  }

  lemma ReplaceInBrackets(name: string, rest: string, substitute: string)
    requires '/' in name
    ensures ReplaceFirst("[" + name + "]" + rest, name, substitute) == "[" + substitute + "]" + rest
  {
    NameFirstOccursInBrackets(name, rest);
    hide FirstOccurrence;
    var p := "[" + name + "]" + rest;
    assert p[..1] == "[" && p[1 + |name|..] == "]" + rest;
  }

  lemma NormalizeShape(name: string, rest: string)
    requires name != "" && ']' !in name && '\n' !in name
    ensures HasDatastore("[" + name + "]" + rest)
    ensures Normalize("[" + name + "]" + rest) == "[" + Base(name) + "]" + rest
  {
    Bracketed(name, rest);
    BaseFacts(name);
    if '/' in name {
      ReplaceInBrackets(name, rest, Base(name));
    }
    hide ReplaceFirst, Base, OpenBracket, CloseBracket, DatastoreName;
  }

  lemma EmptyNameDrifts(rest: string)
    ensures HasDatastore("[]" + rest) && Normalize("[]" + rest) == ".[]" + rest
    ensures HasDatastore(".[]" + rest) && Normalize(".[]" + rest) == "..[]" + rest
  {
    var p, q := "[]" + rest, ".[]" + rest;
    assert CloseBracket(p, 1) == Some(1) && CloseBracket(q, 2) == Some(2);
    assert OpenBracket(p, 0) == Some(0) && OpenBracket(q, 0) == OpenBracket(q, 1) == Some(1);
    assert DatastoreName(p) == "" && DatastoreName(q) == "";
    assert OccursAt(p, "", 0) && OccursAt(q, "", 0);
    assert p[..0] + "." + p[0..] == q;
    assert q[..0] + "." + q[0..] == "..[]" + rest;
  }

  /** For a path that begins with its datastore: exactly when the bracketed name is not empty. */
  lemma LeadingDatastoreIdempotent(path: string)
    requires IsDatastorePath(path)
    ensures HasDatastore(path) && HasDatastore(Normalize(path))
    ensures Normalize(Normalize(path)) == Normalize(path) <==> DatastoreName(path) != ""
    ensures DatastoreName(path) != "" ==>
              IsDatastorePath(Normalize(path)) && DatastoreName(Normalize(path)) == Base(DatastoreName(path))
  {
    var name, rest := Unbracket(path);
    if name == "" {
      assert path == "[]" + rest;
      EmptyNameDrifts(rest);
    } else {
      NormalizeShape(name, rest);
      BaseFacts(name);
      NormalizeShape(Base(name), rest);
      Bracketed(Base(name), rest);
    }
  }
}
