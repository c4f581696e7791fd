/**
 Normalising any path, not only one that begins with its datastore: what is replaced, that the
 datastore is never lost, and exactly when normalising twice is normalising once.
 */
module DiskPathRewriting {
  import opened Wrappers
  import opened DiskPath

  // ---------- paths with text before the bracket ----------

  /** The bracket opened at a is closed at c, on the same line. */
  ghost predicate Brackets(p: string, a: nat, c: nat) {
    a < c < |p| && p[a] == '[' && p[c] == ']' && forall k | a < k < c :: p[k] != '\n'
  }

  lemma {:induction false} CloseBracketExists(p: string, i: nat, c: nat)
    requires i <= c < |p| && p[c] == ']' && forall k | i <= k < c :: p[k] != '\n'
    ensures CloseBracket(p, i).Some?
    decreases c - i
  {
    if i < c { CloseBracketExists(p, i + 1, c); }
  }

  /** The datastore's bracket is the first one that is closed on its line. */
  lemma {:induction false} OpenBracketIsFirst(p: string, i: nat, a: nat, c: nat)
    requires i <= a && Brackets(p, a, c)
    ensures OpenBracket(p, i).Some? && i <= OpenBracket(p, i).value <= a
    decreases a - i
  {
    CloseBracketExists(p, a + 1, c);
    if i < a { OpenBracketIsFirst(p, i + 1, a, c); }
  }

  /** The name stands in brackets at o. */
  ghost predicate Cut(p: string, o: nat, name: string) {
    && o + 1 + |name| < |p| && p[o] == '[' && p[o + 1 + |name|] == ']'
    && (forall k | 0 <= k < |name| :: p[o + 1 + k] == name[k])
    && ']' !in name && '\n' !in name
  }

  /** Nothing before o opens a bracket that is closed on its line. */
  ghost predicate OpensFirst(p: string, o: nat) {
    forall a: nat, c: nat | Brackets(p, a, c) :: o <= a
  }

  lemma CutBrackets(p: string, o: nat, name: string)
    requires Cut(p, o, name)
    ensures Brackets(p, o, o + 1 + |name|)
  {
    forall k | o < k < o + 1 + |name| ensures p[k] != '\n' {
      assert p[k] == p[o + 1 + (k - o - 1)] == name[k - o - 1];
    }
  }

  /** The datastore of a path, and where it stands. */
  lemma Locate(p: string) returns (o: nat, name: string)
    requires HasDatastore(p)
    ensures OpenBracket(p, 0) == Some(o) && DatastoreName(p) == name
    ensures Cut(p, o, name) && OpensFirst(p, o)
  {
    OpenBracketBounds(p, 0);
    o := OpenBracket(p, 0).value;
    CloseBracketBounds(p, o + 1);
    name := DatastoreName(p);
    forall a: nat, c: nat | Brackets(p, a, c) ensures o <= a {
      OpenBracketIsFirst(p, 0, a, c);
    }
  }

  lemma LocatedAt(p: string, o: nat, name: string)
    requires Cut(p, o, name) && OpensFirst(p, o)
    ensures OpenBracket(p, 0) == Some(o) && DatastoreName(p) == name
  {
    CutBrackets(p, o, name);
    OpenBracketIsFirst(p, 0, o, o + 1 + |name|);
    OpenBracketBounds(p, 0);
    var at := OpenBracket(p, 0).value;
    CloseBracketBounds(p, at + 1);
    assert Brackets(p, at, CloseBracket(p, at + 1).value);
    NameIsBracketed(p, o, name);
  }

  lemma NameIsBracketed(p: string, o: nat, name: string)
    requires Cut(p, o, name) && OpenBracket(p, 0) == Some(o)
    ensures HasDatastore(p) && DatastoreName(p) == name
  {
    forall k | o + 1 <= k < o + 1 + |name| ensures p[k] != ']' && p[k] != '\n' {
      assert p[k] == p[o + 1 + (k - o - 1)] == name[k - o - 1];
    }
    CloseBracketAt(p, o + 1, o + 1 + |name|);
    assert p[o + 1..o + 1 + |name|] == name;
  }

  lemma {:induction false} FirstOccurrenceIsFirst(s: string, part: string, i: nat, at: nat)
    requires i <= at <= |s| && OccursAt(s, part, at)
    ensures FirstOccurrence(s, part, i).Some? && i <= FirstOccurrence(s, part, i).value <= at
    ensures OccursAt(s, part, FirstOccurrence(s, part, i).value)
    decreases at - i
  {
    if !OccursAt(s, part, i) { FirstOccurrenceIsFirst(s, part, i + 1, at); }
  }

  /** n characters at i give way to b. */
  function Spliced(p: string, i: nat, n: nat, b: string): string
    requires i + n <= |p|
  {
    p[..i] + b + p[i + n..]
  }

  lemma BaseCharacters(name: string)
    requires ']' !in name && '\n' !in name
    ensures ']' !in Base(name) && '\n' !in Base(name)
  {
    if name != "" { BaseFacts(name); }
  }

  /** Where the name is replaced, and by what. */
  lemma Rewrite(p: string) returns (o: nat, name: string, i: nat)
    requires HasDatastore(p)
    ensures OpenBracket(p, 0) == Some(o) && DatastoreName(p) == name && Cut(p, o, name) && OpensFirst(p, o)
    ensures FirstOccurrence(p, name, 0) == Some(i) && i <= o + 1 && OccursAt(p, name, i) && i + |name| <= |p|
    ensures Normalize(p) == if Base(name) == name then p else Spliced(p, i, |name|, Base(name))
    ensures ']' !in Base(name) && '\n' !in Base(name)
  {
    o, name := Locate(p);
    BaseCharacters(name);
    hide OpenBracket, CloseBracket, FirstOccurrence, Base, DatastoreName, OpensFirst;
    assert p[o + 1..o + 1 + |name|] == name;
    FirstOccurrenceIsFirst(p, name, 0, o + 1);
    i := FirstOccurrence(p, name, 0).value;
  }

  ghost predicate Periodic(word: string, n: nat) {
    forall j | 0 <= j && j + n < |word| :: word[j + n] == word[j]
  }

  /** A character of a word with period n occurs in its last n characters. */
  lemma {:induction false} PeriodicEnd(word: string, n: nat, r: nat) returns (last: nat)
    requires 0 < n && r < |word| && Periodic(word, n)
    ensures r <= last < |word| && |word| <= last + n && word[last] == word[r]
    decreases |word| - r
  {
    last := r;
    if r + n < |word| {
      last := PeriodicEnd(word, n, r + n);
    }
  }

  /** An occurrence of the name that runs over its own opening bracket repeats itself. */
  lemma OverlapIsPeriodic(p: string, o: nat, name: string, i: nat)
    requires Cut(p, o, name) && OccursAt(p, name, i) && i <= o < i + |name|
    ensures var n := o + 1 - i;
            0 < n <= |name| && name[n - 1] == '[' && Periodic(name, n)
  {
    var n := o + 1 - i;
    assert forall k | 0 <= k < |name| :: name[k] == p[i..i + |name|][k] == p[i + k];
    forall j | 0 <= j && j + n < |name| ensures name[j + n] == name[j] {
      assert name[j + n] == p[i + (j + n)] == p[o + 1 + j];
    }
    assert name[n - 1] == p[i + (n - 1)];
  }

  /** The character at k of a spliced path. */
  lemma SplicedAt(p: string, i: nat, n: nat, b: string, k: nat)
    requires i + n <= |p| && k + n < |p| + |b|
    ensures |Spliced(p, i, n, b)| == |p| - n + |b|
    ensures Spliced(p, i, n, b)[k] == if k < i then p[k] else if k < i + |b| then b[k - i] else p[k - |b| + n]
  {
  }

  /** Where the name is replaced in its brackets, these stay. */
  lemma SplicedInside(p: string, o: nat, name: string, b: string)
    requires Cut(p, o, name) && ']' !in b && '\n' !in b
    ensures Cut(Spliced(p, o + 1, |name|, b), o, b)
  {
    hide Spliced;
    SplicedAt(p, o + 1, |name|, b, o);
    SplicedAt(p, o + 1, |name|, b, o + 1 + |b|);
    forall k | 0 <= k < |b| ensures Spliced(p, o + 1, |name|, b)[o + 1 + k] == b[k] {
      SplicedAt(p, o + 1, |name|, b, o + 1 + k);
    }
  }

  /** Where the name is replaced before its brackets, these move. */
  lemma SplicedBefore(p: string, o: nat, name: string, i: nat, b: string)
    requires Cut(p, o, name) && i + |name| <= o
    ensures Cut(Spliced(p, i, |name|, b), o - |name| + |b|, name)
  {
    hide Spliced;
    var at := o - |name| + |b|;
    SplicedAt(p, i, |name|, b, at);
    SplicedAt(p, i, |name|, b, at + 1 + |name|);
    forall k | 0 <= k < |name| ensures Spliced(p, i, |name|, b)[at + 1 + k] == name[k] {
      SplicedAt(p, i, |name|, b, at + 1 + k);
      assert p[o + 1 + k] == name[k];
    }
  }

  /** Where it is replaced across its opening bracket, an earlier one that it holds takes over. */
  lemma SplicedAcross(p: string, o: nat, name: string, i: nat, b: string) returns (a: nat)
    requires Cut(p, o, name) && OccursAt(p, name, i) && i <= o < i + |name|
    ensures Brackets(Spliced(p, i, |name|, b), a, o + 1 + |b|)
  {
    hide Spliced, Periodic;
    OverlapIsPeriodic(p, o, name, i);
    var r := PeriodicEnd(name, o + 1 - i, o - i);
    a := o + 1 + r + |b| - |name|;
    SplicedAt(p, i, |name|, b, a);
    SplicedAt(p, i, |name|, b, o + 1 + |b|);
    assert p[o + 1 + r] == name[r];
    forall k | a < k < o + 1 + |b| ensures Spliced(p, i, |name|, b)[k] != '\n' {
      SplicedAt(p, i, |name|, b, k);
      var j := k + |name| - |b| - o - 1;
      assert p[o + 1 + j] == name[j];
    }
  }

  lemma StillBracketed(p: string, o: nat, name: string, i: nat, b: string) returns (a: nat)
    requires Cut(p, o, name) && i <= o + 1 && OccursAt(p, name, i) && ']' !in b && '\n' !in b
    ensures Brackets(Spliced(p, i, |name|, b), a, o + 1 + |b|)
  {
    hide Cut, Brackets, Spliced;
    if i == o + 1 {
      SplicedInside(p, o, name, b);
      CutBrackets(Spliced(p, i, |name|, b), o, b);
      a := o;
    } else if i + |name| <= o {
      SplicedBefore(p, o, name, i, b);
      a := o - |name| + |b|;
      CutBrackets(Spliced(p, i, |name|, b), a, name);
    } else {
      a := SplicedAcross(p, o, name, i, b);
    }
  }

  /** Normalising never loses the bracketed datastore. */
  lemma NormalizeKeepsDatastore(p: string)
    requires HasDatastore(p)
    ensures HasDatastore(Normalize(p))
  {
    var o, name, i := Rewrite(p);
    hide OpenBracket, CloseBracket, FirstOccurrence, Base, Normalize, DatastoreName, Spliced, OpensFirst, Cut;
    if Base(name) != name {
      var a := StillBracketed(p, o, name, i, Base(name));
      OpenBracketIsFirst(Normalize(p), 0, a, o + 1 + |Base(name)|);
    }
  }

  // ---------- normalising twice, exactly ----------

  lemma SameSplice(q: string, i: nat, name: string, b: string)
    requires OccursAt(q, name, i) && Spliced(q, i, |name|, b) == q
    ensures b == name
  {
    assert |b| == |name|;
    hide Spliced;
    forall k | 0 <= k < |name| ensures b[k] == name[k] {
      SplicedAt(q, i, |name|, b, i + k);
      assert name[k] == q[i..i + |name|][k];
    }
  }

  /** A path stays as it is exactly when its datastore is its own base name. */
  lemma NormalizeChanges(q: string)
    requires HasDatastore(q)
    ensures Normalize(q) == q <==> Base(DatastoreName(q)) == DatastoreName(q)
  {
    var _, name, i := Rewrite(q);
    hide OpenBracket, CloseBracket, FirstOccurrence, Base, Normalize, DatastoreName, Cut, OpensFirst, Spliced;
    if Spliced(q, i, |name|, Base(name)) == q {
      SameSplice(q, i, name, Base(name));
    }
  }

  /** Only a single slash is its own base name although it holds one. */
  lemma SlashChanges(x: string)
    requires '/' in x && x != "/"
    ensures Base(x) != x
  {
    AfterSlashIsLastPart(StripSlashes(x));
  }

  /** A bracket that opens before the name's and is there after the splice was there before it. */
  lemma BracketBefore(p: string, o: nat, name: string, b: string, a: nat, c: nat) returns (c': nat)
    requires Cut(p, o, name) && Brackets(Spliced(p, o + 1, |name|, b), a, c) && a < o
    ensures Brackets(p, a, c')
  {
    forall k | a <= k <= o ensures Spliced(p, o + 1, |name|, b)[k] == p[k] {
      SplicedAt(p, o + 1, |name|, b, k);
    }
    hide Spliced;
    CutBrackets(p, o, name);
    c' := if c <= o then c else o + 1 + |name|;
  }

  lemma FirstStays(p: string, o: nat, name: string, b: string)
    requires Cut(p, o, name) && OpensFirst(p, o)
    ensures OpensFirst(Spliced(p, o + 1, |name|, b), o)
  {
    var q := Spliced(p, o + 1, |name|, b);
    hide Spliced, Brackets;
    forall a: nat, c: nat | Brackets(q, a, c) ensures o <= a {
      if a < o {
        var c' := BracketBefore(p, o, name, b, a, c);
        assert false;
      }
    }
  }

  /** The same for a name replaced further left. */
  lemma EarlierBracket(p: string, o: nat, name: string, i: nat, b: string, a: nat, c: nat)
    returns (from: nat, to: nat)
    requires Cut(p, o, name) && OccursAt(p, name, i) && i <= o
    requires ']' !in b && ('[' in b ==> '[' in name)
    requires Brackets(Spliced(p, i, |name|, b), a, c) && (a < i || (a < i + |b| && i + |name| <= o))
    ensures Brackets(p, from, to) && from < o
  {
    SplicedAt(p, i, |name|, b, a);
    SplicedAt(p, i, |name|, b, c);
    from := a;
    if a >= i {
      var k :| 0 <= k < |name| && name[k] == '[';
      from := i + k;
      assert p[from] == p[i..i + |name|][k];
    }
    to := if c < i then c else c - |b| + |name|;
    assert p[to] == ']' by { hide Brackets, OccursAt; assert i <= c ==> c >= i + |b|; }
    hide Spliced, Cut;
    forall k | from < k < to ensures p[k] != '\n' {
      NoBreak(p, name, i, b, a, c, k);
    }
  }

  lemma NoBreak(p: string, name: string, i: nat, b: string, a: nat, c: nat, k: nat)
    requires OccursAt(p, name, i) && '\n' !in name && Brackets(Spliced(p, i, |name|, b), a, c)
    requires if k < i then a < k < c else k >= i + |name| ==> a < k - |name| + |b| < c
    requires k < |p|
    ensures p[k] != '\n'
  {
    if k < i {
      SplicedAt(p, i, |name|, b, k);
    } else if k < i + |name| {
      assert p[k] == p[i..i + |name|][k - i] == name[k - i];
    } else {
      SplicedAt(p, i, |name|, b, k - |name| + |b|);
    }
  }

  /** A bracket that opens after the splice has moved with the rest of the path. */
  lemma LaterBracket(p: string, i: nat, n: nat, b: string, a: nat, c: nat)
    requires i + n <= |p| && Brackets(Spliced(p, i, n, b), a, c) && i + |b| <= a
    ensures Brackets(p, a - |b| + n, c - |b| + n)
  {
    SplicedAt(p, i, n, b, a);
    SplicedAt(p, i, n, b, c);
    forall k | a - |b| + n < k < c - |b| + n ensures p[k] != '\n' { SplicedAt(p, i, n, b, k - n + |b|); }
  }

  lemma FirstMoves(p: string, o: nat, name: string, i: nat, b: string)
    requires Cut(p, o, name) && OpensFirst(p, o) && OccursAt(p, name, i) && i + |name| <= o
    requires ']' !in b && ('[' in b ==> '[' in name)
    ensures OpensFirst(Spliced(p, i, |name|, b), o - |name| + |b|)
  {
    var q := Spliced(p, i, |name|, b);
    hide Spliced, Brackets, Cut, OccursAt;
    forall a: nat, c: nat | Brackets(q, a, c) ensures o - |name| + |b| <= a {
      if a < i + |b| {
        var from, to := EarlierBracket(p, o, name, i, b, a, c);
        assert false;
      } else {
        LaterBracket(p, i, |name|, b, a, c);
      }
    }
  }

  lemma {:induction false} StripSplits(x: string)
    ensures StripSlashes(x) <= x
    ensures forall k | |StripSlashes(x)| <= k < |x| :: x[k] == '/'
  {
    if x != "" && x[|x| - 1] == '/' { StripSplits(x[..|x| - 1]); }
  }

  lemma {:induction false} AfterSlashSplits(x: string)
    ensures |AfterSlash(x)| <= |x|
    ensures forall k | 0 <= k < |AfterSlash(x)| :: AfterSlash(x)[k] == x[|x| - |AfterSlash(x)| + k]
    ensures |AfterSlash(x)| < |x| ==> x[|x| - |AfterSlash(x)| - 1] == '/'
  {
    if x != "" && x[|x| - 1] != '/' {
      var front := x[..|x| - 1];
      AfterSlashSplits(front);
      assert AfterSlash(x) == AfterSlash(front) + [x[|x| - 1]];
    }
  }

  /**
   The name's base followed by its last n characters: what its first bracket opens still holds a
   slash, and more.
   */
  lemma OverlapKeepsSlash(name: string, n: nat, idx: nat)
    requires 0 < n <= |name| && name[n - 1] == '[' && Base(name) != name
    requires Periodic(name, n)
    requires var t := Base(name) + name[|name| - n..];
             idx < |t| && t[idx] == '[' && forall k | 0 <= k < idx :: t[k] != '['
    ensures var t := Base(name) + name[|name| - n..]; '/' in t[idx + 1..] && t[idx + 1..] != "/"
  {
    hide Periodic;
    var b, end := Base(name), name[|name| - n..];
    var t := b + end;
    BaseFacts(name);
    var s :| 0 <= s < |name| && name[s] == '/';
    var bracket := PeriodicEnd(name, n, n - 1);
    var slash := PeriodicEnd(name, n, s);
    assert end[bracket - (|name| - n)] == '[' && end[slash - (|name| - n)] == '/';
    if idx < |b| {
      assert t[idx + 1..][|b| + slash - (|name| - n) - idx - 1] == '/';
    } else {
      var r := |name| - n + idx - |b|;
      forall k | 0 <= k < |b| ensures b[k] != '[' { assert b[k] == t[k]; }
      assert name[r] == end[idx - |b|] == t[idx] == '[';
      var at := SlashAfterBracket(name, r);
      assert t[idx + 1..][at - r - 1] == t[idx + (at - r)] == end[idx - |b| + (at - r)] == name[at];
    }
  }

  /** A bracket that the base name has lost stands before the last slash but one character. */
  lemma SlashAfterBracket(name: string, r: nat) returns (at: nat)
    requires r < |name| && name[r] == '[' && '[' !in Base(name) && '/' in name
    ensures r < at && at + 1 < |name| && name[at] == '/'
  {
    var stripped, last := StripSlashes(name), Base(name);
    StripSplits(name);
    StripKeepsRest(name);
    AfterSlashSplits(stripped);
    AfterSlashIsLastPart(stripped);
    hide AfterSlash, StripSlashes;
    assert r < |stripped| && last == AfterSlash(stripped);
    hide Base;
    forall k | |stripped| - |last| <= k < |stripped| ensures stripped[k] != '[' {
      assert last[k - (|stripped| - |last|)] == stripped[k];
    }
    at := |stripped| - |last| - 1;
  }

  /** The characters from the splice to the closing bracket. */
  lemma AcrossCharacters(p: string, o: nat, name: string, i: nat, b: string)
    requires Cut(p, o, name) && OccursAt(p, name, i) && i <= o < i + |name|
    ensures var q, t := Spliced(p, i, |name|, b), b + name[|name| - (o + 1 - i)..];
            && i + |t| == o + 1 + |b| < |q| && q[i + |t|] == ']'
            && forall k | 0 <= k < |t| :: q[i + k] == t[k]
  {
    hide Spliced, OccursAt;
    var t := b + name[|name| - (o + 1 - i)..];
    SplicedAt(p, i, |name|, b, o + 1 + |b|);
    forall k | 0 <= k < |t| ensures Spliced(p, i, |name|, b)[i + k] == t[k] {
      SplicedAt(p, i, |name|, b, i + k);
      if |b| <= k {
        var j := k - |b| + |name| - (o + 1 - i);
        assert p[o + 1 + j] == name[j];
      }
    }
  }

  /** A word in brackets at i, with nothing opened before it, is the datastore from its first bracket on. */
  lemma InnerName(q: string, i: nat, t: string, a: nat, name: string)
    requires Cut(q, a, name) && OpensFirst(q, a) && i <= a < i + |t| && Reads(q, i, t)
    ensures name == t[a - i + 1..] && t[a - i] == '[' && forall k | 0 <= k < a - i :: t[k] != '['
  {
    assert q[i + (a - i)] == t[a - i];
    forall k | 0 <= k < a - i ensures t[k] != '[' {
      if t[k] == '[' {
        forall j | i + k < j < i + |t| ensures q[j] != '\n' { assert q[i + (j - i)] == t[j - i]; }
        assert q[i + k] == t[k];
        assert Brackets(q, i + k, i + |t|);
      }
    }
    CloseIsThere(q, i, t, a, name);
    forall k | 0 <= k < |name| ensures name[k] == t[a - i + 1 + k] {
      assert name[k] == q[a + 1 + k] == q[i + (a - i + 1 + k)];
    }
  }

  lemma CloseIsThere(q: string, i: nat, t: string, a: nat, name: string)
    requires Cut(q, a, name) && i <= a < i + |t| && Reads(q, i, t)
    ensures a + 1 + |name| == i + |t|
  {
    forall k | a < k < i + |t| ensures q[k] != ']' { assert q[i + (k - i)] == t[k - i]; }
    forall k | a < k < a + 1 + |name| ensures q[k] != ']' { assert q[a + 1 + (k - a - 1)] == name[k - a - 1]; }
    assert q[a + 1 + |name|] == ']';
  }

  ghost predicate Reads(q: string, i: nat, t: string) {
    i + |t| < |q| && q[i + |t|] == ']' && (forall k | 0 <= k < |t| :: q[i + k] == t[k]) && ']' !in t && '\n' !in t
  }

  lemma AcrossReads(p: string, o: nat, name: string, i: nat, b: string)
    requires Cut(p, o, name) && OccursAt(p, name, i) && i <= o < i + |name| && ']' !in b && '\n' !in b
    ensures var t := b + name[|name| - (o + 1 - i)..];
            i + |t| == o + 1 + |b| && Reads(Spliced(p, i, |name|, b), i, t)
  {
    AcrossCharacters(p, o, name, i, b);
    hide Spliced, OccursAt;
  }

  lemma AcrossChanges(p: string, o: nat, name: string, i: nat, b: string)
    requires Cut(p, o, name) && OpensFirst(p, o) && OccursAt(p, name, i) && i <= o < i + |name|
    requires b == Base(name) != name && ']' !in b && '\n' !in b && ('[' in b ==> '[' in name)
    requires HasDatastore(Spliced(p, i, |name|, b))
    ensures var inner := DatastoreName(Spliced(p, i, |name|, b)); Base(inner) != inner
  {
    assert i + |name| <= |p|;
    hide *;
    OverlapIsPeriodic(p, o, name, i);
    AcrossReads(p, o, name, i, b);
    var t := b + name[|name| - (o + 1 - i)..];
    var idx := AcrossInner(p, o, name, i, b, t);
    OverlapKeepsSlash(name, o + 1 - i, idx);
    SlashChanges(t[idx + 1..]);
  }

  /** The datastore of the spliced path is what the first bracket of the splice opens. */
  lemma AcrossInner(p: string, o: nat, name: string, i: nat, b: string, t: string) returns (idx: nat)
    requires Cut(p, o, name) && OpensFirst(p, o) && OccursAt(p, name, i) && i <= o < i + |name|
    requires ']' !in b && ('[' in b ==> '[' in name) && i + |t| == o + 1 + |b|
    requires Reads(Spliced(p, i, |name|, b), i, t) && HasDatastore(Spliced(p, i, |name|, b))
    ensures idx < |t| && DatastoreName(Spliced(p, i, |name|, b)) == t[idx + 1..]
    ensures t[idx] == '[' && forall k | 0 <= k < idx :: t[k] != '['
  {
    assert i + |name| <= |p|;
    hide *;
    var q := Spliced(p, i, |name|, b);
    var a, inner := Locate(q);
    var other := SplicedAcross(p, o, name, i, b);
    OpensBefore(q, a, other, o + 1 + |b|);
    OpensNoEarlier(p, o, name, i, b, a, inner);
    InnerName(q, i, t, a, inner);
    idx := a - i;
  }

  lemma OpensBefore(q: string, a: nat, other: nat, c: nat)
    requires OpensFirst(q, a) && Brackets(q, other, c)
    ensures a <= other < c
  {
  }

  lemma OpensNoEarlier(p: string, o: nat, name: string, i: nat, b: string, a: nat, inner: string)
    requires Cut(p, o, name) && OpensFirst(p, o) && OccursAt(p, name, i) && i <= o
    requires ']' !in b && ('[' in b ==> '[' in name)
    requires Cut(Spliced(p, i, |name|, b), a, inner)
    ensures i <= a
  {
    var q := Spliced(p, i, |name|, b);
    hide Cut, Spliced, OccursAt, Brackets;
    CutBrackets(q, a, inner);
    if a < i {
      var from, to := EarlierBracket(p, o, name, i, b, a, a + 1 + |inner|);
      assert false;
    }
  }

  /** The name stands nowhere in the path before its brackets. */
  predicate NameOnlyInBrackets(p: string)
    requires HasDatastore(p)
  {
    DatastoreName(p) != "" && FirstOccurrence(p, DatastoreName(p), 0) == Some(OpenBracket(p, 0).value + 1)
  }

  /**
   Normalising twice is normalising once exactly when there is nothing to normalise, or the name
   is not empty and stands first in its brackets.  The failure clean-up of AttachDisk, which
   normalises again, depends on it.
   */
  lemma NormalizeIdempotent(p: string)
    requires HasDatastore(p)
    ensures HasDatastore(Normalize(p))
    ensures Normalize(Normalize(p)) == Normalize(p) <==>
              Base(DatastoreName(p)) == DatastoreName(p) || NameOnlyInBrackets(p)
  {
    hide OpenBracket, CloseBracket, FirstOccurrence, Base, Normalize, DatastoreName, Cut, OpensFirst, Spliced, OccursAt;
    var o, name, i := Rewrite(p);
    FirstIsZero(p);
    NormalizeKeepsDatastore(p);
    NormalizeChanges(Normalize(p));
    assert NameOnlyInBrackets(p) <==> name != "" && i == o + 1;
    if Base(name) != name {
      RewrittenName(p, o, name, i);
    }
  }

  lemma FirstIsZero(p: string)
    ensures FirstOccurrence(p, "", 0) == Some(0)
  {
    assert OccursAt(p, "", 0);
  }

  lemma PlainBase(p: string, o: nat, name: string) returns (b: string)
    requires Cut(p, o, name)
    ensures b == Base(name) && ']' !in b && '\n' !in b && ('[' in b ==> '[' in name)
    ensures name != "" ==> Base(b) == b
  {
    b := Base(name);
    BaseCharacters(name);
    if name != "" { BaseFacts(name); }
  }

  /** The datastore of a path whose name has been replaced: its own base name only inside the brackets. */
  lemma RewrittenName(p: string, o: nat, name: string, i: nat)
    requires Cut(p, o, name) && OpensFirst(p, o) && OccursAt(p, name, i) && i <= o + 1 && i + |name| <= |p|
    requires (i == o + 1 ==> name != "") && Base(name) != name && HasDatastore(Spliced(p, i, |name|, Base(name)))
    ensures var inner := DatastoreName(Spliced(p, i, |name|, Base(name)));
            Base(inner) == inner <==> i == o + 1
  {
    hide *;
    var b := PlainBase(p, o, name);
    if i == o + 1 {
      InsideName(p, o, name, b);
    } else if i + |name| <= o {
      BeforeName(p, o, name, i, b);
    } else {
      AcrossChanges(p, o, name, i, b);
    }
  }

  lemma InsideName(p: string, o: nat, name: string, b: string)
    requires Cut(p, o, name) && OpensFirst(p, o) && ']' !in b && '\n' !in b
    requires HasDatastore(Spliced(p, o + 1, |name|, b))
    ensures DatastoreName(Spliced(p, o + 1, |name|, b)) == b
  {
    assert o + 1 + |name| <= |p|;
    hide *;
    SplicedInside(p, o, name, b);
    FirstStays(p, o, name, b);
    LocatedAt(Spliced(p, o + 1, |name|, b), o, b);
  }

  lemma BeforeName(p: string, o: nat, name: string, i: nat, b: string)
    requires Cut(p, o, name) && OpensFirst(p, o) && OccursAt(p, name, i) && i + |name| <= o
    requires ']' !in b && ('[' in b ==> '[' in name) && HasDatastore(Spliced(p, i, |name|, b))
    ensures DatastoreName(Spliced(p, i, |name|, b)) == name
  {
    assert i + |name| <= |p|;
    hide *;
    SplicedBefore(p, o, name, i, b);
    FirstMoves(p, o, name, i, b);
    LocatedAt(Spliced(p, i, |name|, b), o - |name| + |b|, name);
  }

  /** A name that also stands in front of its brackets is replaced there instead, again and again. */
  lemma NameInFrontDrifts()
    ensures var p := "a/b[a/b] x"; HasDatastore(p) && Normalize(p) == "b[a/b] x" && !NameOnlyInBrackets(p)
  {
    var p := "a/b[a/b] x";
    FrontName(p);
    assert OccursAt(p, "a/b", 0) by { assert p[0..3] == "a/b"; }
    assert FirstOccurrence(p, "a/b", 0) == Some(0);
    FrontBase();
    hide Base, OpenBracket, CloseBracket, FirstOccurrence, DatastoreName, OccursAt;
    assert p[..0] + "b" + p[3..] == "b[a/b] x";
  }

  lemma FrontName(p: string)
    requires p == "a/b[a/b] x"
    ensures OpenBracket(p, 0) == Some(3) && DatastoreName(p) == "a/b"
  {
    hide OpenBracket, CloseBracket, DatastoreName;
    assert Cut(p, 3, "a/b");
    forall a: nat, c: nat | Brackets(p, a, c) ensures 3 <= a {}
    LocatedAt(p, 3, "a/b");
  }

  lemma FrontBase()
    ensures Base("a/b") == "b"
  {
    var x := "a/b";
    AfterSlashSplits(x);
    AfterSlashIsLastPart(x);
    hide AfterSlash;
    assert StripSlashes(x) == x;
    var k := |AfterSlash(x)|;
    assert k > 1 ==> AfterSlash(x)[k - 2] == x[1];
    assert k > 0 && AfterSlash(x)[k - 1] == x[2];
  }
}
