/** ASCII case folding, shared by the modules that compare or parse names. */
module Strings {
  function LowerChar(c: char): char {
    if 'A' <= c <= 'Z' then c + ('a' - 'A') else c
  }

  function ToLower(s: string): string {
    seq(|s|, i requires 0 <= i < |s| => LowerChar(s[i]))
  }

  /** The same character, or one letter in its two cases, which are 32 apart. */
  predicate SameLetter(c: char, d: char) {
    || c == d
    || ('A' <= c <= 'Z' && d as int == c as int + 32)
    || ('A' <= d <= 'Z' && c as int == d as int + 32)
  }

  /** One string in two spellings that differ in case only. */
  predicate Spells(a: string, b: string) {
    |a| == |b| && forall i | 0 <= i < |a| :: SameLetter(a[i], b[i])
  }

  predicate IsLower(s: string) {
    forall i | 0 <= i < |s| :: !('A' <= s[i] <= 'Z')
  }

  /** Folding gives the one spelling without capitals, so it identifies exactly the spellings of one string. */
  lemma FoldsExactly(a: string, b: string)
    ensures Spells(ToLower(a), a) && IsLower(ToLower(a))
    ensures IsLower(b) && Spells(a, b) ==> ToLower(a) == b
    ensures ToLower(a) == ToLower(b) <==> Spells(a, b)
  {
    if Spells(a, b) {
      forall i | 0 <= i < |a| ensures LowerChar(a[i]) == LowerChar(b[i]) {}
      assert ToLower(a) == ToLower(b);
    }
    if ToLower(a) == ToLower(b) {
      forall i | 0 <= i < |a| ensures SameLetter(a[i], b[i]) { assert ToLower(a)[i] == ToLower(b)[i]; }
    }
    if IsLower(b) { assert ToLower(b) == b; }
  }

  /** The part stands in s from position k on. */
  predicate StandsAt(s: string, part: string, k: nat) {
    k <= |s| && part <= s[k..]
  }

  predicate EndsWith(s: string, end: string) {
    |end| <= |s| && StandsAt(s, end, |s| - |end|)
  }

  predicate Contains(s: string, part: string) {
    exists k: nat | k <= |s| :: StandsAt(s, part, k)
  }
}
