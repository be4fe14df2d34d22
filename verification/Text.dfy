/** Blankness of byte strings, as strings.TrimSpace sees it. */
module Text {

  /** The length of the UTF-8 encoded white-space character s starts with, or 0.  The characters are
      U+0009-000D, U+0020, U+0085, U+00A0, U+1680, U+2000-200A, U+2028, U+2029, U+202F, U+205F, U+3000. */
  function SpaceAt(s: string): (n: nat)
    ensures n <= |s|
  {
    if |s| == 0 then 0
    else if 9 as char <= s[0] <= 13 as char || s[0] == ' ' then 1
    else if |s| >= 2 && s[0] == 0xC2 as char && (s[1] == 0x85 as char || s[1] == 0xA0 as char) then 2
    else if |s| >= 3 && WideSpace(s[0] as int, s[1] as int, s[2] as int) then 3
    else 0
  }

  predicate WideSpace(a: int, b: int, c: int) {
    || (a == 0xE1 && b == 0x9A && c == 0x80)
    || (a == 0xE2 && b == 0x80 && (0x80 <= c <= 0x8A || c in {0xA8, 0xA9, 0xAF}))
    || (a == 0xE2 && b == 0x81 && c == 0x9F)
    || (a == 0xE3 && b == 0x80 && c == 0x80)
  }

  /** strings.TrimSpace(s) == "" */
  predicate Blank(s: string)
    decreases |s|
  {
    |s| == 0 || (SpaceAt(s) > 0 && Blank(s[SpaceAt(s)..]))
  }

  predicate EndsInSpace(s: string) {
    exists i :: 0 <= i < |s| && |s| - 3 <= i && SpaceAt(s[i..]) == |s| - i
  }

  /** strings.TrimSpace(s) == s */
  predicate Trimmed(s: string) {
    SpaceAt(s) == 0 && !EndsInSpace(s)
  }

  // ---------------------------------------------------------------- against a list of the characters

  /** The white-space characters, in UTF-8. */
  const SPACES: set<string> := {
    "\t", "\n", "\U{B}", "\U{C}", "\r", " ", "\U{C2}\U{85}", "\U{C2}\U{A0}", "\U{E1}\U{9A}\U{80}",
    "\U{E2}\U{80}\U{80}", "\U{E2}\U{80}\U{81}", "\U{E2}\U{80}\U{82}", "\U{E2}\U{80}\U{83}",
    "\U{E2}\U{80}\U{84}", "\U{E2}\U{80}\U{85}", "\U{E2}\U{80}\U{86}", "\U{E2}\U{80}\U{87}",
    "\U{E2}\U{80}\U{88}", "\U{E2}\U{80}\U{89}", "\U{E2}\U{80}\U{8A}", "\U{E2}\U{80}\U{A8}",
    "\U{E2}\U{80}\U{A9}", "\U{E2}\U{80}\U{AF}", "\U{E2}\U{81}\U{9F}", "\U{E3}\U{80}\U{80}"}

  lemma NarrowListed(s: string)
    requires 0 < SpaceAt(s) <= 2
    ensures s[..SpaceAt(s)] in SPACES
  {
    assert s[..1] == [s[0]];
    if SpaceAt(s) == 2 { assert s[..2] == [s[0], s[1]]; }
  }

  lemma WideListed(a: char, b: char, c: char)
    requires WideSpace(a as int, b as int, c as int)
    ensures [a, b, c] in SPACES
  {
  }

  lemma ListedFound(s: string, w: string)
    requires w in SPACES && w <= s
    ensures 0 < |w| <= 3 && SpaceAt(s) == |w|
  {
    assert forall i :: 0 <= i < |w| ==> s[i] == w[i];
  }

  /** SpaceAt finds the strings of `spaces` at the start of a string, and no others. */
  ghost predicate Finds(spaces: set<string>) {
    && (forall s :: SpaceAt(s) > 0 ==> s[..SpaceAt(s)] in spaces)
    && (forall s, w :: w in spaces && w <= s ==> |w| > 0 && SpaceAt(s) == |w|)
  }

  lemma FindsSpaces()
    ensures Finds(SPACES)
  {
    forall s | SpaceAt(s) > 0 ensures s[..SpaceAt(s)] in SPACES {
      if SpaceAt(s) < 3 {
        NarrowListed(s);
      } else {
        assert s[..3] == [s[0], s[1], s[2]];
        WideListed(s[0], s[1], s[2]);
      }
    }
    forall s, w | w in SPACES && w <= s ensures |w| > 0 && SpaceAt(s) == |w| { ListedFound(s, w); }
  }

  /** s is written with strings of `spaces` alone. */
  ghost predicate AllSpaces(spaces: set<string>, parts: seq<string>, s: string) {
    if |parts| == 0 then s == ""
    else parts[0] in spaces && parts[0] <= s && AllSpaces(spaces, parts[1..], s[|parts[0]|..])
  }

  ghost predicate WrittenWith(spaces: set<string>, s: string) {
    exists parts :: AllSpaces(spaces, parts, s)
  }

  lemma {:induction false} BlankParts(spaces: set<string>, s: string) returns (parts: seq<string>)
    requires Finds(spaces) && Blank(s)
    ensures AllSpaces(spaces, parts, s)
    decreases |s|
  {
    parts := [];
    if s != "" {
      var n := SpaceAt(s);
      var rest := BlankParts(spaces, s[n..]);
      parts := [s[..n]] + rest;
      assert parts[1..] == rest;
    }
  }

  lemma {:induction false} PartsBlank(spaces: set<string>, parts: seq<string>, s: string)
    requires Finds(spaces) && AllSpaces(spaces, parts, s)
    ensures Blank(s)
    decreases |parts|
  {
    if |parts| > 0 {
      PartsBlank(spaces, parts[1..], s[|parts[0]|..]);
    }
  }

  /** Blank strings are the sequences of white-space characters. */
  lemma BlankExact(s: string)
    ensures Blank(s) <==> WrittenWith(SPACES, s)
  {
    FindsSpaces();
    BlankOver(SPACES, s);
  }

  lemma BlankOver(spaces: set<string>, s: string)
    requires Finds(spaces)
    ensures Blank(s) <==> WrittenWith(spaces, s)
  {
    if Blank(s) {
      var parts := BlankParts(spaces, s);
      assert AllSpaces(spaces, parts, s);
    } else {
      forall parts ensures !AllSpaces(spaces, parts, s) {
        if AllSpaces(spaces, parts, s) { PartsBlank(spaces, parts, s); }
      }
    }
  }

  /** Trimmed strings neither start nor end with one. */
  lemma TrimmedExact(s: string)
    ensures Trimmed(s) <==> forall w :: w in SPACES ==> !(w <= s) && !EndsWith(s, w)
  {
    FindsSpaces();
    forall w | w in SPACES ensures |w| <= 3 { ListedFound(w, w); }
    TrimmedOver(SPACES, s);
  }

  predicate EndsWith(s: string, w: string) {
    |w| <= |s| && s[|s| - |w|..] == w
  }

  lemma TrimmedOver(spaces: set<string>, s: string)
    requires Finds(spaces) && forall w :: w in spaces ==> |w| <= 3
    ensures Trimmed(s) <==> forall w :: w in spaces ==> !(w <= s) && !EndsWith(s, w)
  {
    if SpaceAt(s) > 0 {
      assert s[..SpaceAt(s)] in spaces;
    }
    if EndsInSpace(s) {
      var i :| 0 <= i < |s| && |s| - 3 <= i && SpaceAt(s[i..]) == |s| - i;
      SpaceFound(spaces, s[i..]);
      assert EndsWith(s, s[i..]);
    }
    if w :| w in spaces && EndsWith(s, w) {
      var i := |s| - |w|;
      assert w <= s[i..];
      assert SpaceAt(s[i..]) == |s| - i;
    }
  }

  lemma SpaceFound(spaces: set<string>, t: string)
    requires Finds(spaces) && SpaceAt(t) == |t| > 0
    ensures t in spaces
  {
    assert t[..SpaceAt(t)] == t;
  }

  lemma TrimmedNotBlank(s: string)
    requires s != "" && Trimmed(s)
    ensures !Blank(s)
  {
  }
}
