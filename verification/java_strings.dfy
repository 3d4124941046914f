/**
  The two pieces of `java.lang.String` behaviour the loader depends on:
  `trim()`, which strips every character at or below U+0020 from both ends,
  and `equalsIgnoreCase`, restricted here to ASCII letters.
 */
module JavaStrings {

  /** `String.trim` treats every char whose code is at most U+0020 as removable. */
  predicate IsTrimSpace(c: char) {
    c <= ' '
  }

  predicate AllTrimSpace(s: string) {
    forall k :: 0 <= k < |s| ==> IsTrimSpace(s[k])
  }

  /** A string that `trim` leaves alone: empty, or non-space at both ends. */
  predicate IsTrimmed(s: string) {
    |s| == 0 || (!IsTrimSpace(s[0]) && !IsTrimSpace(s[|s| - 1]))
  }

  /**
    Reference meaning of trimming, independent of how it is computed:
    `r` is a slice of `s` with nothing but trim-space outside it and no
    trim-space at its own ends.
   */
  ghost predicate IsTrimOf(s: string, r: string) {
    exists i, j :: 0 <= i <= j <= |s| && r == s[i..j] && IsTrimmed(r)
                   && AllTrimSpace(s[..i]) && AllTrimSpace(s[j..])
  }

  /** Drops leading trim-space. */
  function TrimStart(s: string): (r: string)
    ensures |r| <= |s|
  {
    if |s| > 0 && IsTrimSpace(s[0]) then TrimStart(s[1..]) else s
  }

  /** `TrimStart` keeps a suffix, drops only trim-space, and stops at a non-space char. */
  lemma {:induction false} TrimStartFacts(s: string)
    ensures var r := TrimStart(s);
            && r == s[|s| - |r|..]
            && AllTrimSpace(s[..|s| - |r|])
            && (|r| == 0 || !IsTrimSpace(r[0]))
  {
    if |s| > 0 && IsTrimSpace(s[0]) {
      TrimStartFacts(s[1..]);
      var r := TrimStart(s);
      assert s[1..][..|s| - 1 - |r|] == s[1..|s| - |r|];
    }
  }

  /** Drops trailing trim-space. */
  function TrimEnd(s: string): (r: string)
    ensures |r| <= |s|
  {
    if |s| > 0 && IsTrimSpace(s[|s| - 1]) then TrimEnd(s[..|s| - 1]) else s
  }

  /** `TrimEnd` keeps a prefix, drops only trim-space, and stops at a non-space char. */
  lemma {:induction false} TrimEndFacts(s: string)
    ensures var r := TrimEnd(s);
            && r == s[..|r|]
            && AllTrimSpace(s[|r|..])
            && (|r| == 0 || !IsTrimSpace(r[|r| - 1]))
  {
    if |s| > 0 && IsTrimSpace(s[|s| - 1]) {
      TrimEndFacts(s[..|s| - 1]);
      var r := TrimEnd(s);
      assert s[..|s| - 1][|r|..] == s[|r|..|s| - 1];
    }
  }

  /** Java's `String.trim()`. */
  function Trim(s: string): (r: string)
    ensures IsTrimmed(r)
    ensures |r| <= |s|
  {
    TrimStartFacts(s);
    TrimEndFacts(TrimStart(s));
    TrimEnd(TrimStart(s))
  }

  /** `Trim` meets the reference meaning of trimming. */
  lemma TrimMeaning(s: string)
    ensures IsTrimOf(s, Trim(s))
  {
    var t := TrimStart(s);
    var r := TrimEnd(t);
    TrimStartFacts(s);
    TrimEndFacts(t);
    var i := |s| - |t|;
    var j := i + |r|;
    assert r == s[i..j] by {
      assert t == s[i..];
      assert r == t[..|r|];
    }
    assert AllTrimSpace(s[j..]) by {
      assert s[j..] == t[|r|..];
    }
    if |r| > 0 {
      assert r[0] == t[0];
    }
  }

  /** What a slice meeting the reference meaning says about the chars of `s`. */
  lemma TrimSliceFacts(s: string, r: string, i: int, j: int)
    requires 0 <= i <= j <= |s| && r == s[i..j] && IsTrimmed(r)
    requires AllTrimSpace(s[..i]) && AllTrimSpace(s[j..])
    ensures forall k :: 0 <= k < i ==> IsTrimSpace(s[k])
    ensures forall k :: j <= k < |s| ==> IsTrimSpace(s[k])
    ensures r == [] <==> AllTrimSpace(s)
    ensures r != [] ==> !IsTrimSpace(s[i]) && !IsTrimSpace(s[j - 1])
  {
    forall k | 0 <= k < i ensures IsTrimSpace(s[k]) {
      assert s[..i][k] == s[k];
    }
    forall k | j <= k < |s| ensures IsTrimSpace(s[k]) {
      assert s[j..][k - j] == s[k];
    }
    if r != [] {
      assert s[i] == r[0] && s[j - 1] == r[|r| - 1];
    }
  }

  /** The trimmed slice is unique: at most one string meets the reference meaning. */
  lemma TrimOfIsUnique(s: string, r: string, r': string)
    requires IsTrimOf(s, r) && IsTrimOf(s, r')
    ensures r == r'
  {
    var i, j :| 0 <= i <= j <= |s| && r == s[i..j] && IsTrimmed(r)
                && AllTrimSpace(s[..i]) && AllTrimSpace(s[j..]);
    var i', j' :| 0 <= i' <= j' <= |s| && r' == s[i'..j'] && IsTrimmed(r')
                  && AllTrimSpace(s[..i']) && AllTrimSpace(s[j'..]);
    TrimSliceFacts(s, r, i, j);
    TrimSliceFacts(s, r', i', j');
  }

  /** Trimming an already-trimmed string changes nothing. */
  lemma TrimKeepsTrimmed(s: string)
    requires IsTrimmed(s)
    ensures Trim(s) == s
  {
    assert IsTrimOf(s, s) by {
      assert s == s[0..|s|];
      assert s[..0] == [] && s[|s|..] == [];
    }
    TrimMeaning(s);
    TrimOfIsUnique(s, s, Trim(s));
  }

  /** `trim()` is idempotent, so a second `trim()` on its result is a no-op. */
  lemma TrimIdempotent(s: string)
    ensures Trim(Trim(s)) == Trim(s)
  {
    TrimKeepsTrimmed(Trim(s));
  }

  /** Trimming yields the empty string exactly for strings made only of trim-space. */
  lemma TrimEmptyIff(s: string)
    ensures Trim(s) == "" <==> AllTrimSpace(s)
  {
    var r := Trim(s);
    TrimMeaning(s);
    var i, j :| 0 <= i <= j <= |s| && r == s[i..j] && IsTrimmed(r)
                && AllTrimSpace(s[..i]) && AllTrimSpace(s[j..]);
    TrimSliceFacts(s, r, i, j);
  }

  /** ASCII upper-casing; every other char is left as it is. */
  function ToUpperAscii(c: char): char {
    if 'a' <= c <= 'z' then (c as int - 32) as char else c
  }

  /** `String.equalsIgnoreCase`, with case folding restricted to ASCII letters. */
  predicate EqualsIgnoreCase(a: string, b: string) {
    |a| == |b| && forall i :: 0 <= i < |a| ==> ToUpperAscii(a[i]) == ToUpperAscii(b[i])
  }

  /** Java's `String.valueOf(boolean)`. */
  function BoolText(b: bool): (r: string)
    ensures r == "true" <==> b
    ensures r == "false" <==> !b
  {
    if b then "true" else "false"
  }
}
