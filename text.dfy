/** The few `str` operations the agent relies on, over ASCII text:
    `strip()`, `lower()`, `startswith()` and `rstrip(c)`. */
module Text {

  /** Python's `str.isspace` on ASCII: space, tab, line feed, vertical tab,
      form feed, carriage return and the four separators 0x1C-0x1F. */
  predicate IsSpace(c: char) {
    var n := c as int;
    n == 32 || (9 <= n <= 13) || (28 <= n <= 31)
  }

  predicate AllSpace(s: string) {
    forall k :: 0 <= k < |s| ==> IsSpace(s[k])
  }

  lemma AllSpaceConcat(x: string, y: string)
    requires AllSpace(x) && AllSpace(y)
    ensures AllSpace(x + y)
  {
    forall k | 0 <= k < |x + y| ensures IsSpace((x + y)[k]) {
      if k < |x| { assert (x + y)[k] == x[k]; } else { assert (x + y)[k] == y[k - |x|]; }
    }
  }

  /** Neither starts nor ends with whitespace: what `strip()` returns. */
  predicate Trimmed(s: string) {
    s == [] || (!IsSpace(s[0]) && !IsSpace(s[|s| - 1]))
  }

  /** The number of whitespace characters `s` starts with. */
  function LeadingSpaces(s: string): (n: nat)
    ensures n <= |s| && AllSpace(s[..n])
    ensures n < |s| ==> !IsSpace(s[n])
  {
    if s != [] && IsSpace(s[0]) then
      var m := LeadingSpaces(s[1..]);
      assert s[..1 + m] == [s[0]] + s[1..][..m];
      AllSpaceConcat([s[0]], s[1..][..m]);
      1 + m
    else 0
  }

  /** The number of whitespace characters `s` ends with. */
  function TrailingSpaces(s: string): (n: nat)
    ensures n <= |s| && AllSpace(s[|s| - n..])
    ensures n < |s| ==> !IsSpace(s[|s| - n - 1])
  {
    if s != [] && IsSpace(s[|s| - 1]) then
      var init := s[..|s| - 1];
      var m := TrailingSpaces(init);
      SuffixSplit(s, m);
      AllSpaceConcat(init[|init| - m..], [s[|s| - 1]]);
      1 + m
    else 0
  }

  lemma SuffixSplit(s: string, m: nat)
    requires m < |s|
    ensures s[|s| - (1 + m)..] == s[..|s| - 1][|s| - 1 - m..] + [s[|s| - 1]]
  {
  }

  /** A whitespace prefix followed by a non-space (or by nothing) is exactly
      what `LeadingSpaces` counts. */
  lemma {:induction false} LeadingSpacesExact(s: string, n: nat)
    requires n <= |s| && AllSpace(s[..n])
    requires n < |s| ==> !IsSpace(s[n])
    ensures LeadingSpaces(s) == n
  {
    if n > 0 {
      assert s[..n][0] == s[0];
      assert s[1..][..n - 1] == s[..n][1..];
      LeadingSpacesExact(s[1..], n - 1);
    }
  }

  /** The mirror image of `LeadingSpacesExact`. */
  lemma {:induction false} TrailingSpacesExact(s: string, n: nat)
    requires n <= |s| && AllSpace(s[|s| - n..])
    requires n < |s| ==> !IsSpace(s[|s| - n - 1])
    ensures TrailingSpaces(s) == n
  {
    if n > 0 {
      var init := s[..|s| - 1];
      var tail := s[|s| - n..];
      assert tail[n - 1] == s[|s| - 1];
      var tail' := init[|init| - (n - 1)..];
      assert tail' == tail[..n - 1];
      assert AllSpace(tail') by {
        forall k | 0 <= k < n - 1 ensures IsSpace(tail'[k]) { assert tail'[k] == tail[k]; }
      }
      if n < |s| { assert init[|init| - (n - 1) - 1] == s[|s| - n - 1]; }
      TrailingSpacesExact(init, n - 1);
    }
  }

  /** Python's `str.strip()` with no argument, for ASCII whitespace. */
  function Strip(s: string): (r: string)
    ensures |r| <= |s|
    ensures Trimmed(r)
  {
    var t := s[LeadingSpaces(s)..];
    t[..|t| - TrailingSpaces(t)]
  }

  /** Whatever `a` and `b` are, as long as they are whitespace, stripping `a + m + b`
      gives back `m` when `m` neither starts nor ends with whitespace. */
  lemma StripUnique(a: string, m: string, b: string)
    requires AllSpace(a) && AllSpace(b)
    requires Trimmed(m)
    ensures Strip(a + m + b) == m
  {
    var s := a + m + b;
    if m == [] {
      assert s == a + b;
      AllSpaceConcat(a, b);
      assert s[..|s|] == s;
      LeadingSpacesExact(s, |s|);
    } else {
      assert s[..|a|] == a;
      assert s[|a|] == m[0];
      LeadingSpacesExact(s, |a|);
      var t := s[|a|..];
      assert t == m + b;
      assert t[|t| - |b|..] == b;
      assert t[|t| - |b| - 1] == m[|m| - 1];
      TrailingSpacesExact(t, |b|);
      assert t[..|t| - |b|] == m;
    }
  }

  /** Every string is its stripped form with whitespace on either side. */
  lemma StripParts(s: string) returns (a: string, b: string)
    ensures AllSpace(a) && AllSpace(b)
    ensures s == a + Strip(s) + b
  {
    var lead := LeadingSpaces(s);
    var t := s[lead..];
    var trail := TrailingSpaces(t);
    var m := t[..|t| - trail];
    a, b := s[..lead], t[|t| - trail..];
    Rejoin(s, lead, |t| - trail);
  }

  /** Cutting `s` at `n` and its tail again at `k` loses nothing. */
  lemma Rejoin(s: string, n: nat, k: nat)
    requires n <= |s| && k <= |s| - n
    ensures s == s[..n] + s[n..][..k] + s[n..][k..]
  {
    assert s[n..] == s[n..][..k] + s[n..][k..];
  }

  /** Surrounding whitespace never changes what `strip()` returns. */
  lemma StripIgnoresPadding(w1: string, v: string, w2: string)
    requires AllSpace(w1) && AllSpace(w2)
    ensures Strip(w1 + v + w2) == Strip(v)
  {
    var a, b := StripParts(v);
    var m := Strip(v);
    AllSpaceConcat(w1, a);
    AllSpaceConcat(b, w2);
    Regroup(w1, a, m, b, w2);
    StripUnique(w1 + a, m, b + w2);
  }

  lemma Regroup(w1: string, a: string, m: string, b: string, w2: string)
    ensures w1 + (a + m + b) + w2 == (w1 + a) + m + (b + w2)
  {
  }

  /** Python's `str.lower()` on one ASCII character. */
  function LowerChar(c: char): char {
    if 'A' <= c <= 'Z' then (c as int + 32) as char else c
  }

  /** Python's `str.lower()`, for ASCII letters. */
  function LowerAscii(s: string): (r: string)
    ensures |r| == |s|
    ensures forall k :: 0 <= k < |s| ==> r[k] == LowerChar(s[k])
  {
    if s == [] then [] else [LowerChar(s[0])] + LowerAscii(s[1..])
  }

  /** No upper-case ASCII letter survives lowering, so lowering twice changes nothing. */
  lemma LowerAsciiIdempotent(s: string)
    ensures forall k :: 0 <= k < |s| ==> !('A' <= LowerAscii(s)[k] <= 'Z')
    ensures LowerAscii(LowerAscii(s)) == LowerAscii(s)
  {
    var l := LowerAscii(s);
    forall k | 0 <= k < |s| ensures LowerAscii(l)[k] == l[k] {
      assert l[k] == LowerChar(s[k]);
    }
  }

  lemma LowerAsciiConcat(x: string, y: string)
    ensures LowerAscii(x + y) == LowerAscii(x) + LowerAscii(y)
  {
    var l, r := LowerAscii(x + y), LowerAscii(x) + LowerAscii(y);
    assert |l| == |r|;
    forall k | 0 <= k < |l| ensures l[k] == r[k] {
      if k < |x| { assert (x + y)[k] == x[k]; } else { assert (x + y)[k] == y[k - |x|]; }
    }
  }

  /** Lowering and stripping commute: whitespace is not a letter. */
  lemma StripLowerCommute(s: string)
    ensures Strip(LowerAscii(s)) == LowerAscii(Strip(s))
  {
    var a, b := StripParts(s);
    var m := Strip(s);
    LowerAsciiConcat3(a, m, b);
    LowerKeepsSpace(a);
    LowerKeepsSpace(b);
    LowerKeepsTrimmed(m);
    StripUnique(LowerAscii(a), LowerAscii(m), LowerAscii(b));
  }

  /** Lowering neither adds nor removes whitespace at either end. */
  lemma LowerKeepsTrimmed(x: string)
    ensures Trimmed(LowerAscii(x)) <==> Trimmed(x)
  {
    var l := LowerAscii(x);
    if l != [] {
      assert l[0] == LowerChar(x[0]);
      assert l[|l| - 1] == LowerChar(x[|x| - 1]);
    }
  }

  lemma LowerAsciiConcat3(x: string, y: string, z: string)
    ensures LowerAscii(x + y + z) == LowerAscii(x) + LowerAscii(y) + LowerAscii(z)
  {
    LowerAsciiConcat(x + y, z);
    LowerAsciiConcat(x, y);
  }

  /** Lowering maps whitespace to whitespace. */
  lemma LowerKeepsSpace(x: string)
    requires AllSpace(x)
    ensures AllSpace(LowerAscii(x))
  {
    var l := LowerAscii(x);
    forall k | 0 <= k < |l| ensures IsSpace(l[k]) { assert l[k] == LowerChar(x[k]); }
  }

  /** Python's `s.startswith(p)`. */
  predicate StartsWith(s: string, p: string) {
    |p| <= |s| && s[..|p|] == p
  }

  /** Python's `s.rstrip(c)` for a single character `c`: `s` without the run of
      `c` it ends with. */
  function RStripChar(s: string, c: char): (r: string)
    ensures |r| <= |s| && r == s[..|r|]
    ensures forall k :: |r| <= k < |s| ==> s[k] == c
    ensures r == [] || r[|r| - 1] != c
  {
    if s != [] && s[|s| - 1] == c then RStripChar(s[..|s| - 1], c) else s
  }

  /** Removing the trailing run of `c` from `s` gives `x` whenever `s` is `x`
      followed only by `c`, provided `x` does not itself end in `c`. */
  lemma {:induction false} RStripCharUnique(s: string, x: string, c: char)
    requires |x| <= |s| && x == s[..|x|]
    requires forall k :: |x| <= k < |s| ==> s[k] == c
    requires x == [] || x[|x| - 1] != c
    ensures RStripChar(s, c) == x
    decreases |s|
  {
    if |s| > |x| {
      var init := s[..|s| - 1];
      assert init[..|x|] == x;
      RStripCharUnique(init, x, c);
    } else {
      assert s == x;
    }
  }
}
