/** Hostname generalisation: the coarse address-literal test `isIPAddress`
    and `toBroaderHostname`, together with the chains of ever broader
    hostnames that the evaluator walks. */
module Hostnames {
  import opened StringOps

  /** The class `[g-z_-]`: a character that only a domain label, never a
      lowercase IPv6 or IPv4 literal, can hold. Section 4.3 of RFC 5952 asks
      for IPv6 text in lowercase, so upper-case letters are not tested. */
  predicate IsNameOnlyChar(c: char) {
    ('g' <= c <= 'z') || c == '_' || c == '-'
  }

  predicate IsDigit(c: char) {
    '0' <= c <= '9'
  }

  /** `/[g-z_-]/.test(h)`. */
  function HasNameOnlyChar(h: string): bool {
    if h == [] then false
    else if IsNameOnlyChar(h[0]) then true
    else HasNameOnlyChar(h[1..])
  }

  lemma {:induction false} HasNameOnlyCharSpec(h: string)
    ensures HasNameOnlyChar(h) <==> exists i :: 0 <= i < |h| && IsNameOnlyChar(h[i])
  {
    if h != [] && !IsNameOnlyChar(h[0]) {
      HasNameOnlyCharSpec(h[1..]);
      assert forall i :: 1 <= i < |h| ==> h[i] == h[1..][i - 1];
      if HasNameOnlyChar(h) {
        var i :| 0 <= i < |h| - 1 && IsNameOnlyChar(h[1..][i]);
        assert IsNameOnlyChar(h[i + 1]);
      }
    } else if h != [] {
      assert IsNameOnlyChar(h[0]);
    }
  }

  /** Number of digits at the end of `h`. */
  function TrailingDigits(h: string): (n: nat)
    ensures n <= |h|
  {
    if h == [] || !IsDigit(h[|h| - 1]) then 0
    else 1 + TrailingDigits(h[..|h| - 1])
  }

  /** The trailing digits are digits, and the character before them is not. */
  lemma {:induction false} TrailingDigitsSpec(h: string)
    ensures forall j :: |h| - TrailingDigits(h) <= j < |h| ==> IsDigit(h[j])
    ensures TrailingDigits(h) < |h| ==> !IsDigit(h[|h| - 1 - TrailingDigits(h)])
  {
    if h != [] && IsDigit(h[|h| - 1]) {
      var p := h[..|h| - 1];
      TrailingDigitsSpec(p);
      assert forall j :: 0 <= j < |p| ==> p[j] == h[j];
    }
  }

  /** `/\.\d+$/.test(h)`: `h` ends with a dot followed by one or more digits. */
  function EndsWithDotDigits(h: string): bool {
    var n := TrailingDigits(h);
    0 < n < |h| && h[|h| - 1 - n] == '.'
  }

  lemma EndsWithDotDigitsSpec(h: string)
    ensures EndsWithDotDigits(h) <==> exists k :: 0 <= k < |h| - 1 && h[k] == '.' && forall j :: k < j < |h| ==> IsDigit(h[j])
  {
    var n := TrailingDigits(h);
    TrailingDigitsSpec(h);
    if EndsWithDotDigits(h) {
      var k := |h| - 1 - n;
      assert forall j :: k < j < |h| ==> IsDigit(h[j]);
    } else {
      forall k | 0 <= k < |h| - 1 && h[k] == '.' ensures exists j :: k < j < |h| && !IsDigit(h[j]) {
        assert !IsDigit(h[k]);
        assert n < |h|;
        var j := |h| - 1 - n;
        assert k <= j;
        assert j != k;
        assert !IsDigit(h[j]);
      }
    }
  }

  /** `isIPAddress`: no name-only character, and either a dotted numeric
      suffix or a leading `[` (a bracketed IPv6 literal). */
  function IsIPAddress(h: string): bool {
    if HasNameOnlyChar(h) then false
    else if EndsWithDotDigits(h) then true
    else |h| > 0 && h[0] == '['
  }

  /** An address literal holds no character of `[g-z_-]`, and either ends
      with a dot and digits or starts with `[`. */
  lemma IsIPAddressSpec(h: string)
    ensures IsIPAddress(h) <==>
      (forall i :: 0 <= i < |h| ==> !IsNameOnlyChar(h[i])) &&
      ((exists k :: 0 <= k < |h| - 1 && h[k] == '.' && forall j :: k < j < |h| ==> IsDigit(h[j])) || (|h| > 0 && h[0] == '['))
  {
    HasNameOnlyCharSpec(h);
    EndsWithDotDigitsSpec(h);
  }

  /** `toBroaderHostname`: the next, less specific, hostname. What it
      yields is stated by `BroadenSpec`. */
  function Broaden(h: string): string {
    if h == "*" then ""
    else if IsIPAddress(h) then "*"
    else
      var pos := IndexOf(h, '.');
      if pos == -1 then "*" else h[pos + 1..]
  }

  /** `*` broadens to the terminator `""`; an address literal or a single
      label broadens to `*`; any other hostname loses the label before its
      first dot. */
  lemma BroadenSpec(h: string)
    ensures h == "*" ==> Broaden(h) == ""
    ensures h != "*" && (IsIPAddress(h) || '.' !in h) ==> Broaden(h) == "*"
    ensures h != "*" && !IsIPAddress(h) && '.' in h ==>
      exists k :: 0 <= k < |h| && h[k] == '.' && '.' !in h[..k] && Broaden(h) == h[k + 1..]
  {
    if h != "*" && !IsIPAddress(h) && '.' in h {
      var k := IndexOf(h, '.');
      IndexOfSpec(h, '.');
      assert h[k] == '.' && '.' !in h[..k] && Broaden(h) == h[k + 1..];
    }
  }

  /** Number of dots; a hostname has one label more than it has dots. */
  function Dots(h: string): nat {
    multiset(h)['.']
  }

  /** A ranking that every broadening step from a non-empty hostname lowers:
      `""` is lowest, then `"*"`, then every other hostname by its length. */
  function Rank(h: string): nat {
    if h == "" then 0 else if h == "*" then 1 else |h| + 1
  }

  /** Broadening shortens a hostname unless it yields `*`. */
  lemma BroadenShortens(h: string)
    ensures Broaden(h) == "*" || |Broaden(h)| < |h|
  {
  }

  lemma BroadenLowersRank(h: string)
    requires h != ""
    ensures Rank(Broaden(h)) < Rank(h)
  {
    BroadenShortens(h);
  }

  /** Unless it reaches a terminal token, broadening drops exactly one label. */
  lemma {:induction false} BroadenLowersDots(h: string)
    ensures h != "*" && Broaden(h) != "*" ==> Dots(Broaden(h)) == Dots(h) - 1
  {
    if h != "*" && Broaden(h) != "*" {
      var k := IndexOf(h, '.');
      IndexOfSpec(h, '.');
      assert 0 <= k && Broaden(h) == h[k + 1..];
      assert h == h[..k] + [h[k]] + h[k + 1..];
      assert multiset(h) == multiset(h[..k]) + multiset([h[k]]) + multiset(h[k + 1..]);
      assert multiset(h[..k])['.'] == 0;
    }
  }

  /** `h` after `n` applications of `next`. */
  function Iter(next: string -> string, h: string, n: nat): string
    decreases n
  {
    if n == 0 then h else Iter(next, next(h), n - 1)
  }

  /** One more application at the far end. */
  lemma {:induction false} IterSucc(next: string -> string, h: string, n: nat)
    ensures Iter(next, h, n + 1) == next(Iter(next, h, n))
    decreases n
  {
    if n > 0 {
      IterSucc(next, next(h), n - 1);
    }
  }

  /** The `n + 1` hostnames `h`, `next(h)`, ... of a walk of `n` steps. */
  function Walk(next: string -> string, h: string, n: nat): (c: seq<string>)
    ensures |c| == n + 1 && c[0] == h
    decreases n
  {
    if n == 0 then [h] else [h] + Walk(next, next(h), n - 1)
  }

  /** Position `i` of a walk holds `h` after `i` steps. */
  lemma {:induction false} WalkAt(next: string -> string, h: string, n: nat, i: nat)
    requires i <= n
    ensures Walk(next, h, n)[i] == Iter(next, h, i)
    decreases i
  {
    if i > 0 {
      WalkAt(next, next(h), n - 1, i - 1);
    }
  }

  /** Each position of a walk after the first is `next` of the one
      before, and `next` of position `i` is `next(h)` after `i` steps. */
  lemma WalkSteps(next: string -> string, h: string, n: nat)
    ensures forall i :: 0 <= i < n ==> Walk(next, h, n)[i + 1] == next(Walk(next, h, n)[i])
    ensures forall i :: 0 <= i <= n ==> next(Walk(next, h, n)[i]) == Iter(next, next(h), i)
  {
    forall i | 0 <= i <= n
      ensures next(Walk(next, h, n)[i]) == Iter(next, next(h), i)
      ensures i < n ==> Walk(next, h, n)[i + 1] == next(Walk(next, h, n)[i])
    {
      WalkAt(next, h, n, i);
      IterSucc(next, h, i);
      if i < n {
        WalkAt(next, h, n, i + 1);
      }
    }
  }

  /** How many broadening steps lead from `h` to the terminator `""`;
      `StepsToEmptySpec` states what it counts. */
  function StepsToEmpty(h: string): nat
    decreases Rank(h)
  {
    if h == "" then 0
    else
      BroadenLowersRank(h);
      1 + StepsToEmpty(Broaden(h))
  }

  /** After `StepsToEmpty(h)` broadenings `h` is `""`, which it is not before. */
  lemma {:induction false} StepsToEmptySpec(h: string)
    ensures Iter(Broaden, h, StepsToEmpty(h)) == ""
    ensures forall m :: 0 <= m < StepsToEmpty(h) ==> Iter(Broaden, h, m) != ""
    decreases Rank(h)
  {
    if h != "" {
      BroadenLowersRank(h);
      var b := Broaden(h);
      StepsToEmptySpec(b);
      assert forall m :: 1 <= m <= StepsToEmpty(b) ==> Iter(Broaden, h, m) == Iter(Broaden, b, m - 1);
    }
  }

  /** Reaching `""` takes no more steps than the label count plus one. */
  lemma {:induction false} StepsToEmptyBound(h: string)
    ensures StepsToEmpty(h) <= Dots(h) + 2
    decreases Rank(h)
  {
    if h != "" {
      BroadenLowersRank(h);
      var b := Broaden(h);
      StepsToEmptyBound(b);
      BroadenLowersDots(h);
      if b == "*" {
        assert StepsToEmpty(b) == 1 + StepsToEmpty("");
      }
    }
  }

  /** How many broadening steps lead from `h` to `*`; `StepsToWildcardSpec`
      states what it counts. */
  function StepsToWildcard(h: string): nat
    decreases if h == "*" then 0 else |h| + 1
  {
    if h == "*" then 0
    else
      BroadenShortens(h);
      1 + StepsToWildcard(Broaden(h))
  }

  /** After `StepsToWildcard(h)` broadenings `h` is `*`, which it is not before. */
  lemma {:induction false} StepsToWildcardSpec(h: string)
    ensures Iter(Broaden, h, StepsToWildcard(h)) == "*"
    ensures forall m :: 0 <= m < StepsToWildcard(h) ==> Iter(Broaden, h, m) != "*"
    decreases if h == "*" then 0 else |h| + 1
  {
    if h != "*" {
      var b := Broaden(h);
      BroadenShortens(h);
      StepsToWildcardSpec(b);
      assert forall m :: 1 <= m <= StepsToWildcard(b) + 1 ==> Iter(Broaden, h, m) == Iter(Broaden, b, m - 1);
    }
  }

  /** The sources `evaluateCellZ` probes, in order: `s` itself, then each
      broadening, stopping before the one that yields `""`. */
  function SrcChain(s: string): seq<string> {
    Walk(Broaden, s, StepsToEmpty(Broaden(s)))
  }

  /** Each hostname of the walk is the broadening of the one before, and
      only the last one broadens to "". */
  lemma SrcChainSpec(s: string)
    ensures |SrcChain(s)| >= 1 && SrcChain(s)[0] == s
    ensures forall i :: 0 <= i < |SrcChain(s)| - 1 ==> SrcChain(s)[i + 1] == Broaden(SrcChain(s)[i])
    ensures forall i :: 0 <= i < |SrcChain(s)| - 1 ==> Broaden(SrcChain(s)[i]) != ""
    ensures Broaden(SrcChain(s)[|SrcChain(s)| - 1]) == ""
  {
    StepsToEmptySpec(Broaden(s));
    WalkSteps(Broaden, s, StepsToEmpty(Broaden(s)));
  }

  /** The sources left after probing `s`: none when `s` broadens to `""`,
      and otherwise the walk from the broader hostname. */
  lemma SrcChainNext(s: string)
    ensures Broaden(s) == "" ==> SrcChain(s) == [s]
    ensures Broaden(s) != "" ==> SrcChain(s) == [s] + SrcChain(Broaden(s))
  {
    var b := Broaden(s);
    if b != "" {
      var n := StepsToEmpty(b);
      assert Walk(Broaden, s, n) == [s] + Walk(Broaden, b, n - 1);
    }
  }

  /** The destinations the loop of `evaluateCellZY` probes, in order: `d`
      itself, then each broadening until one yields `"*"` (the `"*"`
      destination itself is probed after this chain). */
  function DesChain(d: string): seq<string> {
    Walk(Broaden, d, StepsToWildcard(Broaden(d)))
  }

  /** Each hostname of the walk is the broadening of the one before, and
      only the last one broadens to "*". */
  lemma DesChainSpec(d: string)
    ensures |DesChain(d)| >= 1 && DesChain(d)[0] == d
    ensures forall i :: 0 <= i < |DesChain(d)| - 1 ==> DesChain(d)[i + 1] == Broaden(DesChain(d)[i])
    ensures forall i :: 0 <= i < |DesChain(d)| - 1 ==> Broaden(DesChain(d)[i]) != "*"
    ensures Broaden(DesChain(d)[|DesChain(d)| - 1]) == "*"
  {
    StepsToWildcardSpec(Broaden(d));
    WalkSteps(Broaden, d, StepsToWildcard(Broaden(d)));
  }

  /** The destinations left after probing `d`: none when `d` broadens to
      `*`, and otherwise the walk from the broader hostname. */
  lemma DesChainNext(d: string)
    ensures Broaden(d) == "*" ==> DesChain(d) == [d]
    ensures Broaden(d) != "*" ==> DesChain(d) == [d] + DesChain(Broaden(d))
  {
    var b := Broaden(d);
    if b != "*" {
      var n := StepsToWildcard(b);
      assert Walk(Broaden, d, n) == [d] + Walk(Broaden, b, n - 1);
    }
  }

  /** The source walk is no longer than the label count plus one. */
  lemma SrcChainLength(s: string)
    ensures |SrcChain(s)| <= Dots(s) + 2
  {
    StepsToEmptyBound(Broaden(s));
    BroadenLowersDots(s);
    assert Dots("*") == 0;
  }

  /** Reaching `*` takes no more steps than the label count. */
  lemma {:induction false} StepsToWildcardBound(h: string)
    ensures StepsToWildcard(h) <= Dots(h) + 1
    decreases if h == "*" then 0 else |h| + 1
  {
    if h != "*" {
      var b := Broaden(h);
      BroadenShortens(h);
      StepsToWildcardBound(b);
      BroadenLowersDots(h);
    }
  }

  /** The destination walk is no longer than the label count plus one. */
  lemma DesChainLength(d: string)
    ensures |DesChain(d)| <= Dots(d) + 2
  {
    StepsToWildcardBound(Broaden(d));
    BroadenLowersDots(d);
    assert Dots("*") == 0;
    assert Dots("") == 0;
  }

  /** `i + k` steps are `k` steps after the first `i`. */
  lemma {:induction false} IterAdd(next: string -> string, h: string, i: nat, k: nat)
    ensures Iter(next, h, i + k) == Iter(next, Iter(next, h, i), k)
    decreases i
  {
    if i > 0 {
      IterAdd(next, next(h), i - 1, k);
    }
  }

  /** After `i` of its steps to `""`, a hostname has `i` fewer left. */
  lemma {:induction false} StepsToEmptyAfter(h: string, i: nat)
    requires i <= StepsToEmpty(h)
    ensures StepsToEmpty(Iter(Broaden, h, i)) == StepsToEmpty(h) - i
    decreases i
  {
    if i > 0 {
      StepsToEmptyAfter(Broaden(h), i - 1);
    }
  }

  /** Each step on the way to `""` lowers the rank by at least one. */
  lemma {:induction false} RankAfter(h: string, j: nat)
    requires j <= StepsToEmpty(h)
    ensures Rank(Iter(Broaden, h, j)) + j <= Rank(h)
    decreases j
  {
    if j > 0 {
      BroadenLowersRank(h);
      RankAfter(Broaden(h), j - 1);
    }
  }

  /** The walk to `""` never comes back to a hostname it has left. */
  lemma BroadenNeverRevisits(h: string, i: nat, j: nat)
    requires i < j <= StepsToEmpty(h)
    ensures Iter(Broaden, h, i) != Iter(Broaden, h, j)
  {
    var g := Iter(Broaden, h, i);
    IterAdd(Broaden, h, i, j - i);
    StepsToEmptyAfter(h, i);
    RankAfter(g, j - i);
  }

  /** An address literal is atomic: it broadens straight to `"*"`. */
  lemma AddressLiteralBroadensToWildcard(h: string)
    requires IsIPAddress(h) && h != "*"
    ensures Broaden(h) == "*"
  {
  }

  /** A single-label name ending in a dot, such as `com.`, that is not an
      address literal broadens straight to `""`, so its source walk stops
      without ever probing the source `"*"`. */
  lemma TrailingDotSkipsWildcardSource(h: string)
    requires |h| > 0 && h[|h| - 1] == '.' && '.' !in h[..|h| - 1]
    requires !IsIPAddress(h)
    ensures Broaden(h) == ""
    ensures SrcChain(h) == [h]
    ensures "*" !in SrcChain(h)
  {
    var i := IndexOf(h, '.');
    IndexOfSpec(h, '.');
    assert h[|h| - 1] in h;
    forall j | 0 <= j < |h| - 1
      ensures h[j] != '.'
    {
      assert h[j] == h[..|h| - 1][j];
    }
  }

  /** The label `com.` is such a name. */
  lemma TrailingDotExample()
    ensures SrcChain("com.") == ["com."]
  {
    var h := "com.";
    assert !IsIPAddress(h) by {
      HasNameOnlyCharSpec(h);
      assert IsNameOnlyChar(h[1]);
    }
    assert h[..|h| - 1] == "com";
    TrailingDotSkipsWildcardSource(h);
  }
}
