/** The few JavaScript string primitives the matrix relies on: `indexOf`,
    `slice`, `trim`, `split(/\s+/)` and `join`, each stated on `seq<char>`. */
module StringOps {

  datatype Option<T> = None | Some(value: T)

  /** `s.indexOf(c)`: a position of `c` in `s`, or -1; `IndexOfSpec` says
      it is the first one, and -1 only when `c` is absent. */
  function IndexOf(s: string, c: char): (i: int)
    ensures -1 <= i < |s|
    ensures 0 <= i ==> s[i] == c
  {
    if s == [] then -1
    else if s[0] == c then 0
    else
      var j := IndexOf(s[1..], c);
      if j == -1 then -1 else j + 1
  }

  lemma {:induction false} IndexOfSpec(s: string, c: char)
    ensures IndexOf(s, c) == -1 <==> c !in s
    ensures 0 <= IndexOf(s, c) ==> c !in s[..IndexOf(s, c)]
    decreases |s|
  {
    if s != [] && s[0] != c {
      var j := IndexOf(s[1..], c);
      IndexOfSpec(s[1..], c);
      assert s == [s[0]] + s[1..];
      if j != -1 {
        assert s[..j + 1] == [s[0]] + s[1..][..j];
      }
    }
  }

  /** `s.indexOf(c, from)`: a position of `c` at or after `from`, or -1;
      `IndexOfFromSpec` says it is the first one. */
  function IndexOfFrom(s: string, c: char, from: nat): (i: int)
    requires from <= |s|
    ensures i == -1 || (from <= i < |s| && s[i] == c)
  {
    var j := IndexOf(s[from..], c);
    if j == -1 then -1 else from + j
  }

  lemma IndexOfFromSpec(s: string, c: char, from: nat)
    requires from <= |s|
    ensures IndexOfFrom(s, c, from) == -1 <==> c !in s[from..]
    ensures IndexOfFrom(s, c, from) != -1 ==> c !in s[from..IndexOfFrom(s, c, from)]
  {
    var j := IndexOf(s[from..], c);
    IndexOfSpec(s[from..], c);
    if j != -1 {
      assert s[from..][..j] == s[from..from + j];
    }
  }

  /** `s.indexOf(a + b)` for a two-character pattern: the first position
      where `a` is immediately followed by `b`, or -1. */
  function IndexOfPair(s: string, a: char, b: char): (i: int)
    ensures i == -1 || (0 <= i < |s| - 1 && s[i] == a && s[i + 1] == b)
    decreases |s|
  {
    if |s| < 2 then -1
    else if s[0] == a && s[1] == b then 0
    else
      var j := IndexOfPair(s[1..], a, b);
      if j == -1 then -1 else j + 1
  }

  /** No occurrence of the pair comes before the one found, and -1 means
      there is none. */
  lemma {:induction false} IndexOfPairSpec(s: string, a: char, b: char)
    ensures forall j :: 0 <= j < |s| - 1 && (IndexOfPair(s, a, b) == -1 || j < IndexOfPair(s, a, b)) ==>
      !(s[j] == a && s[j + 1] == b)
    decreases |s|
  {
    if |s| >= 2 && !(s[0] == a && s[1] == b) {
      IndexOfPairSpec(s[1..], a, b);
      forall j | 1 <= j < |s| - 1 ensures s[j] == s[1..][j - 1] && s[j + 1] == s[1..][j] {
      }
    }
  }

  /** One end of `s.slice(begin, end)`: a negative index counts from the end,
      and the result is clamped to `0..|s|`. */
  function SliceIndex(len: nat, i: int): (r: nat)
    ensures r <= len
    ensures 0 <= i <= len ==> r == i
  {
    if i < 0 then (if len + i < 0 then 0 else len + i)
    else if i > len then len
    else i
  }

  /** `s.slice(begin, end)` with JavaScript's treatment of negative indices. */
  function Slice(s: string, begin: int, end: int): (r: string)
    ensures 0 <= begin <= end <= |s| ==> r == s[begin..end]
    ensures |r| <= |s|
  {
    var b, e := SliceIndex(|s|, begin), SliceIndex(|s|, end);
    if b < e then s[b..e] else ""
  }

  /** `s.slice(begin)`. */
  function SliceFrom(s: string, begin: int): (r: string)
    ensures 0 <= begin <= |s| ==> r == s[begin..]
  {
    s[SliceIndex(|s|, begin)..]
  }

  /** The characters JavaScript's `trim` removes and `\s` matches: white
      space and line terminators. */
  predicate IsSpace(c: char) {
    c == '\t' || c == '\n' || c == '\U{000B}' || c == '\U{000C}' || c == '\r' || c == ' ' ||
    c == '\U{00A0}' || c == '\U{1680}' || ('\U{2000}' <= c <= '\U{200A}') ||
    c == '\U{2028}' || c == '\U{2029}' || c == '\U{202F}' || c == '\U{205F}' ||
    c == '\U{3000}' || c == '\U{FEFF}'
  }

  /** A non-empty run of non-space characters: one field of a rule line. */
  predicate IsToken(t: string) {
    |t| > 0 && forall j :: 0 <= j < |t| ==> !IsSpace(t[j])
  }

  /** A text that neither starts nor ends with white space, as `trim`
      leaves it. */
  predicate Trimmed(s: string) {
    s == [] || (!IsSpace(s[0]) && !IsSpace(s[|s| - 1]))
  }

  /** Removes leading white space. */
  function TrimStart(s: string): (r: string)
    ensures |r| <= |s| && r == s[|s| - |r|..]
  {
    if s != [] && IsSpace(s[0]) then TrimStart(s[1..]) else s
  }

  /** What `TrimStart` removes is white space, and what it keeps does not
      start with white space. */
  lemma {:induction false} TrimStartSpec(s: string)
    ensures forall j :: 0 <= j < |s| - |TrimStart(s)| ==> IsSpace(s[j])
    ensures TrimStart(s) != [] ==> !IsSpace(TrimStart(s)[0])
    decreases |s|
  {
    if s != [] && IsSpace(s[0]) {
      TrimStartSpec(s[1..]);
      forall j | 1 <= j < |s| - |TrimStart(s)| ensures s[j] == s[1..][j - 1] {
      }
    }
  }

  /** Removes trailing white space. */
  function TrimEnd(s: string): (r: string)
    ensures |r| <= |s| && r == s[..|r|]
  {
    if s != [] && IsSpace(s[|s| - 1]) then TrimEnd(s[..|s| - 1]) else s
  }

  /** What `TrimEnd` removes is white space, and what it keeps does not end
      with white space. */
  lemma {:induction false} TrimEndSpec(s: string)
    ensures forall j :: |TrimEnd(s)| <= j < |s| ==> IsSpace(s[j])
    ensures TrimEnd(s) != [] ==> !IsSpace(TrimEnd(s)[|TrimEnd(s)| - 1])
    decreases |s|
  {
    if s != [] && IsSpace(s[|s| - 1]) {
      TrimEndSpec(s[..|s| - 1]);
    }
  }

  /** `s.trim()`: the longest slice of `s` that neither starts nor ends with white space. */
  function Trim(s: string): (r: string)
    ensures |r| <= |s|
  {
    TrimEnd(TrimStart(s))
  }

  /** `Trim` keeps a text that neither starts nor ends with white space,
      and leaves alone a text that already does not. */
  lemma TrimSpec(s: string)
    ensures Trimmed(Trim(s))
    ensures Trimmed(s) ==> Trim(s) == s
  {
    var t := TrimStart(s);
    var r := TrimEnd(t);
    TrimStartSpec(s);
    TrimEndSpec(t);
    if r != [] {
      assert r[0] == t[0];
    }
    if Trimmed(s) {
      assert t == s;
    }
  }

  /** Every character `Trim` keeps comes from its input. */
  lemma TrimKeeps(s: string)
    ensures forall c :: c in Trim(s) ==> c in s
  {
    var t := TrimStart(s);
    forall c | c in Trim(s) ensures c in s {
      var m := |Trim(s)|;
      var i :| 0 <= i < m && Trim(s)[i] == c;
      assert t[i] == c;
      assert s[|s| - |t| + i] == c;
    }
  }

  /** Length of the longest prefix of `s` holding no white space. */
  function SpanNonSpace(s: string): (n: nat)
    ensures n <= |s|
    ensures n < |s| ==> IsSpace(s[n])
  {
    if s == [] || IsSpace(s[0]) then 0 else 1 + SpanNonSpace(s[1..])
  }

  /** The fields of a line: its maximal runs of non-space characters. On a
      trimmed non-empty line this is what `line.split(/\s+/)` returns. */
  function Tokens(s: string): (ts: seq<string>)
    ensures s != [] && !IsSpace(s[0]) ==> |ts| > 0
    decreases |s|
  {
    if s == [] then []
    else if IsSpace(s[0]) then Tokens(s[1..])
    else
      var n := SpanNonSpace(s);
      [s[..n]] + Tokens(s[n..])
  }

  /** The run `SpanNonSpace` measures holds no white space. */
  lemma {:induction false} SpanNonSpaceSpec(s: string)
    ensures forall j :: 0 <= j < SpanNonSpace(s) ==> !IsSpace(s[j])
    decreases |s|
  {
    if s != [] && !IsSpace(s[0]) {
      SpanNonSpaceSpec(s[1..]);
      forall j | 1 <= j < SpanNonSpace(s) ensures s[j] == s[1..][j - 1] {
      }
    }
  }

  /** Every field is a non-empty run of non-space characters. */
  lemma {:induction false} TokensSpec(s: string)
    ensures forall i :: 0 <= i < |Tokens(s)| ==> IsToken(Tokens(s)[i])
    decreases |s|
  {
    if s != [] {
      if IsSpace(s[0]) {
        TokensSpec(s[1..]);
      } else {
        var n := SpanNonSpace(s);
        SpanNonSpaceSpec(s);
        TokensSpec(s[n..]);
        assert IsToken(s[..n]);
      }
    }
  }

  /** `ts.join(sep)`. */
  function Join(ts: seq<string>, sep: string): (r: string)
    ensures |ts| == 1 ==> r == ts[0]
  {
    if ts == [] then ""
    else if |ts| == 1 then ts[0]
    else ts[0] + sep + Join(ts[1..], sep)
  }

  /** Four fields joined by a separator. */
  lemma JoinFour(a: string, b: string, c: string, d: string, sep: string)
    ensures Join([a, b, c, d], sep) == a + sep + (b + sep + (c + sep + d))
  {
    assert [c, d][1..] == [d];
    assert Join([c, d], sep) == c + sep + d;
    assert [b, c, d][1..] == [c, d];
    assert Join([b, c, d], sep) == b + sep + (c + sep + d);
    assert [a, b, c, d][1..] == [b, c, d];
  }

  /** A text built left to right from a head, three fields each followed
      by a space, and a last field is the head followed by the four fields
      joined with spaces. */
  lemma {:induction false} HeadAndFields(head: string, a: string, b: string, c: string, last: string, d: string)
    requires last == " " + d
    ensures head + a + " " + b + " " + c + last == head + Join([a, b, c, d], " ")
  {
    JoinFour(a, b, c, d, " ");
    calc {
      head + a + " " + b + " " + c + last;
      head + (a + " " + b + " " + c + (" " + d));
      head + (a + " " + (b + " " + (c + " " + d)));
    }
  }

  lemma {:induction false} SpanOfToken(t: string, rest: string)
    requires IsToken(t)
    requires rest == [] || IsSpace(rest[0])
    ensures SpanNonSpace(t + rest) == |t|
    decreases |t|
  {
    assert (t + rest)[0] == t[0];
    if |t| > 1 {
      assert (t + rest)[1..] == t[1..] + rest;
      SpanOfToken(t[1..], rest);
    } else {
      assert (t + rest)[1..] == rest;
    }
  }

  /** Splitting fields joined by single spaces gives the fields back. */
  lemma {:induction false} TokensOfJoin(ts: seq<string>)
    requires |ts| > 0
    requires forall i :: 0 <= i < |ts| ==> IsToken(ts[i])
    ensures Tokens(Join(ts, " ")) == ts
    decreases |ts|
  {
    var t := ts[0];
    if |ts| == 1 {
      SpanOfToken(t, "");
      assert t[..|t|] == t;
      assert t[|t|..] == [];
    } else {
      var rest := Join(ts[1..], " ");
      var s := t + " " + rest;
      assert Join(ts, " ") == s;
      SpanOfToken(t, " " + rest);
      assert t + (" " + rest) == s;
      assert s[..|t|] == t;
      assert s[|t|..] == " " + rest;
      assert (" " + rest)[1..] == rest;
      TokensOfJoin(ts[1..]);
      assert Tokens(" " + rest) == Tokens(rest);
      assert ts == [t] + ts[1..];
    }
  }
}
