/** The text form of the rule store: one rule per line,
    `source destination [type [state]]`, read by `fromString` and written
    by `toString`. */
module Codec {
  import opened StringOps
  import opened Bitmaps
  import opened Rules

  /** One accepted rule line. */
  datatype ParsedRule = ParsedRule(src: string, des: string, ty: RequestType, st: State)

  /** The line `fromString` splits into fields: trimmed, and cut before the
      first `# ` with the rest trimmed again. */
  function CleanLine(raw: string): (line: string)
    ensures |line| <= |raw|
  {
    var line := Trim(raw);
    var pos := IndexOfPair(line, '#', ' ');
    if pos != -1 then Trim(Slice(line, 0, pos)) else line
  }

  /** A cleaned line neither starts nor ends with white space. */
  lemma CleanLineEnds(raw: string)
    ensures Trimmed(CleanLine(raw))
  {
    var line := Trim(raw);
    var pos := IndexOfPair(line, '#', ' ');
    if pos != -1 {
      TrimSpec(Slice(line, 0, pos));
    } else {
      TrimSpec(raw);
    }
  }

  /** A cleaned line holds only characters of the raw line. */
  lemma CleanLineKeeps(raw: string)
    ensures forall c :: c in CleanLine(raw) ==> c in raw
  {
    var line := Trim(raw);
    TrimKeeps(raw);
    var pos := IndexOfPair(line, '#', ' ');
    if pos != -1 {
      var cut := Slice(line, 0, pos);
      assert cut == line[..pos];
      TrimKeeps(cut);
    }
  }

  /** The fields of a cleaned line, as `fromString` interprets them: too few
      fields, an unknown type or an unknown state name reject the line; the
      type defaults to `*` and the state to allow; the hostnames go through
      `toASCII`. */
  function ParseFields(fields: seq<string>, toASCII: string -> string): (o: Option<ParsedRule>)
    ensures o.Some? ==> |fields| >= 2 && o.value.src == toASCII(fields[0]) && o.value.des == toASCII(fields[1])
    ensures o.Some? && |fields| > 2 ==> o.value.ty.Name() == fields[2]
    ensures o.Some? && |fields| <= 2 ==> o.value.ty == Any
    ensures o.Some? ==> o.value.st != 0
    ensures o.Some? && |fields| > 3 ==> StateName(o.value.st) == fields[3]
    ensures o.Some? && |fields| <= 3 ==> o.value.st == Allow
    ensures o.None? <==> |fields| < 2 || (|fields| > 2 && !IsKnownType(fields[2])) ||
                         (|fields| > 3 && NameToState(fields[3]).None?)
  {
    if |fields| < 2 then None
    else
      var ty := if |fields| > 2 then TypeFromName(fields[2]) else Some(Any);
      var st := if |fields| > 3 then NameToState(fields[3]) else Some(Allow);
      if ty.None? || st.None? then None
      else Some(ParsedRule(toASCII(fields[0]), toASCII(fields[1]), ty.value, st.value))
  }

  /** What `fromString` makes of one raw line. */
  function ParseLine(raw: string, toASCII: string -> string): Option<ParsedRule> {
    var line := CleanLine(raw);
    if line == "" then None else ParseFields(Tokens(line), toASCII)
  }

  /** Fields beyond the fourth are ignored. */
  lemma ExtraFieldsIgnored(fields: seq<string>, toASCII: string -> string)
    requires |fields| > 4
    ensures ParseFields(fields, toASCII) == ParseFields(fields[..4], toASCII)
  {
  }

  /** `inherit` is not a state name, so a line that uses it is rejected. */
  lemma InheritRejected(src: string, des: string, t: string, toASCII: string -> string)
    ensures ParseFields([src, des, t, "inherit"], toASCII) == None
  {
  }

  /** Text from the first `# ` on is a comment: a line made of rule text
      without `#` and a comment parses as the rule text alone. */
  lemma CommentDropped(code: string, comment: string)
    requires code != [] && !IsSpace(code[0]) && '#' !in code
    requires comment != [] && !IsSpace(comment[|comment| - 1])
    ensures CleanLine(code + "# " + comment) == CleanLine(code) == Trim(code)
  {
    var raw := code + "# " + comment;
    assert raw[0] == code[0] && raw[|raw| - 1] == comment[|comment| - 1];
    assert Trim(raw) == raw;
    assert raw[|code|] == '#' && raw[|code| + 1] == ' ';
    assert forall j :: 0 <= j < |code| ==> raw[j] == code[j];
    var pos := IndexOfPair(raw, '#', ' ');
    IndexOfPairSpec(raw, '#', ' ');
    assert pos == |code|;
    assert raw[..|code|] == code;
    TrimKeeps(code);
    assert '#' !in Trim(code);
    assert IndexOfPair(Trim(code), '#', ' ') == -1;
  }

  /** The first position from `i` on that holds `c`, or the end of the
      text when none does. */
  function BreakAt(text: string, c: char, i: nat): (k: nat)
    requires i <= |text|
    ensures i <= k <= |text|
    decreases |text| - i
  {
    if i == |text| then |text|
    else if text[i] == c then i
    else BreakAt(text, c, i + 1)
  }

  /** `BreakAt` stops at the first `c`, and only at a `c` or at the end. */
  lemma {:induction false} BreakAtSpec(text: string, c: char, i: nat)
    requires i <= |text|
    ensures BreakAt(text, c, i) < |text| ==> text[BreakAt(text, c, i)] == c
    ensures forall j :: i <= j < BreakAt(text, c, i) ==> text[j] != c
    decreases |text| - i
  {
    if i < |text| && text[i] != c {
      BreakAtSpec(text, c, i + 1);
    }
  }

  /** `text.indexOf(c, from)` finds what `BreakAt` finds, and -1 where
      `BreakAt` runs to the end of the text. */
  lemma {:induction false} IndexOfFromBreak(text: string, c: char, from: nat)
    requires from <= |text|
    ensures IndexOfFrom(text, c, from) == if BreakAt(text, c, from) < |text| then BreakAt(text, c, from) else -1
    decreases |text| - from
  {
    var s := text[from..];
    if from < |text| && text[from] != c {
      assert s[0] == text[from];
      assert s[1..] == text[from + 1..];
      IndexOfFromBreak(text, c, from + 1);
    } else if from < |text| {
      assert s[0] == c;
    }
  }

  /** Where the loop of `fromString` ends the line that starts at `lineBeg`:
      at the first `\n` from there; when no `\n` is left, at the first
      `\r`; otherwise at the end of the text. */
  function LineEndAt(text: string, lineBeg: nat): (lineEnd: nat)
    requires lineBeg <= |text|
    ensures lineBeg <= lineEnd <= |text|
  {
    var nl := BreakAt(text, '\n', lineBeg);
    if nl < |text| then nl else BreakAt(text, '\r', lineBeg)
  }

  /** The line ends at the first `\n` when one is left; otherwise at the
      first `\r`; it runs to the end of the text exactly when no line break
      is left. */
  lemma LineEndSpec(text: string, lineBeg: nat)
    requires lineBeg <= |text|
    ensures var e := LineEndAt(text, lineBeg);
      e < |text| ==> text[e] == '\n' || text[e] == '\r'
    ensures forall j :: lineBeg <= j < LineEndAt(text, lineBeg) ==> text[j] != '\n'
    ensures '\n' in text[lineBeg..] ==> LineEndAt(text, lineBeg) < |text| && text[LineEndAt(text, lineBeg)] == '\n'
    ensures '\n' !in text[lineBeg..] ==> forall j :: lineBeg <= j < LineEndAt(text, lineBeg) ==> text[j] != '\r'
    ensures LineEndAt(text, lineBeg) == |text| <==> '\n' !in text[lineBeg..] && '\r' !in text[lineBeg..]
  {
    BreakAtSpec(text, '\n', lineBeg);
    BreakAtSpec(text, '\r', lineBeg);
    var nl := BreakAt(text, '\n', lineBeg);
    var cr := BreakAt(text, '\r', lineBeg);
    if '\n' in text[lineBeg..] {
      var j :| lineBeg <= j < |text| && text[j] == '\n';
      assert text[lineBeg..][j - lineBeg] == '\n';
    }
    if '\r' in text[lineBeg..] {
      var j :| lineBeg <= j < |text| && text[j] == '\r';
      assert text[lineBeg..][j - lineBeg] == '\r';
    }
  }

  /** The raw lines the loop of `fromString` visits once it stands at
      `lineBeg`: each runs to where `LineEndAt` ends it, and the next starts
      after that line break. */
  function LinesFrom(text: string, lineBeg: nat): seq<string>
    decreases |text| - lineBeg
  {
    if lineBeg >= |text| then []
    else
      var lineEnd := LineEndAt(text, lineBeg);
      [text[lineBeg..lineEnd]] + LinesFrom(text, lineEnd + 1)
  }

  /** The text still to read once the loop stands at `lineBeg`. */
  function Unread(text: string, lineBeg: nat): string {
    if lineBeg <= |text| then text[lineBeg..] else []
  }

  /** The raw lines of a whole text. */
  function Lines(text: string): seq<string> {
    LinesFrom(text, 0)
  }

  /** Scanning the text that follows `k` finds the same break, moved by
      `k`. */
  lemma {:induction false} BreakAtDrop(text: string, k: nat, c: char, i: nat)
    requires k + i <= |text|
    ensures BreakAt(text, c, k + i) == k + BreakAt(text[k..], c, i)
    decreases |text| - k - i
  {
    if k + i < |text| {
      assert text[k..][i] == text[k + i];
      BreakAtDrop(text, k, c, i + 1);
    }
  }

  /** A line of the text that follows `k` ends where it ends in the whole
      text, moved by `k`. */
  lemma LineEndAtDrop(text: string, k: nat, b: nat)
    requires k + b <= |text|
    ensures LineEndAt(text, k + b) == k + LineEndAt(text[k..], b)
  {
    BreakAtDrop(text, k, '\n', b);
    BreakAtDrop(text, k, '\r', b);
  }

  /** A slice of the text that follows `k` is the slice of the whole text
      moved by `k`. */
  lemma SliceDrop(text: string, k: nat, b: nat, e: nat)
    requires b <= e && k + e <= |text|
    ensures text[k..][b..e] == text[k + b..k + e]
  {
  }

  /** The lines from `lineBeg` on start with the line that ends at
      `lineEnd`. */
  lemma LinesFromStep(text: string, lineBeg: nat, lineEnd: nat, rest: seq<string>)
    requires lineBeg < |text| && lineEnd == LineEndAt(text, lineBeg)
    requires rest == LinesFrom(text, lineEnd + 1)
    ensures LinesFrom(text, lineBeg) == [text[lineBeg..lineEnd]] + rest
  {
  }

  /** The lines of the text from `k + b` on are the lines of the text that
      follows `k`, from `b` on. */
  lemma {:induction false} LinesFromDrop(text: string, k: nat, b: nat)
    requires k <= |text|
    ensures LinesFrom(text, k + b) == LinesFrom(text[k..], b)
    decreases |text| - k - b
  {
    var t := text[k..];
    if k + b < |text| {
      var e := LineEndAt(t, b);
      LineEndAtDrop(text, k, b);
      SliceDrop(text, k, b, e);
      LinesFromStep(text, k + b, k + e, LinesFrom(text, k + e + 1));
      LinesFromStep(t, b, e, LinesFrom(t, e + 1));
      LinesFromDrop(text, k, e + 1);
    }
  }

  /** The store after applying one raw line with `setCell`. */
  function ApplyLine(R: RuleMap, raw: string, toASCII: string -> string): RuleMap {
    match ParseLine(raw, toASCII)
    case None => R
    case Some(p) => SetCellRules(R, Key(p.src, p.des), p.ty, p.st)
  }

  /** A line that is blank once cleaned writes nothing. */
  lemma ApplyBlankLine(R: RuleMap, raw: string, toASCII: string -> string)
    requires CleanLine(raw) == ""
    ensures ApplyLine(R, raw, toASCII) == R
  {
  }

  /** A line that is not blank acts through its fields. */
  lemma ApplyLineFields(R: RuleMap, raw: string, fields: seq<string>, toASCII: string -> string)
    requires CleanLine(raw) != "" && fields == Tokens(CleanLine(raw))
    ensures ApplyLine(R, raw, toASCII) ==
      match ParseFields(fields, toASCII)
      case None => R
      case Some(p) => SetCellRules(R, Key(p.src, p.des), p.ty, p.st)
  {
  }

  /** Fields that name a known type, or none, and a known state, or none,
      are accepted with the defaults filled in. */
  lemma ParseFieldsAccepted(fields: seq<string>, toASCII: string -> string)
    requires |fields| >= 2
    requires |fields| > 2 ==> IsKnownType(fields[2])
    requires |fields| > 3 ==> NameToState(fields[3]).Some?
    ensures ParseFields(fields, toASCII) == Some(ParsedRule(toASCII(fields[0]), toASCII(fields[1]),
      FieldOf(if |fields| > 2 then fields[2] else "*"),
      if |fields| > 3 then NameToState(fields[3]).value else Allow))
  {
  }

  /** The store after applying raw lines in order. */
  function ApplyLines(R: RuleMap, lines: seq<string>, toASCII: string -> string): RuleMap
    decreases |lines|
  {
    if lines == [] then R else ApplyLines(ApplyLine(R, lines[0], toASCII), lines[1..], toASCII)
  }

  /** Before the loop of `fromString` starts, every line is still to read. */
  lemma AllUnread(text: string)
    ensures Lines(Unread(text, 0)) == Lines(text)
  {
    assert Unread(text, 0) == text;
  }

  /** Once the loop of `fromString` stands at or past the end of the text,
      no line is left to read. */
  lemma NothingUnread(text: string, lineBeg: nat)
    requires lineBeg >= |text|
    ensures Lines(Unread(text, lineBeg)) == []
  {
    assert Unread(text, lineBeg) == [];
  }

  /** The lines of the unread text are the lines from `lineBeg` on. */
  lemma UnreadLines(text: string, lineBeg: nat)
    ensures Lines(Unread(text, lineBeg)) == LinesFrom(text, lineBeg)
  {
    if lineBeg <= |text| {
      LinesFromDrop(text, lineBeg, 0);
    }
  }

  /** The unread text starts with the line that ends at `lineEnd`; after
      it, what is unread starts past its line break. */
  lemma LineStep(text: string, lineBeg: nat, lineEnd: nat)
    requires lineBeg < |text| && lineEnd == LineEndAt(text, lineBeg)
    ensures Lines(Unread(text, lineBeg)) == [text[lineBeg..lineEnd]] + Lines(Unread(text, lineEnd + 1))
  {
    UnreadLines(text, lineBeg);
    UnreadLines(text, lineEnd + 1);
  }

  /** One turn of the loop of `fromString`: once the line ending at
      `lineEnd` is applied, what remains to apply is the rest of the text. */
  lemma ReadLineStep(R0: RuleMap, R1: RuleMap, text: string, lineBeg: nat, lineEnd: nat, toASCII: string -> string)
    requires lineBeg < |text| && lineEnd == LineEndAt(text, lineBeg)
    requires R1 == ApplyLine(R0, text[lineBeg..lineEnd], toASCII)
    ensures ApplyLines(R1, Lines(Unread(text, lineEnd + 1)), toASCII) == ApplyLines(R0, Lines(Unread(text, lineBeg)), toASCII)
  {
    LineStep(text, lineBeg, lineEnd);
    ApplyLinesCons(R0, text[lineBeg..lineEnd], Lines(Unread(text, lineBeg)), Lines(Unread(text, lineEnd + 1)), toASCII);
  }

  /** The break the loop of `fromString` finds with `indexOf` is the one
      `LineEndAt` names. */
  lemma LineEndFrom(text: string, lineBeg: nat, lineEnd: int)
    requires lineBeg <= |text|
    requires var nl := IndexOfFrom(text, '\n', lineBeg);
      var cr := IndexOfFrom(text, '\r', lineBeg);
      lineEnd == if nl >= 0 then nl else if cr >= 0 then cr else |text|
    ensures lineEnd == LineEndAt(text, lineBeg)
  {
    IndexOfFromBreak(text, '\n', lineBeg);
    IndexOfFromBreak(text, '\r', lineBeg);
  }

  lemma ApplyLinesCons(R: RuleMap, raw: string, lines: seq<string>, tail: seq<string>, toASCII: string -> string)
    requires lines == [raw] + tail
    ensures ApplyLines(R, lines, toASCII) == ApplyLines(ApplyLine(R, raw, toASCII), tail, toASCII)
  {
    assert lines[1..] == tail;
  }

  lemma {:induction false} ApplyLinesConcat(R: RuleMap, a: seq<string>, b: seq<string>, toASCII: string -> string)
    ensures ApplyLines(R, a + b, toASCII) == ApplyLines(ApplyLines(R, a, toASCII), b, toASCII)
    decreases |a|
  {
    if a == [] {
      assert a + b == b;
    } else {
      assert (a + b)[0] == a[0];
      assert (a + b)[1..] == a[1..] + b;
      ApplyLinesConcat(ApplyLine(R, a[0], toASCII), a[1..], b, toASCII);
    }
  }

  /** Applying a line keeps the store well formed. */
  lemma ApplyLineWellFormed(R: RuleMap, raw: string, toASCII: string -> string)
    requires WellFormed(R)
    ensures WellFormed(ApplyLine(R, raw, toASCII))
  {
    match ParseLine(raw, toASCII)
    case None =>
    case Some(p) => SetCellWellFormed(R, Key(p.src, p.des), p.ty, p.st);
  }

  /** Applying lines keeps the store well formed. */
  lemma {:induction false} ApplyLinesWellFormed(R: RuleMap, lines: seq<string>, toASCII: string -> string)
    requires WellFormed(R)
    ensures WellFormed(ApplyLines(R, lines, toASCII))
    decreases |lines|
  {
    if lines != [] {
      ApplyLineWellFormed(R, lines[0], toASCII);
      ApplyLinesWellFormed(ApplyLine(R, lines[0], toASCII), lines[1..], toASCII);
    }
  }

  /** Lines that are neither empty nor hold a line break. */
  predicate PlainLines(ls: seq<string>) {
    forall i :: 0 <= i < |ls| ==> ls[i] != [] && '\n' !in ls[i] && '\r' !in ls[i]
  }

  /** Splitting lines joined by `\n` gives the lines back. */
  lemma {:induction false} LinesOfJoin(ls: seq<string>)
    requires PlainLines(ls)
    ensures Lines(Join(ls, "\n")) == ls
    decreases |ls|
  {
    if |ls| == 1 {
      assert Join(ls, "\n") == ls[0];
      LinesOfPlain(ls[0]);
    } else if |ls| > 1 {
      LinesAfterBreak(ls[0], Join(ls[1..], "\n"));
      LinesOfJoin(ls[1..]);
      assert ls == [ls[0]] + ls[1..];
    }
  }

  /** A text without line breaks is read as one line. */
  lemma LinesOfPlain(l: string)
    requires l != [] && '\n' !in l && '\r' !in l
    ensures Lines(l) == [l]
  {
    LineEndSpec(l, 0);
    assert l[0..] == l;
    assert LineEndAt(l, 0) == |l|;
    assert l[0..|l|] == l;
    assert LinesFrom(l, |l| + 1) == [];
  }

  /** A line without `\n` followed by `\n` is read as that line, and
      reading goes on after the break. */
  lemma LinesAfterBreak(l: string, rest: string)
    requires '\n' !in l
    ensures Lines(l + "\n" + rest) == [l] + Lines(rest)
  {
    var text := l + "\n" + rest;
    assert text[|l|] == '\n';
    assert forall j :: 0 <= j < |l| ==> text[j] == l[j];
    BreakAtSpec(text, '\n', 0);
    assert LineEndAt(text, 0) == |l|;
    assert text[0..|l|] == l;
    LinesFromStep(text, 0, |l|, LinesFrom(text, |l| + 1));
    assert text[|l| + 1..] == rest;
    LinesFromDrop(text, |l| + 1, 0);
  }

  /** One line of `toString`: display source, display destination, type
      name and state name, separated by single spaces. */
  function RenderLine(src: string, des: string, ty: RequestType, st: State, toUnicode: string -> string): string
    requires st != 0
  {
    toUnicode(src) + " " + toUnicode(des) + " " + ty.Name() + " " + StateName(st)
  }

  /** The characters the type and state names are made of. */
  predicate IsNameChar(c: char) {
    ('a' <= c <= 'z') || ('0' <= c <= '9') || c == '-' || c == '*'
  }

  lemma NameCharsToken(name: string)
    requires |name| > 0 && forall j :: 0 <= j < |name| ==> IsNameChar(name[j])
    ensures IsToken(name) && '#' !in name
  {
  }

  lemma TypeNameIsToken(ty: RequestType)
    ensures IsToken(ty.Name()) && '#' !in ty.Name()
  {
    NameCharsToken(ty.Name());
  }

  lemma StateNameIsToken(st: State)
    requires st != 0
    ensures IsToken(StateName(st)) && '#' !in StateName(st)
  {
  }

  /** A display hostname that survives the trip through a rule line. */
  predicate Displayable(h: string) {
    IsToken(h) && '#' !in h
  }

  /** The fields of a rendered line. */
  function RenderedFields(src: string, des: string, ty: RequestType, st: State, toUnicode: string -> string): seq<string>
    requires st != 0
  {
    [toUnicode(src), toUnicode(des), ty.Name(), StateName(st)]
  }

  lemma RenderLineIsJoin(src: string, des: string, ty: RequestType, st: State, toUnicode: string -> string)
    requires st != 0
    ensures RenderLine(src, des, ty, st, toUnicode) == Join(RenderedFields(src, des, ty, st, toUnicode), " ")
  {
    var a, b, c, d := toUnicode(src), toUnicode(des), ty.Name(), StateName(st);
    JoinFour(a, b, c, d, " ");
  }

  /** A non-empty text that neither starts nor ends with white space and
      holds no `#` and no line break. */
  predicate Unbroken(s: string) {
    s != [] && Trimmed(s) && '#' !in s && '\n' !in s && '\r' !in s
  }

  lemma DisplayableUnbroken(s: string)
    requires Displayable(s)
    ensures Unbroken(s)
  {
    TokenHasNoBreak(s);
  }

  /** Two unbroken texts joined by a space form an unbroken text. */
  lemma JoinSpaced(x: string, y: string)
    requires Unbroken(x) && Unbroken(y)
    ensures Unbroken(x + " " + y)
  {
    var z := x + " " + y;
    assert z[0] == x[0] && z[|z| - 1] == y[|y| - 1];
    assert forall c :: c in z ==> c in x || c == ' ' || c in y;
  }

  /** Four fields without white space or `#`, joined by spaces, form a line
      that cleaning leaves alone and that holds no line break. */
  lemma CleanJoinedFields(fs: seq<string>)
    requires |fs| == 4 && forall i :: 0 <= i < 4 ==> Displayable(fs[i])
    ensures CleanLine(Join(fs, " ")) == Join(fs, " ")
    ensures '\n' !in Join(fs, " ") && '\r' !in Join(fs, " ")
    ensures Join(fs, " ") != []
  {
    var line := Join(fs, " ");
    assert fs == [fs[0], fs[1], fs[2], fs[3]];
    JoinFour(fs[0], fs[1], fs[2], fs[3], " ");
    DisplayableUnbroken(fs[0]);
    DisplayableUnbroken(fs[1]);
    DisplayableUnbroken(fs[2]);
    DisplayableUnbroken(fs[3]);
    JoinSpaced(fs[2], fs[3]);
    JoinSpaced(fs[1], fs[2] + " " + fs[3]);
    JoinSpaced(fs[0], fs[1] + " " + (fs[2] + " " + fs[3]));
    assert Unbroken(line);
    TrimSpec(line);
    IndexOfPairAbsent(line, '#', ' ');
  }

  /** A rendered rule line is a plain line that parses back into its rule. */
  lemma ParseRenderedLine(src: string, des: string, ty: RequestType, st: State,
                          toUnicode: string -> string, toASCII: string -> string)
    requires st != 0
    requires Displayable(toUnicode(src)) && Displayable(toUnicode(des))
    ensures PlainLines([RenderLine(src, des, ty, st, toUnicode)])
    ensures ParseLine(RenderLine(src, des, ty, st, toUnicode), toASCII) ==
            Some(ParsedRule(toASCII(toUnicode(src)), toASCII(toUnicode(des)), ty, st))
  {
    var fs := RenderedFields(src, des, ty, st, toUnicode);
    TypeNameIsToken(ty);
    StateNameIsToken(st);
    RenderLineIsJoin(src, des, ty, st, toUnicode);
    CleanJoinedFields(fs);
    TokensOfJoin(fs);
    NameRoundTrip(ty);
    StateNameRoundTrip(st);
  }

  lemma IndexOfPairAbsent(s: string, a: char, b: char)
    requires a !in s
    ensures IndexOfPair(s, a, b) == -1
  {
  }

  lemma TokenHasNoBreak(t: string)
    requires IsToken(t)
    ensures '\n' !in t && '\r' !in t
  {
    assert forall j :: 0 <= j < |t| ==> !IsSpace(t[j]);
  }

  /** The lines `toString` emits for key `k` and the first `n` types of
      `typeBitOffsets`. The key is split back into its hostnames, and each
      set cell gives one line. */
  function KeyLines(R: RuleMap, k: string, n: nat, toUnicode: string -> string): seq<string>
    requires n <= |AllTypes|
    decreases n
  {
    if n == 0 then [] else KeyLines(R, k, n - 1, toUnicode) + TypeLines(R, k, AllTypes[n - 1], toUnicode)
  }

  /** The line `toString` emits for key `k` and type `ty`, if its cell is set. */
  function TypeLines(R: RuleMap, k: string, ty: RequestType, toUnicode: string -> string): seq<string> {
    var src, des := SrcHostnameFromRule(k), DesHostnameFromRule(k);
    var v := CellOf(R, src, des, ty);
    if v != 0 then [RenderLine(src, des, ty, v, toUnicode)] else []
  }

  /** The lines `toString` emits when it visits the keys in the order given. */
  function RulesLines(R: RuleMap, keys: seq<string>, toUnicode: string -> string): seq<string>
    decreases |keys|
  {
    if keys == [] then []
    else RulesLines(R, keys[..|keys| - 1], toUnicode) + KeyLines(R, keys[|keys| - 1], |AllTypes|, toUnicode)
  }

  /** The lines of one more request type, for a key already split into
      its source and destination. */
  lemma KeyLinesStep(R: RuleMap, k: string, j: nat, src: string, des: string, toUnicode: string -> string)
    requires j < |AllTypes|
    requires src == SrcHostnameFromRule(k) && des == DesHostnameFromRule(k)
    ensures var ty := AllTypes[j];
      var v := CellOf(R, src, des, FieldOf(ty.Name()));
      KeyLines(R, k, j + 1, toUnicode) == KeyLines(R, k, j, toUnicode) + if v != 0 then [RenderLine(src, des, ty, v, toUnicode)] else []
  {
    NameRoundTrip(AllTypes[j]);
  }

  /** Visiting one more key appends that key's lines. */
  lemma RulesLinesSnoc(R: RuleMap, keys: seq<string>, k: string, toUnicode: string -> string)
    ensures RulesLines(R, keys + [k], toUnicode) == RulesLines(R, keys, toUnicode) + KeyLines(R, k, |AllTypes|, toUnicode)
  {
    assert (keys + [k])[..|keys|] == keys;
  }

  /** The text `toString` returns. */
  function RulesText(R: RuleMap, keys: seq<string>, toUnicode: string -> string): string {
    Join(RulesLines(R, keys, toUnicode), "\n")
  }

  /** A key that the text form carries faithfully: it splits at a space, and
      both hostnames show as tokens without `#` that `toASCII` maps back. */
  ghost predicate Portable(k: string, toUnicode: string -> string, toASCII: string -> string) {
    var src, des := SrcHostnameFromRule(k), DesHostnameFromRule(k);
    ' ' in k && Displayable(toUnicode(src)) && Displayable(toUnicode(des)) &&
    toASCII(toUnicode(src)) == src && toASCII(toUnicode(des)) == des
  }

  predicate Distinct(keys: seq<string>) {
    forall i, j :: 0 <= i < j < |keys| ==> keys[i] != keys[j]
  }

  lemma PlainConcat(a: seq<string>, b: seq<string>)
    requires PlainLines(a) && PlainLines(b)
    ensures PlainLines(a + b)
  {
    forall i | 0 <= i < |a + b| ensures (a + b)[i] != [] && '\n' !in (a + b)[i] && '\r' !in (a + b)[i] {
      if i < |a| {
        assert (a + b)[i] == a[i];
      } else {
        assert (a + b)[i] == b[i - |a|];
      }
    }
  }

  lemma {:induction false} KeyLinesPlain(R: RuleMap, k: string, n: nat, toUnicode: string -> string)
    requires n <= |AllTypes|
    requires Displayable(toUnicode(SrcHostnameFromRule(k))) && Displayable(toUnicode(DesHostnameFromRule(k)))
    ensures PlainLines(KeyLines(R, k, n, toUnicode))
    decreases n
  {
    if n > 0 {
      var src, des := SrcHostnameFromRule(k), DesHostnameFromRule(k);
      var ty := AllTypes[n - 1];
      var v := CellOf(R, src, des, ty);
      KeyLinesPlain(R, k, n - 1, toUnicode);
      if v != 0 {
        ParseRenderedLine(src, des, ty, v, toUnicode, toUnicode);
      }
      PlainConcat(KeyLines(R, k, n - 1, toUnicode), TypeLines(R, k, ty, toUnicode));
    }
  }

  lemma {:induction false} RulesLinesPlain(R: RuleMap, keys: seq<string>, toUnicode: string -> string, toASCII: string -> string)
    requires forall i :: 0 <= i < |keys| ==> Portable(keys[i], toUnicode, toASCII)
    ensures PlainLines(RulesLines(R, keys, toUnicode))
    decreases |keys|
  {
    if keys != [] {
      var last := keys[|keys| - 1];
      RulesLinesPlain(R, keys[..|keys| - 1], toUnicode, toASCII);
      assert Portable(last, toUnicode, toASCII);
      KeyLinesPlain(R, last, |AllTypes|, toUnicode);
      PlainConcat(RulesLines(R, keys[..|keys| - 1], toUnicode), KeyLines(R, last, |AllTypes|, toUnicode));
    }
  }

  lemma ApplySingle(M: RuleMap, line: string, toASCII: string -> string)
    ensures ApplyLines(M, [line], toASCII) == ApplyLine(M, line, toASCII)
  {
    assert [line][1..] == [];
  }

  /** `out` agrees with `M` on every key but `k`, holds `b` at `k`, and is
      well formed. */
  ghost predicate KeyRebuilt(out: RuleMap, M: RuleMap, k: string, b: Bitmap) {
    WellFormed(out) && Lookup(out, k) == b && forall k' :: k' != k ==> Lookup(out, k') == Lookup(M, k')
  }

  lemma KeyRebuiltTrans(M: RuleMap, A: RuleMap, B: RuleMap, k: string, a: Bitmap, b: Bitmap)
    requires KeyRebuilt(A, M, k, a) && KeyRebuilt(B, A, k, b)
    ensures KeyRebuilt(B, M, k, b)
  {
  }

  /** A stored key of a well-formed store that the text form carries
      faithfully. */
  ghost predicate KeySource(R: RuleMap, k: string, toUnicode: string -> string, toASCII: string -> string) {
    WellFormed(R) && k in R && Portable(k, toUnicode, toASCII)
  }

  /** Reading back the line of one type of key `k` adds that type's cell to
      the cells already rebuilt and leaves every other key alone. */
  lemma TypeLinesRebuild(M: RuleMap, R: RuleMap, k: string, j: nat,
                         toUnicode: string -> string, toASCII: string -> string)
    requires j < |AllTypes|
    requires WellFormed(M) && WellFormed(R) && k in R && Lookup(M, k) == Prefix(R[k], j)
    requires Portable(k, toUnicode, toASCII)
    ensures KeyRebuilt(ApplyLines(M, TypeLines(R, k, AllTypes[j], toUnicode), toASCII), M, k, Prefix(R[k], j + 1))
  {
    var src, des := SrcHostnameFromRule(k), DesHostnameFromRule(k);
    var ty := AllTypes[j];
    var v := CellOf(R, src, des, ty);
    JoinKey(k);
    assert v == Cell(R[k], ty);
    var p := Prefix(R[k], j);
    PrefixStep(R[k], j);
    AllTypesIndex(j);
    if v != 0 {
      var line := RenderLine(src, des, ty, v, toUnicode);
      ParseRenderedLine(src, des, ty, v, toUnicode, toASCII);
      ApplySingle(M, line, toASCII);
      assert ApplyLine(M, line, toASCII) == SetCellRules(M, k, ty, v);
      SetCellWellFormed(M, k, ty, v);
      forall k' ensures Lookup(SetCellRules(M, k, ty, v), k') == if k' == k then Put(p, ty, v) else Lookup(M, k') {
        SetCellLookup(M, k, ty, v, k');
      }
    } else {
      assert Cell(p, ty) == 0;
      PutUnchanged(p, ty, 0);
    }
  }

  /** Reading back the lines of one key into a store where the key is
      absent rebuilds the cells of the first `n` types and leaves every other
      key alone. */
  lemma {:induction false} KeyLinesRebuild(M: RuleMap, R: RuleMap, k: string, n: nat,
                                           toUnicode: string -> string, toASCII: string -> string)
    requires n <= |AllTypes| && KeySource(R, k, toUnicode, toASCII)
    requires WellFormed(M) && Lookup(M, k) == 0
    ensures KeyRebuilt(ApplyLines(M, KeyLines(R, k, n, toUnicode), toASCII), M, k, Prefix(R[k], n))
    decreases n, 1
  {
    if n == 0 {
      PrefixNone(R[k]);
    } else {
      KeyLinesRebuildStep(M, R, k, n - 1, KeyLines(R, k, n, toUnicode), toUnicode, toASCII);
    }
  }

  /** The lines of the first `j + 1` types of key `k`: those of the first
      `j` types, then the line of type `j`, read on top of them. */
  lemma {:induction false} KeyLinesRebuildStep(M: RuleMap, R: RuleMap, k: string, j: nat, lines: seq<string>,
                                               toUnicode: string -> string, toASCII: string -> string)
    requires j < |AllTypes| && KeySource(R, k, toUnicode, toASCII)
    requires WellFormed(M) && Lookup(M, k) == 0
    requires lines == KeyLines(R, k, j + 1, toUnicode)
    ensures KeyRebuilt(ApplyLines(M, lines, toASCII), M, k, Prefix(R[k], j + 1))
    decreases j + 1, 0
  {
    var front := KeyLines(R, k, j, toUnicode);
    var extra := TypeLines(R, k, AllTypes[j], toUnicode);
    KeyLinesRebuild(M, R, k, j, toUnicode, toASCII);
    var A := ApplyLines(M, front, toASCII);
    ApplyLinesConcat(M, front, extra, toASCII);
    TypeLinesRebuild(A, R, k, j, toUnicode, toASCII);
    KeyRebuiltTrans(M, A, ApplyLines(A, extra, toASCII), k, Prefix(R[k], j), Prefix(R[k], j + 1));
  }

  /** `out` is well formed and holds exactly the keys of `keys`, each as in `R`. */
  ghost predicate Rebuilt(out: RuleMap, R: RuleMap, keys: seq<string>)
    requires forall i :: 0 <= i < |keys| ==> keys[i] in R
  {
    WellFormed(out) && forall k :: Lookup(out, k) == if k in keys then R[k] else 0
  }

  /** Distinct stored keys of a well-formed store that the text form
      carries faithfully. */
  ghost predicate KeySources(R: RuleMap, keys: seq<string>, toUnicode: string -> string, toASCII: string -> string) {
    WellFormed(R) && Distinct(keys) && forall i :: 0 <= i < |keys| ==> keys[i] in R && Portable(keys[i], toUnicode, toASCII)
  }

  /** Splitting off the last of such keys leaves such keys that do not hold
      it. */
  lemma KeySourcesFront(R: RuleMap, keys: seq<string>, toUnicode: string -> string, toASCII: string -> string)
    requires KeySources(R, keys, toUnicode, toASCII) && keys != []
    ensures KeySources(R, keys[..|keys| - 1], toUnicode, toASCII)
    ensures KeySource(R, keys[|keys| - 1], toUnicode, toASCII)
    ensures keys[|keys| - 1] !in keys[..|keys| - 1]
  {
    var front := keys[..|keys| - 1];
    forall i | 0 <= i < |front| ensures front[i] == keys[i] && front[i] != keys[|keys| - 1] {
    }
  }

  /** Rebuilding the last key on top of the others rebuilds them all. */
  lemma RebuiltSnoc(M: RuleMap, out: RuleMap, R: RuleMap, keys: seq<string>)
    requires keys != [] && forall i :: 0 <= i < |keys| ==> keys[i] in R
    requires Rebuilt(M, R, keys[..|keys| - 1])
    requires KeyRebuilt(out, M, keys[|keys| - 1], R[keys[|keys| - 1]])
    ensures Rebuilt(out, R, keys)
  {
    MemberOfFrontOrLast(keys);
  }

  /** Reading back the lines of distinct keys into an empty store rebuilds
      exactly those keys. */
  lemma {:induction false} RulesLinesRebuild(R: RuleMap, keys: seq<string>,
                                             toUnicode: string -> string, toASCII: string -> string)
    requires KeySources(R, keys, toUnicode, toASCII)
    ensures Rebuilt(ApplyLines(map[], RulesLines(R, keys, toUnicode), toASCII), R, keys)
    decreases |keys|, 1
  {
    if keys != [] {
      RulesLinesRebuildStep(R, keys, RulesLines(R, keys, toUnicode), toUnicode, toASCII);
    }
  }

  /** The lines of non-empty distinct keys: those of all but the last key,
      then those of the last key, read on top of them. */
  lemma {:induction false} RulesLinesRebuildStep(R: RuleMap, keys: seq<string>, lines: seq<string>,
                                                 toUnicode: string -> string, toASCII: string -> string)
    requires KeySources(R, keys, toUnicode, toASCII) && keys != []
    requires lines == RulesLines(R, keys, toUnicode)
    ensures Rebuilt(ApplyLines(map[], lines, toASCII), R, keys)
    decreases |keys|, 0
  {
    var front, last := keys[..|keys| - 1], keys[|keys| - 1];
    var frontLines, lastLines := RulesLines(R, front, toUnicode), KeyLines(R, last, |AllTypes|, toUnicode);
    KeySourcesFront(R, keys, toUnicode, toASCII);
    RulesLinesRebuild(R, front, toUnicode, toASCII);
    var M := ApplyLines(map[], frontLines, toASCII);
    ApplyLinesConcat(map[], frontLines, lastLines, toASCII);
    LastKeyRebuild(M, R, keys, toUnicode, toASCII);
  }

  /** Reading back the lines of the last key on top of a store that holds
      exactly the keys before it rebuilds all the keys. */
  lemma LastKeyRebuild(M: RuleMap, R: RuleMap, keys: seq<string>, toUnicode: string -> string, toASCII: string -> string)
    requires keys != [] && forall i :: 0 <= i < |keys| ==> keys[i] in R
    requires Rebuilt(M, R, keys[..|keys| - 1]) && keys[|keys| - 1] !in keys[..|keys| - 1]
    requires KeySource(R, keys[|keys| - 1], toUnicode, toASCII)
    ensures Rebuilt(ApplyLines(M, KeyLines(R, keys[|keys| - 1], |AllTypes|, toUnicode), toASCII), R, keys)
  {
    var last := keys[|keys| - 1];
    KeyLinesRebuild(M, R, last, |AllTypes|, toUnicode, toASCII);
    PrefixAll(R[last]);
    RebuiltSnoc(M, ApplyLines(M, KeyLines(R, last, |AllTypes|, toUnicode), toASCII), R, keys);
  }

  lemma MemberOfFrontOrLast(keys: seq<string>)
    requires keys != []
    ensures forall k :: k in keys <==> k in keys[..|keys| - 1] || k == keys[|keys| - 1]
  {
    assert keys == keys[..|keys| - 1] + [keys[|keys| - 1]];
  }

  /** Parsing the text of `toString` into an empty store gives the store
      back, whatever order the keys were visited in. */
  lemma ToStringRoundTrip(R: RuleMap, keys: seq<string>, toUnicode: string -> string, toASCII: string -> string)
    requires WellFormed(R) && Distinct(keys)
    requires forall k :: k in keys <==> k in R
    requires forall k :: k in R ==> Portable(k, toUnicode, toASCII)
    ensures ApplyLines(map[], Lines(RulesText(R, keys, toUnicode)), toASCII) == R
  {
    RulesLinesPlain(R, keys, toUnicode, toASCII);
    LinesOfJoin(RulesLines(R, keys, toUnicode));
    RulesLinesRebuild(R, keys, toUnicode, toASCII);
    var M := ApplyLines(map[], RulesLines(R, keys, toUnicode), toASCII);
    assert Rebuilt(M, R, keys);
    LookupsDetermineRules(M, R);
  }
}
