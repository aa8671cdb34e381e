/** The dynamic filtering matrix: a rule store plus the four registers that
    the last evaluation leaves behind, with the operations of the `Matrix`
    object. Each method is proved against the pure functions of the
    `Rules`, `Evaluation`, `Mutators`, `Codec` and `Legacy` modules. */
module DynamicNetFiltering {
  import opened StringOps
  import opened Hostnames
  import opened Bitmaps
  import opened Rules
  import opened Evaluation
  import opened Mutators
  import opened Codec
  import opened Legacy

  /** The tag that marks a snapshot of the store. */
  const MagicId: string := "chmdgxwtetgu"

  /** A snapshot of the store, as `toSelfie` returns it. */
  datatype Selfie = Selfie(magicId: string, rules: RuleMap)

  class Matrix {
    var r: State
    var typ: string
    var y: string
    var z: string
    var rules: RuleMap

    /** Every stored bitmap has a set cell and no stray bits. */
    ghost predicate Valid()
      reads this
    {
      WellFormed(rules)
    }

    function Registers(): Regs
      reads this
    {
      Regs(r, typ, y, z)
    }

    constructor ()
      ensures Valid() && rules == map[] && Registers() == Regs(0, "", "", "")
    {
      r, typ, y, z := 0, "", "", "";
      rules := map[];
    }

    /** Empties the store and clears the registers. */
    method Reset()
      modifies this
      ensures Valid() && rules == map[] && Registers() == Regs(0, "", "", "")
    {
      r, typ, y, z := 0, "", "", "";
      rules := map[];
    }

    method ClearRegisters()
      modifies this`r, this`typ, this`y, this`z
      ensures Registers() == Regs(0, "", "", "")
    {
      r, typ, y, z := 0, "", "", "";
    }

    /** Writes one cell. The new bitmap is stored, the key deleted when the
        bitmap drops to 0, and nothing written when it is unchanged; the
        result says whether the bitmap changed. */
    method SetCell(src: string, des: string, t: string, st: State) returns (changed: bool)
      modifies this`rules
      ensures rules == SetCellRules(old(rules), Key(src, des), FieldOf(t), st)
      ensures CellOf(rules, src, des, FieldOf(t)) == st
      ensures forall k, ty :: (k != Key(src, des) || ty != FieldOf(t)) ==> CellAt(rules, k, ty) == CellAt(old(rules), k, ty)
      ensures old(Valid()) ==> Valid()
      ensures old(Valid()) ==> (changed <==> rules != old(rules)) && (changed <==> CellOf(old(rules), src, des, FieldOf(t)) != st)
    {
      var k := src + " " + des;
      var oldBitmap: Bitmap := if k in rules then rules[k] else 0;
      var newBitmap := Put(oldBitmap, FieldOf(t), st);
      SetCellCells(rules, k, FieldOf(t), st);
      if Valid() {
        SetCellWellFormed(rules, k, FieldOf(t), st);
        SetCellChangedIff(rules, k, FieldOf(t), st);
      }
      if newBitmap == oldBitmap {
        return false;
      }
      if newBitmap == 0 {
        rules := rules - {k};
      } else {
        rules := rules[k := newBitmap];
      }
      return true;
    }

    /** The exact cell of `(src, des, t)`: 0 when the key is absent, and the
        `*` cell when `t` names no request type. */
    function EvaluateCell(src: string, des: string, t: string): (v: State)
      reads this
      ensures v == CellOf(rules, src, des, FieldOf(t))
      ensures Key(src, des) !in rules ==> v == Unset
      ensures !IsKnownType(t) ==> v == CellOf(rules, src, des, Any)
    {
      var k := src + " " + des;
      if k !in rules then 0 else Cell(rules[k], FieldOf(t))
    }

    /** Walks the sources from `src` outwards for the destination `des`,
        keeping the last source probed in `z`. */
    method EvaluateCellZ(src: string, des: string, t: string) returns (v: State)
      modifies this`z
      ensures Hit(v, z) == ZHit(rules, SrcChain(src), des, FieldOf(t))
    {
      var ty := FieldOf(t);
      var s := src;
      while true
        invariant ZHit(rules, SrcChain(s), des, ty) == ZHit(rules, SrcChain(src), des, ty)
        decreases if s == "*" then 0 else |s| + 1
      {
        z := s;
        SrcChainNext(s);
        var k := s + " " + des;
        if k in rules {
          var c := Cell(rules[k], ty);
          if c != 0 {
            return c;
          }
        }
        BroadenShortens(s);
        s := Broaden(s);
        if s == "" {
          break;
        }
      }
      return 0;
    }

    /** Resolves `(src, des, t)`: the destinations from `des` outwards and
        then `*`, each with the walk of `EvaluateCellZ`, until a set cell is
        met. An unknown type clears `r` and `typ` and leaves `y` and `z`. */
    method EvaluateCellZY(src: string, des: string, t: string)
      modifies this`r, this`typ, this`y, this`z
      ensures Registers() == EvalRegs(old(Registers()), rules, src, des, t)
    {
      if !IsKnownType(t) {
        typ := "";
        r := 0;
        return;
      }
      var ty := FieldOf(t);
      assert TypeFromName(t) == Some(ty);
      ghost var srcs := SrcChain(src);
      typ := t;
      y := des;
      r := EvaluateCellZ(src, des, t);
      ZYHitFirst(rules, srcs, DesOrder(des), ty);
      if r != 0 {
        return;
      }
      var d := des;
      while true
        invariant typ == t && r == 0
        invariant Resolve(rules, src, des, ty) == ZYHit(rules, srcs, DesOrder(d)[1..], ty)
        decreases |d|
      {
        DesOrderNext(d);
        BroadenShortens(d);
        d := Broaden(d);
        if d == "*" {
          break;
        }
        y := d;
        r := EvaluateCellZ(src, d, t);
        ZYHitFirst(rules, srcs, DesOrder(d), ty);
        if r != 0 {
          return;
        }
      }
      y := "*";
      r := EvaluateCellZ(src, "*", t);
    }

    /** Removes the exact rule of a cell whose verdict is set, and reports
        whether the verdict was set. */
    method UnsetCell(src: string, des: string, t: string) returns (done: bool)
      modifies this
      ensures rules == UnsetCellRules(old(rules), src, des, t)
      ensures done == (ResolvedState(old(rules), src, des, t) != 0)
      ensures Registers() == EvalRegs(old(Registers()), old(rules), src, des, t)
      ensures old(Valid()) ==> Valid()
    {
      EvaluateCellZY(src, des, t);
      if r == 0 {
        return false;
      }
      var _ := SetCell(src, des, t, 0);
      return true;
    }

    /** Makes the verdict of `(src, des, t)` equal `action` with the fewest
        rules: when clearing the exact cell already yields `action` through
        inheritance, the cell stays clear. The result says whether the
        verdict was not yet `action`. */
    method SetCellZ(src: string, des: string, t: string, action: State) returns (changed: bool)
      modifies this
      ensures rules == SetCellZRules(old(rules), src, des, t, action)
      ensures changed == (ResolvedState(old(rules), src, des, t) != action)
      ensures Registers() == EvalRegs(old(Registers()), SetCellZLastEvaluated(old(rules), src, des, t, action), src, des, t)
      ensures old(Valid()) ==> Valid()
    {
      ghost var regs0 := Registers();
      EvaluateCellZY(src, des, t);
      ResolvedStateIsRegister(regs0, rules, src, des, t);
      if r == action {
        return false;
      }
      ghost var regs1 := Registers();
      var _ := SetCell(src, des, t, 0);
      EvaluateCellZY(src, des, t);
      ResolvedStateIsRegister(regs1, rules, src, des, t);
      EvalRegsOverwrite(regs0, old(rules), rules, src, des, t);
      if r == action {
        return true;
      }
      var _ := SetCell(src, des, t, action);
      return true;
    }

    method BlockCell(src: string, des: string, t: string) returns (changed: bool)
      modifies this
      ensures rules == SetCellZRules(old(rules), src, des, t, Block)
      ensures changed == (ResolvedState(old(rules), src, des, t) != Block)
      ensures Registers() == EvalRegs(old(Registers()), SetCellZLastEvaluated(old(rules), src, des, t, Block), src, des, t)
      ensures old(Valid()) ==> Valid()
    {
      changed := SetCellZ(src, des, t, Block);
    }

    method AllowCell(src: string, des: string, t: string) returns (changed: bool)
      modifies this
      ensures rules == SetCellZRules(old(rules), src, des, t, Allow)
      ensures changed == (ResolvedState(old(rules), src, des, t) != Allow)
      ensures Registers() == EvalRegs(old(Registers()), SetCellZLastEvaluated(old(rules), src, des, t, Allow), src, des, t)
      ensures old(Valid()) ==> Valid()
    {
      changed := SetCellZ(src, des, t, Allow);
    }

    /** Whether the last verdict is noop. */
    function MustAbort(): (b: bool)
      reads this
      ensures b <==> r == Noop
    {
      r == 3
    }

    /** Whether the last verdict is block or allow: set, and not noop. */
    function MustBlockOrAllow(): (b: bool)
      reads this
      ensures b <==> r != Unset && !MustAbort()
    {
      r == 1 || r == 2
    }

    /** Evaluates `(src, des, t)` and reports whether the verdict is block. */
    method MustBlock(src: string, des: string, t: string) returns (b: bool)
      modifies this`r, this`typ, this`y, this`z
      ensures Registers() == EvalRegs(old(Registers()), rules, src, des, t)
      ensures b <==> ResolvedState(rules, src, des, t) == Block
    {
      EvaluateCellZY(src, des, t);
      b := r == 1;
    }

    /** The filter text of the last verdict: a `d` tag, the verdict's
        initial and a colon, then source, destination, type and state name
        separated by spaces; empty when no type or no verdict is held. */
    function ToFilterString(): (s: string)
      reads this
      ensures s == "" <==> typ == "" || r == Unset
      ensures s != "" ==> s == ['d', StateName(r)[0], ':'] + Join([z, y, typ, StateName(r)], " ")
    {
      if typ == "" then ""
      else if r == 1 then
        HeadAndFields("db:", z, y, typ, " block", "block");
        "db:" + z + " " + y + " " + typ + " block"
      else if r == 2 then
        HeadAndFields("da:", z, y, typ, " allow", "allow");
        "da:" + z + " " + y + " " + typ + " allow"
      else if r == 3 then
        HeadAndFields("dn:", z, y, typ, " noop", "noop");
        "dn:" + z + " " + y + " " + typ + " noop"
      else ""
    }

    /** The lines `toString` emits for one key, one per set cell, in the
        order of the request types. */
    method KeyText(rule: string, src: string, des: string, toUnicode: string -> string) returns (lines: seq<string>)
      requires src == SrcHostnameFromRule(rule) && des == DesHostnameFromRule(rule)
      ensures lines == KeyLines(rules, rule, |AllTypes|, toUnicode)
    {
      lines := [];
      for j := 0 to |AllTypes|
        invariant lines == KeyLines(rules, rule, j, toUnicode)
      {
        var ty := AllTypes[j];
        KeyLinesStep(rules, rule, j, src, des, toUnicode);
        var v := EvaluateCell(src, des, ty.Name());
        if v != 0 {
          lines := lines + [RenderLine(src, des, ty, v, toUnicode)];
        }
      }
    }

    /** The text form of the store: for every key, visited in some order,
        one line per set cell in the order of the request types. */
    method ToString(toUnicode: string -> string) returns (text: string, ghost order: seq<string>)
      ensures Distinct(order) && forall k :: k in order <==> k in rules
      ensures text == RulesText(rules, order, toUnicode)
    {
      var out: seq<string> := [];
      var remaining := rules.Keys;
      order := [];
      while remaining != {}
        invariant remaining <= rules.Keys
        invariant forall k :: k in rules ==> (k in order <==> k !in remaining)
        invariant forall k :: k in order ==> k in rules
        invariant Distinct(order)
        invariant out == RulesLines(rules, order, toUnicode)
        decreases |remaining|
      {
        var rule :| rule in remaining;
        var src := SrcHostnameFromRule(rule);
        var des := DesHostnameFromRule(rule);
        var lines := KeyText(rule, src, des, toUnicode);
        out := out + lines;
        RulesLinesSnoc(rules, order, rule, toUnicode);
        order := order + [rule];
        remaining := remaining - {rule};
      }
      text := Join(out, "\n");
    }

    /** Reads rules from text, one per line, applying each accepted line
        with `SetCell`. The `append` flag is accepted and not used. */
    method FromString(text: string, append: bool, toASCII: string -> string)
      modifies this`rules
      ensures rules == ApplyLines(old(rules), Lines(text), toASCII)
      ensures old(Valid()) ==> Valid()
    {
      var textEnd := |text|;
      var lineBeg: nat := 0;
      AllUnread(text);
      while lineBeg < textEnd
        invariant ApplyLines(rules, Lines(Unread(text, lineBeg)), toASCII) == ApplyLines(old(rules), Lines(text), toASCII)
        decreases textEnd - lineBeg
      {
        var lineEnd := ReadLineAt(text, lineBeg, toASCII);
        lineBeg := lineEnd + 1;
      }
      NothingUnread(text, lineBeg);
      if old(Valid()) {
        ApplyLinesWellFormed(old(rules), Lines(text), toASCII);
      }
    }

    /** One turn of the loop of `fromString`: find where the line that
        starts at `lineBeg` ends (the first `\n` from there, else the first
        `\r`, else the end of the text) and apply it. What is left to apply
        afterwards is the lines after its line break. */
    method ReadLineAt(text: string, lineBeg: nat, toASCII: string -> string) returns (lineEnd: nat)
      requires lineBeg < |text|
      modifies this`rules
      ensures lineBeg <= lineEnd <= |text|
      ensures ApplyLines(rules, Lines(Unread(text, lineEnd + 1)), toASCII)
           == ApplyLines(old(rules), Lines(Unread(text, lineBeg)), toASCII)
    {
      var textEnd := |text|;
      var found := IndexOfFrom(text, '\n', lineBeg);
      if found < 0 {
        found := IndexOfFrom(text, '\r', lineBeg);
        if found < 0 {
          found := textEnd;
        }
      }
      LineEndFrom(text, lineBeg, found);
      lineEnd := found;
      var line := Trim(text[lineBeg..lineEnd]);
      ApplyTrimmedLine(line, text[lineBeg..lineEnd], toASCII);
      ReadLineStep(old(rules), rules, text, lineBeg, lineEnd, toASCII);
    }

    /** The body of the loop of `fromString` once the raw line is trimmed:
        cut the comment, split into fields, reject what does not parse, and
        write the cell of what does. */
    method ApplyTrimmedLine(line: string, ghost raw: string, toASCII: string -> string)
      requires line == Trim(raw)
      modifies this`rules
      ensures rules == ApplyLine(old(rules), raw, toASCII)
    {
      var line := line;
      var pos := IndexOfPair(line, '#', ' ');
      if pos != -1 {
        line := Trim(Slice(line, 0, pos));
      }
      assert line == CleanLine(raw);
      if line == "" {
        ApplyBlankLine(rules, raw, toASCII);
        return;
      }
      var fields := Tokens(line);
      ApplyLineFields(rules, raw, fields, toASCII);
      if |fields| < 2 {
        return;
      }
      var srcHostname := toASCII(fields[0]);
      var desHostname := toASCII(fields[1]);
      var typeName: string;
      if |fields| > 2 {
        typeName := fields[2];
        if !IsKnownType(typeName) {
          return;
        }
      } else {
        typeName := "*";
      }
      var state: State;
      if |fields| > 3 {
        var named := NameToState(fields[3]);
        if named.None? {
          return;
        }
        state := named.value;
      } else {
        state := 2;
      }
      ParseFieldsAccepted(fields, toASCII);
      var _ := SetCell(srcHostname, desHostname, typeName, state);
    }

    /** One 2-bit field of an old filter: 1 becomes a block rule and 2 a
        noop rule for `hostname` and destination `*`; other values write
        nothing. */
    method MigrateField(hostname: string, ty: RequestType, val: bv32)
      modifies this`rules
      ensures rules == LegacyStep(old(rules), Key(hostname, "*"), ty, val)
    {
      NameRoundTrip(ty);
      if val == 1 {
        var _ := SetCell(hostname, "*", ty.Name(), 1);
      } else if val == 2 {
        var _ := SetCell(hostname, "*", ty.Name(), 3);
      }
    }

    /** Translates the per-hostname filters of the old format into rules
        with destination `*`: in each 2-bit field, 1 becomes block and 2
        becomes noop. */
    method FromObsoleteSelfie(filters: map<string, bv32>)
      modifies this`rules
      ensures forall k, ty :: CellAt(rules, k, ty) == MigratedCell(old(rules), filters, filters.Keys, k, ty)
      ensures old(Valid()) ==> Valid()
    {
      var remaining := filters.Keys;
      ghost var done: set<string> := {};
      while remaining != {}
        invariant remaining <= filters.Keys && done == filters.Keys - remaining
        invariant forall k, ty :: CellAt(rules, k, ty) == MigratedCell(old(rules), filters, done, k, ty)
        invariant old(Valid()) ==> Valid()
        decreases |remaining|
      {
        var hostname :| hostname in remaining;
        var bits := filters[hostname];
        ghost var before := rules;
        MigrateField(hostname, InlineScript, bits & 3);
        MigrateField(hostname, FirstPartyScript, (bits >> 2) & 3);
        MigrateField(hostname, ThirdPartyScript, (bits >> 4) & 3);
        MigrateField(hostname, ThirdPartyFrame, (bits >> 8) & 3);
        assert rules == MigrateHost(before, hostname, bits);
        MigrateOneMore(old(rules), before, filters, done, hostname);
        MigrateHostCells(before, hostname, bits);
        remaining := remaining - {hostname};
        done := done + {hostname};
      }
    }

    /** A snapshot of the store under the magic tag. */
    function ToSelfie(): (s: Selfie)
      reads this
      ensures s.magicId == MagicId && s.rules == rules
    {
      Selfie(MagicId, rules)
    }

    /** Replaces the store by the one in a snapshot. */
    method FromSelfie(s: Selfie)
      modifies this`rules
      ensures rules == s.rules
      ensures WellFormed(s.rules) ==> Valid()
    {
      rules := s.rules;
    }
  }
}
