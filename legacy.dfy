/** The translation `fromObsoleteSelfie` applies to the filters of the old
    per-hostname format: four 2-bit fields per hostname, where 1 meant
    block and 2 meant noop, each becoming a rule with destination `*`. */
module Legacy {
  import opened Bitmaps
  import opened Rules

  /** The field of the old format that feeds each request type: inline
      scripts from bits 0-1, first-party scripts from bits 2-3, third-party
      scripts from bits 4-5 and frames from bits 8-9; `*` and `image` have
      no field. */
  function LegacyField(bits: bv32, ty: RequestType): (v: bv32)
    ensures v <= 3
  {
    match ty
    case Any => 0
    case InlineScript => bits & 3
    case FirstPartyScript => (bits >> 2) & 3
    case ThirdPartyScript => (bits >> 4) & 3
    case ThirdPartyFrame => (bits >> 8) & 3
    case Image => 0
  }

  /** The state an old field puts into a cell: 1 gives block, 2 gives noop,
      and anything else leaves the cell as it was. */
  function LegacyState(before: State, v: bv32): State {
    if v == 1 then Block else if v == 2 then Noop else before
  }

  /** One field of the translation: the `setCell` it makes, if any. */
  function LegacyStep(R: RuleMap, k: string, ty: RequestType, v: bv32): RuleMap {
    if v == 1 then SetCellRules(R, k, ty, Block)
    else if v == 2 then SetCellRules(R, k, ty, Noop)
    else R
  }

  /** The store after the four fields of hostname `h` are translated into
      rules of the key `h *`. */
  function MigrateHost(R: RuleMap, h: string, bits: bv32): RuleMap {
    var k := Key(h, "*");
    var r1 := LegacyStep(R, k, InlineScript, LegacyField(bits, InlineScript));
    var r2 := LegacyStep(r1, k, FirstPartyScript, LegacyField(bits, FirstPartyScript));
    var r3 := LegacyStep(r2, k, ThirdPartyScript, LegacyField(bits, ThirdPartyScript));
    LegacyStep(r3, k, ThirdPartyFrame, LegacyField(bits, ThirdPartyFrame))
  }

  /** One field changes at most its own cell, to the state it encodes. */
  lemma LegacyStepCell(R: RuleMap, k: string, ty: RequestType, v: bv32, k': string, ty': RequestType)
    ensures CellAt(LegacyStep(R, k, ty, v), k', ty') ==
      (if k' == k && ty' == ty then LegacyState(CellAt(R, k, ty), v) else CellAt(R, k', ty'))
  {
    if v == 1 || v == 2 {
      var st: State := if v == 1 then Block else Noop;
      SetCellLookup(R, k, ty, st, k');
    }
  }

  lemma LegacyStepWellFormed(R: RuleMap, k: string, ty: RequestType, v: bv32)
    requires WellFormed(R)
    ensures WellFormed(LegacyStep(R, k, ty, v))
  {
    if v == 1 || v == 2 {
      SetCellWellFormed(R, k, ty, if v == 1 then Block else Noop);
    }
  }

  /** Translating hostname `h` sets each of the four cells of `h *` from its
      old field, and changes no other cell of any key. */
  lemma MigrateHostCells(R: RuleMap, h: string, bits: bv32)
    ensures forall k, ty :: (CellAt(MigrateHost(R, h, bits), k, ty) ==
      if k == Key(h, "*") then LegacyState(CellAt(R, k, ty), LegacyField(bits, ty)) else CellAt(R, k, ty))
    ensures WellFormed(R) ==> WellFormed(MigrateHost(R, h, bits))
  {
    forall k, ty ensures CellAt(MigrateHost(R, h, bits), k, ty) ==
      (if k == Key(h, "*") then LegacyState(CellAt(R, k, ty), LegacyField(bits, ty)) else CellAt(R, k, ty))
    {
      MigrateHostCell(R, h, bits, k, ty);
    }
    if WellFormed(R) {
      MigrateHostWellFormed(R, h, bits);
    }
  }

  /** One cell after translating hostname `h`. */
  lemma MigrateHostCell(R: RuleMap, h: string, bits: bv32, k': string, ty': RequestType)
    ensures CellAt(MigrateHost(R, h, bits), k', ty') ==
      if k' == Key(h, "*") then LegacyState(CellAt(R, k', ty'), LegacyField(bits, ty')) else CellAt(R, k', ty')
  {
    var k := Key(h, "*");
    var r1 := LegacyStep(R, k, InlineScript, LegacyField(bits, InlineScript));
    var r2 := LegacyStep(r1, k, FirstPartyScript, LegacyField(bits, FirstPartyScript));
    var r3 := LegacyStep(r2, k, ThirdPartyScript, LegacyField(bits, ThirdPartyScript));
    LegacyStepCell(R, k, InlineScript, LegacyField(bits, InlineScript), k', ty');
    LegacyStepCell(r1, k, FirstPartyScript, LegacyField(bits, FirstPartyScript), k', ty');
    LegacyStepCell(r2, k, ThirdPartyScript, LegacyField(bits, ThirdPartyScript), k', ty');
    LegacyStepCell(r3, k, ThirdPartyFrame, LegacyField(bits, ThirdPartyFrame), k', ty');
  }

  lemma MigrateHostWellFormed(R: RuleMap, h: string, bits: bv32)
    requires WellFormed(R)
    ensures WellFormed(MigrateHost(R, h, bits))
  {
    var k := Key(h, "*");
    var r1 := LegacyStep(R, k, InlineScript, LegacyField(bits, InlineScript));
    var r2 := LegacyStep(r1, k, FirstPartyScript, LegacyField(bits, FirstPartyScript));
    var r3 := LegacyStep(r2, k, ThirdPartyScript, LegacyField(bits, ThirdPartyScript));
    LegacyStepWellFormed(R, k, InlineScript, LegacyField(bits, InlineScript));
    LegacyStepWellFormed(r1, k, FirstPartyScript, LegacyField(bits, FirstPartyScript));
    LegacyStepWellFormed(r2, k, ThirdPartyScript, LegacyField(bits, ThirdPartyScript));
    LegacyStepWellFormed(r3, k, ThirdPartyFrame, LegacyField(bits, ThirdPartyFrame));
  }

  /** The hostname whose legacy filters translate into key `k`, if any:
      keys of the form `h *` with `h` among the filters. */
  function LegacyHost(k: string): (h: string)
    requires |k| >= 2
  {
    k[..|k| - 2]
  }

  predicate IsLegacyKey(k: string, hosts: set<string>) {
    |k| >= 2 && k[|k| - 2..] == " *" && LegacyHost(k) in hosts
  }

  lemma LegacyKeyOfHost(h: string, hosts: set<string>)
    ensures IsLegacyKey(Key(h, "*"), hosts) <==> h in hosts
    ensures LegacyHost(Key(h, "*")) == h
  {
    var k := Key(h, "*");
    assert k[|k| - 2..] == " *";
    assert k[..|k| - 2] == h;
  }

  /** Each cell after translating the filters of the hostnames in `done`,
      stated per cell and so independent of the order they were visited in. */
  function MigratedCell(R: RuleMap, filters: map<string, bv32>, done: set<string>, k: string, ty: RequestType): State
    requires done <= filters.Keys
  {
    if IsLegacyKey(k, done) then LegacyState(CellAt(R, k, ty), LegacyField(filters[LegacyHost(k)], ty))
    else CellAt(R, k, ty)
  }

  /** Translating one more hostname extends the per-cell description by
      that hostname. */
  lemma MigrateOneMore(R0: RuleMap, R: RuleMap, filters: map<string, bv32>, done: set<string>, h: string)
    requires done <= filters.Keys && h in filters && h !in done
    requires forall k, ty :: CellAt(R, k, ty) == MigratedCell(R0, filters, done, k, ty)
    ensures forall k, ty :: CellAt(MigrateHost(R, h, filters[h]), k, ty) == MigratedCell(R0, filters, done + {h}, k, ty)
  {
    MigrateHostCells(R, h, filters[h]);
    LegacyKeyOfHost(h, done);
    LegacyKeyOfHost(h, done + {h});
    forall k, ty ensures CellAt(MigrateHost(R, h, filters[h]), k, ty) == MigratedCell(R0, filters, done + {h}, k, ty) {
      if k != Key(h, "*") && IsLegacyKey(k, done + {h}) {
        assert LegacyHost(k) != h by {
          assert k == LegacyHost(k) + " *";
        }
      }
    }
  }
}
