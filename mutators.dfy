/** The mutators built on evaluation, `unsetCell` and `setCellZ`, as
    functions from the store before to the store after, with the guarantees
    they give about the resolved verdict. */
module Mutators {
  import opened StringOps
  import opened Hostnames
  import opened Bitmaps
  import opened Rules
  import opened Evaluation

  /** The store after `unsetCell(src, des, t)`: untouched when nothing is
      inherited, otherwise the exact cell cleared. */
  function UnsetCellRules(R: RuleMap, src: string, des: string, t: string): RuleMap {
    if ResolvedState(R, src, des, t) == 0 then R
    else SetCellRules(R, Key(src, des), FieldOf(t), 0)
  }

  /** The store after `setCellZ` clears the exact cell, before it decides
      whether to set it again. */
  function ClearedRules(R: RuleMap, src: string, des: string, t: string): RuleMap {
    SetCellRules(R, Key(src, des), FieldOf(t), 0)
  }

  /** The store after `setCellZ(src, des, t, action)`: untouched when the
      verdict is already `action`; otherwise the exact cell is cleared, and
      set to `action` only when the inherited verdict still differs. */
  function SetCellZRules(R: RuleMap, src: string, des: string, t: string, action: State): RuleMap {
    if ResolvedState(R, src, des, t) == action then R
    else
      var cleared := ClearedRules(R, src, des, t);
      if ResolvedState(cleared, src, des, t) == action then cleared
      else SetCellRules(cleared, Key(src, des), FieldOf(t), action)
  }

  /** The store the last evaluation of `setCellZ` reads: the original one
      when it returns at once, the cleared one otherwise. */
  function SetCellZLastEvaluated(R: RuleMap, src: string, des: string, t: string, action: State): RuleMap {
    if ResolvedState(R, src, des, t) == action then R else ClearedRules(R, src, des, t)
  }

  /** With a recognised type, an unset verdict means the exact cell is unset. */
  lemma UnsetVerdictMeansUnsetExact(R: RuleMap, src: string, des: string, t: string, ty: RequestType)
    requires TypeFromName(t) == Some(ty)
    requires ResolvedState(R, src, des, t) == 0
    ensures CellOf(R, src, des, ty) == 0
  {
    if CellOf(R, src, des, ty) != 0 {
      ExactRuleWins(R, src, des, ty);
    }
  }

  /** After `unsetCell` with a recognised type, the exact cell is unset
      whichever branch was taken, and no other cell changed. */
  lemma UnsetCellEffect(R: RuleMap, src: string, des: string, t: string, ty: RequestType)
    requires TypeFromName(t) == Some(ty)
    ensures CellOf(UnsetCellRules(R, src, des, t), src, des, ty) == 0
    ensures forall k, ty' :: (k != Key(src, des) || ty' != ty) ==>
      CellAt(UnsetCellRules(R, src, des, t), k, ty') == CellAt(R, k, ty')
  {
    SetCellCells(R, Key(src, des), ty, 0);
    if ResolvedState(R, src, des, t) == 0 {
      UnsetVerdictMeansUnsetExact(R, src, des, t, ty);
    }
  }

  /** `unsetCell` changes nothing when the verdict is unset. When the
      verdict is set it reports success even if the exact cell was already
      unset and the store is therefore left as it was. */
  lemma UnsetCellOfInheritedVerdict(R: RuleMap, src: string, des: string, t: string, ty: RequestType)
    requires TypeFromName(t) == Some(ty)
    requires WellFormed(R)
    ensures ResolvedState(R, src, des, t) == 0 ==> UnsetCellRules(R, src, des, t) == R
    ensures UnsetCellRules(R, src, des, t) != R <==> CellOf(R, src, des, ty) != 0
  {
    SetCellChangedIff(R, Key(src, des), ty, 0);
    if ResolvedState(R, src, des, t) == 0 {
      UnsetVerdictMeansUnsetExact(R, src, des, t, ty);
    }
  }

  /** `setCellZ` and `unsetCell` keep the store well formed. */
  lemma MutatorsWellFormed(R: RuleMap, src: string, des: string, t: string, action: State)
    requires WellFormed(R)
    ensures WellFormed(UnsetCellRules(R, src, des, t))
    ensures WellFormed(ClearedRules(R, src, des, t))
    ensures WellFormed(SetCellZRules(R, src, des, t, action))
  {
    var cleared := ClearedRules(R, src, des, t);
    var written := SetCellRules(cleared, Key(src, des), FieldOf(t), action);
    SetCellWellFormed(R, Key(src, des), FieldOf(t), 0);
    SetCellWellFormed(cleared, Key(src, des), FieldOf(t), action);
    assert UnsetCellRules(R, src, des, t) in {R, cleared};
    assert SetCellZRules(R, src, des, t, action) in {R, cleared, written};
  }

  /** With a recognised type and a set action, the verdict after `setCellZ`
      is the action. */
  lemma SetCellZReachesAction(R: RuleMap, src: string, des: string, t: string, ty: RequestType, action: State)
    requires TypeFromName(t) == Some(ty) && action != 0
    ensures ResolvedState(SetCellZRules(R, src, des, t, action), src, des, t) == action
  {
    var cleared := ClearedRules(R, src, des, t);
    if ResolvedState(R, src, des, t) != action && ResolvedState(cleared, src, des, t) != action {
      var after := SetCellRules(cleared, Key(src, des), ty, action);
      SetCellCells(cleared, Key(src, des), ty, action);
      ExactRuleWins(after, src, des, ty);
    }
  }

  /** `setCellZ` only ever touches the exact cell `(src, des, t)`. */
  lemma SetCellZOnlyExactCell(R: RuleMap, src: string, des: string, t: string, action: State)
    ensures forall k, ty' :: (k != Key(src, des) || ty' != FieldOf(t)) ==>
      CellAt(SetCellZRules(R, src, des, t, action), k, ty') == CellAt(R, k, ty')
  {
    var k0, ty := Key(src, des), FieldOf(t);
    var cleared := SetCellRules(R, k0, ty, 0);
    var after := SetCellZRules(R, src, des, t, action);
    assert after in {R, cleared, SetCellRules(cleared, k0, ty, action)};
    if after == cleared {
      SetCellCells(R, k0, ty, 0);
    } else if after != R {
      SetCellTwice(R, k0, ty, 0, action);
    }
  }

  /** Two `setCell` calls on one cell change no other cell. */
  lemma SetCellTwice(R: RuleMap, k0: string, ty: RequestType, a: State, b: State)
    ensures forall k, ty' :: (k != k0 || ty' != ty) ==>
      CellAt(SetCellRules(SetCellRules(R, k0, ty, a), k0, ty, b), k, ty') == CellAt(R, k, ty')
  {
    SetCellCells(R, k0, ty, a);
    SetCellCells(SetCellRules(R, k0, ty, a), k0, ty, b);
  }

  /** `setCellZ` never leaves a conflicting exact rule: afterwards the exact
      cell is either unset (the verdict is inherited) or the action. */
  lemma SetCellZExactCell(R: RuleMap, src: string, des: string, t: string, ty: RequestType, action: State)
    requires TypeFromName(t) == Some(ty) && action != 0
    ensures CellOf(SetCellZRules(R, src, des, t, action), src, des, ty) in {0, action}
    ensures ResolvedState(R, src, des, t) != action && ResolvedState(ClearedRules(R, src, des, t), src, des, t) == action ==>
      CellOf(SetCellZRules(R, src, des, t, action), src, des, ty) == 0
  {
    var cleared := ClearedRules(R, src, des, t);
    SetCellCells(R, Key(src, des), ty, 0);
    SetCellCells(cleared, Key(src, des), ty, action);
    if ResolvedState(R, src, des, t) == action && CellOf(R, src, des, ty) != 0 {
      ExactRuleWins(R, src, des, ty);
    }
  }

  /** With a recognised type and a set action, `setCellZ` changes the store
      exactly when the verdict was not yet the action, which is also exactly
      when it returns true. */
  lemma SetCellZChangedIff(R: RuleMap, src: string, des: string, t: string, ty: RequestType, action: State)
    requires TypeFromName(t) == Some(ty) && action != 0 && WellFormed(R)
    ensures SetCellZRules(R, src, des, t, action) != R <==> ResolvedState(R, src, des, t) != action
  {
    var k := Key(src, des);
    var cleared := ClearedRules(R, src, des, t);
    if ResolvedState(R, src, des, t) != action {
      SetCellChangedIff(R, k, ty, 0);
      SetCellCells(R, k, ty, 0);
      if ResolvedState(cleared, src, des, t) != action {
        var after := SetCellRules(cleared, k, ty, action);
        SetCellCells(cleared, k, ty, action);
        if CellOf(R, src, des, ty) != 0 {
          if CellOf(R, src, des, ty) == action {
            ExactRuleWins(R, src, des, ty);
            assert false;
          }
          assert CellAt(after, k, ty) != CellAt(R, k, ty);
        } else {
          assert CellAt(after, k, ty) != CellAt(R, k, ty);
        }
      }
    }
  }

  /** A second identical `setCellZ` finds the verdict already equal to the
      action, so it returns false and changes nothing. */
  lemma SetCellZIdempotent(R: RuleMap, src: string, des: string, t: string, ty: RequestType, action: State)
    requires TypeFromName(t) == Some(ty) && action != 0
    ensures ResolvedState(SetCellZRules(R, src, des, t, action), src, des, t) == action
    ensures SetCellZRules(SetCellZRules(R, src, des, t, action), src, des, t, action) == SetCellZRules(R, src, des, t, action)
  {
    SetCellZReachesAction(R, src, des, t, ty, action);
  }

  /** With an unrecognised type the verdict stays unset, so `setCellZ`
      always goes on to write the action into the `*` cell of the exact key
      and reports a change, whether or not one happened. */
  lemma SetCellZUnknownType(R: RuleMap, src: string, des: string, t: string, action: State)
    requires !IsKnownType(t) && action != 0
    ensures ResolvedState(SetCellZRules(R, src, des, t, action), src, des, t) == 0
    ensures CellOf(SetCellZRules(R, src, des, t, action), src, des, Any) == action
  {
    SetCellCells(ClearedRules(R, src, des, t), Key(src, des), Any, action);
  }
}
