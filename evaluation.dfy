/** The precedence rule of `evaluateCellZ` and `evaluateCellZY`, stated as
    pure functions over a rule store: the first non-zero cell met when the
    destinations are walked from the most specific to `*`, and for each
    destination the sources from the most specific to `*`. */
module Evaluation {
  import opened StringOps
  import opened Hostnames
  import opened Bitmaps
  import opened Rules

  /** What `evaluateCellZ` leaves behind: the state it returns and the last
      source it probed (register `z`). */
  datatype Hit = Hit(r: State, z: string)

  /** What `evaluateCellZY` leaves behind for a recognised type: the verdict
      `r`, and the destination `y` and source `z` of the last probe. */
  datatype Verdict = Verdict(r: State, y: string, z: string)

  /** The four registers of the matrix. */
  datatype Regs = Regs(r: State, typ: string, y: string, z: string)

  /** The first source in `srcs` whose cell for `(d, ty)` is set, or `Hit(0,
      last source)` when all are unset. Its properties are stated by
      `ZHitSpec`, outside the function, so that they are instantiated only
      where a proof asks for them. */
  function ZHit(R: RuleMap, srcs: seq<string>, d: string, ty: RequestType): (h: Hit)
    requires |srcs| > 0
    decreases |srcs|
  {
    var v := CellOf(R, srcs[0], d, ty);
    if v != 0 then Hit(v, srcs[0])
    else if |srcs| == 1 then Hit(0, srcs[0])
    else ZHit(R, srcs[1..], d, ty)
  }

  /** The source walk stops at the first set cell: the hit is set exactly
      when some source has a set cell, it then names the first such source
      and its state, and an unset hit names the last source probed. */
  lemma {:induction false} ZHitSpec(R: RuleMap, srcs: seq<string>, d: string, ty: RequestType)
    requires |srcs| > 0
    ensures ZHit(R, srcs, d, ty).r != 0 <==> exists i :: 0 <= i < |srcs| && CellOf(R, srcs[i], d, ty) != 0
    ensures ZHit(R, srcs, d, ty).r != 0 ==>
      exists i :: 0 <= i < |srcs| && srcs[i] == ZHit(R, srcs, d, ty).z && CellOf(R, srcs[i], d, ty) == ZHit(R, srcs, d, ty).r &&
        forall j :: 0 <= j < i ==> CellOf(R, srcs[j], d, ty) == 0
    ensures ZHit(R, srcs, d, ty).r == 0 ==> ZHit(R, srcs, d, ty).z == srcs[|srcs| - 1]
    decreases |srcs|
  {
    var h := ZHit(R, srcs, d, ty);
    if CellOf(R, srcs[0], d, ty) == 0 && |srcs| > 1 {
      ZHitSpec(R, srcs[1..], d, ty);
      assert forall i :: 1 <= i < |srcs| ==> srcs[i] == srcs[1..][i - 1];
      if h.r != 0 {
        var i :| 0 <= i < |srcs| - 1 && srcs[1..][i] == h.z && CellOf(R, srcs[1..][i], d, ty) == h.r &&
          forall j :: 0 <= j < i ==> CellOf(R, srcs[1..][j], d, ty) == 0;
        assert srcs[i + 1] == h.z && CellOf(R, srcs[i + 1], d, ty) == h.r;
        assert forall j :: 0 <= j < i + 1 ==> CellOf(R, srcs[j], d, ty) == 0 by {
          forall j | 0 <= j < i + 1 ensures CellOf(R, srcs[j], d, ty) == 0 {
            if j > 0 {
              assert srcs[j] == srcs[1..][j - 1];
            }
          }
        }
      }
    } else if CellOf(R, srcs[0], d, ty) != 0 {
      assert srcs[0] == h.z && CellOf(R, srcs[0], d, ty) == h.r;
    }
  }

  /** The first destination in `dess` for which some source is set, with the
      hit it gives; when there is none, the last probe's registers. Its
      properties are stated by `ZYHitSpec`. */
  function ZYHit(R: RuleMap, srcs: seq<string>, dess: seq<string>, ty: RequestType): (v: Verdict)
    requires |srcs| > 0 && |dess| > 0
    decreases |dess|
  {
    var h := ZHit(R, srcs, dess[0], ty);
    if h.r != 0 || |dess| == 1 then Verdict(h.r, dess[0], h.z)
    else ZYHit(R, srcs, dess[1..], ty)
  }

  /** An unset verdict of the destination walk means every destination's
      hit is unset, and it names the last destination and source probed. */
  lemma {:induction false} ZYHitSpec(R: RuleMap, srcs: seq<string>, dess: seq<string>, ty: RequestType)
    requires |srcs| > 0 && |dess| > 0
    ensures ZYHit(R, srcs, dess, ty).r == 0 ==> forall i :: 0 <= i < |dess| ==> ZHit(R, srcs, dess[i], ty).r == 0
    ensures ZYHit(R, srcs, dess, ty).r == 0 ==> ZYHit(R, srcs, dess, ty).y == dess[|dess| - 1] && ZYHit(R, srcs, dess, ty).z == srcs[|srcs| - 1]
    decreases |dess|
  {
    ZHitSpec(R, srcs, dess[0], ty);
    if ZHit(R, srcs, dess[0], ty).r == 0 && |dess| > 1 {
      ZYHitSpec(R, srcs, dess[1..], ty);
      assert forall i :: 1 <= i < |dess| ==> dess[i] == dess[1..][i - 1];
    }
  }

  /** The destinations `evaluateCellZY` probes: the chain of `des`, then `*`. */
  function DesOrder(des: string): (ds: seq<string>)
    ensures |ds| >= 2 && ds[0] == des && ds[|ds| - 1] == "*"
  {
    DesChain(des) + ["*"]
  }

  /** For the destination `*`, the loop also probes `""`, because
      `toBroaderHostname("*")` is `""`; the `*` destination is then probed
      once more after the loop. */
  lemma WildcardDestinationOrder()
    ensures DesOrder("*") == ["*", "", "*"]
  {
    assert !IsIPAddress("");
    assert Broaden("") == "*";
    assert StepsToWildcard("") == 1;
    assert DesChain("*") == Walk(Broaden, "*", 1);
    assert Walk(Broaden, "*", 1) == ["*"] + Walk(Broaden, "", 0);
  }

  /** The verdict `evaluateCellZY` reaches for a recognised type. */
  function Resolve(R: RuleMap, src: string, des: string, ty: RequestType): Verdict {
    ZYHit(R, SrcChain(src), DesOrder(des), ty)
  }

  /** The registers after `evaluateCellZY(src, des, t)`: an unrecognised type
      clears `r` and `type` and leaves `y` and `z` as they were. */
  function EvalRegs(regs: Regs, R: RuleMap, src: string, des: string, t: string): Regs {
    match TypeFromName(t)
    case None => regs.(r := 0, typ := "")
    case Some(ty) =>
      var v := Resolve(R, src, des, ty);
      Regs(v.r, t, v.y, v.z)
  }

  /** The value of register `r` after `evaluateCellZY(src, des, t)`. */
  function ResolvedState(R: RuleMap, src: string, des: string, t: string): State {
    match TypeFromName(t)
    case None => 0
    case Some(ty) => Resolve(R, src, des, ty).r
  }

  lemma ResolvedStateIsRegister(regs: Regs, R: RuleMap, src: string, des: string, t: string)
    ensures EvalRegs(regs, R, src, des, t).r == ResolvedState(R, src, des, t)
  {
  }

  /** A set exact rule decides the evaluation, and the registers name it. */
  lemma ExactRuleWins(R: RuleMap, src: string, des: string, ty: RequestType)
    requires CellOf(R, src, des, ty) != 0
    ensures Resolve(R, src, des, ty) == Verdict(CellOf(R, src, des, ty), des, src)
  {
  }

  /** Whenever a verdict is reached, `z` and `y` name the rule that decided
      it: `evaluateCell(z, y, type) == r`. */
  lemma RegistersNameRule(R: RuleMap, src: string, des: string, ty: RequestType)
    requires Resolve(R, src, des, ty).r != 0
    ensures CellOf(R, Resolve(R, src, des, ty).z, Resolve(R, src, des, ty).y, ty) == Resolve(R, src, des, ty).r
  {
    var i, j := Precedence(R, src, des, ty);
  }

  /** What `mustAbort` reads after `evaluateCellZY`: the verdict is noop
      exactly when the type is recognised and the rule the registers name,
      `(z, y, type)`, is a noop rule. */
  lemma NoopVerdictNamesNoopRule(regs: Regs, R: RuleMap, src: string, des: string, t: string)
    ensures EvalRegs(regs, R, src, des, t).r == Noop <==>
      TypeFromName(t).Some? &&
      CellOf(R, EvalRegs(regs, R, src, des, t).z, EvalRegs(regs, R, src, des, t).y, TypeFromName(t).value) == Noop
  {
    match TypeFromName(t)
    case None =>
    case Some(ty) =>
      var v := Resolve(R, src, des, ty);
      if v.r != 0 {
        RegistersNameRule(R, src, des, ty);
      } else {
        var ds, ss := DesOrder(des), SrcChain(src);
        ZYHitSpec(R, ss, ds, ty);
        UnsetIffNoCandidate(R, src, des, ty);
        assert CellOf(R, ss[|ss| - 1], ds[|ds| - 1], ty) == 0;
      }
  }

  /** The verdict is 0 exactly when every probed cell is unset. */
  lemma UnsetIffNoCandidate(R: RuleMap, src: string, des: string, ty: RequestType)
    ensures Resolve(R, src, des, ty).r == 0 <==>
      forall i, j :: 0 <= i < |DesOrder(des)| && 0 <= j < |SrcChain(src)| ==> CellOf(R, SrcChain(src)[j], DesOrder(des)[i], ty) == 0
  {
    var ds, ss := DesOrder(des), SrcChain(src);
    if Resolve(R, src, des, ty).r == 0 {
      ZYHitSpec(R, ss, ds, ty);
      forall i, j | 0 <= i < |ds| && 0 <= j < |ss| ensures CellOf(R, ss[j], ds[i], ty) == 0 {
        ZHitSpec(R, ss, ds[i], ty);
      }
    } else {
      var i, j := Precedence(R, src, des, ty);
      assert CellOf(R, ss[j], ds[i], ty) != 0;
    }
  }

  /** The index of the source that gave a non-zero hit. */
  lemma ZHitIndex(R: RuleMap, srcs: seq<string>, d: string, ty: RequestType) returns (j: nat)
    requires |srcs| > 0 && ZHit(R, srcs, d, ty).r != 0
    ensures j < |srcs| && srcs[j] == ZHit(R, srcs, d, ty).z && CellOf(R, srcs[j], d, ty) == ZHit(R, srcs, d, ty).r
    ensures forall j' :: 0 <= j' < j ==> CellOf(R, srcs[j'], d, ty) == 0
  {
    var h := ZHit(R, srcs, d, ty);
    ZHitSpec(R, srcs, d, ty);
    j :| 0 <= j < |srcs| && srcs[j] == h.z && CellOf(R, srcs[j], d, ty) == h.r &&
         forall j' :: 0 <= j' < j ==> CellOf(R, srcs[j'], d, ty) == 0;
  }

  /** A set verdict of the destination walk names the destination at index
      `i`, whose hit it is, after destinations whose hits are all unset. */
  lemma {:induction false} ZYHitIndex(R: RuleMap, srcs: seq<string>, dess: seq<string>, ty: RequestType) returns (i: nat)
    requires |srcs| > 0 && |dess| > 0 && ZYHit(R, srcs, dess, ty).r != 0
    ensures i < |dess| && dess[i] == ZYHit(R, srcs, dess, ty).y
    ensures ZHit(R, srcs, dess[i], ty) == Hit(ZYHit(R, srcs, dess, ty).r, ZYHit(R, srcs, dess, ty).z)
    ensures forall i' :: 0 <= i' < i ==> ZHit(R, srcs, dess[i'], ty).r == 0
    decreases |dess|
  {
    if ZHit(R, srcs, dess[0], ty).r != 0 {
      i := 0;
    } else {
      var k := ZYHitIndex(R, srcs, dess[1..], ty);
      i := k + 1;
      forall i' | 0 <= i' < i ensures ZHit(R, srcs, dess[i'], ty).r == 0 {
        if i' > 0 {
          assert dess[i'] == dess[1..][i' - 1];
        }
      }
    }
  }

  /** Lexicographic precedence over any probe order: the deciding rule sits
      at destination index `i` and source index `j`, and every cell probed
      before it, at an earlier destination or at an earlier source of the
      same destination, is unset. */
  lemma ZYHitPrecedence(R: RuleMap, srcs: seq<string>, dess: seq<string>, ty: RequestType) returns (i: nat, j: nat)
    requires |srcs| > 0 && |dess| > 0 && ZYHit(R, srcs, dess, ty).r != 0
    ensures i < |dess| && j < |srcs|
    ensures dess[i] == ZYHit(R, srcs, dess, ty).y && srcs[j] == ZYHit(R, srcs, dess, ty).z
    ensures CellOf(R, srcs[j], dess[i], ty) == ZYHit(R, srcs, dess, ty).r
    ensures forall i', j' :: 0 <= i' < i && 0 <= j' < |srcs| ==> CellOf(R, srcs[j'], dess[i'], ty) == 0
    ensures forall j' :: 0 <= j' < j ==> CellOf(R, srcs[j'], dess[i], ty) == 0
  {
    i := ZYHitIndex(R, srcs, dess, ty);
    j := ZHitIndex(R, srcs, dess[i], ty);
    forall i', j' | 0 <= i' < i && 0 <= j' < |srcs| ensures CellOf(R, srcs[j'], dess[i'], ty) == 0 {
      ZHitSpec(R, srcs, dess[i'], ty);
    }
  }

  /** Precedence of `evaluateCellZY`: destinations from `des` outwards to `*`
      first, and for each destination, sources from `src` outwards. */
  lemma Precedence(R: RuleMap, src: string, des: string, ty: RequestType) returns (i: nat, j: nat)
    requires Resolve(R, src, des, ty).r != 0
    ensures i < |DesOrder(des)| && j < |SrcChain(src)|
    ensures DesOrder(des)[i] == Resolve(R, src, des, ty).y && SrcChain(src)[j] == Resolve(R, src, des, ty).z
    ensures CellOf(R, SrcChain(src)[j], DesOrder(des)[i], ty) == Resolve(R, src, des, ty).r
    ensures forall i', j' :: 0 <= i' < i && 0 <= j' < |SrcChain(src)| ==> CellOf(R, SrcChain(src)[j'], DesOrder(des)[i'], ty) == 0
    ensures forall j' :: 0 <= j' < j ==> CellOf(R, SrcChain(src)[j'], DesOrder(des)[i], ty) == 0
  {
    i, j := ZYHitPrecedence(R, SrcChain(src), DesOrder(des), ty);
  }

  /** The evaluation reads only the probed cells: two stores that agree on
      them reach the same verdict. */
  lemma {:induction false} ZHitReadsCandidates(A: RuleMap, B: RuleMap, srcs: seq<string>, d: string, ty: RequestType)
    requires |srcs| > 0
    requires forall j :: 0 <= j < |srcs| ==> CellOf(A, srcs[j], d, ty) == CellOf(B, srcs[j], d, ty)
    ensures ZHit(A, srcs, d, ty) == ZHit(B, srcs, d, ty)
    decreases |srcs|
  {
    if CellOf(A, srcs[0], d, ty) == 0 && |srcs| > 1 {
      ZHitReadsCandidates(A, B, srcs[1..], d, ty);
    }
  }

  lemma {:induction false} ZYHitReadsCandidates(A: RuleMap, B: RuleMap, srcs: seq<string>, dess: seq<string>, ty: RequestType)
    requires |srcs| > 0 && |dess| > 0
    requires forall i, j :: 0 <= i < |dess| && 0 <= j < |srcs| ==> CellOf(A, srcs[j], dess[i], ty) == CellOf(B, srcs[j], dess[i], ty)
    ensures ZYHit(A, srcs, dess, ty) == ZYHit(B, srcs, dess, ty)
    decreases |dess|
  {
    ZHitReadsCandidates(A, B, srcs, dess[0], ty);
    if ZHit(A, srcs, dess[0], ty).r == 0 && |dess| > 1 {
      ZYHitReadsCandidates(A, B, srcs, dess[1..], ty);
    }
  }

  /** The last destination probed is `*`, so a `* *` rule is the fallback of
      every evaluation: it decides when nothing more specific is set. */
  lemma WildcardFallback(R: RuleMap, src: string, des: string, ty: RequestType)
    requires forall i, j :: 0 <= i < |DesOrder(des)| - 1 && 0 <= j < |SrcChain(src)| ==> CellOf(R, SrcChain(src)[j], DesOrder(des)[i], ty) == 0
    ensures Resolve(R, src, des, ty).r == ZHit(R, SrcChain(src), "*", ty).r
  {
    var ds, ss := DesOrder(des), SrcChain(src);
    forall i | 0 <= i < |ds| - 1 ensures ZHit(R, ss, ds[i], ty).r == 0 {
      ZHitSpec(R, ss, ds[i], ty);
      assert forall j :: 0 <= j < |ss| ==> CellOf(R, ss[j], ds[i], ty) == 0;
    }
    ZYHitSkipsUnset(R, ss, ds, ty);
  }

  /** Destinations whose hits are all unset are passed over: the verdict is
      the hit of the last destination. */
  lemma {:induction false} ZYHitSkipsUnset(R: RuleMap, srcs: seq<string>, dess: seq<string>, ty: RequestType)
    requires |srcs| > 0 && |dess| > 0
    requires forall i :: 0 <= i < |dess| - 1 ==> ZHit(R, srcs, dess[i], ty).r == 0
    ensures ZYHit(R, srcs, dess, ty) ==
      Verdict(ZHit(R, srcs, dess[|dess| - 1], ty).r, dess[|dess| - 1], ZHit(R, srcs, dess[|dess| - 1], ty).z)
    decreases |dess|
  {
    if |dess| > 1 {
      assert forall i :: 0 <= i < |dess| - 2 ==> dess[1..][i] == dess[i + 1];
      ZYHitSkipsUnset(R, srcs, dess[1..], ty);
    }
  }

  /** A rule at the requested destination, for any source on the chain,
      outranks every rule at a broader destination, even one whose source
      is more specific. */
  lemma DestinationBeforeSource(R: RuleMap, src: string, des: string, ty: RequestType, j: nat)
    requires j < |SrcChain(src)| && CellOf(R, SrcChain(src)[j], des, ty) != 0
    ensures Resolve(R, src, des, ty).r != 0 && Resolve(R, src, des, ty).y == des
    ensures Resolve(R, src, des, ty) == Verdict(ZHit(R, SrcChain(src), des, ty).r, des, ZHit(R, SrcChain(src), des, ty).z)
  {
    ZHitSpec(R, SrcChain(src), des, ty);
    assert ZHit(R, SrcChain(src), DesOrder(des)[0], ty).r != 0;
  }

  /** The destinations left after probing `d`: just `*` when `d` broadens
      to `*`, and otherwise the walk from the broader hostname. */
  lemma DesOrderNext(d: string)
    ensures DesOrder(d)[1..] == if Broaden(d) == "*" then ["*"] else DesOrder(Broaden(d))
  {
    DesChainNext(d);
    if Broaden(d) != "*" {
      assert DesOrder(d) == [d] + DesOrder(Broaden(d));
    }
  }

  /** The walk from `d` probes `d` first; an unset hit there passes on to
      the remaining destinations. */
  lemma ZYHitFirst(R: RuleMap, srcs: seq<string>, dess: seq<string>, ty: RequestType)
    requires |srcs| > 0 && |dess| > 1
    ensures ZYHit(R, srcs, dess, ty) ==
      if ZHit(R, srcs, dess[0], ty).r != 0 then Verdict(ZHit(R, srcs, dess[0], ty).r, dess[0], ZHit(R, srcs, dess[0], ty).z)
      else ZYHit(R, srcs, dess[1..], ty)
  {
  }

  /** A later evaluation overrides every register an earlier one set. */
  lemma EvalRegsOverwrite(regs: Regs, A: RuleMap, B: RuleMap, src: string, des: string, t: string)
    ensures EvalRegs(EvalRegs(regs, A, src, des, t), B, src, des, t) == EvalRegs(regs, B, src, des, t)
  {
  }
}
