/** The packed rule value: one 2-bit cell per request type inside a 32-bit
    integer, as JavaScript's bitwise operators see it. */
module Bitmaps {
  import opened StringOps

  /** The request types of `typeBitOffsets`, in its declaration order. */
  datatype RequestType = Any | InlineScript | FirstPartyScript | ThirdPartyScript | ThirdPartyFrame | Image
  {
    function Name(): string {
      match this
      case Any => "*"
      case InlineScript => "inline-script"
      case FirstPartyScript => "1p-script"
      case ThirdPartyScript => "3p-script"
      case ThirdPartyFrame => "3p-frame"
      case Image => "image"
    }

    /** The position of the type in `typeBitOffsets`. */
    function Index(): (k: nat)
      ensures k < 6
    {
      match this
      case Any => 0
      case InlineScript => 1
      case FirstPartyScript => 2
      case ThirdPartyScript => 3
      case ThirdPartyFrame => 4
      case Image => 5
    }
  }

  lemma IndexInjective(a: RequestType, b: RequestType)
    ensures a.Index() == b.Index() ==> a == b
  {
  }

  /** The iteration order of `typeBitOffsets`. */
  const AllTypes: seq<RequestType> := [Any, InlineScript, FirstPartyScript, ThirdPartyScript, ThirdPartyFrame, Image]

  lemma AllTypesComplete(ty: RequestType)
    ensures ty in AllTypes
    ensures exists j :: 0 <= j < |AllTypes| && AllTypes[j] == ty
  {
    match ty
    case Any => assert AllTypes[0] == ty;
    case InlineScript => assert AllTypes[1] == ty;
    case FirstPartyScript => assert AllTypes[2] == ty;
    case ThirdPartyScript => assert AllTypes[3] == ty;
    case ThirdPartyFrame => assert AllTypes[4] == ty;
    case Image => assert AllTypes[5] == ty;
  }

  /** `typeBitOffsets.hasOwnProperty(t)`, giving the type it names. */
  function TypeFromName(t: string): (o: Option<RequestType>)
    ensures o.Some? ==> o.value.Name() == t
    ensures o.None? <==> forall ty: RequestType :: ty.Name() != t
  {
    if t == "*" then Some(Any)
    else if t == "inline-script" then Some(InlineScript)
    else if t == "1p-script" then Some(FirstPartyScript)
    else if t == "3p-script" then Some(ThirdPartyScript)
    else if t == "3p-frame" then Some(ThirdPartyFrame)
    else if t == "image" then Some(Image)
    else None
  }

  predicate IsKnownType(t: string) {
    TypeFromName(t).Some?
  }

  /** The cell that `setCell` and `evaluateCell` address for the type string
      `t`. For a name that is not an own key of `typeBitOffsets` the lookup
      gives a value that is not a number (`undefined`, or an inherited member
      such as `toString`), and JavaScript shifts by 0: the cell of `*`. */
  function FieldOf(t: string): (ty: RequestType)
    ensures IsKnownType(t) ==> ty.Name() == t
    ensures !IsKnownType(t) ==> ty == Any
  {
    match TypeFromName(t)
    case Some(ty) => ty
    case None => Any
  }

  lemma NameRoundTrip(ty: RequestType)
    ensures TypeFromName(ty.Name()) == Some(ty)
    ensures FieldOf(ty.Name()) == ty
  {
  }

  type Bitmap = bv32

  /** A cell state: 0 unset, 1 block, 2 allow, 3 noop. */
  type State = s: bv32 | s <= 3

  const Unset: State := 0
  const Block: State := 1
  const Allow: State := 2
  const Noop: State := 3

  /** `bitmap >> offset & 3`, for the offsets 0, 2, 4, 6, 8 and 10 of
      `typeBitOffsets`. */
  function Cell(bm: Bitmap, ty: RequestType): State {
    match ty
    case Any => (bm >> 0) & 3
    case InlineScript => (bm >> 2) & 3
    case FirstPartyScript => (bm >> 4) & 3
    case ThirdPartyScript => (bm >> 6) & 3
    case ThirdPartyFrame => (bm >> 8) & 3
    case Image => (bm >> 10) & 3
  }

  /** `bitmap & ~(3 << offset) | (state << offset)`, for the offset of
      `ty` in `typeBitOffsets`. */
  function Replace(bm: Bitmap, ty: RequestType, st: State): Bitmap {
    match ty
    case Any => (bm & !(3 << 0)) | (st << 0)
    case InlineScript => (bm & !(3 << 2)) | (st << 2)
    case FirstPartyScript => (bm & !(3 << 4)) | (st << 4)
    case ThirdPartyScript => (bm & !(3 << 6)) | (st << 6)
    case ThirdPartyFrame => (bm & !(3 << 8)) | (st << 8)
    case Image => (bm & !(3 << 10)) | (st << 10)
  }

  lemma ReplaceSetsCell(bm: Bitmap, ty: RequestType, st: State)
    ensures Cell(Replace(bm, ty, st), ty) == st
  {
  }

  lemma ReplaceKeepsOther(bm: Bitmap, ty: RequestType, st: State, other: RequestType)
    requires other != ty
    ensures Cell(Replace(bm, ty, st), other) == Cell(bm, other)
  {
    match ty
    case Any =>
    case InlineScript =>
    case FirstPartyScript =>
    case ThirdPartyScript =>
    case ThirdPartyFrame =>
    case Image =>
  }

  lemma ReplaceStaysSmall(bm: Bitmap, ty: RequestType, st: State)
    ensures bm < 4096 ==> Replace(bm, ty, st) < 4096
  {
  }

  /** The bitmap with one cell replaced, the others kept. Each fact is
      proved on its own, since together they make one costly bit-vector
      problem. */
  function Put(bm: Bitmap, ty: RequestType, st: State): (nb: Bitmap)
    ensures Cell(nb, ty) == st
    ensures forall other :: other != ty ==> Cell(nb, other) == Cell(bm, other)
    ensures bm < 4096 ==> nb < 4096
  {
    ReplaceSetsCell(bm, ty, st);
    forall other | other != ty
      ensures Cell(Replace(bm, ty, st), other) == Cell(bm, other)
    {
      ReplaceKeepsOther(bm, ty, st, other);
    }
    ReplaceStaysSmall(bm, ty, st);
    Replace(bm, ty, st)
  }

  /** A bitmap is left as it was exactly when the cell already held the state. */
  lemma PutUnchanged(bm: Bitmap, ty: RequestType, st: State)
    requires bm < 4096
    ensures Put(bm, ty, st) == bm <==> Cell(bm, ty) == st
  {
    if Cell(bm, ty) == st {
      CellsDetermineBitmap(Put(bm, ty, st), bm);
    }
  }

  /** A 12-bit bitmap is determined by its six cells. */
  lemma CellsDetermineBitmap(a: Bitmap, b: Bitmap)
    requires a < 4096 && b < 4096
    requires forall ty :: Cell(a, ty) == Cell(b, ty)
    ensures a == b
  {
    assert Cell(a, Any) == Cell(b, Any);
    assert Cell(a, InlineScript) == Cell(b, InlineScript);
    assert Cell(a, FirstPartyScript) == Cell(b, FirstPartyScript);
    assert Cell(a, ThirdPartyScript) == Cell(b, ThirdPartyScript);
    assert Cell(a, ThirdPartyFrame) == Cell(b, ThirdPartyFrame);
    assert Cell(a, Image) == Cell(b, Image);
  }

  /** A 12-bit bitmap is zero exactly when all its cells are unset. */
  lemma ZeroIffAllUnset(bm: Bitmap)
    requires bm < 4096
    ensures bm == 0 <==> forall ty :: Cell(bm, ty) == 0
  {
    if forall ty :: Cell(bm, ty) == 0 {
      CellsDetermineBitmap(bm, 0);
    }
  }

  /** The bitmap keeping only its lowest `j` fields. */
  function Mask(j: nat): (m: Bitmap)
    requires j <= 6
  {
    if j == 0 then 0 else if j == 1 then 3 else if j == 2 then 15
    else if j == 3 then 63 else if j == 4 then 255 else if j == 5 then 1023 else 4095
  }

  /** Masking keeps the cells of the lowest `j` fields and clears the rest. */
  lemma MaskCell(bm: Bitmap, j: nat, ty: RequestType)
    requires j <= 6
    ensures bm & Mask(j) < 4096
    ensures Cell(bm & Mask(j), ty) == if ty.Index() < j then Cell(bm, ty) else 0
  {
    match ty
    case Any =>
    case InlineScript =>
    case FirstPartyScript =>
    case ThirdPartyScript =>
    case ThirdPartyFrame =>
    case Image =>
  }

  /** The cells of the first `j` types of `AllTypes`, the others cleared. */
  function Prefix(bm: Bitmap, j: nat): (p: Bitmap)
    requires j <= 6
    ensures p < 4096
    ensures forall ty :: Cell(p, ty) == if ty.Index() < j then Cell(bm, ty) else 0
  {
    forall ty ensures Cell(bm & Mask(j), ty) == if ty.Index() < j then Cell(bm, ty) else 0 {
      MaskCell(bm, j, ty);
    }
    MaskCell(bm, j, Any);
    bm & Mask(j)
  }

  lemma AllTypesIndex(j: nat)
    requires j < 6
    ensures AllTypes[j].Index() == j
  {
  }

  /** Adding the next type's cell extends the prefix by one. */
  lemma PrefixStep(bm: Bitmap, j: nat)
    requires j < 6
    ensures Prefix(bm, j + 1) == Put(Prefix(bm, j), AllTypes[j], Cell(bm, AllTypes[j]))
  {
    var p, q := Prefix(bm, j), Prefix(bm, j + 1);
    var n := Put(p, AllTypes[j], Cell(bm, AllTypes[j]));
    AllTypesIndex(j);
    forall ty ensures Cell(q, ty) == Cell(n, ty) {
      IndexInjective(ty, AllTypes[j]);
    }
    CellsDetermineBitmap(q, n);
  }

  lemma PrefixNone(bm: Bitmap)
    ensures Prefix(bm, 0) == 0
  {
    CellsDetermineBitmap(Prefix(bm, 0), 0);
  }

  lemma PrefixAll(bm: Bitmap)
    requires bm < 4096
    ensures Prefix(bm, 6) == bm
  {
    CellsDetermineBitmap(Prefix(bm, 6), bm);
  }

  /** `stateToNameMap`. */
  function StateName(st: State): (name: string)
    requires st != 0
  {
    if st == 1 then "block" else if st == 2 then "allow" else "noop"
  }

  /** `nameToStateMap`, which knows only `block`, `allow` and `noop`. */
  function NameToState(name: string): (o: Option<State>)
    ensures o.Some? ==> o.value != 0 && StateName(o.value) == name
    ensures o.None? <==> forall st: State :: st != 0 ==> StateName(st) != name
  {
    if name == "block" then Some(Block)
    else if name == "allow" then Some(Allow)
    else if name == "noop" then Some(Noop)
    else None
  }

  lemma StateNameRoundTrip(st: State)
    requires st != 0
    ensures NameToState(StateName(st)) == Some(st)
  {
  }
}
