/** The rule store of the matrix: a dictionary from `src + ' ' + des` to a
    packed bitmap, and the pure meaning of `setCell` and `evaluateCell` on it. */
module Rules {
  import opened StringOps
  import opened Bitmaps

  type RuleMap = map<string, Bitmap>

  /** The dictionary key of a source and a destination hostname. */
  function Key(src: string, des: string): (k: string)
    ensures ' ' in k
  {
    assert (src + " " + des)[|src|] == ' ';
    src + " " + des
  }

  /** `srcHostnameFromRule`: the text before the first space. Without a
      space, `indexOf` gives -1 and the slice drops the last character. */
  function SrcHostnameFromRule(rule: string): string {
    Slice(rule, 0, IndexOf(rule, ' '))
  }

  /** `desHostnameFromRule`: the text after the first space (all of `rule`
      when it has no space). */
  function DesHostnameFromRule(rule: string): string {
    SliceFrom(rule, IndexOf(rule, ' ') + 1)
  }

  /** Splitting a key at its first space gives back a source hostname that
      holds no space, and whatever destination followed it. */
  lemma SplitKey(src: string, des: string)
    requires ' ' !in src
    ensures SrcHostnameFromRule(Key(src, des)) == src
    ensures DesHostnameFromRule(Key(src, des)) == des
  {
    var k := Key(src, des);
    assert k[..|src|] == src;
    assert k[|src|] == ' ';
    IndexOfSpec(k, ' ');
    assert IndexOf(k, ' ') == |src|;
    assert k[|src| + 1..] == des;
  }

  /** Any string holding a space is the key of its two halves. */
  lemma JoinKey(k: string)
    requires ' ' in k
    ensures ' ' !in SrcHostnameFromRule(k)
    ensures Key(SrcHostnameFromRule(k), DesHostnameFromRule(k)) == k
  {
    var i := IndexOf(k, ' ');
    IndexOfSpec(k, ' ');
    assert k == k[..i] + [k[i]] + k[i + 1..];
  }

  /** The bitmap stored under `k`; a missing key reads as 0. */
  function Lookup(R: RuleMap, k: string): Bitmap {
    if k in R then R[k] else 0
  }

  /** The state of one cell of the store. */
  function CellAt(R: RuleMap, k: string, ty: RequestType): State {
    Cell(Lookup(R, k), ty)
  }

  /** `evaluateCell` on a store: the exact cell of `(src, des, ty)`. */
  function CellOf(R: RuleMap, src: string, des: string, ty: RequestType): State {
    CellAt(R, Key(src, des), ty)
  }

  /** What `setCell` keeps: every stored bitmap has a non-zero cell and no
      bit above the six cells. */
  ghost predicate WellFormed(R: RuleMap) {
    forall k :: k in R ==> 0 < R[k] < 4096
  }

  /** The dictionary after `setCell`: untouched when the bitmap is unchanged,
      the key deleted when the bitmap drops to 0, and the new bitmap stored
      otherwise. */
  function SetCellRules(R: RuleMap, k: string, ty: RequestType, st: State): RuleMap {
    Store(R, k, Put(Lookup(R, k), ty, st))
  }

  /** How `setCell` stores a new bitmap `nb` for `k`: nothing happens when it
      equals the old one, a 0 deletes the key, and any other value is
      stored. */
  function Store(R: RuleMap, k: string, nb: Bitmap): RuleMap {
    if nb == Lookup(R, k) then R
    else if nb == 0 then R - {k}
    else R[k := nb]
  }

  /** After storing `nb` for `k`, reading `k` gives `nb` and every other key
      reads as before. */
  lemma StoreLookup(R: RuleMap, k: string, nb: Bitmap, k': string)
    ensures Lookup(Store(R, k, nb), k') == if k' == k then nb else Lookup(R, k')
  {
    if nb == Lookup(R, k) {
    } else if nb == 0 {
      assert k !in Store(R, k, nb);
    } else {
      assert Store(R, k, nb)[k] == nb;
    }
  }

  /** The value `setCell` returns: whether the bitmap of `k` changed. */
  function SetCellChanged(R: RuleMap, k: string, ty: RequestType, st: State): bool {
    Put(Lookup(R, k), ty, st) != Lookup(R, k)
  }

  /** Whichever branch `setCell` takes, reading `k` afterwards gives the
      new bitmap and every other key reads as before. */
  lemma SetCellLookup(R: RuleMap, k: string, ty: RequestType, st: State, k': string)
    ensures Lookup(SetCellRules(R, k, ty, st), k') == if k' == k then Put(Lookup(R, k), ty, st) else Lookup(R, k')
  {
    StoreLookup(R, k, Put(Lookup(R, k), ty, st), k');
  }

  /** `setCell` keeps the store well formed. */
  lemma SetCellWellFormed(R: RuleMap, k: string, ty: RequestType, st: State)
    requires WellFormed(R)
    ensures WellFormed(SetCellRules(R, k, ty, st))
  {
    var nb := Put(Lookup(R, k), ty, st);
    assert Lookup(R, k) < 4096;
  }

  /** After `setCell(s, d, t, st)` the cell reads `st`, and every other cell,
      of this key or of any other, reads as before. */
  lemma SetCellCells(R: RuleMap, k: string, ty: RequestType, st: State)
    ensures CellAt(SetCellRules(R, k, ty, st), k, ty) == st
    ensures forall k', ty' :: (k' != k || ty' != ty) ==>
      CellAt(SetCellRules(R, k, ty, st), k', ty') == CellAt(R, k', ty')
  {
    forall k', ty' | k' != k || ty' != ty
      ensures CellAt(SetCellRules(R, k, ty, st), k', ty') == CellAt(R, k', ty')
    {
      SetCellLookup(R, k, ty, st, k');
    }
    SetCellLookup(R, k, ty, st, k);
  }

  /** In a well-formed store a key is present exactly when its bitmap is
      non-zero. */
  lemma PresentIffNonZero(R: RuleMap, k: string)
    requires WellFormed(R)
    ensures k in R <==> Lookup(R, k) != 0
  {
  }

  /** `setCell` reports a change exactly when the dictionary changed, which
      is exactly when the cell held another state before. */
  lemma SetCellChangedIff(R: RuleMap, k: string, ty: RequestType, st: State)
    requires WellFormed(R)
    ensures SetCellChanged(R, k, ty, st) <==> SetCellRules(R, k, ty, st) != R
    ensures SetCellChanged(R, k, ty, st) <==> CellAt(R, k, ty) != st
  {
    var before := Lookup(R, k);
    assert before < 4096;
    PutUnchanged(before, ty, st);
    if SetCellChanged(R, k, ty, st) {
      SetCellLookup(R, k, ty, st, k);
      assert Lookup(SetCellRules(R, k, ty, st), k) != Lookup(R, k);
    }
  }

  /** Two well-formed stores that read alike at every key are equal. */
  lemma LookupsDetermineRules(A: RuleMap, B: RuleMap)
    requires WellFormed(A) && WellFormed(B)
    requires forall k :: Lookup(A, k) == Lookup(B, k)
    ensures A == B
  {
    assert forall k :: k in A <==> k in B by {
      forall k ensures k in A <==> k in B {
        PresentIffNonZero(A, k);
        PresentIffNonZero(B, k);
      }
    }
    assert forall k :: k in A ==> A[k] == Lookup(A, k) == Lookup(B, k) == B[k];
  }

  /** Two well-formed stores that agree on every cell are equal. */
  lemma CellsDetermineRules(A: RuleMap, B: RuleMap)
    requires WellFormed(A) && WellFormed(B)
    requires forall k, ty :: CellAt(A, k, ty) == CellAt(B, k, ty)
    ensures A == B
  {
    forall k ensures Lookup(A, k) == Lookup(B, k) {
      assert forall ty :: Cell(Lookup(A, k), ty) == CellAt(A, k, ty) == CellAt(B, k, ty) == Cell(Lookup(B, k), ty);
      CellsDetermineBitmap(Lookup(A, k), Lookup(B, k));
    }
    LookupsDetermineRules(A, B);
  }
}
