/**
  * The second pass for one attention module: the q, k and v adapters collected
  * for it are fused into a single qkv adapter (a block-diagonal lora_B and a
  * row-stacked lora_A) and the q alpha, if any, is carried over tripled.
  */
module MergeEngine {
  import opened Wrappers
  import opened Strings
  import opened Tensors
  import opened KeyClassifier

  /** The adapters collected for one module path: axis, then factor, then tensor. */
  type Group = map<Axis, map<Factor, Tensor>>

  const QkvBSuffix := ".qkv.lora_B.weight"
  const QkvASuffix := ".qkv.lora_A.weight"
  const QkvAlphaSuffix := ".qkv.alpha"
  /** The two places a q alpha may be stored, tried in this order. */
  const QAlphaSuffix := ".to_q.alpha"
  const QLoraAAlphaSuffix := ".to_q.lora_A.alpha"
  /** The fused adapter spans three projections, so its alpha is three times the q alpha. */
  const AlphaScale: real := 3.0

  /** The completeness gate: the module has adapters for all of q, k and v. */
  predicate HasAllAxes(grp: Group) {
    Q in grp && K in grp && V in grp
  }

  predicate Holds(grp: Group, s: Slot) {
    s.axis in grp && s.factor in grp[s.axis]
  }

  function At(grp: Group, s: Slot): Tensor
    requires Holds(grp, s)
  {
    grp[s.axis][s.factor]
  }

  /** All six factors are present. */
  predicate HasAllFactors(grp: Group) {
    && Holds(grp, Slot(Q, LoraB)) && Holds(grp, Slot(K, LoraB)) && Holds(grp, Slot(V, LoraB))
    && Holds(grp, Slot(Q, LoraA)) && Holds(grp, Slot(K, LoraA)) && Holds(grp, Slot(V, LoraA))
  }

  /** The six lookups, in the order they are made: the three lora_B, then the three lora_A. */
  const LookupOrder: seq<Slot> :=
    [Slot(Q, LoraB), Slot(K, LoraB), Slot(V, LoraB), Slot(Q, LoraA), Slot(K, LoraA), Slot(V, LoraA)]

  /** Why a complete group cannot be fused; each one aborts the group with nothing written. */
  datatype FuseError =
    | MissingFactor(slot: Slot)
    | NotMatrix
    | BlockShape(axis: Axis)
    | ConcatShape

  /** Whether the three lora_A factors can be stacked row-wise: matrices of one width. */
  predicate Stackable(qA: Tensor, kA: Tensor, vA: Tensor) {
    qA.Matrix? && kA.Matrix? && vA.Matrix? && kA.cols == qA.cols && vA.cols == qA.cols
  }

  /**
    * The fused pair (lora_B, lora_A): a zero (3h, 3r) matrix with the q, k, v
    * up-projections on its diagonal blocks, and the q, k, v down-projections
    * stacked row-wise. (h, r) is the shape of q's lora_B; k's and v's are
    * broadcast to it.
    */
  function Fuse(grp: Group): Result<(Tensor, Tensor), FuseError> {
    if !Holds(grp, Slot(Q, LoraB)) then Failure(MissingFactor(Slot(Q, LoraB)))
    else if !Holds(grp, Slot(K, LoraB)) then Failure(MissingFactor(Slot(K, LoraB)))
    else if !Holds(grp, Slot(V, LoraB)) then Failure(MissingFactor(Slot(V, LoraB)))
    else if !Holds(grp, Slot(Q, LoraA)) then Failure(MissingFactor(Slot(Q, LoraA)))
    else if !Holds(grp, Slot(K, LoraA)) then Failure(MissingFactor(Slot(K, LoraA)))
    else if !Holds(grp, Slot(V, LoraA)) then Failure(MissingFactor(Slot(V, LoraA)))
    else
      var qB, kB, vB := At(grp, Slot(Q, LoraB)), At(grp, Slot(K, LoraB)), At(grp, Slot(V, LoraB));
      var qA, kA, vA := At(grp, Slot(Q, LoraA)), At(grp, Slot(K, LoraA)), At(grp, Slot(V, LoraA));
      if !qB.Matrix? then Failure(NotMatrix)
      else
        var h, r := |qB.cells|, qB.cols;
        if !BroadcastsTo(kB, h, r) then Failure(BlockShape(K))
        else if !BroadcastsTo(vB, h, r) then Failure(BlockShape(V))
        else if !Stackable(qA, kA, vA) then Failure(ConcatShape)
        else Success((BlockDiagonal(qB, Broadcast(kB, h, r), Broadcast(vB, h, r)), ConcatRows(qA, kA, vA)))
  }

  /** The n-th lookup is the first that finds nothing. */
  predicate FirstMissingAt(grp: Group, n: nat)
    requires n < |LookupOrder|
  {
    !Holds(grp, LookupOrder[n]) && forall m :: 0 <= m < n ==> Holds(grp, LookupOrder[m])
  }

  /** Fusion fails on a missing factor exactly when one is missing, and names the first missing in lookup order. */
  lemma FuseMissingFactor(grp: Group)
    ensures (Fuse(grp).Failure? && Fuse(grp).error.MissingFactor?) <==> !HasAllFactors(grp)
    ensures Fuse(grp).Failure? && Fuse(grp).error.MissingFactor? ==>
      exists n :: 0 <= n < |LookupOrder| && LookupOrder[n] == Fuse(grp).error.slot && FirstMissingAt(grp, n)
  {
    var order := LookupOrder;
    if !Holds(grp, order[0]) {
      assert FirstMissingAt(grp, 0);
    } else if !Holds(grp, order[1]) {
      assert FirstMissingAt(grp, 1);
    } else if !Holds(grp, order[2]) {
      assert FirstMissingAt(grp, 2);
    } else if !Holds(grp, order[3]) {
      assert FirstMissingAt(grp, 3);
    } else if !Holds(grp, order[4]) {
      assert FirstMissingAt(grp, 4);
    } else if !Holds(grp, order[5]) {
      assert FirstMissingAt(grp, 5);
    }
  }

  /**
    * A group with all six factors fuses exactly when q's lora_B is a matrix, k's and
    * v's lora_B broadcast to its shape, and the lora_A factors stack.
    */
  lemma FuseSucceedsIff(grp: Group)
    requires HasAllFactors(grp)
    ensures var qB, kB, vB := At(grp, Slot(Q, LoraB)), At(grp, Slot(K, LoraB)), At(grp, Slot(V, LoraB));
      Fuse(grp).Success? <==>
        && qB.Matrix? && BroadcastsTo(kB, |qB.cells|, qB.cols) && BroadcastsTo(vB, |qB.cells|, qB.cols)
        && Stackable(At(grp, Slot(Q, LoraA)), At(grp, Slot(K, LoraA)), At(grp, Slot(V, LoraA)))
  {
  }

  /**
    * The fused lora_B is (3h, 3r), (h, r) being the shape of q's lora_B, with q, k, v
    * on the diagonal blocks and zeros elsewhere.
    */
  lemma FusedUpProjection(grp: Group)
    requires Fuse(grp).Success?
    ensures HasAllFactors(grp)
    ensures var qB, kB, vB := At(grp, Slot(Q, LoraB)), At(grp, Slot(K, LoraB)), At(grp, Slot(V, LoraB));
      var b, h, r := Fuse(grp).value.0, |qB.cells|, qB.cols;
      && qB.Matrix? && BroadcastsTo(kB, h, r) && BroadcastsTo(vB, h, r)
      && b.Matrix? && |b.cells| == 3 * h && b.cols == 3 * r
      && (forall i, j :: 0 <= i < h && 0 <= j < r ==> b.cells[i][j] == qB.cells[i][j])
      && (forall i, j :: 0 <= i < h && 0 <= j < r ==> b.cells[h + i][r + j] == Broadcast(kB, h, r).cells[i][j])
      && (forall i, j :: 0 <= i < h && 0 <= j < r ==> b.cells[2 * h + i][2 * r + j] == Broadcast(vB, h, r).cells[i][j])
      && (forall i, j :: 0 <= i < 3 * h && 0 <= j < 3 * r && !OnDiagonalBlock(i, j, h, r) ==> b.cells[i][j] == 0.0)
  {
    var qB, kB, vB := At(grp, Slot(Q, LoraB)), At(grp, Slot(K, LoraB)), At(grp, Slot(V, LoraB));
    var h, r := |qB.cells|, qB.cols;
    assert Fuse(grp).value.0 == BlockDiagonal(qB, Broadcast(kB, h, r), Broadcast(vB, h, r));
  }

  /** The fused lora_A holds q's rows, then k's, then v's. */
  lemma FusedDownProjection(grp: Group)
    requires Fuse(grp).Success?
    ensures HasAllFactors(grp)
    ensures var qA, kA, vA := At(grp, Slot(Q, LoraA)), At(grp, Slot(K, LoraA)), At(grp, Slot(V, LoraA));
      var a := Fuse(grp).value.1;
      Stackable(qA, kA, vA) && a.Matrix? && a.cols == qA.cols && a.cells == qA.cells + kA.cells + vA.cells
  {
    var qA, kA, vA := At(grp, Slot(Q, LoraA)), At(grp, Slot(K, LoraA)), At(grp, Slot(V, LoraA));
    var a := Fuse(grp).value.1;
    assert a == ConcatRows(qA, kA, vA);
    assert a.cells == a.cells[..|qA.cells|] + a.cells[|qA.cells|..|qA.cells| + |kA.cells|] + a.cells[|qA.cells| + |kA.cells|..];
  }

  /**
    * The same fusion, carried out the way the converter does it: k's and v's
    * lora_B are broadcast, then copied into a zero-filled array in place.
    */
  method FuseGroup(grp: Group) returns (r: Result<(Tensor, Tensor), FuseError>)
    ensures r == Fuse(grp)
  {
    if !Holds(grp, Slot(Q, LoraB)) {
      return Failure(MissingFactor(Slot(Q, LoraB)));
    }
    if !Holds(grp, Slot(K, LoraB)) {
      return Failure(MissingFactor(Slot(K, LoraB)));
    }
    if !Holds(grp, Slot(V, LoraB)) {
      return Failure(MissingFactor(Slot(V, LoraB)));
    }
    if !Holds(grp, Slot(Q, LoraA)) {
      return Failure(MissingFactor(Slot(Q, LoraA)));
    }
    if !Holds(grp, Slot(K, LoraA)) {
      return Failure(MissingFactor(Slot(K, LoraA)));
    }
    if !Holds(grp, Slot(V, LoraA)) {
      return Failure(MissingFactor(Slot(V, LoraA)));
    }
    var qB, kB, vB := At(grp, Slot(Q, LoraB)), At(grp, Slot(K, LoraB)), At(grp, Slot(V, LoraB));
    var qA, kA, vA := At(grp, Slot(Q, LoraA)), At(grp, Slot(K, LoraA)), At(grp, Slot(V, LoraA));
    if !qB.Matrix? {
      return Failure(NotMatrix);
    }
    var h, rank := |qB.cells|, qB.cols;
    if !BroadcastsTo(kB, h, rank) {
      return Failure(BlockShape(K));
    }
    if !BroadcastsTo(vB, h, rank) {
      return Failure(BlockShape(V));
    }
    if !Stackable(qA, kA, vA) {
      return Failure(ConcatShape);
    }
    var b := FillBlockDiagonal(qB, Broadcast(kB, h, rank), Broadcast(vB, h, rank));
    r := Success((b, ConcatRows(qA, kA, vA)));
  }

  /** What the q-alpha lookup yields: an alpha, none, or the error Python's `bool` raises. */
  datatype AlphaChoice = Picked(alpha: Tensor) | NoAlpha | Raises

  /**
    * `input.get(g + ".to_q.alpha") or input.get(g + ".to_q.lora_A.alpha")`: the first
    * is taken only when it is truthy, so an absent or zero first alpha falls through
    * to the second, and a first alpha of several elements raises.
    */
  function PickAlpha(input: map<string, Tensor>, g: string): (c: AlphaChoice)
    ensures var first, second := g + QAlphaSuffix, g + QLoraAAlphaSuffix;
      && (c.Raises? <==> first in input && Truth(input[first]).None?)
      && (first in input && Truth(input[first]) == Some(true) ==> c == Picked(input[first]))
      && ((first !in input || Truth(input[first]) == Some(false)) ==>
            (if second in input then c == Picked(input[second]) else c == NoAlpha))
  {
    var first, second := g + QAlphaSuffix, g + QLoraAAlphaSuffix;
    if first in input && Truth(input[first]).None? then Raises
    else if first in input && Truth(input[first]) == Some(true) then Picked(input[first])
    else if second in input then Picked(input[second])
    else NoAlpha
  }

  /** The group is complete and fuses. */
  predicate Fuses(grp: Group) {
    HasAllAxes(grp) && Fuse(grp).Success?
  }

  /**
    * The output entries one group contributes: nothing unless it fuses; otherwise
    * the fused lora_B and lora_A and, when a q alpha was picked, the tripled alpha.
    */
  function FusedWrites(g: string, grp: Group, input: map<string, Tensor>): map<string, Tensor> {
    if !Fuses(grp) then map[]
    else
      var (b, a) := Fuse(grp).value;
      var m := map[g + QkvBSuffix := b, g + QkvASuffix := a];
      match PickAlpha(input, g)
      case Picked(t) => m[g + QkvAlphaSuffix := Scale(t, AlphaScale)]
      case _ => m
  }

  /**
    * The keys a group writes: both factors exactly when it fuses, and the alpha
    * exactly when it fuses and a q alpha was picked; a raising alpha lookup leaves
    * the fused factors in place.
    */
  lemma FusedWritesKeys(g: string, grp: Group, input: map<string, Tensor>)
    ensures var w := FusedWrites(g, grp, input);
      && w.Keys <= {g + QkvBSuffix, g + QkvASuffix, g + QkvAlphaSuffix}
      && (g + QkvBSuffix in w <==> Fuses(grp))
      && (g + QkvASuffix in w <==> Fuses(grp))
      && (g + QkvAlphaSuffix in w <==> Fuses(grp) && PickAlpha(input, g).Picked?)
      && (Fuses(grp) ==> w[g + QkvBSuffix] == Fuse(grp).value.0 && w[g + QkvASuffix] == Fuse(grp).value.1)
      && (Fuses(grp) && PickAlpha(input, g).Picked? ==>
            w[g + QkvAlphaSuffix] == Scale(PickAlpha(input, g).alpha, AlphaScale))
  {
    assert g + QkvBSuffix != g + QkvASuffix by {
      assert (g + QkvBSuffix)[|g| + 10] != (g + QkvASuffix)[|g| + 10];
    }
    assert g + QkvAlphaSuffix != g + QkvBSuffix && g + QkvAlphaSuffix != g + QkvASuffix by {
      assert |g + QkvAlphaSuffix| != |g + QkvBSuffix|;
    }
  }

  /** Two module paths followed by the suffixes of fused keys give the same key only for the same path and suffix. */
  lemma FusedKeysDiffer(g1: string, s1: string, g2: string, s2: string)
    requires s1 in {QkvBSuffix, QkvASuffix, QkvAlphaSuffix} && s2 in {QkvBSuffix, QkvASuffix, QkvAlphaSuffix}
    requires g1 + s1 == g2 + s2
    ensures g1 == g2 && s1 == s2
  {
    var k := g1 + s1;
    if |s1| == |s2| {
      assert g1 == k[..|g1|] == g2;
      assert s1 == k[|g1|..] == s2;
    } else {
      EndsWithLast(g1, s1);
      EndsWithLast(g2, s2);
      assert false;
    }
  }

  /** A non-empty suffix fixes the last character. */
  lemma EndsWithLast(g: string, s: string)
    requires |s| > 0
    ensures (g + s)[|g + s| - 1] == s[|s| - 1]
  {
  }

  /** The only keys a group can write. */
  function FusedKeys(g: string): set<string> {
    {g + QkvBSuffix, g + QkvASuffix, g + QkvAlphaSuffix}
  }

  lemma UpKeyHasNoAxis(g: string)
    requires forall p :: p in SplitOn(g, Dot) ==> p !in AxisSegments
    ensures forall p :: p in SplitOn(g + QkvBSuffix, Dot) ==> p !in AxisSegments
  {
    assert g + QkvBSuffix == g + Dot + "qkv" + Dot + "lora_B" + Dot + "weight";
    SplitPathThenThree(g, "qkv", "lora_B", "weight");
  }

  lemma DownKeyHasNoAxis(g: string)
    requires forall p :: p in SplitOn(g, Dot) ==> p !in AxisSegments
    ensures forall p :: p in SplitOn(g + QkvASuffix, Dot) ==> p !in AxisSegments
  {
    assert g + QkvASuffix == g + Dot + "qkv" + Dot + "lora_A" + Dot + "weight";
    SplitPathThenThree(g, "qkv", "lora_A", "weight");
  }

  lemma AlphaKeyHasNoAxis(g: string)
    requires forall p :: p in SplitOn(g, Dot) ==> p !in AxisSegments
    ensures forall p :: p in SplitOn(g + QkvAlphaSuffix, Dot) ==> p !in AxisSegments
  {
    assert g + QkvAlphaSuffix == g + Dot + "qkv" + Dot + "alpha";
    SplitPathThenTwo(g, "qkv", "alpha");
  }

  /** A fused key has an axis segment only where its module path has one. */
  lemma FusedKeyHasNoAxis(g: string, k: string)
    requires forall p :: p in SplitOn(g, Dot) ==> p !in AxisSegments
    requires k in FusedKeys(g)
    ensures forall p :: p in SplitOn(k, Dot) ==> p !in AxisSegments
  {
    UpKeyHasNoAxis(g);
    DownKeyHasNoAxis(g);
    AlphaKeyHasNoAxis(g);
  }

  lemma FusedWritesWithin(g: string, grp: Group, input: map<string, Tensor>)
    ensures FusedWrites(g, grp, input).Keys <= FusedKeys(g)
  {
  }

  /** Distinct groups never write the same output key, so the order they are merged in does not matter. */
  lemma FusedWritesDisjoint(g1: string, grp1: Group, g2: string, grp2: Group, input: map<string, Tensor>)
    requires g1 != g2
    ensures FusedWrites(g1, grp1, input).Keys !! FusedWrites(g2, grp2, input).Keys
  {
    FusedWritesWithin(g1, grp1, input);
    FusedWritesWithin(g2, grp2, input);
    FusedKeysDisjoint(g1, g2);
  }

  lemma FusedKeysDisjoint(g1: string, g2: string)
    requires g1 != g2
    ensures FusedKeys(g1) !! FusedKeys(g2)
  {
    forall k | k in FusedKeys(g1) && k in FusedKeys(g2)
      ensures false
    {
      var s1 :| s1 in {QkvBSuffix, QkvASuffix, QkvAlphaSuffix} && k == g1 + s1;
      var s2 :| s2 in {QkvBSuffix, QkvASuffix, QkvAlphaSuffix} && k == g2 + s2;
      FusedKeysDiffer(g1, s1, g2, s2);
    }
  }

}
