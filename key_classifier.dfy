/**
  * How the converter reads a LoRA key such as `layers.3.attention.to_q.lora_A.weight`:
  * the output projection is renamed, per-projection alphas are dropped, q/k/v factor
  * keys are parsed into a (group, axis, factor) slot and every other key passes through.
  */
module KeyClassifier {
  import opened Wrappers
  import opened Strings

  const Dot := "."
  /** Marks the attention output projection, whose adapters are only renamed. */
  const OutProjection := ".attention.to_out.0."
  const OutInfix := ".to_out.0."
  const OutRenamed := ".out."
  /** Marks any attention projection: to_q, to_k, to_v or to_out. */
  const AttentionProjection := ".attention.to_"
  const AlphaInfix := ".alpha"
  const LoraAInfix := ".lora_A"
  const AxisSegments: set<string> := {"to_q", "to_k", "to_v"}
  const FactorSegments: set<string> := {"lora_A", "lora_B"}

  datatype Axis = Q | K | V
  /** The two low-rank factors: lora_A (down-projection) and lora_B (up-projection). */
  datatype Factor = LoraA | LoraB
  datatype Slot = Slot(axis: Axis, factor: Factor)

  function AxisSegment(a: Axis): string {
    match a
    case Q => "to_q"
    case K => "to_k"
    case V => "to_v"
  }

  function FactorSegment(f: Factor): string {
    match f
    case LoraA => "lora_A"
    case LoraB => "lora_B"
  }

  /** The axis a `to_q`/`to_k`/`to_v` segment names (Python's `p[3:]`). */
  function AxisNamed(p: string): (a: Axis)
    requires p in AxisSegments
    ensures AxisSegment(a) == p
  {
    if p == "to_q" then Q else if p == "to_k" then K else V
  }

  function FactorNamed(p: string): (f: Factor)
    requires p in FactorSegments
    ensures FactorSegment(f) == p
  {
    if p == "lora_A" then LoraA else LoraB
  }

  /** Segment names and slots correspond one to one. */
  lemma SegmentNamesRoundTrip(s: Slot)
    ensures AxisNamed(AxisSegment(s.axis)) == s.axis && FactorNamed(FactorSegment(s.factor)) == s.factor
  {
  }

  /** One of `.to_q.`, `.to_k.`, `.to_v.` occurs in the key. */
  predicate NamesQkvProjection(key: string) {
    Contains(key, ".to_q.") || Contains(key, ".to_k.") || Contains(key, ".to_v.")
  }

  /** No part before index `i` is one of `names`. */
  predicate IsFirstIn(parts: seq<string>, i: nat, names: set<string>)
    requires i <= |parts|
  {
    forall j :: 0 <= j < i ==> parts[j] !in names
  }

  /** Python's `next((p for p in parts if p in names), None)`. */
  function FirstIn(parts: seq<string>, names: set<string>): (r: Option<string>)
    ensures r.None? <==> forall i :: 0 <= i < |parts| ==> parts[i] !in names
    ensures r.Some? ==> r.value in names
    ensures r.Some? ==> exists i :: 0 <= i < |parts| && parts[i] == r.value && IsFirstIn(parts, i, names)
    decreases |parts|
  {
    if |parts| == 0 then None
    else if parts[0] in names then
      assert IsFirstIn(parts, 0, names);
      Some(parts[0])
    else
      var r := FirstIn(parts[1..], names);
      assert r.Some? ==> exists i :: 0 <= i < |parts| && parts[i] == r.value && IsFirstIn(parts, i, names) by {
        if r.Some? {
          var i :| 0 <= i < |parts| - 1 && parts[1..][i] == r.value && IsFirstIn(parts[1..], i, names);
          assert parts[i + 1] == r.value;
          assert IsFirstIn(parts, i + 1, names) by {
            forall j | 0 <= j < i + 1
              ensures parts[j] !in names
            {
              if j > 0 {
                assert parts[j] == parts[1..][j - 1];
              }
            }
          }
        }
      }
      assert r.None? ==> forall i :: 0 <= i < |parts| ==> parts[i] !in names by {
        if r.None? {
          forall i | 0 <= i < |parts|
            ensures parts[i] !in names
          {
            if i > 0 {
              assert parts[i] == parts[1..][i - 1];
            }
          }
        }
      }
      r
  }

  /** Python's `[p for p in parts if p not in names]`. */
  function Without(parts: seq<string>, names: set<string>): (r: seq<string>)
    ensures forall i :: 0 <= i < |r| ==> r[i] !in names && r[i] in parts
    ensures forall i :: 0 <= i < |parts| && parts[i] !in names ==> parts[i] in r
    ensures |r| <= |parts|
    decreases |parts|
  {
    if |parts| == 0 then []
    else
      assert parts == [parts[0]] + parts[1..];
      if parts[0] in names then Without(parts[1..], names)
      else [parts[0]] + Without(parts[1..], names)
  }

  /** Python's `parts[:-2]`. */
  function DropLastTwo(parts: seq<string>): seq<string> {
    if |parts| >= 2 then parts[..|parts| - 2] else []
  }

  /** The module path a q/k/v factor key belongs to: the key without its axis segments and its last two segments. */
  function GroupKey(parts: seq<string>): string {
    JoinWith(DropLastTwo(Without(parts, AxisSegments)), Dot)
  }

  /** A module path parsed from a key has no axis segment of its own. */
  lemma GroupKeyHasNoAxis(key: string)
    ensures forall p :: p in SplitOn(GroupKey(SplitOn(key, Dot)), Dot) ==> p !in AxisSegments
  {
    var parts := SplitOn(key, Dot);
    var kept := Without(parts, AxisSegments);
    var path := DropLastTwo(kept);
    if |path| == 0 {
      assert GroupKey(parts) == "";
      assert SplitOn("", Dot) == [""];
    } else {
      SplitPiecesAvoid(key, Dot);
      forall i | 0 <= i < |path|
        ensures Dot[0] !in path[i]
      {
        assert path[i] == kept[i];
        var j :| 0 <= j < |parts| && parts[j] == kept[i];
      }
      SplitOfJoin(path, Dot);
    }
  }

  /** The output projection renamed: every `.to_out.0.` becomes `.out.`. */
  function RenameOut(key: string): string {
    Replace(key, OutInfix, OutRenamed)
  }

  /** The alpha key that accompanies a lora_A key: everything before its last `.lora_A`, then `.alpha`. */
  function CompanionAlpha(key: string): string {
    BeforeLast(key, LoraAInfix) + AlphaInfix
  }

  /** What the classification pass does with one key; the first rule that matches wins. */
  datatype Action =
    | Rename(newKey: string, alphaKey: Option<string>)
    | SkipAlpha
    | Group(group: string, slot: Slot)
    | Passthrough

  function Classify(key: string): Action
  {
    if Contains(key, OutProjection) then
      Rename(RenameOut(key), if Contains(key, "lora_A") then Some(CompanionAlpha(key)) else None)
    else if Contains(key, AttentionProjection) && Contains(key, AlphaInfix) then
      SkipAlpha
    else if Contains(key, AttentionProjection) && NamesQkvProjection(key) then
      var parts := SplitOn(key, Dot);
      match (FirstIn(parts, AxisSegments), FirstIn(parts, FactorSegments))
      case (Some(a), Some(f)) => Group(GroupKey(parts), Slot(AxisNamed(a), FactorNamed(f)))
      case _ => Passthrough
    else
      Passthrough
  }

  /**
    * The four rules, each stated by the conditions on the key that select it:
    * a key naming the output projection is renamed (with a companion alpha key
    * exactly when it names lora_A); an attention alpha is dropped; a q/k/v key is
    * grouped exactly when its segments name an axis and a factor; all else passes.
    */
  lemma ClassifyRules(key: string)
    ensures var r := Classify(key);
      && (r.Rename? <==> Contains(key, OutProjection))
      && (r.Rename? ==> r.newKey == RenameOut(key))
      && (r.Rename? ==> (r.alphaKey.Some? <==> Contains(key, "lora_A")))
      && (r.Rename? && r.alphaKey.Some? ==> r.alphaKey.value == CompanionAlpha(key))
      && (r.SkipAlpha? <==> !Contains(key, OutProjection) && Contains(key, AttentionProjection) && Contains(key, AlphaInfix))
      && (r.Group? <==>
        && !Contains(key, OutProjection) && Contains(key, AttentionProjection) && !Contains(key, AlphaInfix)
        && NamesQkvProjection(key)
        && (exists i :: 0 <= i < |SplitOn(key, Dot)| && SplitOn(key, Dot)[i] in AxisSegments)
        && (exists i :: 0 <= i < |SplitOn(key, Dot)| && SplitOn(key, Dot)[i] in FactorSegments))
      && (r.Group? ==> r.group == GroupKey(SplitOn(key, Dot)))
  {
  }

  /** A grouped key has an axis segment. */
  lemma GroupedKeyHasAxis(key: string)
    requires Classify(key).Group?
    ensures exists i :: 0 <= i < |SplitOn(key, Dot)| && SplitOn(key, Dot)[i] in AxisSegments
  {
    ClassifyRules(key);
  }

  /** A grouped key's slot names the first axis segment and the first factor segment of the key. */
  lemma GroupedSlotIsFirstSegments(key: string)
    requires Classify(key).Group?
    ensures var parts, s := SplitOn(key, Dot), Classify(key).slot;
      && (exists i :: 0 <= i < |parts| && parts[i] == AxisSegment(s.axis) && IsFirstIn(parts, i, AxisSegments))
      && (exists i :: 0 <= i < |parts| && parts[i] == FactorSegment(s.factor) && IsFirstIn(parts, i, FactorSegments))
  {
    var parts := SplitOn(key, Dot);
    var a, f := FirstIn(parts, AxisSegments), FirstIn(parts, FactorSegments);
    assert a.Some? && f.Some?;
    ClassifyGrouped(key, a.value, f.value);
    assert Classify(key).slot == Slot(AxisNamed(a.value), FactorNamed(f.value));
  }

  /**
    * A key carrying one of the `.to_q.`, `.to_k.`, `.to_v.` markers always has an
    * axis segment, so the only way such a key falls back to passthrough is by
    * lacking a lora_A/lora_B segment.
    */
  lemma AxisSegmentAlwaysFound(key: string)
    requires NamesQkvProjection(key)
    ensures FirstIn(SplitOn(key, Dot), AxisSegments).Some?
  {
    var a :| a in AxisSegments && Contains(key, Dot + a + Dot) by {
      assert ".to_q." == Dot + "to_q" + Dot;
      assert ".to_k." == Dot + "to_k" + Dot;
      assert ".to_v." == Dot + "to_v" + Dot;
    }
    assert Dot[0] !in a;
    EnclosedPieceIsSplit(key, a, Dot);
  }

  /** The fallback of rule 3: a q/k/v key passes through exactly when it has no factor segment. */
  lemma QkvKeyPassesThroughIffNoFactor(key: string)
    requires !Contains(key, OutProjection) && Contains(key, AttentionProjection) && !Contains(key, AlphaInfix)
    requires NamesQkvProjection(key)
    ensures Classify(key) == Passthrough <==> forall p :: p in SplitOn(key, Dot) ==> p !in FactorSegments
  {
    AxisSegmentAlwaysFound(key);
  }

  /** The conventional name of the adapter of one slot under module path `group`. */
  function QkvKey(group: string, s: Slot): string {
    group + Dot + AxisSegment(s.axis) + Dot + FactorSegment(s.factor) + ".weight"
  }

  /** Splitting `g.a.b` for dot-free `a` and `b`: the pieces of `g`, then `a` and `b`. */
  lemma SplitPathThenTwo(g: string, a: string, b: string)
    requires Dot[0] !in a && Dot[0] !in b
    ensures SplitOn(g + Dot + a + Dot + b, Dot) == SplitOn(g, Dot) + [a, b]
  {
    assert g + Dot + a + Dot + b == g + Dot + (a + Dot + b);
    SplitAroundSeparator(g, Dot, a + Dot + b);
    SplitAroundSeparator(a, Dot, b);
    SplitWithoutSeparator(a, Dot);
    SplitWithoutSeparator(b, Dot);
  }

  /** Splitting `g.a.b.c` for dot-free `a`, `b` and `c`: the pieces of `g`, then `a`, `b` and `c`. */
  lemma SplitPathThenThree(g: string, a: string, b: string, c: string)
    requires Dot[0] !in a && Dot[0] !in b && Dot[0] !in c
    ensures SplitOn(g + Dot + a + Dot + b + Dot + c, Dot) == SplitOn(g, Dot) + [a, b, c]
  {
    SplitPathThenTwo(g + Dot + a, b, c);
    SplitAroundSeparator(g, Dot, a);
    SplitWithoutSeparator(a, Dot);
  }

  /** Splitting a conventional key gives the group's segments, then axis, factor and `weight`. */
  lemma SplitQkvKey(group: string, s: Slot)
    ensures SplitOn(QkvKey(group, s), Dot) == SplitOn(group, Dot) + [AxisSegment(s.axis), FactorSegment(s.factor), "weight"]
  {
    var ax, fa := AxisSegment(s.axis), FactorSegment(s.factor);
    assert QkvKey(group, s) == group + Dot + ax + Dot + fa + Dot + "weight";
    SplitPathThenThree(group, ax, fa, "weight");
  }

  lemma {:induction false} WithoutAppend(a: seq<string>, b: seq<string>, names: set<string>)
    ensures Without(a + b, names) == Without(a, names) + Without(b, names)
    decreases |a|
  {
    if |a| > 0 {
      assert (a + b)[1..] == a[1..] + b;
      WithoutAppend(a[1..], b, names);
    } else {
      assert a + b == b;
    }
  }

  lemma {:induction false} WithoutNoneOf(parts: seq<string>, names: set<string>)
    requires forall i :: 0 <= i < |parts| ==> parts[i] !in names
    ensures Without(parts, names) == parts
    decreases |parts|
  {
    if |parts| > 0 {
      WithoutNoneOf(parts[1..], names);
    }
  }

  /** Parts that are none of `names` are skipped by the search. */
  lemma {:induction false} FirstInSkips(a: seq<string>, b: seq<string>, names: set<string>)
    requires forall i :: 0 <= i < |a| ==> a[i] !in names
    ensures FirstIn(a + b, names) == FirstIn(b, names)
    decreases |a|
  {
    if |a| > 0 {
      assert (a + b)[0] == a[0];
      assert (a + b)[1..] == a[1..] + b;
      FirstInSkips(a[1..], b, names);
    } else {
      assert a + b == b;
    }
  }

  /** In a conventional key, the first axis and factor segments are the slot's own. */
  lemma FirstSegmentsOfQkvKey(group: string, s: Slot)
    requires forall p :: p in SplitOn(group, Dot) ==> p !in AxisSegments && p !in FactorSegments
    ensures FirstIn(SplitOn(QkvKey(group, s), Dot), AxisSegments) == Some(AxisSegment(s.axis))
    ensures FirstIn(SplitOn(QkvKey(group, s), Dot), FactorSegments) == Some(FactorSegment(s.factor))
  {
    var g, tail := SplitOn(group, Dot), [AxisSegment(s.axis), FactorSegment(s.factor), "weight"];
    SplitQkvKey(group, s);
    FirstInSkips(g, tail, AxisSegments);
    FirstInSkips(g, tail, FactorSegments);
    FirstSegmentsOfTail(s);
  }

  lemma FirstSegmentsOfTail(s: Slot)
    ensures var tail := [AxisSegment(s.axis), FactorSegment(s.factor), "weight"];
      FirstIn(tail, AxisSegments) == Some(AxisSegment(s.axis)) && FirstIn(tail, FactorSegments) == Some(FactorSegment(s.factor))
  {
    var tail := [AxisSegment(s.axis), FactorSegment(s.factor), "weight"];
    assert tail[0] in AxisSegments;
    assert tail[0] !in FactorSegments && tail[1] in FactorSegments;
    assert tail[1..][0] == tail[1];
  }

  /** Filtering out a leading name leaves the rest, when the rest holds no name. */
  lemma WithoutLeadingName(a: string, rest: seq<string>, names: set<string>)
    requires a in names
    requires forall i :: 0 <= i < |rest| ==> rest[i] !in names
    ensures Without([a] + rest, names) == rest
  {
    assert ([a] + rest)[1..] == rest;
    WithoutNoneOf(rest, names);
  }

  /**
    * Parts made of axis-free `g`, one axis segment `a` and two more axis-free parts:
    * dropping the axis segments and then the last two parts leaves `g`.
    */
  lemma GroupPartsOfQkvKey(g: seq<string>, a: string, rest: seq<string>)
    requires forall i :: 0 <= i < |g| ==> g[i] !in AxisSegments
    requires a in AxisSegments
    requires |rest| == 2 && forall i :: 0 <= i < |rest| ==> rest[i] !in AxisSegments
    ensures DropLastTwo(Without(g + ([a] + rest), AxisSegments)) == g
  {
    WithoutAppend(g, [a] + rest, AxisSegments);
    WithoutNoneOf(g, AxisSegments);
    WithoutLeadingName(a, rest, AxisSegments);
    assert (g + rest)[..|g|] == g;
  }

  /** The group path parsed out of a conventional key is the path it was built from. */
  lemma GroupKeyOfQkvKey(group: string, s: Slot)
    requires forall p :: p in SplitOn(group, Dot) ==> p !in AxisSegments
    ensures GroupKey(SplitOn(QkvKey(group, s), Dot)) == group
  {
    var g, rest := SplitOn(group, Dot), [FactorSegment(s.factor), "weight"];
    SplitQkvKey(group, s);
    assert SplitOn(QkvKey(group, s), Dot) == g + ([AxisSegment(s.axis)] + rest);
    GroupPartsOfQkvKey(g, AxisSegment(s.axis), rest);
    SplitJoinRoundTrip(group, Dot);
  }

  /** Rule 3 taken: the key is grouped under its parsed path, in the slot its first segments name. */
  lemma ClassifyGrouped(key: string, a: string, f: string)
    requires !Contains(key, OutProjection) && Contains(key, AttentionProjection) && !Contains(key, AlphaInfix)
    requires NamesQkvProjection(key)
    requires FirstIn(SplitOn(key, Dot), AxisSegments) == Some(a)
    requires FirstIn(SplitOn(key, Dot), FactorSegments) == Some(f)
    ensures a in AxisSegments && f in FactorSegments
    ensures Classify(key) == Group(GroupKey(SplitOn(key, Dot)), Slot(AxisNamed(a), FactorNamed(f)))
  {
  }

  /** A conventional key carries its own axis marker. */
  lemma QkvKeyNamesProjection(group: string, s: Slot)
    ensures NamesQkvProjection(QkvKey(group, s))
  {
    var ax, fa := AxisSegment(s.axis), FactorSegment(s.factor);
    assert QkvKey(group, s) == group + (Dot + ax + Dot) + (fa + ".weight");
    ContainsAround(group, Dot + ax + Dot, fa + ".weight");
    match s.axis
    case Q => assert Dot + ax + Dot == ".to_q.";
    case K => assert Dot + ax + Dot == ".to_k.";
    case V => assert Dot + ax + Dot == ".to_v.";
  }

  /**
    * Round trip of the key convention: the conventional key of a slot under an
    * attention module path is parsed back into that group and that slot.
    */
  lemma ClassifyQkvKey(group: string, s: Slot)
    requires forall p :: p in SplitOn(group, Dot) ==> p !in AxisSegments && p !in FactorSegments
    requires Contains(QkvKey(group, s), AttentionProjection)
    requires !Contains(QkvKey(group, s), OutProjection) && !Contains(QkvKey(group, s), AlphaInfix)
    ensures Classify(QkvKey(group, s)) == Group(group, s)
  {
    var key, ax, fa := QkvKey(group, s), AxisSegment(s.axis), FactorSegment(s.factor);
    QkvKeyNamesProjection(group, s);
    FirstSegmentsOfQkvKey(group, s);
    GroupKeyOfQkvKey(group, s);
    ClassifyGrouped(key, ax, fa);
    SegmentNamesRoundTrip(s);
  }
}
