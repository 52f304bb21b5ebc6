/**
  * `convert_lora` as the converter runs it: the format is chosen by the file
  * extension, the entries are scanned once, updating the output dict and the
  * groups in place, and the groups are then fused one by one.
  */
module Conversion {
  import opened Wrappers
  import opened Strings
  import opened Tensors
  import opened KeyClassifier
  import opened MergeEngine
  import opened Converter

  /**
    * Both loops of the converter. The result is the one the two passes specify, so
    * every property proved of `ConvertSpec` holds of it.
    */
  method ConvertLora(entries: seq<Entry>) returns (out: map<string, Tensor>, count: nat)
    ensures Converted(out, count) == ConvertSpec(entries)
  {
    var input := ToMap(entries);
    var groups, order;
    out, groups, order := ParseEntries(entries, input);
    Pass1Order(entries, input);
    out, count := MergeGroups(order, groups, input, out);
  }

  /** The first pass over one more entry. */
  lemma Pass1Snoc(es: seq<Entry>, i: nat, input: map<string, Tensor>)
    requires i < |es|
    ensures Pass1(es[..i + 1], input) == Step(Pass1(es[..i], input), es[i], input)
  {
    assert es[..i + 1][..i] == es[..i];
  }

  /** Rule 1 taken: the renamed key and, when present, the renamed companion alpha are written. */
  lemma StepRename(st: Parsed, e: Entry, input: map<string, Tensor>)
    requires Contains(e.key, OutProjection)
    ensures var out := st.out[RenameOut(e.key) := e.value];
      var alphaKey := CompanionAlpha(e.key);
      Step(st, e, input) == st.(out := if Contains(e.key, "lora_A") && alphaKey in input
                                        then out[RenameOut(alphaKey) := input[alphaKey]] else out)
  {
    var alpha := if Contains(e.key, "lora_A") then Some(CompanionAlpha(e.key)) else None;
    assert Classify(e.key) == Rename(RenameOut(e.key), alpha);
  }

  /** Rule 2 taken: nothing changes. */
  lemma StepSkip(st: Parsed, e: Entry, input: map<string, Tensor>)
    requires !Contains(e.key, OutProjection)
    requires Contains(e.key, AttentionProjection) && Contains(e.key, AlphaInfix)
    ensures Step(st, e, input) == st
  {
    assert st.out + map[] == st.out;
  }

  /** Rule 3 taken: the factor is stored in its group. */
  lemma StepGroup(st: Parsed, e: Entry, input: map<string, Tensor>, a: string, f: string)
    requires !Contains(e.key, OutProjection) && Contains(e.key, AttentionProjection) && !Contains(e.key, AlphaInfix)
    requires NamesQkvProjection(e.key)
    requires FirstIn(SplitOn(e.key, Dot), AxisSegments) == Some(a)
    requires FirstIn(SplitOn(e.key, Dot), FactorSegments) == Some(f)
    ensures a in AxisSegments && f in FactorSegments
    ensures Step(st, e, input) == AddToGroup(st, GroupKey(SplitOn(e.key, Dot)), Slot(AxisNamed(a), FactorNamed(f)), e.value)
  {
    ClassifyGrouped(e.key, a, f);
  }

  /** No rule taken: the entry is copied through. */
  lemma StepPass(st: Parsed, e: Entry, input: map<string, Tensor>)
    requires !Contains(e.key, OutProjection)
    requires !(Contains(e.key, AttentionProjection) && Contains(e.key, AlphaInfix))
    requires !(Contains(e.key, AttentionProjection) && NamesQkvProjection(e.key))
      || FirstIn(SplitOn(e.key, Dot), AxisSegments).None? || FirstIn(SplitOn(e.key, Dot), FactorSegments).None?
    ensures Step(st, e, input) == st.(out := st.out[e.key := e.value])
  {
  }

  /** The first loop: each entry is renamed, dropped, stored in its group or copied through. */
  method ParseEntries(entries: seq<Entry>, input: map<string, Tensor>)
    returns (out: map<string, Tensor>, groups: map<string, Group>, order: seq<string>)
    ensures Parsed(out, groups, order) == Pass1(entries, input)
  {
    out, groups, order := map[], map[], [];
    for i := 0 to |entries|
      invariant Parsed(out, groups, order) == Pass1(entries[..i], input)
    {
      var key, value := entries[i].key, entries[i].value;
      Pass1Snoc(entries, i, input);
      ghost var before := Parsed(out, groups, order);
      if Contains(key, OutProjection) {
        StepRename(before, entries[i], input);
        out := out[RenameOut(key) := value];
        if Contains(key, "lora_A") {
          var alphaKey := CompanionAlpha(key);
          if alphaKey in input {
            out := out[RenameOut(alphaKey) := input[alphaKey]];
          }
        }
        continue;
      }
      if Contains(key, AttentionProjection) && Contains(key, AlphaInfix) {
        StepSkip(before, entries[i], input);
        continue;
      }
      if Contains(key, AttentionProjection) && NamesQkvProjection(key) {
        var parts := SplitOn(key, Dot);
        var axis := FirstIn(parts, AxisSegments);
        var factor := FirstIn(parts, FactorSegments);
        if axis.Some? && factor.Some? {
          StepGroup(before, entries[i], input, axis.value, factor.value);
          var g := GroupKey(parts);
          var s := Slot(AxisNamed(axis.value), FactorNamed(factor.value));
          var grp: Group := if g in groups then groups[g] else map[];
          var slots: map<Factor, Tensor> := if s.axis in grp then grp[s.axis] else map[];
          if g !in groups {
            order := order + [g];
          }
          groups := groups[g := grp[s.axis := slots[s.factor := value]]];
          continue;
        }
      }
      StepPass(before, entries[i], input);
      out := out[key := value];
    }
    assert entries[..|entries|] == entries;
  }

  /** The second pass over one more group. */
  lemma Pass2Snoc(order: seq<string>, j: nat, groups: map<string, Group>, input: map<string, Tensor>,
                  out: map<string, Tensor>)
    requires j < |order| && forall g :: g in order ==> g in groups
    ensures forall g :: g in order[..j] ==> g in groups
    ensures forall g :: g in order[..j + 1] ==> g in groups
    ensures var prev, g := Pass2(order[..j], groups, input, out), order[j];
      Pass2(order[..j + 1], groups, input, out)
        == Converted(prev.out + FusedWrites(g, groups[g], input), prev.count + if Fuses(groups[g]) then 1 else 0)
  {
    assert order[..j + 1][..j] == order[..j];
  }

  /** What a fused group adds to the output, written as the converter writes it. */
  lemma FusedWritesUpdate(out: map<string, Tensor>, g: string, grp: Group, input: map<string, Tensor>)
    requires Fuses(grp)
    ensures var (b, a) := Fuse(grp).value;
      var out' := out[g + QkvBSuffix := b][g + QkvASuffix := a];
      out + FusedWrites(g, grp, input) ==
        match PickAlpha(input, g)
        case Picked(t) => out'[g + QkvAlphaSuffix := Scale(t, AlphaScale)]
        case _ => out'
  {
  }

  /**
    * The body of the second loop for one module: a complete group that fuses writes
    * its fused factors and, when a q alpha is picked, three times that alpha.
    */
  method MergeGroup(out: map<string, Tensor>, g: string, grp: Group, input: map<string, Tensor>)
    returns (merged: map<string, Tensor>, fused: bool)
    ensures merged == out + FusedWrites(g, grp, input)
    ensures fused == Fuses(grp)
  {
    merged, fused := out, false;
    if Q in grp && K in grp && V in grp {
      var r := FuseGroup(grp);
      if r.Success? {
        FusedWritesUpdate(out, g, grp, input);
        var (b, a) := r.value;
        merged := merged[g + QkvBSuffix := b][g + QkvASuffix := a];
        fused := true;
        var alpha := PickAlpha(input, g);
        if alpha.Picked? {
          merged := merged[g + QkvAlphaSuffix := Scale(alpha.alpha, AlphaScale)];
        }
        return;
      }
    }
    assert FusedWrites(g, grp, input) == map[];
    assert out + map[] == out;
  }

  /** The second loop: each group in `order` that is complete is fused and counted. */
  method MergeGroups(order: seq<string>, groups: map<string, Group>, input: map<string, Tensor>,
                     parsedOut: map<string, Tensor>) returns (out: map<string, Tensor>, count: nat)
    requires forall g :: g in order ==> g in groups
    ensures Converted(out, count) == Pass2(order, groups, input, parsedOut)
  {
    out, count := parsedOut, 0;
    for j := 0 to |order|
      invariant Converted(out, count) == Pass2(order[..j], groups, input, parsedOut)
    {
      var g := order[j];
      Pass2Snoc(order, j, groups, input, parsedOut);
      var fused;
      out, fused := MergeGroup(out, g, groups[g], input);
      if fused {
        count := count + 1;
      }
    }
    assert order[..|order|] == order;
  }

  /** The two on-disk formats the converter reads. */
  datatype Format = SafeTensors | Pickle

  /** The format a path names by its extension: `.safetensors`, or `.pt` / `.pth`. */
  function FormatOf(path: string): Option<Format> {
    if EndsWith(path, ".safetensors") then Some(SafeTensors)
    else if EndsWith(path, ".pt") || EndsWith(path, ".pth") then Some(Pickle)
    else None
  }

  /** Each supported extension selects its format, whatever the file's stem. */
  lemma FormatOfExtension(stem: string)
    ensures FormatOf(stem + ".safetensors") == Some(SafeTensors)
    ensures FormatOf(stem + ".pt") == Some(Pickle)
    ensures FormatOf(stem + ".pth") == Some(Pickle)
  {
    var st, pt, pth := stem + ".safetensors", stem + ".pt", stem + ".pth";
    assert st[|st| - 12..] == ".safetensors";
    assert pt[|pt| - 3..] == ".pt";
    assert pth[|pth| - 4..] == ".pth";
    assert !EndsWith(pt, ".safetensors") by {
      if |pt| >= 12 {
        assert pt[|pt| - 12..][11] == pt[|pt| - 1] == 't';
      }
    }
    assert !EndsWith(pth, ".safetensors") by {
      if |pth| >= 12 {
        assert pth[|pth| - 12..][11] == pth[|pth| - 1] == 'h';
      }
    }
  }

  /** Why a file is not converted. */
  datatype ConvertError = UnsupportedFormat

  /**
    * One file: a path whose extension names no supported format is refused before
    * anything is read; otherwise the loaded entries are converted. Loading and
    * saving are outside the model, so the loaded entries are a parameter and the
    * converted dict is returned instead of written.
    */
  method ConvertFile(path: string, loaded: seq<Entry>) returns (r: Result<Converted, ConvertError>)
    ensures r.Failure? <==> FormatOf(path).None?
    ensures r.Success? ==> r.value == ConvertSpec(loaded)
  {
    if FormatOf(path).None? {
      return Failure(UnsupportedFormat);
    }
    var out, count := ConvertLora(loaded);
    r := Success(Converted(out, count));
  }
}
