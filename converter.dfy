/**
  * One conversion of a LoRA state dict: a first pass over the entries renames the
  * output projection, drops per-projection alphas, collects q/k/v factors by module
  * path and copies everything else; a second pass fuses every complete module into
  * a qkv adapter and counts the modules it fused.
  */
module Converter {
  import opened Wrappers
  import opened Strings
  import opened Tensors
  import opened KeyClassifier
  import opened MergeEngine

  /** One (key, tensor) pair of the loaded state dict, in iteration order. */
  datatype Entry = Entry(key: string, value: Tensor)

  /** The loaded state dict as a lookup table; a later entry for a key replaces an earlier one. */
  function ToMap(es: seq<Entry>): map<string, Tensor>
    decreases |es|
  {
    if |es| == 0 then map[] else ToMap(es[..|es| - 1])[es[|es| - 1].key := es[|es| - 1].value]
  }

  /** A key is in the lookup table exactly when some entry carries it. */
  lemma {:induction false} ToMapKeys(es: seq<Entry>, k: string)
    ensures k in ToMap(es) <==> exists i :: 0 <= i < |es| && es[i].key == k
    decreases |es|
  {
    if |es| > 0 {
      var init := es[..|es| - 1];
      ToMapKeys(init, k);
      if k in ToMap(init) {
        var i :| 0 <= i < |init| && init[i].key == k;
        assert es[i].key == k;
      }
      if exists i :: 0 <= i < |es| && es[i].key == k {
        var i :| 0 <= i < |es| && es[i].key == k;
        if i < |es| - 1 {
          assert init[i].key == k;
        }
      }
    }
  }

  /**
    * The output entries a non-grouped entry writes in the first pass: a renamed
    * output projection (and its companion alpha, renamed, when the input has one),
    * or the entry itself when it passes through. Grouped and dropped entries write nothing.
    */
  function EntryWrites(e: Entry, input: map<string, Tensor>): map<string, Tensor> {
    match Classify(e.key)
    case Rename(newKey, alphaKey) =>
      var m := map[newKey := e.value];
      if alphaKey.Some? && alphaKey.value in input then m[RenameOut(alphaKey.value) := input[alphaKey.value]] else m
    case Passthrough => map[e.key := e.value]
    case _ => map[]
  }

  /** The state of the first pass: the output so far, the collected groups and the order they appeared in. */
  datatype Parsed = Parsed(out: map<string, Tensor>, groups: map<string, Group>, order: seq<string>)

  /** Stores a q/k/v factor under its module path, axis and factor; a later one replaces an earlier one. */
  function AddToGroup(st: Parsed, g: string, s: Slot, v: Tensor): Parsed {
    var grp: Group := if g in st.groups then st.groups[g] else map[];
    var slots: map<Factor, Tensor> := if s.axis in grp then grp[s.axis] else map[];
    Parsed(st.out, st.groups[g := grp[s.axis := slots[s.factor := v]]],
           if g in st.groups then st.order else st.order + [g])
  }

  /** The first pass applied to one entry. */
  function Step(st: Parsed, e: Entry, input: map<string, Tensor>): Parsed {
    match Classify(e.key)
    case Group(g, s) => AddToGroup(st, g, s, e.value)
    case _ => st.(out := st.out + EntryWrites(e, input))
  }

  /** The first pass over a sequence of entries, from an empty state. */
  function Pass1(es: seq<Entry>, input: map<string, Tensor>): Parsed
    decreases |es|
  {
    if |es| == 0 then Parsed(map[], map[], [])
    else Step(Pass1(es[..|es| - 1], input), es[|es| - 1], input)
  }

  /** Entry `i` writes key `k` and no later entry writes it again. */
  predicate LastWriter(es: seq<Entry>, input: map<string, Tensor>, k: string, i: int) {
    0 <= i < |es| && k in EntryWrites(es[i], input)
    && forall j :: i < j < |es| ==> k !in EntryWrites(es[j], input)
  }

  /** Entry `i` is the last one stored in slot `s` of group `g`. */
  predicate LastInSlot(es: seq<Entry>, g: string, s: Slot, i: int) {
    0 <= i < |es| && Classify(es[i].key) == Group(g, s)
    && forall j :: i < j < |es| ==> Classify(es[j].key) != Group(g, s)
  }

  predicate Stored(groups: map<string, Group>, g: string, s: Slot) {
    g in groups && Holds(groups[g], s)
  }

  predicate Distinct(xs: seq<string>) {
    forall i, j :: 0 <= i < j < |xs| ==> xs[i] != xs[j]
  }

  lemma StepOut(st: Parsed, e: Entry, input: map<string, Tensor>)
    ensures Step(st, e, input).out == st.out + EntryWrites(e, input)
  {
    if Classify(e.key).Group? {
      assert EntryWrites(e, input) == map[];
      assert st.out + map[] == st.out;
    }
  }

  /** Applies a sequence of writes in order, a later write replacing what an earlier one wrote. */
  function Overwrite(ws: seq<map<string, Tensor>>): map<string, Tensor>
    decreases |ws|
  {
    if |ws| == 0 then map[] else Overwrite(ws[..|ws| - 1]) + ws[|ws| - 1]
  }

  /** Write `i` holds key `k` and no later write does. */
  predicate LastWrite(ws: seq<map<string, Tensor>>, k: string, i: int) {
    0 <= i < |ws| && k in ws[i] && forall j :: i < j < |ws| ==> k !in ws[j]
  }

  lemma {:induction false} OverwriteLastWins(ws: seq<map<string, Tensor>>, k: string)
    ensures k in Overwrite(ws) <==> exists i :: 0 <= i < |ws| && k in ws[i]
    ensures k in Overwrite(ws) ==> exists i :: LastWrite(ws, k, i) && Overwrite(ws)[k] == ws[i][k]
    decreases |ws|
  {
    if |ws| > 0 {
      var init, last := ws[..|ws| - 1], ws[|ws| - 1];
      assert forall j :: 0 <= j < |init| ==> init[j] == ws[j];
      assert Overwrite(ws) == Overwrite(init) + last;
      OverwriteLastWins(init, k);
      if k in last {
        assert LastWrite(ws, k, |ws| - 1);
      } else {
        assert (k in Overwrite(ws)) == (k in Overwrite(init));
        if k in Overwrite(ws) {
          var i :| LastWrite(init, k, i) && Overwrite(init)[k] == init[i][k];
          assert LastWrite(ws, k, i);
        }
        if exists i :: 0 <= i < |ws| && k in ws[i] {
          var i :| 0 <= i < |ws| && k in ws[i];
          assert i < |init| && k in init[i];
        }
      }
    }
  }

  /** What each entry writes, entry by entry. */
  function WritesOf(es: seq<Entry>, input: map<string, Tensor>): (ws: seq<map<string, Tensor>>)
    ensures |ws| == |es| && forall i :: 0 <= i < |es| ==> ws[i] == EntryWrites(es[i], input)
  {
    seq(|es|, i requires 0 <= i < |es| => EntryWrites(es[i], input))
  }

  lemma {:induction false} Pass1OutIsOverwrite(es: seq<Entry>, input: map<string, Tensor>)
    ensures Pass1(es, input).out == Overwrite(WritesOf(es, input))
    decreases |es|
  {
    if |es| > 0 {
      var init := es[..|es| - 1];
      Pass1OutIsOverwrite(init, input);
      StepOut(Pass1(init, input), es[|es| - 1], input);
      assert WritesOf(es, input)[..|es| - 1] == WritesOf(init, input);
    }
  }

  /**
    * Last writer wins in the first pass: a key is in the output exactly when some
    * entry writes it, and then it holds what the last entry writing it wrote.
    */
  lemma Pass1Output(es: seq<Entry>, input: map<string, Tensor>, k: string)
    ensures k in Pass1(es, input).out <==> exists i :: 0 <= i < |es| && k in EntryWrites(es[i], input)
    ensures k in Pass1(es, input).out ==>
      exists i :: LastWriter(es, input, k, i) && Pass1(es, input).out[k] == EntryWrites(es[i], input)[k]
  {
    var ws := WritesOf(es, input);
    Pass1OutIsOverwrite(es, input);
    OverwriteLastWins(ws, k);
    if k in Pass1(es, input).out {
      var i :| LastWrite(ws, k, i) && Overwrite(ws)[k] == ws[i][k];
      assert LastWriter(es, input, k, i);
    }
    if exists i :: 0 <= i < |es| && k in EntryWrites(es[i], input) {
      var i :| 0 <= i < |es| && k in EntryWrites(es[i], input);
      assert k in ws[i];
    }
  }

  /** Storing one factor adds exactly that slot and leaves every other slot as it was. */
  lemma AddToGroupSlots(st: Parsed, g: string, s: Slot, v: Tensor, g2: string, s2: Slot)
    ensures var st' := AddToGroup(st, g, s, v);
      && (Stored(st'.groups, g2, s2) <==> (g2 == g && s2 == s) || Stored(st.groups, g2, s2))
      && (g2 == g && s2 == s ==> At(st'.groups[g2], s2) == v)
      && (!(g2 == g && s2 == s) && Stored(st.groups, g2, s2) ==> At(st'.groups[g2], s2) == At(st.groups[g2], s2))
  {
  }

  /** A q/k/v factor to be stored: its module path, slot and tensor. */
  datatype Deposit = Deposit(group: string, slot: Slot, value: Tensor)

  /** The factor an entry stores in the first pass, if it is grouped. */
  function DepositOf(e: Entry): Option<Deposit> {
    match Classify(e.key)
    case Group(g, s) => Some(Deposit(g, s, e.value))
    case _ => None
  }

  /** The groups collected from a sequence of deposits, skipping the entries that deposit nothing. */
  function Gather(ds: seq<Option<Deposit>>): Parsed
    decreases |ds|
  {
    if |ds| == 0 then Parsed(map[], map[], [])
    else
      var p := Gather(ds[..|ds| - 1]);
      match ds[|ds| - 1]
      case Some(d) => AddToGroup(p, d.group, d.slot, d.value)
      case None => p
  }

  /** `d` stores a factor into slot `s` of group `g`. */
  predicate Into(d: Option<Deposit>, g: string, s: Slot) {
    d.Some? && d.value.group == g && d.value.slot == s
  }

  /** Deposit `i` is the last one into slot `s` of group `g`. */
  predicate LastDeposit(ds: seq<Option<Deposit>>, g: string, s: Slot, i: int) {
    0 <= i < |ds| && Into(ds[i], g, s) && forall j :: i < j < |ds| ==> !Into(ds[j], g, s)
  }

  /** Gathering one more deposit, seen from one slot. */
  lemma GatherSnoc(ds: seq<Option<Deposit>>, g: string, s: Slot)
    requires |ds| > 0
    ensures var p, q, last := Gather(ds[..|ds| - 1]), Gather(ds), ds[|ds| - 1];
      && (Stored(q.groups, g, s) <==> Into(last, g, s) || Stored(p.groups, g, s))
      && (Into(last, g, s) ==> At(q.groups[g], s) == last.value.value)
      && (!Into(last, g, s) && Stored(p.groups, g, s) ==> At(q.groups[g], s) == At(p.groups[g], s))
  {
    var p, last := Gather(ds[..|ds| - 1]), ds[|ds| - 1];
    if last.Some? {
      AddToGroupSlots(p, last.value.group, last.value.slot, last.value.value, g, s);
    }
  }

  /** A slot is filled exactly when some deposit goes into it. */
  lemma {:induction false} GatherStored(ds: seq<Option<Deposit>>, g: string, s: Slot)
    ensures Stored(Gather(ds).groups, g, s) <==> exists i :: 0 <= i < |ds| && Into(ds[i], g, s)
    decreases |ds|
  {
    if |ds| > 0 {
      var init, last := ds[..|ds| - 1], ds[|ds| - 1];
      GatherStored(init, g, s);
      GatherSnoc(ds, g, s);
      if exists i :: 0 <= i < |ds| && Into(ds[i], g, s) {
        var i :| 0 <= i < |ds| && Into(ds[i], g, s);
        if i < |init| {
          assert Into(init[i], g, s);
        }
      }
      if exists i :: 0 <= i < |init| && Into(init[i], g, s) {
        var i :| 0 <= i < |init| && Into(init[i], g, s);
        assert Into(ds[i], g, s);
      }
    }
  }

  /** A filled slot holds the tensor of the last deposit into it. */
  lemma {:induction false} GatherLast(ds: seq<Option<Deposit>>, g: string, s: Slot)
    requires Stored(Gather(ds).groups, g, s)
    ensures exists i :: LastDeposit(ds, g, s, i) && At(Gather(ds).groups[g], s) == ds[i].value.value
    decreases |ds|
  {
    var init, last := ds[..|ds| - 1], ds[|ds| - 1];
    GatherSnoc(ds, g, s);
    if Into(last, g, s) {
      assert LastDeposit(ds, g, s, |ds| - 1);
    } else {
      GatherLast(init, g, s);
      var i :| LastDeposit(init, g, s, i) && At(Gather(init).groups[g], s) == init[i].value.value;
      assert LastDeposit(ds, g, s, i);
    }
  }

  /** The gathered groups hold, in each slot, the last deposit into it, and nothing else. */
  lemma GatherSlots(ds: seq<Option<Deposit>>, g: string, s: Slot)
    ensures Stored(Gather(ds).groups, g, s) <==> exists i :: 0 <= i < |ds| && Into(ds[i], g, s)
    ensures Stored(Gather(ds).groups, g, s) ==>
      exists i :: LastDeposit(ds, g, s, i) && At(Gather(ds).groups[g], s) == ds[i].value.value
  {
    GatherStored(ds, g, s);
    if Stored(Gather(ds).groups, g, s) {
      GatherLast(ds, g, s);
    }
  }

  /** What each entry deposits, entry by entry. */
  function DepositsOf(es: seq<Entry>): (ds: seq<Option<Deposit>>)
    ensures |ds| == |es| && forall i :: 0 <= i < |es| ==> ds[i] == DepositOf(es[i])
  {
    seq(|es|, i requires 0 <= i < |es| => DepositOf(es[i]))
  }

  /** The groups and order after one step depend only on what the entry deposits. */
  lemma StepGroups(st: Parsed, e: Entry, input: map<string, Tensor>, p: Parsed)
    requires st.groups == p.groups && st.order == p.order
    ensures var next := Step(st, e, input);
      var gathered := match DepositOf(e)
        case Some(d) => AddToGroup(p, d.group, d.slot, d.value)
        case None => p;
      next.groups == gathered.groups && next.order == gathered.order
  {
  }

  lemma {:induction false} Pass1GroupsIsGather(es: seq<Entry>, input: map<string, Tensor>)
    ensures Pass1(es, input).groups == Gather(DepositsOf(es)).groups
    ensures Pass1(es, input).order == Gather(DepositsOf(es)).order
    decreases |es|
  {
    if |es| > 0 {
      var init, e := es[..|es| - 1], es[|es| - 1];
      var ds := DepositsOf(es);
      Pass1GroupsIsGather(init, input);
      assert ds[..|es| - 1] == DepositsOf(init);
      assert ds[|es| - 1] == DepositOf(e);
      StepGroups(Pass1(init, input), e, input, Gather(DepositsOf(init)));
    }
  }

  /**
    * Last writer wins in each slot: a slot of a group is filled exactly when some
    * entry is classified into it, and then holds the last such entry's tensor.
    */
  lemma Pass1Slots(es: seq<Entry>, input: map<string, Tensor>, g: string, s: Slot)
    ensures Stored(Pass1(es, input).groups, g, s) <==> exists i :: 0 <= i < |es| && Classify(es[i].key) == Group(g, s)
    ensures Stored(Pass1(es, input).groups, g, s) ==>
      exists i :: LastInSlot(es, g, s, i) && At(Pass1(es, input).groups[g], s) == es[i].value
  {
    var ds := DepositsOf(es);
    Pass1GroupsIsGather(es, input);
    GatherSlots(ds, g, s);
    assert forall i :: 0 <= i < |es| ==> (Into(ds[i], g, s) <==> Classify(es[i].key) == Group(g, s));
    if Stored(Pass1(es, input).groups, g, s) {
      var i :| LastDeposit(ds, g, s, i) && At(Gather(ds).groups[g], s) == ds[i].value.value;
      assert LastInSlot(es, g, s, i);
    }
    if exists i :: 0 <= i < |es| && Classify(es[i].key) == Group(g, s) {
      var i :| 0 <= i < |es| && Classify(es[i].key) == Group(g, s);
      assert Into(ds[i], g, s);
    }
  }

  /** Every collected group records at least one axis, and every axis at least one factor. */
  predicate NoEmptyAxis(groups: map<string, Group>) {
    && (forall g :: g in groups ==> groups[g] != map[])
    && (forall g, a :: g in groups && a in groups[g] ==> groups[g][a] != map[])
  }

  /**
    * The groups appear in `order` once each, and `order` lists exactly the collected
    * groups; no group is recorded without an axis, and no axis without a factor.
    */
  lemma {:induction false} Pass1Order(es: seq<Entry>, input: map<string, Tensor>)
    ensures var p := Pass1(es, input);
      && Distinct(p.order)
      && (forall g :: g in p.groups <==> g in p.order)
      && NoEmptyAxis(p.groups)
    decreases |es|
  {
    if |es| > 0 {
      var init, e := es[..|es| - 1], es[|es| - 1];
      Pass1Order(init, input);
      var st := Pass1(init, input);
      assert Pass1(es, input) == Step(st, e, input);
      match Classify(e.key)
      case Group(g, s) =>
        GroupAdded(st, g, s, e.value);
      case _ =>
        assert Pass1(es, input).groups == st.groups && Pass1(es, input).order == st.order;
    }
  }

  /**
    * Storing one factor keeps `order` duplicate-free and in step with the groups,
    * and leaves no group or axis empty.
    */
  lemma GroupAdded(st: Parsed, g: string, s: Slot, v: Tensor)
    requires Distinct(st.order) && (forall g' :: g' in st.groups <==> g' in st.order) && NoEmptyAxis(st.groups)
    ensures var st' := AddToGroup(st, g, s, v);
      && Distinct(st'.order)
      && (forall g' :: g' in st'.groups <==> g' in st'.order)
      && NoEmptyAxis(st'.groups)
  {
    var st' := AddToGroup(st, g, s, v);
    if g !in st.groups {
      assert st'.order == st.order + [g];
      forall i, j | 0 <= i < j < |st'.order|
        ensures st'.order[i] != st'.order[j]
      {
        if j == |st.order| {
          assert st'.order[i] == st.order[i];
        }
      }
    }
    forall g' | g' in st'.groups
      ensures st'.groups[g'] != map[]
    {
      if g' == g {
        assert s.axis in st'.groups[g'];
      }
    }
    forall g', a | g' in st'.groups && a in st'.groups[g']
      ensures st'.groups[g'][a] != map[]
    {
      if g' == g && a == s.axis {
        assert s.factor in st'.groups[g'][a];
      }
    }
  }

  /** The result of a conversion: the output state dict and the number of fused modules. */
  datatype Converted = Converted(out: map<string, Tensor>, count: nat)

  /** The second pass over the groups in `order`, starting from the first pass's output. */
  function Pass2(order: seq<string>, groups: map<string, Group>, input: map<string, Tensor>,
                 out: map<string, Tensor>): Converted
    requires forall g :: g in order ==> g in groups
    decreases |order|
  {
    if |order| == 0 then Converted(out, 0)
    else
      var prev := Pass2(order[..|order| - 1], groups, input, out);
      var g := order[|order| - 1];
      Converted(prev.out + FusedWrites(g, groups[g], input), prev.count + if Fuses(groups[g]) then 1 else 0)
  }

  /** `convert_lora` on a loaded state dict: the first pass, then the second over its groups. */
  function ConvertSpec(es: seq<Entry>): Converted {
    var input := ToMap(es);
    var p := Pass1(es, input);
    Pass1Order(es, input);
    Pass2(p.order, p.groups, input, p.out)
  }

  /** A key a module in `order` writes holds that module's fused tensor, whatever the order. */
  lemma {:induction false} Pass2FusedKey(order: seq<string>, groups: map<string, Group>,
                                         input: map<string, Tensor>, out: map<string, Tensor>, g: string, k: string)
    requires forall g :: g in order ==> g in groups
    requires Distinct(order)
    requires g in order && k in FusedWrites(g, groups[g], input)
    ensures k in Pass2(order, groups, input, out).out
    ensures Pass2(order, groups, input, out).out[k] == FusedWrites(g, groups[g], input)[k]
    decreases |order|
  {
    var init, last := order[..|order| - 1], order[|order| - 1];
    assert order == init + [last];
    var w := FusedWrites(last, groups[last], input);
    assert Pass2(order, groups, input, out).out == Pass2(init, groups, input, out).out + w;
    if g != last {
      assert g in init;
      assert Distinct(init) by {
        assert forall i :: 0 <= i < |init| ==> init[i] == order[i];
      }
      Pass2FusedKey(init, groups, input, out, g, k);
      FusedWritesDisjoint(g, groups[g], last, groups[last], input);
    }
  }

  /** A key no module in `order` writes is left as it was before the second pass. */
  lemma {:induction false} Pass2OtherKey(order: seq<string>, groups: map<string, Group>,
                                         input: map<string, Tensor>, out: map<string, Tensor>, k: string)
    requires forall g :: g in order ==> g in groups
    requires forall g :: g in order ==> k !in FusedWrites(g, groups[g], input)
    ensures k in Pass2(order, groups, input, out).out <==> k in out
    ensures k in out ==> Pass2(order, groups, input, out).out[k] == out[k]
    decreases |order|
  {
    if |order| > 0 {
      var init, last := order[..|order| - 1], order[|order| - 1];
      assert order == init + [last];
      assert Pass2(order, groups, input, out).out
        == Pass2(init, groups, input, out).out + FusedWrites(last, groups[last], input);
      Pass2OtherKey(init, groups, input, out, k);
    }
  }

  /** The fused modules among those in `order`. */
  function FusedAmong(order: seq<string>, groups: map<string, Group>): set<string>
    requires forall g :: g in order ==> g in groups
  {
    set g | g in order && Fuses(groups[g])
  }

  /** The count is the number of distinct modules fused: complete, and fusing without error. */
  lemma {:induction false} Pass2Count(order: seq<string>, groups: map<string, Group>,
                                      input: map<string, Tensor>, out: map<string, Tensor>)
    requires forall g :: g in order ==> g in groups
    requires Distinct(order)
    ensures Pass2(order, groups, input, out).count == |FusedAmong(order, groups)|
    decreases |order|
  {
    if |order| > 0 {
      var init := order[..|order| - 1];
      assert forall i :: 0 <= i < |init| ==> init[i] == order[i];
      Pass2Count(init, groups, input, out);
      FusedAmongSnoc(order, groups);
    }
  }

  /** The members of `keep` listed in `order`. */
  function Listed(order: seq<string>, keep: set<string>): set<string> {
    set x | x in order && x in keep
  }

  /** One more element, not listed before, adds one to the listed members of `keep` exactly when it is one. */
  lemma ListedSnoc(order: seq<string>, keep: set<string>)
    requires |order| > 0 && Distinct(order)
    ensures var init, g := order[..|order| - 1], order[|order| - 1];
      |Listed(order, keep)| == |Listed(init, keep)| + if g in keep then 1 else 0
  {
    var init, g := order[..|order| - 1], order[|order| - 1];
    assert order == init + [g];
    assert g !in init;
    if g in keep {
      assert Listed(order, keep) == Listed(init, keep) + {g};
    } else {
      assert Listed(order, keep) == Listed(init, keep);
    }
  }

  /** One more module, not seen before, adds one to the fused count exactly when it fuses. */
  lemma FusedAmongSnoc(order: seq<string>, groups: map<string, Group>)
    requires |order| > 0 && forall g :: g in order ==> g in groups
    requires Distinct(order)
    ensures var init, g := order[..|order| - 1], order[|order| - 1];
      |FusedAmong(order, groups)| == |FusedAmong(init, groups)| + if Fuses(groups[g]) then 1 else 0
  {
    var init := order[..|order| - 1];
    var keep := set g | g in groups && Fuses(groups[g]);
    ListedSnoc(order, keep);
    assert FusedAmong(order, groups) == Listed(order, keep);
    assert FusedAmong(init, groups) == Listed(init, keep);
  }

  /** The number returned counts the collected module paths that are complete and fuse. */
  lemma ConvertCount(es: seq<Entry>)
    ensures var p := Pass1(es, ToMap(es));
      ConvertSpec(es).count == |set g | g in p.groups && Fuses(p.groups[g])|
  {
    var input := ToMap(es);
    var p := Pass1(es, input);
    ConvertSpecUnfold(es);
    Pass2Count(p.order, p.groups, input, p.out);
    FusedAmongAll(p.order, p.groups);
  }

  /** When `order` lists exactly the collected modules, the fused ones among them are all of them that fuse. */
  lemma FusedAmongAll(order: seq<string>, groups: map<string, Group>)
    requires forall g :: g in groups <==> g in order
    ensures FusedAmong(order, groups) == set g | g in groups && Fuses(groups[g])
  {
  }

  /** The conversion is the second pass run over the first pass's groups, in their order. */
  lemma ConvertSpecUnfold(es: seq<Entry>)
    ensures var p := Pass1(es, ToMap(es));
      && Distinct(p.order) && (forall g :: g in p.groups <==> g in p.order)
      && ConvertSpec(es) == Pass2(p.order, p.groups, ToMap(es), p.out)
  {
    Pass1Order(es, ToMap(es));
  }

  /** A key a collected group writes holds that group's fused tensor in the converted state dict. */
  lemma ConvertFusedKey(es: seq<Entry>, g: string, k: string)
    requires g in Pass1(es, ToMap(es)).groups
    requires k in FusedWrites(g, Pass1(es, ToMap(es)).groups[g], ToMap(es))
    ensures k in ConvertSpec(es).out
    ensures ConvertSpec(es).out[k] == FusedWrites(g, Pass1(es, ToMap(es)).groups[g], ToMap(es))[k]
  {
    var input := ToMap(es);
    var p := Pass1(es, input);
    ConvertSpecUnfold(es);
    Pass2FusedKey(p.order, p.groups, input, p.out, g, k);
  }

  /**
    * Any key no collected group writes is in the converted state dict exactly when
    * some entry writes it in the first pass, and holds what the last such entry wrote.
    */
  lemma ConvertOtherKey(es: seq<Entry>, k: string)
    requires forall g :: g in Pass1(es, ToMap(es)).groups ==> k !in FusedWrites(g, Pass1(es, ToMap(es)).groups[g], ToMap(es))
    ensures k in ConvertSpec(es).out <==> exists i :: 0 <= i < |es| && k in EntryWrites(es[i], ToMap(es))
    ensures k in ConvertSpec(es).out ==>
      exists i :: LastWriter(es, ToMap(es), k, i) && ConvertSpec(es).out[k] == EntryWrites(es[i], ToMap(es))[k]
  {
    var input := ToMap(es);
    var p := Pass1(es, input);
    ConvertSpecUnfold(es);
    Pass2OtherKey(p.order, p.groups, input, p.out, k);
    Pass1Output(es, input, k);
  }

  /**
    * What one entry writes in the first pass, rule by rule: the renamed key with the
    * entry's tensor, plus the renamed companion alpha with the input's alpha when the
    * key names lora_A and that alpha exists; nothing for an attention alpha or a
    * grouped factor; the entry itself when it passes through.
    */
  lemma EntryWritesRules(e: Entry, input: map<string, Tensor>)
    ensures Contains(e.key, OutProjection) ==>
      var alpha := CompanionAlpha(e.key);
      var carried := Contains(e.key, "lora_A") && alpha in input;
      var w := EntryWrites(e, input);
      && w.Keys == {RenameOut(e.key)} + (if carried then {RenameOut(alpha)} else {})
      && (carried ==> w[RenameOut(alpha)] == input[alpha])
      && (!carried || RenameOut(alpha) != RenameOut(e.key) ==> w[RenameOut(e.key)] == e.value)
    ensures !Contains(e.key, OutProjection) && Contains(e.key, AttentionProjection) && Contains(e.key, AlphaInfix) ==>
      EntryWrites(e, input) == map[]
    ensures Classify(e.key).Group? ==> EntryWrites(e, input) == map[]
    ensures Classify(e.key) == Passthrough ==> EntryWrites(e, input) == map[e.key := e.value]
  {
  }

  /**
    * A key that passes through, is written by no later entry and is not one of the
    * fused keys keeps its name and its tensor in the converted state dict.
    */
  lemma PassthroughKept(es: seq<Entry>, i: nat)
    requires i < |es| && Classify(es[i].key) == Passthrough
    requires forall j :: i < j < |es| ==> es[i].key !in EntryWrites(es[j], ToMap(es))
    requires forall g :: g in Pass1(es, ToMap(es)).groups ==> es[i].key !in FusedWrites(g, Pass1(es, ToMap(es)).groups[g], ToMap(es))
    ensures es[i].key in ConvertSpec(es).out && ConvertSpec(es).out[es[i].key] == es[i].value
  {
    var input, k := ToMap(es), es[i].key;
    assert EntryWrites(es[i], input) == map[k := es[i].value];
    ConvertOtherKey(es, k);
    var i' :| LastWriter(es, input, k, i') && ConvertSpec(es).out[k] == EntryWrites(es[i'], input)[k];
    assert i' == i;
  }

  /**
    * Every collected group that fuses has its fused lora_B and lora_A in the converted
    * state dict, and its tripled q alpha when one was picked. What a group that does
    * not fuse writes, and when the alpha is left out, is stated by `FusedWritesKeys`.
    */
  lemma ConvertFusedGroup(es: seq<Entry>, g: string)
    requires g in Pass1(es, ToMap(es)).groups
    ensures var input, grp, out := ToMap(es), Pass1(es, ToMap(es)).groups[g], ConvertSpec(es).out;
      Fuses(grp) ==>
        && g + QkvBSuffix in out && out[g + QkvBSuffix] == Fuse(grp).value.0
        && g + QkvASuffix in out && out[g + QkvASuffix] == Fuse(grp).value.1
        && (PickAlpha(input, g).Picked? ==>
              g + QkvAlphaSuffix in out && out[g + QkvAlphaSuffix] == Scale(PickAlpha(input, g).alpha, AlphaScale))
  {
    var input, grp := ToMap(es), Pass1(es, ToMap(es)).groups[g];
    FusedWritesKeys(g, grp, input);
    if Fuses(grp) {
      ConvertFusedKey(es, g, g + QkvBSuffix);
      ConvertFusedKey(es, g, g + QkvASuffix);
      if PickAlpha(input, g).Picked? {
        ConvertFusedKey(es, g, g + QkvAlphaSuffix);
      }
    }
  }

  /** Every collected module path is the group of some entry classified into it. */
  lemma GroupOrigin(es: seq<Entry>, input: map<string, Tensor>, g: string)
    requires g in Pass1(es, input).groups
    ensures exists i :: 0 <= i < |es| && Classify(es[i].key).Group? && Classify(es[i].key).group == g
  {
    var p := Pass1(es, input);
    Pass1Order(es, input);
    var a :| a in p.groups[g];
    var f :| f in p.groups[g][a];
    Pass1Slots(es, input, g, Slot(a, f));
    var i :| 0 <= i < |es| && Classify(es[i].key) == Group(g, Slot(a, f));
  }

  /** A key with an axis segment is none of the keys a collected group can write. */
  lemma NotFusedKey(es: seq<Entry>, input: map<string, Tensor>, g: string, k: string)
    requires g in Pass1(es, input).groups
    requires exists j :: 0 <= j < |SplitOn(k, Dot)| && SplitOn(k, Dot)[j] in AxisSegments
    ensures k !in FusedKeys(g)
  {
    GroupOrigin(es, input, g);
    var i :| 0 <= i < |es| && Classify(es[i].key).Group? && Classify(es[i].key).group == g;
    ClassifyRules(es[i].key);
    GroupKeyHasNoAxis(es[i].key);
    if k in FusedKeys(g) {
      FusedKeyHasNoAxis(g, k);
      assert false;
    }
  }

  /** No collected group writes a key that has an axis segment. */
  lemma NoGroupWrites(es: seq<Entry>, k: string)
    requires exists j :: 0 <= j < |SplitOn(k, Dot)| && SplitOn(k, Dot)[j] in AxisSegments
    ensures forall g :: g in Pass1(es, ToMap(es)).groups ==> k !in FusedWrites(g, Pass1(es, ToMap(es)).groups[g], ToMap(es))
  {
    var input := ToMap(es);
    var p := Pass1(es, input);
    forall g | g in p.groups
      ensures k !in FusedWrites(g, p.groups[g], input)
    {
      NotFusedKey(es, input, g, k);
      FusedWritesWithin(g, p.groups[g], input);
    }
  }

  /**
    * A key with an axis segment, such as every q/k/v factor key (`GroupedKeyHasAxis`),
    * is dropped: unless some entry writes that very key in the first pass, it is
    * absent from the converted state dict, whether or not its group was fused. No
    * fused key can take its place, because a fused key never has an axis segment.
    */
  lemma GroupedKeyDropped(es: seq<Entry>, k: string)
    requires exists j :: 0 <= j < |SplitOn(k, Dot)| && SplitOn(k, Dot)[j] in AxisSegments
    requires forall i :: 0 <= i < |es| ==> k !in EntryWrites(es[i], ToMap(es))
    ensures k !in ConvertSpec(es).out
  {
    NoGroupWrites(es, k);
    ConvertOtherKey(es, k);
  }
}
