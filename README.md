# LoRA q/k/v fusion converter, modelled in Dafny

This project models `convert_lora` from `zimage.py`. The converter rewrites a
LoRA state dict for z-image-turbo / Lumina2. The attention adapters stored
separately for `to_q`, `to_k` and `to_v` become one fused `qkv` adapter per
attention module.

The model follows the function's two loops.

- **First pass** (`KeyClassifier`, `Converter.Pass1`, `Conversion.ParseEntries`).
  Each key is handled by the first rule that matches:
  1. An output-projection key (`.attention.to_out.0.`) is renamed to `.out.`.
     Its companion alpha is carried along when the key names `lora_A`.
  2. An attention alpha is dropped.
  3. A q/k/v factor key is stored in a slot, addressed by its module path,
     axis and factor.
  4. Any other key is copied through unchanged.
- **Second pass** (`MergeEngine`, `Converter.Pass2`, `Conversion.MergeGroups`).
  Each collected group is visited once. A group with all three
  axes is fused into:
  - a zero `(3h, 3r)` lora_B holding q, k and v on its diagonal blocks, filled
    in place in an `array2`;
  - a lora_A made by stacking the rows of q, k and v;
  - the q alpha times 3.0, when one is found.

  Every fused group is counted. A failure inside a group skips that group only.

The imperative method `Conversion.ConvertLora` is proved equal to the functional
specification `Converter.ConvertSpec`. All lemmas about the specification
therefore hold for the method.

Modules:
- `Wrappers`: Option and Result.
- `Strings`: the Python `str` operations used, with their laws.
- `Tensors`: scalars and matrices over `real`, broadcasting, the block-diagonal
  matrix and its in-place fill, and row concatenation.
- `KeyClassifier`, `MergeEngine`, `Converter`, `Conversion`.

Input and output state dicts are modelled as follows:
- The loaded state dict is a sequence of `Entry(key, tensor)` in iteration
  order. Lookups go through `Converter.ToMap`.
- The output is a `map<string, Tensor>`.

## Model

| member | source | states |
|---|---|---|
| `Strings.LastIndexOf` | zimage.py:53 | The index found is an occurrence of the pattern with no later occurrence. None means the pattern does not occur. |
| `Strings.BeforeLast` | zimage.py:53 | `rsplit(p, 1)[0]`: the prefix ends right before an occurrence of `p`, and the rest after it holds no further `p`. Without `p`, the whole string is returned. |
| `Strings.ContainsIffOccurs` | zimage.py:49 | `p in s` holds exactly when `p` occurs at some index of `s`. |
| `Strings.ContainsAround` | zimage.py:63 | A string built around a pattern contains that pattern. |
| `Strings.ReplaceIsJoinOfSplit` | zimage.py:50 | `s.replace(p, r)` equals `r.join(s.split(p))`, so every occurrence is replaced, scanning from the left. |
| `Strings.SplitJoinRoundTrip` | zimage.py:64 | Joining the pieces of a split with the same separator gives back the string. |
| `Strings.ReplaceWithoutMatch` | zimage.py:50 | A string without the pattern is left unchanged by replace. |
| `Strings.SplitWithoutSeparator` | zimage.py:64 | A string without the one-character separator splits into itself alone. |
| `Strings.SplitAroundSeparator` | zimage.py:64 | Splitting `u + "." + w` gives the pieces of `u` followed by the pieces of `w`. |
| `Strings.EnclosedPieceIsSplit` | zimage.py:63-65 | A dot-free piece enclosed in dots in the key is one of the key's split segments. |
| `Strings.SplitPiecesAvoid` | zimage.py:64 | No piece of a split on a one-character separator contains that character. |
| `Strings.SplitOfJoin` | zimage.py:64-70 | Splitting the join of separator-free pieces gives back exactly those pieces. |
| `Tensors.BlockDiagonal` | zimage.py:82-84 | The result is `(3h, 3r)`. Rows and columns `i·h.., i·r..` hold q, k and v for i = 0, 1, 2. Every other entry is zero. |
| `Tensors.Broadcast` | zimage.py:84 | A scalar fills the block. Each matrix dimension equal to 1 is repeated along the block's dimension. |
| `Tensors.BroadcastOwnShape` | zimage.py:84 | A matrix already of the block's shape is placed unchanged. |
| `Tensors.ConcatRows` | zimage.py:85 | The width is shared and the row count is the sum. The rows are q's, then k's, then v's. |
| `Tensors.Scale` | zimage.py:93 | `t * 3.0` keeps the kind and shape and multiplies every element. |
| `Tensors.Truth` | zimage.py:91 | `bool(t)` is defined exactly for tensors with one element, and is true when that element is non-zero. |
| `Tensors.CopyBlock` | zimage.py:84 | One slice assignment: the array becomes the old grid with the block overlaid, and nothing else changes. |
| `Tensors.DiagonalOverlayIsBlockDiagonal` | zimage.py:83-84 | Overlaying q, k and v on a zero grid at the three diagonal offsets gives the block-diagonal matrix. |
| `Tensors.FillBlockDiagonal` | zimage.py:83-84 | Allocating the zero `array2` and making the three slice assignments yields exactly `BlockDiagonal(q, k, v)`. |
| `KeyClassifier.AxisNamed` | zimage.py:65 | The axis read from a `to_q`/`to_k`/`to_v` segment names that segment back. |
| `KeyClassifier.FactorNamed` | zimage.py:66 | The factor read from a `lora_A`/`lora_B` segment names that segment back. |
| `KeyClassifier.FirstIn` | zimage.py:65-66 | `next(...)` returns the first segment that is one of the names. None means no segment is. |
| `KeyClassifier.Without` | zimage.py:69 | The list comprehension keeps every part that is not a name, drops every part that is, and never grows the list. |
| `KeyClassifier.WithoutAppend` | zimage.py:69 | Filtering a concatenation filters each half and keeps them in order. |
| `KeyClassifier.WithoutNoneOf` | zimage.py:69 | Filtering a list that holds none of the names returns it unchanged. |
| `KeyClassifier.ClassifyRules` | zimage.py:49-74 | Each of the four rules is selected exactly by its key conditions, in order. Grouping needs both an axis segment and a factor segment. The rename target replaces every `.to_out.0.`. |
| `KeyClassifier.GroupedSlotIsFirstSegments` | zimage.py:65-66 | A grouped key's slot is its first axis segment and its first factor segment. |
| `KeyClassifier.AxisSegmentAlwaysFound` | zimage.py:63-65 | A key with a `.to_q.`/`.to_k.`/`.to_v.` marker always has an axis segment. |
| `KeyClassifier.QkvKeyPassesThroughIffNoFactor` | zimage.py:63-74 | A q/k/v-marked attention key that is not an alpha passes through exactly when it has no `lora_A`/`lora_B` segment. |
| `KeyClassifier.GroupKeyOfQkvKey` | zimage.py:69-70 | For `<g>.to_x.lora_y.weight`, removing the axis segments and dropping the last two segments gives back `g`. |
| `KeyClassifier.GroupKeyHasNoAxis` | zimage.py:69-70 | The module path of any key has no `to_q`/`to_k`/`to_v` segment once split at its dots. |
| `KeyClassifier.GroupedKeyHasAxis` | zimage.py:63-72 | Every key stored in a group has an axis segment. |
| `KeyClassifier.ClassifyQkvKey` | zimage.py:63-72 | Round trip: a conventional q/k/v factor key is classified into its own group and slot. |
| `MergeEngine.FuseMissingFactor` | zimage.py:79-80 | Fusion fails on a missing factor exactly when one of the six is missing. The error names the first missing one in lookup order. |
| `MergeEngine.FuseSucceedsIff` | zimage.py:82-85 | With all six factors present, fusion succeeds exactly when all of these hold: q's lora_B is a matrix, k's and v's lora_B broadcast to its shape, and the lora_A factors are matrices of one width. |
| `MergeEngine.FusedUpProjection` | zimage.py:82-84 | The fused lora_B is `(3h, 3r)` with q and the broadcast k and v on the diagonal blocks, and zeros elsewhere. |
| `MergeEngine.FusedDownProjection` | zimage.py:85 | The fused lora_A is q's rows, then k's, then v's, at q's width. |
| `MergeEngine.FuseGroup` | zimage.py:79-85 | The lookups, the shape checks and the in-place fill give exactly `Fuse`. |
| `MergeEngine.PickAlpha` | zimage.py:91 | The `or`: `.to_q.alpha` is taken when present and truthy. An absent or zero first alpha falls through to `.to_q.lora_A.alpha`. A first alpha with several elements raises. |
| `MergeEngine.FusedWritesKeys` | zimage.py:87-93 | A group writes both fused factors exactly when it is complete and fuses. It writes the alpha exactly when, in addition, a q alpha was picked. Values are the fused tensors and 3 × alpha. |
| `MergeEngine.FusedKeysDiffer` | zimage.py:87-93 | Two fused keys coincide only for the same module path and suffix. |
| `MergeEngine.FusedKeysDisjoint` | zimage.py:87-93 | Distinct module paths have disjoint sets of fused keys. |
| `MergeEngine.FusedWritesWithin` | zimage.py:87-93 | A group writes only its `.qkv.lora_B.weight`, `.qkv.lora_A.weight` and `.qkv.alpha` keys. |
| `MergeEngine.FusedKeyHasNoAxis` | zimage.py:87-93 | For a module path without axis segments, none of its fused keys has an axis segment. |
| `MergeEngine.FusedWritesDisjoint` | zimage.py:76-93 | Distinct groups write disjoint keys, so the order of the groups does not affect the output. |
| `Converter.ToMapKeys` | zimage.py:55 | A key is in the input lookup table exactly when some entry carries it. |
| `Converter.OverwriteLastWins` | zimage.py:51 | Applying writes in order: a key is present exactly when some write holds it, and it holds the last such write's value. |
| `Converter.Pass1Output` | zimage.py:43-74 | Last writer wins in the first pass: a key is output exactly when some entry writes it, with the value the last such entry wrote. |
| `Converter.GatherSlots` | zimage.py:71 | Storing factors in order: a slot is filled exactly when something was deposited into it, and it holds the last deposit. |
| `Converter.Pass1Slots` | zimage.py:63-72 | A group slot is filled exactly when some entry is classified into it, and it holds the last such entry's tensor. |
| `Converter.AddToGroupSlots` | zimage.py:71 | Storing one factor fills exactly that slot and leaves all others unchanged. |
| `Converter.Pass1Order` | zimage.py:38-76 | The group order lists each collected group exactly once. Every group holds at least one axis, and every axis at least one factor. |
| `Converter.EntryWritesRules` | zimage.py:49-74 | Per rule, an entry writes one of three things: the renamed key with its tensor (plus the renamed companion alpha with the input's alpha when carried); nothing (attention alphas and grouped factors); or itself (passthrough). |
| `Converter.Pass2FusedKey` | zimage.py:76-93 | A key written by a module in the order holds that module's fused tensor after the second pass, whatever the order. |
| `Converter.Pass2OtherKey` | zimage.py:76-94 | A key that no module writes keeps its first-pass presence and value. |
| `Converter.Pass2Count` | zimage.py:89-98 | The count is the number of distinct groups that are complete and fuse. |
| `Converter.ConvertCount` | zimage.py:76-98 | The returned integer is the number of collected module paths that are complete and fuse. |
| `Converter.ConvertFusedKey` | zimage.py:87-93 | In the result, a key written by a collected group holds that group's fused tensor. |
| `Converter.ConvertOtherKey` | zimage.py:43-98 | In the result, a key written by no group is present exactly when some entry writes it in the first pass, with the last such value. |
| `Converter.PassthroughKept` | zimage.py:74 | A passthrough key that is overwritten neither by a later entry nor by a fused key keeps its name and tensor. |
| `Converter.ConvertFusedGroup` | zimage.py:87-93 | Each collected group that fuses has its fused lora_B and lora_A in the result. It also has 3 × alpha whenever a q alpha was picked. |
| `Converter.GroupOrigin` | zimage.py:63-71 | Every collected module path is the path of some entry stored in a group. |
| `Converter.NotFusedKey` | zimage.py:63-93 | A key with an axis segment is none of the keys a collected group writes. |
| `Converter.GroupedKeyDropped` | zimage.py:63-93 | A key with an axis segment, such as every per-axis factor key, is absent from the result unless some entry writes that very key in the first pass. So the separate q/k/v factors never reach the output. |
| `Conversion.ConvertLora` | zimage.py:37-98 | The two loops, run imperatively, return exactly `ConvertSpec`'s output dict and count. |
| `Conversion.ParseEntries` | zimage.py:43-74 | The first loop, which updates the output dict, the groups and their order in place, ends in the first-pass state. |
| `Conversion.MergeGroup` | zimage.py:77-94 | One iteration of the second loop adds exactly the group's fused writes to the output dict. It reports a fusion exactly when the group is complete and fuses. |
| `Conversion.MergeGroups` | zimage.py:76-94 | The second loop, which updates the output dict and the count, ends in the second-pass result. |
| `Conversion.StepRename` | zimage.py:49-58 | Rule 1 writes the renamed key with its tensor, then the renamed companion alpha when the key names `lora_A` and the alpha is in the input. |
| `Conversion.StepSkip` | zimage.py:60-61 | Rule 2 leaves the state unchanged. |
| `Conversion.StepGroup` | zimage.py:63-72 | Rule 3 stores the tensor under the parsed module path, axis and factor. |
| `Conversion.StepPass` | zimage.py:74 | A key no rule takes is copied under its own name. |
| `Conversion.FormatOfExtension` | zimage.py:30-33 | `.safetensors` selects the safetensors loader, and `.pt` or `.pth` selects the pickle loader, whatever the stem. |
| `Conversion.ConvertFile` | zimage.py:30-35 | A path with any other extension fails before conversion. Otherwise the loaded entries are converted. |

## Behaviour worth noting

- **Alpha lookup.** The q alpha is read through Python's `or`
  (zimage.py:91). So a `.to_q.alpha` holding zero falls through to
  `.to_q.lora_A.alpha`. A multi-element `.to_q.alpha` raises, but only after
  the group's fused factors were written and counted (zimage.py:87-89). That
  group keeps its factors and its count but gets no alpha.
  `MergeEngine.PickAlpha` and `MergeEngine.FusedWritesKeys` state this.
- **Dropped alphas.** Rule 2 drops every key containing both `.attention.to_`
  and `.alpha` (zimage.py:60-61), unless rule 1 took it first. This includes
  the alphas of a `to_out.N` projection for N other than 0.

## Left out

- File I/O: `load_file`, `torch.load`, `save_file` and the metadata record
  (zimage.py:31, 33, 96-97). The loaded entries are a parameter of
  `Conversion.ConvertFile`, and the converted dict is returned rather than
  saved.
- The progress callback (zimage.py:27-28, 44-46). It only observes progress.
- The GUI, threading and batch file handling. `LoRAConverterGUI` is not part
  of this model.
- Floating point and dtype. Elements are `real`, so the multiplication by
  3.0 is exact. Conversions between dtypes in the slice assignment
  (zimage.py:83) are not modelled.
- Tensors other than 0-dimensional scalars and 2-dimensional matrices.
  - A 1-dimensional or 3-dimensional lora_B, which makes `h, r = qB.shape`
    raise, is represented by the scalar case (`NotMatrix`).
  - Broadcasting from 1-dimensional tensors is not modelled.
  - `torch.cat`'s acceptance of legacy empty 1-dimensional tensors is not
    modelled.
- Exceptions other than those the model names: a missing factor, a
  non-matrix, a shape mismatch and an ambiguous truth value. Out-of-memory
  errors and other torch failures caught by the bare `except` are not
  represented.
- `Converter.ToMap` gives the last entry for a repeated key. A Python dict
  never repeats a key, so this case does not arise from a loaded file.
- Converter.Pass1Order: does not state that `order` lists the groups in the
  order of their first entry, as the dict's insertion order does. The result
  does not depend on that order, since distinct groups write disjoint keys
  (`MergeEngine.FusedWritesDisjoint`).
