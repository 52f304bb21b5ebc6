/**
  * The handful of Python `str` operations the converter relies on, over `string`
  * (a sequence of characters): `in`, `endswith`, `split`, `join`, `replace` and
  * `rsplit(sep, 1)[0]`.
  */
module Strings {
  import opened Wrappers

  predicate StartsWith(s: string, pat: string) {
    |pat| <= |s| && s[..|pat|] == pat
  }

  /** Python's `s.endswith(pat)`. */
  predicate EndsWith(s: string, pat: string) {
    |pat| <= |s| && s[|s| - |pat|..] == pat
  }

  /** `pat` occurs in `s` starting at index `i`. */
  ghost predicate OccursAt(s: string, pat: string, i: int) {
    0 <= i && i + |pat| <= |s| && s[i..i + |pat|] == pat
  }

  /** Python's `pat in s`. */
  predicate Contains(s: string, pat: string)
    decreases |s|
  {
    StartsWith(s, pat) || (|s| > 0 && Contains(s[1..], pat))
  }

  lemma {:induction false} ContainsIffOccurs(s: string, pat: string)
    ensures Contains(s, pat) <==> exists i :: OccursAt(s, pat, i)
    decreases |s|
  {
    if StartsWith(s, pat) {
      assert OccursAt(s, pat, 0);
    } else if |s| > 0 {
      ContainsIffOccurs(s[1..], pat);
      if Contains(s[1..], pat) {
        var i :| OccursAt(s[1..], pat, i);
        assert s[1..][i..i + |pat|] == s[i + 1..i + 1 + |pat|];
        assert OccursAt(s, pat, i + 1);
      } else {
        forall i | OccursAt(s, pat, i) && i != 0
          ensures OccursAt(s[1..], pat, i - 1)
        {
          assert s[1..][i - 1..i - 1 + |pat|] == s[i..i + |pat|];
        }
        assert !OccursAt(s, pat, 0);
      }
    }
  }

  /** Any string built around an occurrence of `pat` contains it. */
  lemma ContainsAround(u: string, pat: string, w: string)
    ensures Contains(u + pat + w, pat)
  {
    var s := u + pat + w;
    assert s[|u|..|u| + |pat|] == pat;
    assert OccursAt(s, pat, |u|);
    ContainsIffOccurs(s, pat);
  }

  /**
    * Python's `s.rfind(pat)`: the start of the last occurrence of `pat` in `s`,
    * or None when there is none.
    */
  function LastIndexOf(s: string, pat: string): (r: Option<nat>)
    ensures r.Some? ==> OccursAt(s, pat, r.value)
    ensures r.Some? ==> forall j :: r.value < j ==> !OccursAt(s, pat, j)
    ensures r.None? ==> forall j :: !OccursAt(s, pat, j)
    decreases |s|
  {
    if |s| < |pat| then None
    else if EndsWith(s, pat) then Some(|s| - |pat|)
    else
      var r := LastIndexOf(s[..|s| - 1], pat);
      assert forall j :: OccursAt(s, pat, j) ==> j + |pat| < |s| && OccursAt(s[..|s| - 1], pat, j) by {
        forall j | OccursAt(s, pat, j)
          ensures j + |pat| < |s| && OccursAt(s[..|s| - 1], pat, j)
        {
          assert j + |pat| != |s|;
          assert s[..|s| - 1][j..j + |pat|] == s[j..j + |pat|];
        }
      }
      r
  }

  /** Python's `s.rsplit(pat, 1)[0]`: everything before the last `pat`, or all of `s`. */
  function BeforeLast(s: string, pat: string): (r: string)
    requires |pat| > 0
    ensures LastIndexOf(s, pat).None? ==> r == s
    ensures LastIndexOf(s, pat).Some? ==> r + pat <= s && !Contains(s[|r| + 1..], pat)
  {
    match LastIndexOf(s, pat)
    case None => s
    case Some(i) =>
      assert s[..i] + pat == s[..i + |pat|];
      var after := s[i + 1..];
      assert !Contains(after, pat) by {
        ContainsIffOccurs(after, pat);
        forall j | OccursAt(after, pat, j)
          ensures OccursAt(s, pat, i + 1 + j)
        {
          assert i + 1 + j + |pat| <= |s|;
          assert s[i + 1..][j..j + |pat|] == s[i + 1 + j..i + 1 + j + |pat|];
        }
      }
      s[..i]
  }

  /**
    * Python's `s.split(sep)` for a non-empty separator: the pieces between the
    * occurrences of `sep`, found scanning from the left without overlap.
    */
  function SplitOn(s: string, sep: string): (r: seq<string>)
    requires |sep| > 0
    ensures |r| >= 1
    decreases |s|
  {
    if |s| == 0 then [""]
    else if StartsWith(s, sep) then [""] + SplitOn(s[|sep|..], sep)
    else
      var rest := SplitOn(s[1..], sep);
      [[s[0]] + rest[0]] + rest[1..]
  }

  /** Python's `sep.join(parts)`. */
  function JoinWith(parts: seq<string>, sep: string): string
    decreases |parts|
  {
    if |parts| == 0 then ""
    else if |parts| == 1 then parts[0]
    else parts[0] + sep + JoinWith(parts[1..], sep)
  }

  /**
    * Python's `s.replace(pat, rep)` for a non-empty pattern: every occurrence found
    * scanning from the left, without overlap, is replaced.
    */
  function Replace(s: string, pat: string, rep: string): string
    requires |pat| > 0
    decreases |s|
  {
    if |s| == 0 then ""
    else if StartsWith(s, pat) then rep + Replace(s[|pat|..], pat, rep)
    else [s[0]] + Replace(s[1..], pat, rep)
  }

  /** Joining a first part in front of at least one more puts the separator between. */
  lemma JoinWithCons(p: string, parts: seq<string>, sep: string)
    requires |parts| >= 1
    ensures JoinWith([p] + parts, sep) == p + sep + JoinWith(parts, sep)
  {
    assert ([p] + parts)[1..] == parts;
  }

  /** Growing the first part of a join grows the joined string at the front. */
  lemma JoinWithGrowFirst(c: char, parts: seq<string>, sep: string)
    requires |parts| >= 1
    ensures JoinWith([[c] + parts[0]] + parts[1..], sep) == [c] + JoinWith(parts, sep)
  {
    var grown := [[c] + parts[0]] + parts[1..];
    if |parts| > 1 {
      assert grown[1..] == parts[1..];
    }
  }

  /** The law Python's `replace` satisfies: `s.replace(p, r) == r.join(s.split(p))`. */
  lemma {:induction false} ReplaceIsJoinOfSplit(s: string, pat: string, rep: string)
    requires |pat| > 0
    ensures Replace(s, pat, rep) == JoinWith(SplitOn(s, pat), rep)
    decreases |s|
  {
    if |s| == 0 {
    } else if StartsWith(s, pat) {
      ReplaceIsJoinOfSplit(s[|pat|..], pat, rep);
      JoinWithCons("", SplitOn(s[|pat|..], pat), rep);
    } else {
      ReplaceIsJoinOfSplit(s[1..], pat, rep);
      JoinWithGrowFirst(s[0], SplitOn(s[1..], pat), rep);
    }
  }

  /** Splitting and joining again with the same separator gives back the string. */
  lemma {:induction false} SplitJoinRoundTrip(s: string, sep: string)
    requires |sep| > 0
    ensures JoinWith(SplitOn(s, sep), sep) == s
    decreases |s|
  {
    if |s| == 0 {
    } else if StartsWith(s, sep) {
      var tail := s[|sep|..];
      var rest := SplitOn(tail, sep);
      assert SplitOn(s, sep) == [""] + rest;
      SplitJoinRoundTrip(tail, sep);
      JoinWithCons("", rest, sep);
      assert s == sep + tail;
    } else {
      var rest := SplitOn(s[1..], sep);
      assert SplitOn(s, sep) == [[s[0]] + rest[0]] + rest[1..];
      SplitJoinRoundTrip(s[1..], sep);
      JoinWithGrowFirst(s[0], rest, sep);
      assert s == [s[0]] + s[1..];
    }
  }

  /** A string without the pattern is left alone by `replace`. */
  lemma {:induction false} ReplaceWithoutMatch(s: string, pat: string, rep: string)
    requires |pat| > 0 && !Contains(s, pat)
    ensures Replace(s, pat, rep) == s
    decreases |s|
  {
    if |s| > 0 {
      ReplaceWithoutMatch(s[1..], pat, rep);
      assert s == [s[0]] + s[1..];
    }
  }

  /** A string without a one-character separator splits into itself alone. */
  lemma {:induction false} SplitWithoutSeparator(s: string, sep: string)
    requires |sep| == 1 && sep[0] !in s
    ensures SplitOn(s, sep) == [s]
    decreases |s|
  {
    if |s| > 0 {
      assert s[..1] != sep by { assert s[..1][0] == s[0]; }
      SplitWithoutSeparator(s[1..], sep);
      assert s == [s[0]] + s[1..];
    }
  }

  /**
    * A one-character separator cannot straddle two pieces, so splitting
    * `u + sep + w` splits `u` and `w` independently.
    */
  lemma {:induction false} SplitAroundSeparator(u: string, sep: string, w: string)
    requires |sep| == 1
    ensures SplitOn(u + sep + w, sep) == SplitOn(u, sep) + SplitOn(w, sep)
    decreases |u|
  {
    var s := u + sep + w;
    if |u| == 0 {
      assert s == sep + w;
      assert StartsWith(s, sep);
      assert s[|sep|..] == w;
    } else {
      assert s[1..] == u[1..] + sep + w;
      SplitAroundSeparator(u[1..], sep, w);
      if StartsWith(u, sep) {
        assert StartsWith(s, sep);
        assert s[|sep|..] == s[1..];
        assert u[|sep|..] == u[1..];
      } else {
        assert !StartsWith(s, sep) by { assert s[..1] == u[..1]; }
        assert s[0] == u[0];
      }
    }
  }

  /** No piece of a split on a one-character separator contains that character. */
  lemma {:induction false} SplitPiecesAvoid(s: string, sep: string)
    requires |sep| == 1
    ensures forall i :: 0 <= i < |SplitOn(s, sep)| ==> sep[0] !in SplitOn(s, sep)[i]
    decreases |s|
  {
    if |s| > 0 {
      var rest := SplitOn(s[1..], sep);
      SplitPiecesAvoid(s[1..], sep);
      if StartsWith(s, sep) {
        assert s[|sep|..] == s[1..];
        assert SplitOn(s, sep) == [""] + rest;
      } else {
        assert s[0] != sep[0];
        var r := SplitOn(s, sep);
        assert r == [[s[0]] + rest[0]] + rest[1..];
        forall i | 0 <= i < |r|
          ensures sep[0] !in r[i]
        {
          if i > 0 {
            assert r[i] == rest[i];
          }
        }
      }
    }
  }

  /** Splitting the join of separator-free pieces gives the pieces back. */
  lemma {:induction false} SplitOfJoin(pieces: seq<string>, sep: string)
    requires |sep| == 1 && |pieces| >= 1
    requires forall i :: 0 <= i < |pieces| ==> sep[0] !in pieces[i]
    ensures SplitOn(JoinWith(pieces, sep), sep) == pieces
    decreases |pieces|
  {
    SplitWithoutSeparator(pieces[0], sep);
    if |pieces| > 1 {
      var rest := pieces[1..];
      SplitOfJoin(rest, sep);
      SplitAroundSeparator(pieces[0], sep, JoinWith(rest, sep));
      assert pieces == [pieces[0]] + rest;
    }
  }

  /** A separator-free piece enclosed in separators is one of the pieces of the split. */
  lemma EnclosedPieceIsSplit(s: string, piece: string, sep: string)
    requires |sep| == 1 && sep[0] !in piece
    requires Contains(s, sep + piece + sep)
    ensures piece in SplitOn(s, sep)
  {
    var pat := sep + piece + sep;
    ContainsIffOccurs(s, pat);
    var i :| OccursAt(s, pat, i);
    var u, w := s[..i], s[i + |pat|..];
    assert s == u + sep + (piece + sep + w) by {
      assert s == s[..i] + s[i..i + |pat|] + s[i + |pat|..];
    }
    SplitAroundSeparator(u, sep, piece + sep + w);
    SplitAroundSeparator(piece, sep, w);
    SplitWithoutSeparator(piece, sep);
    assert SplitOn(s, sep) == SplitOn(u, sep) + ([piece] + SplitOn(w, sep));
    assert SplitOn(s, sep)[|SplitOn(u, sep)|] == piece;
  }
}
