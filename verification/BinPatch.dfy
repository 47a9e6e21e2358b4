/** The search and the copy loop of binpatch.c, on a byte sequence with a file position. */
module BinPatch {
  import opened Common

  const MAX_MATCHES := 32

  predicate MatchAt(file: seq<byte>, pat: seq<byte>, s: nat) {
    s + |pat| <= |file| && file[s..s + |pat|] == pat
  }

  /** The specification: try every position from `from` on, and after an occurrence go on behind it. */
  function Find(file: seq<byte>, pat: seq<byte>, from: nat, limit: nat): seq<nat>
    requires pat != []
    decreases |file| - from
  {
    if limit == 0 || from >= |file| then []
    else if MatchAt(file, pat, from) then [from] + Find(file, pat, from + |pat|, limit - 1)
    else Find(file, pat, from + 1, limit)
  }

  /** Occurrences in ascending order, not overlapping, at or after `from`, at most `limit`. */
  ghost predicate Spaced(file: seq<byte>, w: nat, from: nat, ms: seq<nat>) {
    && (forall i :: 0 <= i < |ms| ==> from <= ms[i] && ms[i] + w <= |file|)
    && (forall i, j :: 0 <= i < j < |ms| ==> ms[i] + w <= ms[j])
  }

  lemma SpacedCons(file: seq<byte>, w: nat, from: nat, ms: seq<nat>)
    requires from + w <= |file| && Spaced(file, w, from + w, ms)
    ensures Spaced(file, w, from, [from] + ms)
  {
  }

  lemma {:induction false} FindIsSpaced(file: seq<byte>, pat: seq<byte>, from: nat, limit: nat)
    requires pat != []
    ensures var ms := Find(file, pat, from, limit);
            Spaced(file, |pat|, from, ms) && |ms| <= limit && forall i :: 0 <= i < |ms| ==> MatchAt(file, pat, ms[i])
    decreases |file| - from
  {
    if limit == 0 || from >= |file| {
    } else if MatchAt(file, pat, from) {
      FindIsSpaced(file, pat, from + |pat|, limit - 1);
      SpacedCons(file, |pat|, from, Find(file, pat, from + |pat|, limit - 1));
    } else {
      FindIsSpaced(file, pat, from + 1, limit);
    }
  }

  /** Nothing is missed: an occurrence that is not found starts inside a found one, or all `limit` places are used
      by occurrences before it. */
  lemma {:induction false} FindIsComplete(file: seq<byte>, pat: seq<byte>, from: nat, limit: nat, s: nat)
    requires pat != [] && from <= s && MatchAt(file, pat, s)
    ensures var ms := Find(file, pat, from, limit);
            || (exists i :: 0 <= i < |ms| && ms[i] <= s < ms[i] + |pat|)
            || (|ms| == limit && forall i :: 0 <= i < |ms| ==> ms[i] + |pat| <= s)
    decreases |file| - from
  {
    var ms := Find(file, pat, from, limit);
    if limit == 0 {
    } else if MatchAt(file, pat, from) {
      if s >= from + |pat| {
        FindIsComplete(file, pat, from + |pat|, limit - 1, s);
        var rest := Find(file, pat, from + |pat|, limit - 1);
        if i :| 0 <= i < |rest| && rest[i] <= s < rest[i] + |pat| {
          assert ms[i + 1] == rest[i];
        }
      } else {
        assert ms[0] == from;
      }
    } else {
      FindIsComplete(file, pat, from + 1, limit, s);
    }
  }

  lemma {:induction false} NoRoom(file: seq<byte>, pat: seq<byte>, from: nat, limit: nat)
    requires pat != [] && from + |pat| > |file|
    ensures Find(file, pat, from, limit) == []
    decreases |file| - from
  {
    if limit > 0 && from < |file| { NoRoom(file, pat, from + 1, limit); }
  }

  lemma OneMore(file: seq<byte>, pat: seq<byte>, s: nat, k: nat)
    requires s + k < |file| && k < |pat| && file[s..s + k] == pat[..k]
    ensures file[s + k] == pat[k] ==> file[s..s + k + 1] == pat[..k + 1]
    ensures file[s + k] != pat[k] ==> !MatchAt(file, pat, s)
  {
    assert file[s..s + k + 1] == file[s..s + k] + [file[s + k]] && pat[..k + 1] == pat[..k] + [pat[k]];
    assert MatchAt(file, pat, s) ==> file[s..s + |pat|][k] == file[s + k];
  }

  /** `ms` are the occurrences before `s`: what is still to be found is what the specification finds from `s` on. */
  ghost predicate FoundUpTo(file: seq<byte>, pat: seq<byte>, ms: seq<nat>, s: nat)
    requires pat != [] && |ms| <= MAX_MATCHES
  {
    Find(file, pat, 0, MAX_MATCHES) == ms + Find(file, pat, s, MAX_MATCHES - |ms|)
  }

  lemma {:induction false} FoundStep(file: seq<byte>, pat: seq<byte>, ms: seq<nat>, s: nat)
    requires pat != [] && |ms| < MAX_MATCHES && s < |file| && FoundUpTo(file, pat, ms, s)
    ensures MatchAt(file, pat, s) ==> FoundUpTo(file, pat, ms + [s], s + |pat|)
    ensures !MatchAt(file, pat, s) ==> FoundUpTo(file, pat, ms, s + 1)
  {
    if MatchAt(file, pat, s) {
      var rest := Find(file, pat, s + |pat|, MAX_MATCHES - |ms| - 1);
      assert ms + ([s] + rest) == (ms + [s]) + rest;
    }
  }

  /** Where the search is: `ms` found, and `k` bytes of a possible occurrence at `s` read. */
  ghost predicate Reading(file: seq<byte>, pat: seq<byte>, ms: seq<nat>, s: nat, k: nat) {
    && k < |pat| && s + k <= |file| && |ms| <= MAX_MATCHES
    && file[s..s + k] == pat[..k] && FoundUpTo(file, pat, ms, s)
  }

  /** The next byte continues the occurrence, and may complete it. */
  lemma NextByteFits(file: seq<byte>, pat: seq<byte>, ms: seq<nat>, s: nat, k: nat)
    requires Reading(file, pat, ms, s, k) && |ms| < MAX_MATCHES && s + k < |file| && file[s + k] == pat[k]
    ensures k + 1 < |pat| ==> Reading(file, pat, ms, s, k + 1)
    ensures k + 1 == |pat| ==> Reading(file, pat, ms + [s], s + k + 1, 0)
  {
    OneMore(file, pat, s, k);
    FoundStep(file, pat, ms, s);
  }

  /** It does not, and the search starts again behind `s`. */
  lemma NextByteDiffers(file: seq<byte>, pat: seq<byte>, ms: seq<nat>, s: nat, k: nat)
    requires Reading(file, pat, ms, s, k) && |ms| < MAX_MATCHES && s + k < |file| && file[s + k] != pat[k]
    ensures Reading(file, pat, ms, s + 1, 0)
  {
    OneMore(file, pat, s, k);
    FoundStep(file, pat, ms, s);
  }

  /** The file ends before the occurrence is complete. */
  lemma NothingMore(file: seq<byte>, pat: seq<byte>, ms: seq<nat>, s: nat, k: nat)
    requires Reading(file, pat, ms, s, k) && (s + k == |file| || |ms| == MAX_MATCHES)
    ensures Find(file, pat, 0, MAX_MATCHES) == ms
  {
    if |ms| < MAX_MATCHES {
      NoRoom(file, pat, s, MAX_MATCHES - |ms|);
    }
  }

  /** The search loop, which seeks back to behind the start of a partial match that fails. */
  method Search(file: seq<byte>, pat: seq<byte>) returns (matches: array<nat>, count: nat)
    requires pat != []
    ensures fresh(matches) && matches.Length == 32 && count <= 32
    ensures matches[..count] == Find(file, pat, 0, 32)
  {
    matches := new nat[MAX_MATCHES];
    count := 0;
    var pos, matchPos := 0, 0;
    while count < MAX_MATCHES && pos < |file|
      invariant count <= MAX_MATCHES && matchPos <= pos <= |file|
      invariant count < MAX_MATCHES && matchPos > 0 ==> matches[count] == pos - matchPos
      invariant Reading(file, pat, matches[..count], pos - matchPos, matchPos)
      decreases |file| - (pos - matchPos), |file| - pos
    {
      ghost var s, found := pos - matchPos, matches[..count];
      var c := file[pos];
      pos := pos + 1;
      if pat[matchPos] == c {
        NextByteFits(file, pat, found, s, matchPos);
        if matchPos == 0 {
          matches[count] := pos - 1;
        }
        matchPos := matchPos + 1;
        assert matches[..count] == found;
        if matchPos == |pat| {
          assert matches[..count + 1] == found + [s];
          matchPos := 0;
          count := count + 1;
          continue;
        }
      } else {
        NextByteDiffers(file, pat, found, s, matchPos);
        if matchPos > 0 {
          matchPos := 0;
          pos := matches[count] + 1;
        }
      }
    }
    NothingMore(file, pat, matches[..count], pos - matchPos, matchPos);
  }

  /** The byte at offset `i` of the output: from the patch inside a recorded range, from the file elsewhere. */
  function PatchedByte(file: seq<byte>, patch: seq<byte>, ms: seq<nat>, i: nat): byte
    requires i < |file|
  {
    if ms == [] then file[i]
    else if ms[0] <= i < ms[0] + |patch| then patch[i - ms[0]]
    else PatchedByte(file, patch, ms[1..], i)
  }

  lemma {:induction false} ByteInRange(file: seq<byte>, patch: seq<byte>, ms: seq<nat>, i: nat, m: nat)
    requires i < |file| && m < |ms| && Spaced(file, |patch|, 0, ms) && ms[m] <= i < ms[m] + |patch|
    ensures PatchedByte(file, patch, ms, i) == patch[i - ms[m]]
  {
    if m > 0 { ByteInRange(file, patch, ms[1..], i, m - 1); }
  }

  /** Offset `i` is in none of the ranges of width `w` at `ms`. */
  ghost predicate Outside(ms: seq<nat>, w: nat, i: nat) {
    forall m :: 0 <= m < |ms| ==> !(ms[m] <= i < ms[m] + w)
  }

  lemma {:induction false} ByteElsewhere(file: seq<byte>, patch: seq<byte>, ms: seq<nat>, i: nat)
    requires i < |file| && Outside(ms, |patch|, i)
    ensures PatchedByte(file, patch, ms, i) == file[i]
  {
    if ms != [] { ByteElsewhere(file, patch, ms[1..], i); }
  }

  /** The copy loop: the output has the length of the file, and exactly the recorded ranges are replaced. */
  method Copy(file: seq<byte>, patch: seq<byte>, matches: seq<nat>) returns (out: seq<byte>)
    requires patch != [] && Spaced(file, |patch|, 0, matches)
    ensures |out| == |file|
    ensures forall m, j :: 0 <= m < |matches| && matches[m] <= j < matches[m] + |patch| ==>
              out[j] == patch[j - matches[m]]
    ensures forall j :: 0 <= j < |file| && Outside(matches, |patch|, j) ==> out[j] == file[j]
  {
    out := [];
    var pos, m := 0, 0;
    while pos < |file|
      invariant |out| == pos <= |file| && m <= |matches|
      invariant forall k :: 0 <= k < m ==> matches[k] + |patch| <= pos
      invariant m < |matches| ==> pos <= matches[m]
      invariant forall k :: 0 <= k < pos ==> out[k] == PatchedByte(file, patch, matches, k)
    {
      var c := file[pos];
      pos := pos + 1;
      var off := pos - 1;
      if m < |matches| && off == matches[m] {
        forall k | off <= k < off + |patch| ensures PatchedByte(file, patch, matches, k) == patch[k - off] {
          ByteInRange(file, patch, matches, k, m);
        }
        out := out + patch;
        pos := pos + (|patch| - 1);
        m := m + 1;
      } else {
        ByteElsewhere(file, patch, matches, off);
        out := out + [c];
      }
    }
    forall k, j | 0 <= k < |matches| && matches[k] <= j < matches[k] + |patch| ensures out[j] == patch[j - matches[k]] {
      ByteInRange(file, patch, matches, j, k);
    }
    forall j | 0 <= j < |file| && Outside(matches, |patch|, j) ensures out[j] == file[j] {
      ByteElsewhere(file, patch, matches, j);
    }
  }

  /** The program after its arguments are read: match and patch of different lengths are refused. */
  method PatchFile(file: seq<byte>, pat: seq<byte>, patch: seq<byte>) returns (ok: bool, out: seq<byte>)
    requires pat != []
    ensures ok <==> |pat| == |patch|
    ensures var ms := Find(file, pat, 0, 32);
            ok ==> |out| == |file| && forall j :: 0 <= j < |file| ==>
              if m :| 0 <= m < |ms| && ms[m] <= j < ms[m] + |pat| then out[j] == patch[j - ms[m]] else out[j] == file[j]
  {
    ok, out := |pat| == |patch|, [];
    if ok {
      FindIsSpaced(file, pat, 0, MAX_MATCHES);
      var matches, count := Search(file, pat);
      out := Copy(file, patch, matches[..count]);
    }
  }
}
