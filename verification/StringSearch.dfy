/** `find` (CommonLibrary/StringFunctions.c): search from the rear of the pattern, with a skip
    table of 255 entries. */
module StringSearch {
  import opened Common

  /** A character the skip table has an entry for. */
  type Code = c: nat | c < 255

  ghost predicate OccursAt(text: seq<Code>, pattern: seq<Code>, i: nat) {
    i + |pattern| <= |text| && text[i..i + |pattern|] == pattern
  }

  /** How far a mismatch under `c` may move the pattern: to the last place of `c` among all
      pattern characters but the final one, or by one if there is none. */
  function Skip(pattern: seq<Code>, c: Code, k: nat): (d: nat)
    requires k < |pattern|
    ensures 1 <= d
    ensures d <= |pattern|
    decreases k
  {
    if k == 0 then 1
    else if pattern[k - 1] == c then |pattern| - k
    else Skip(pattern, c, k - 1)
  }

  /** Nothing the skip jumps over is `c`: if the text shows `c` under the end of the pattern, no
      occurrence starts at a shift smaller than the skip. */
  lemma {:induction false} SkipPassesNothing(pattern: seq<Code>, c: Code, k: nat, j: nat)
    requires k < |pattern| && |pattern| - Skip(pattern, c, k) <= j < k
    ensures pattern[j] != c
    decreases k
  {
    if pattern[k - 1] != c && j < k - 1 {
      SkipPassesNothing(pattern, c, k - 1, j);
    }
  }

  /** The skip leads from the last place of `c` before the pattern's final character to that
      character, and is one where there is no such place. */
  lemma {:induction false} SkipIsExact(pattern: seq<Code>, c: Code, k: nat, j: nat)
    requires j <= k < |pattern| && (j > 0 ==> pattern[j - 1] == c)
    requires forall i :: j <= i < k ==> pattern[i] != c
    ensures Skip(pattern, c, k) == if j == 0 then 1 else |pattern| - j
    decreases k
  {
    if j < k {
      SkipIsExact(pattern, c, k - 1, j);
    }
  }

  /** The skip table. */
  method FillSkips(pattern: seq<Code>) returns (d: array<nat>)
    ensures fresh(d) && d.Length == 255
    ensures pattern != [] ==> forall c: Code :: d[c] == Skip(pattern, c, |pattern| - 1)
  {
    var fL := |pattern|;
    d := new nat[255];
    for k := 0 to 255
      invariant forall c :: 0 <= c < k ==> d[c] == 1
    {
      d[k] := 1;
    }
    var k: int := 0;
    while k < fL - 1
      invariant 0 <= k && (fL > 0 ==> k <= fL - 1)
      invariant fL > 0 ==> forall c: Code :: d[c] == Skip(pattern, c, k)
    {
      d[pattern[k]] := fL - k - 1;
      k := k + 1;
    }
  }

  method Find(text: seq<Code>, pattern: seq<Code>) returns (r: int)
    ensures r == ERROR <==> forall i :: !OccursAt(text, pattern, i)
    ensures r != ERROR ==> r >= 0 && OccursAt(text, pattern, r)
    ensures r != ERROR ==> forall i :: 0 <= i < r ==> !OccursAt(text, pattern, i)
  {
    var tL, fL := |text|, |pattern|;
    if fL > tL {
      return ERROR;
    }
    var d := FillSkips(pattern);
    hide Skip;
    var k: int := fL - 1;
    while k < tL
      invariant fL - 1 <= k
      invariant forall i :: 0 <= i && i + fL - 1 < k ==> !OccursAt(text, pattern, i)
      decreases tL - k
    {
      var j, i := fL - 1, k;
      while j >= 0 && text[i] == pattern[j]
        invariant -1 <= j < fL && i - j == k - (fL - 1)
        invariant forall m :: j < m < fL ==> text[k - (fL - 1) + m] == pattern[m]
      {
        j, i := j - 1, i - 1;
      }
      if j == -1 {
        assert text[i + 1..i + 1 + fL] == pattern;
        assert OccursAt(text, pattern, i + 1);
        return i + 1;
      }
      assert forall at :: 0 <= at && at + fL - 1 < k + d[text[k]] ==> !OccursAt(text, pattern, at) by {
        Mismatch(text, pattern, k, j);
        ShiftIsSafe(text, pattern, k);
      }
      k := k + d[text[k]];
    }
    r := ERROR;
  }

  lemma Mismatch(text: seq<Code>, pattern: seq<Code>, k: nat, j: nat)
    requires j < |pattern| && |pattern| - 1 <= k < |text|
    requires text[k - (|pattern| - 1) + j] != pattern[j]
    ensures !OccursAt(text, pattern, k - (|pattern| - 1))
  {
    var at := k - (|pattern| - 1);
    assert text[at..at + |pattern|][j] == text[at + j];
  }

  /** No occurrence ends strictly between `k` and `k` plus the skip of the character at `k`. */
  lemma ShiftIsSafe(text: seq<Code>, pattern: seq<Code>, k: nat)
    requires 0 < |pattern| && |pattern| - 1 <= k < |text|
    ensures forall at :: k < at + |pattern| - 1 < k + Skip(pattern, text[k], |pattern| - 1) && at >= 0 ==>
      !OccursAt(text, pattern, at)
  {
    var n := |pattern|;
    forall at | k < at + n - 1 < k + Skip(pattern, text[k], n - 1) && at >= 0
      ensures !OccursAt(text, pattern, at)
    {
      var j := k - at;
      SkipPassesNothing(pattern, text[k], n - 1, j);
      if at + n <= |text| { assert text[at..at + n][j] == text[k]; }
    }
  }
}
