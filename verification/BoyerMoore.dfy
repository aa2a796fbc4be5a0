/** The modem-partition string search of recovery/recovery_updater.cpp.

    The loops that fill the two skip tables and the skipping search are methods over arrays.
    `Delta1`, `Delta2` and `Scan` are their specification functions, so that the search result can be
    compared, for all texts and patterns, with "the leftmost occurrence". */
module BoyerMoore {
  import opened Options

  type Byte = b: int | 0 <= b < 256

  // The C type `int`, in which the tables and the text index are kept.
  type CInt = x: int | -0x8000_0000 <= x < 0x8000_0000

  const ALPHABET_LEN := 256

  // ---------- What a search is for ----------

  ghost predicate MatchesAt(text: seq<Byte>, pat: seq<Byte>, k: int) {
    0 <= k <= |text| - |pat| && forall j :: 0 <= j < |pat| ==> text[k + j] == pat[j]
  }

  ghost predicate IsLeftmost(text: seq<Byte>, pat: seq<Byte>, r: Option<nat>) {
    match r
    case Some(k) => MatchesAt(text, pat, k) && forall k' :: 0 <= k' < k ==> !MatchesAt(text, pat, k')
    case None => forall k :: !MatchesAt(text, pat, k)
  }

  predicate Same(pat: seq<Byte>, k: int, s: int) {
    0 <= s <= k < |pat| && pat[k] == pat[k - s]
  }

  // From position lo on, pat agrees with itself moved s places to the right.
  predicate Agrees(pat: seq<Byte>, s: int, lo: int) {
    0 <= s <= lo && forall k :: lo <= k < |pat| ==> Same(pat, k, s)
  }

  // pat[p..] is also a prefix of pat.
  ghost predicate IsBorder(pat: seq<Byte>, p: int) {
    p < |pat| && Agrees(pat, p, p)
  }

  ghost predicate BorderFree(pat: seq<Byte>) {
    forall p :: 1 <= p < |pat| ==> !IsBorder(pat, p)
  }

  ghost predicate Constant(pat: seq<Byte>) {
    forall k :: 0 <= k < |pat| ==> pat[k] == pat[0]
  }

  // ---------- Specification of the tables ----------

  // Distance from the last byte to the rightmost occurrence of c in pat[..n], or |pat|.
  function Delta1(pat: seq<Byte>, c: Byte, n: nat): (d: int)
    requires n < |pat|
    ensures |pat| - n <= d <= |pat| && (d < |pat| ==> pat[|pat| - 1 - d] == c)
  {
    if n == 0 then |pat| else if pat[n - 1] == c then |pat| - n else Delta1(pat, c, n - 1)
  }

  // strncmp(pat + p, pat, |pat| - p) == 0, from offset k on; a common NUL ends the comparison.
  predicate StrncmpEqual(pat: seq<Byte>, p: nat, k: nat)
    requires p + k <= |pat|
    decreases |pat| - p - k
  {
    p + k == |pat| || (pat[p + k] == pat[k] && (pat[k] == 0 || StrncmpEqual(pat, p, k + 1)))
  }

  // The variable last_prefix after the first loop has handled position p.
  function LastPrefix(pat: seq<Byte>, p: nat): (l: int)
    requires 1 <= |pat| && p <= |pat|
    ensures p < |pat| ==> 1 <= l <= |pat|
    decreases |pat| - p
  {
    assert p == 0 ==> StrncmpEqual(pat, p, 0) by { BorderIsDetected(pat, 0, 0); }
    if p == |pat| then |pat| - 1
    else if StrncmpEqual(pat, p, 0) then p + 1
    else LastPrefix(pat, p + 1)
  }

  // What the first loop stores for a mismatch at q.
  function PrefixShift(pat: seq<Byte>, q: nat): int
    requires q < |pat|
  {
    LastPrefix(pat, q) + (|pat| - 1 - q)
  }

  // The suffix pat[q+1..] occurs again s places to the left, after a byte other than pat[q].
  predicate Reoccurs(pat: seq<Byte>, q: int, s: int) {
    1 <= s <= q < |pat| && pat[q - s] != pat[q] && Agrees(pat, s, q + 1)
  }

  // The smallest such s that is at least `from`.
  function Reoccurrence(pat: seq<Byte>, q: nat, from: nat): (r: Option<nat>)
    ensures r.Some? ==> from <= r.value && Reoccurs(pat, q, r.value)
    ensures forall s :: from <= s < (if r.Some? then r.value else |pat|) ==> !Reoccurs(pat, q, s)
    decreases q + 1 - from
  {
    if from > q then None
    else if Reoccurs(pat, q, from) then Some(from)
    else Reoccurrence(pat, q, from + 1)
  }

  // The table entry once every re-occurrence at distance `from` or more has been written.
  function Delta2From(pat: seq<Byte>, q: nat, from: nat): int
    requires q < |pat|
  {
    match Reoccurrence(pat, q, from)
    case Some(s) => s + (|pat| - 1 - q)
    case None => PrefixShift(pat, q)
  }

  function Delta2(pat: seq<Byte>, q: nat): (d: int)
    requires q < |pat|
    ensures |pat| - q <= d <= 2 * |pat|
  {
    Delta2From(pat, q, 1)
  }

  // ---------- The table-filling loops ----------

  ghost predicate IsSuffixLen(pat: seq<Byte>, p: nat, n: nat)
    requires p < |pat|
  {
    n <= p && Agrees(pat, |pat| - 1 - p, |pat| - n) &&
    (n == p || pat[p - n] != pat[|pat| - 1 - n])
  }

  method MaxSuffixLen(pat: seq<Byte>, p: nat) returns (i: nat)
    requires p < |pat|
    ensures IsSuffixLen(pat, p, i)
  {
    i := 0;
    while pat[p - i] == pat[|pat| - 1 - i] && i < p
      invariant i <= p
      invariant Agrees(pat, |pat| - 1 - p, |pat| - i)
    {
      i := i + 1;
    }
  }

  method Strncmp(pat: seq<Byte>, p: nat) returns (equal: bool)
    requires p < |pat|
    ensures equal == StrncmpEqual(pat, p, 0)
  {
    var k := 0;
    while p + k < |pat|
      invariant p + k <= |pat|
      invariant StrncmpEqual(pat, p, 0) == StrncmpEqual(pat, p, k)
    {
      if pat[p + k] != pat[k] { return false; }
      if pat[k] == 0 { return true; }
      k := k + 1;
    }
    return true;
  }

  method MakeDelta1(delta1: array<CInt>, pat: seq<Byte>)
    requires delta1.Length == ALPHABET_LEN && 1 <= |pat| < 0x8000_0000
    modifies delta1
    ensures forall c: Byte :: delta1[c] == Delta1(pat, c, |pat| - 1)
  {
    for i := 0 to ALPHABET_LEN
      invariant forall c: Byte :: c < i ==> delta1[c] == |pat|
    {
      delta1[i] := |pat|;
    }
    for i := 0 to |pat| - 1
      invariant forall c: Byte :: delta1[c] == Delta1(pat, c, i)
    {
      delta1[pat[i]] := |pat| - 1 - i;
    }
  }

  // The first loop of bm_make_delta2.
  method FillPrefixShifts(delta2: array<CInt>, pat: seq<Byte>)
    requires delta2.Length == |pat| && 1 <= |pat| && 2 * |pat| < 0x8000_0000
    modifies delta2
    ensures forall q :: 0 <= q < |pat| ==> delta2[q] == PrefixShift(pat, q)
  {
    var lastPrefix := |pat| - 1;
    for p := |pat| downto 0
      invariant lastPrefix == LastPrefix(pat, p)
      invariant forall q :: p <= q < |pat| ==> delta2[q] == PrefixShift(pat, q)
    {
      var equal := Strncmp(pat, p);
      if equal {
        lastPrefix := p + 1;
      }
      delta2[p] := lastPrefix + (|pat| - 1 - p);
    }
  }

  // The first loop, then the second, in which later positions overwrite earlier ones.
  method MakeDelta2(delta2: array<CInt>, pat: seq<Byte>)
    requires delta2.Length == |pat| && 1 <= |pat| && 2 * |pat| < 0x8000_0000
    modifies delta2
    ensures forall q :: 0 <= q < |pat| ==> delta2[q] == Delta2(pat, q)
  {
    FillPrefixShifts(delta2, pat);
    for p := 0 to |pat| - 1
      invariant forall q :: 0 <= q < |pat| ==> delta2[q] == Delta2From(pat, q, |pat| - p)
    {
      var sufLen := MaxSuffixLen(pat, p);
      WriterStep(pat, p, |pat| - 1 - p, sufLen);
      if pat[p - sufLen] != pat[|pat| - 1 - sufLen] {
        delta2[|pat| - 1 - sufLen] := |pat| - 1 - p + sufLen;
      }
    }
  }

  // Position p of the second loop finds the re-occurrence of one suffix only, the one it measured.
  lemma WriterIsReoccurrence(pat: seq<Byte>, p: nat, n: nat, q: nat)
    requires p < |pat| - 1 && IsSuffixLen(pat, p, n) && q < |pat|
    ensures Reoccurs(pat, q, |pat| - 1 - p) <==> q == |pat| - 1 - n && pat[p - n] != pat[|pat| - 1 - n]
  {
    var s := |pat| - 1 - p;
    assert Agrees(pat, s, q + 1) && q < |pat| - 1 - n ==> Same(pat, |pat| - 1 - n, s);
    assert |pat| - n <= q ==> Same(pat, q, s);
  }

  lemma WriterStep(pat: seq<Byte>, p: nat, s: nat, n: nat)
    requires p + s == |pat| - 1 && 1 <= s && IsSuffixLen(pat, p, n)
    ensures forall q :: 0 <= q < |pat| ==>
      Delta2From(pat, q, s) ==
      (if q == |pat| - 1 - n && pat[p - n] != pat[|pat| - 1 - n] then s + n else Delta2From(pat, q, s + 1))
  {
    forall q | 0 <= q < |pat|
      ensures Delta2From(pat, q, s) ==
      (if q == |pat| - 1 - n && pat[p - n] != pat[|pat| - 1 - n] then s + n else Delta2From(pat, q, s + 1))
    {
      WriterIsReoccurrence(pat, p, n, q);
    }
  }

  // ---------- The search ----------

  // Where the right-to-left comparison of the alignment starting at a stops; -1 for a full match.
  function StopsAt(text: seq<Byte>, pat: seq<Byte>, a: nat, j: int): (r: int)
    requires a + |pat| <= |text| && -1 <= j < |pat|
    ensures -1 <= r <= j
    ensures r >= 0 ==> text[a + r] != pat[r]
    decreases j + 1
  {
    if j < 0 || text[a + j] != pat[j] then j else StopsAt(text, pat, a, j - 1)
  }

  // What bm_search returns.
  function BmSearch(text: seq<Byte>, pat: seq<Byte>): Option<nat>
    requires 1 <= |pat|
  {
    Scan(text, pat, |pat| - 1)
  }

  lemma {:induction false} StopsAtAgrees(text: seq<Byte>, pat: seq<Byte>, a: nat, j: int)
    requires a + |pat| <= |text| && -1 <= j < |pat|
    ensures forall k :: StopsAt(text, pat, a, j) < k <= j ==> text[a + k] == pat[k]
    decreases j + 1
  {
    if j >= 0 && text[a + j] == pat[j] {
      StopsAtAgrees(text, pat, a, j - 1);
    }
  }

  function Skip(pat: seq<Byte>, c: Byte, q: nat): (d: int)
    requires q < |pat|
    ensures |pat| - q <= d <= 2 * |pat|
  {
    var d1, d2 := Delta1(pat, c, |pat| - 1), Delta2(pat, q);
    if d1 > d2 then d1 else d2
  }

  // The search with the pattern's last byte under text[i].
  function Scan(text: seq<Byte>, pat: seq<Byte>, i: nat): (r: Option<nat>)
    requires 1 <= |pat| <= i + 1
    decreases |text| - i
  {
    if i >= |text| then None else
    var a := i + 1 - |pat|;
    var q := StopsAt(text, pat, a, |pat| - 1);
    if q < 0 then Some(a) else Scan(text, pat, a + q + Skip(pat, text[a + q], q))
  }

  // A failed comparison at alignment end i, stopped at q, moves the search on to i'.
  lemma ScanStep(text: seq<Byte>, pat: seq<Byte>, i: nat, q: nat, i': nat)
    requires 1 <= |pat| <= i + 1 <= |text| && q == StopsAt(text, pat, i + 1 - |pat|, |pat| - 1)
    requires i' == i + 1 - |pat| + q + Skip(pat, text[i + 1 - |pat| + q], q)
    ensures i < i' && Scan(text, pat, i) == Scan(text, pat, i')
  {
  }

  // The inner loop of bm_search: both indices move left while the bytes agree.
  method MatchBackwards(text: seq<Byte>, pat: seq<Byte>, end: CInt) returns (i: CInt, j: CInt)
    requires 1 <= |pat| <= end + 1 <= |text|
    ensures j == StopsAt(text, pat, end + 1 - |pat|, |pat| - 1) && i == end + 1 - |pat| + j
  {
    ghost var a := end + 1 - |pat|;
    i, j := end, |pat| - 1;
    while j >= 0 && text[i] == pat[j]
      invariant -1 <= j < |pat| && i == a + j
      invariant StopsAt(text, pat, a, |pat| - 1) == StopsAt(text, pat, a, j)
    {
      i := i - 1;
      j := j - 1;
    }
  }

  ghost predicate AreTablesOf(delta1: array<CInt>, delta2: array<CInt>, pat: seq<Byte>)
    reads delta1, delta2
  {
    delta1.Length == ALPHABET_LEN && delta2.Length == |pat| &&
    (forall c: Byte :: |pat| > 0 ==> delta1[c] == Delta1(pat, c, |pat| - 1)) &&
    forall q :: 0 <= q < |pat| ==> delta2[q] == Delta2(pat, q)
  }

  // The larger of the two table entries.
  method LookUp(delta1: array<CInt>, delta2: array<CInt>, pat: seq<Byte>, c: Byte, j: nat) returns (d: CInt)
    requires AreTablesOf(delta1, delta2, pat) && j < |pat|
    ensures d == Skip(pat, c, j)
  {
    d := if delta1[c] > delta2[j] then delta1[c] else delta2[j];
  }

  method Search(text: seq<Byte>, pat: seq<Byte>) returns (r: Option<nat>)
    requires 1 <= |pat| && |text| + 2 * |pat| < 0x8000_0000
    ensures r == BmSearch(text, pat)
  {
    var delta1, delta2 := new CInt[ALPHABET_LEN], new CInt[|pat|];
    MakeDelta1(delta1, pat);
    MakeDelta2(delta2, pat);
    var i: CInt := |pat| - 1;
    while i < |text|
      invariant |pat| - 1 <= i
      invariant Scan(text, pat, i) == BmSearch(text, pat)
      invariant AreTablesOf(delta1, delta2, pat)
      decreases |text| - i
    {
      ghost var end := i;
      var j: CInt;
      i, j := MatchBackwards(text, pat, i);
      if j < 0 {
        return Some(i + 1);
      }
      var skip := LookUp(delta1, delta2, pat, text[i], j);
      i := i + skip;
      ScanStep(text, pat, end, j, i);
    }
    return None;
  }

  // For every non-empty pattern, bordered or not, what the search returns is an occurrence.
  lemma {:induction false} ScanIsSound(text: seq<Byte>, pat: seq<Byte>, i: nat)
    requires 1 <= |pat| <= i + 1
    ensures Scan(text, pat, i).Some? ==> MatchesAt(text, pat, Scan(text, pat, i).value)
    decreases |text| - i
  {
    if i < |text| {
      var a := i + 1 - |pat|;
      var q := StopsAt(text, pat, a, |pat| - 1);
      if q < 0 {
        StopsAtAgrees(text, pat, a, |pat| - 1);
      } else {
        var i' := a + q + Skip(pat, text[a + q], q);
        ScanStep(text, pat, i, q, i');
        ScanIsSound(text, pat, i');
      }
    }
  }

  // ---------- No skip jumps over an occurrence ----------

  // With the contract of Delta1: the entry of c is the distance to its rightmost occurrence.
  lemma {:induction false} Delta1Bound(pat: seq<Byte>, c: Byte, n: nat, k: nat)
    requires k < n < |pat| && pat[k] == c
    ensures Delta1(pat, c, n) <= |pat| - 1 - k
  {
    if pat[n - 1] != c {
      Delta1Bound(pat, c, n - 1, k);
    }
  }

  lemma {:induction false} BorderIsDetected(pat: seq<Byte>, p: nat, k: nat)
    requires p + k <= |pat| && p < |pat| && IsBorder(pat, p)
    ensures StrncmpEqual(pat, p, k)
    decreases |pat| - p - k
  {
    if p + k < |pat| {
      assert Same(pat, p + k, p);
      BorderIsDetected(pat, p, k + 1);
    }
  }

  // From offset k on, the two strings agree on bytes other than NUL up to n, where they both end: at
  // the end of the pattern or with a NUL.
  ghost predicate EndTogether(pat: seq<Byte>, p: nat, k: nat, n: nat) {
    k <= n && p + n <= |pat| && (forall j :: k <= j < n ==> pat[p + j] == pat[j] != 0) &&
    (p + n == |pat| || pat[p + n] == pat[n] == 0)
  }

  lemma {:induction false} StrncmpIs(pat: seq<Byte>, p: nat, k: nat)
    requires p + k <= |pat|
    ensures StrncmpEqual(pat, p, k) <==> exists n: nat :: EndTogether(pat, p, k, n)
    decreases |pat| - p - k
  {
    if p + k == |pat| || pat[p + k] == pat[k] == 0 {
      assert EndTogether(pat, p, k, k);
    } else {
      StrncmpIs(pat, p, k + 1);
      if StrncmpEqual(pat, p, k) {
        var n: nat :| EndTogether(pat, p, k + 1, n);
        assert EndTogether(pat, p, k, n);
      }
      if n: nat :| EndTogether(pat, p, k, n) {
        assert pat[p + k] == pat[k];
        assert EndTogether(pat, p, k + 1, n);
      }
    }
  }

  // Any detected position from q on bounds what the first loop stores for q.
  lemma {:induction false} LastPrefixAtMost(pat: seq<Byte>, q: nat, p: nat)
    requires q <= p < |pat| && StrncmpEqual(pat, p, 0)
    ensures LastPrefix(pat, q) <= p + 1
    decreases p - q
  {
    if q < p && !StrncmpEqual(pat, q, 0) {
      LastPrefixAtMost(pat, q + 1, p);
    }
  }

  // The table entry of q is one too large: its suffix does not re-occur, and the first position
  // detected from q on is a border s that lies after q.
  ghost predicate OvershootsAt(pat: seq<Byte>, q: nat, s: nat) {
    1 <= q < s && IsBorder(pat, s) && Reoccurrence(pat, q, 1).None? &&
    forall p :: q <= p < s ==> !StrncmpEqual(pat, p, 0)
  }

  ghost predicate NeverOvershoots(pat: seq<Byte>) {
    forall q: nat, s: nat :: !OvershootsAt(pat, q, s)
  }

  // Two overlapping matches make the pattern agree with itself.
  lemma ShiftAgrees(text: seq<Byte>, pat: seq<Byte>, a: nat, s: nat, lo: nat)
    requires s <= lo && a + |pat| <= |text| && MatchesAt(text, pat, a + s)
    requires forall k :: lo <= k < |pat| ==> text[a + k] == pat[k]
    ensures Agrees(pat, s, lo)
  {
    forall k | lo <= k < |pat| ensures Same(pat, k, s) {
      assert text[(a + s) + (k - s)] == pat[k - s];
    }
  }

  // An occurrence starting s places after an alignment that failed at q is never skipped.
  lemma SkipIsSafe(text: seq<Byte>, pat: seq<Byte>, a: nat, q: nat, s: nat)
    requires NeverOvershoots(pat)
    requires a + |pat| <= |text| && q < |pat| && text[a + q] != pat[q]
    requires forall k :: q < k < |pat| ==> text[a + k] == pat[k]
    requires 1 <= s && MatchesAt(text, pat, a + s)
    ensures Skip(pat, text[a + q], q) - (|pat| - 1 - q) <= s
  {
    var m, c := |pat|, text[a + q];
    if s <= q {
      assert text[(a + s) + (q - s)] == pat[q - s];
      Delta1Bound(pat, c, m - 1, q - s);
      ShiftAgrees(text, pat, a, s, q + 1);
      assert Reoccurs(pat, q, s);
    } else if q == 0 {
      assert StrncmpEqual(pat, 0, 0) by { BorderIsDetected(pat, 0, 0); }
    } else if s < m && Reoccurrence(pat, q, 1).None? {
      ShiftAgrees(text, pat, a, s, s);
      assert IsBorder(pat, s) && !OvershootsAt(pat, q, s);
      var p :| q <= p < s && StrncmpEqual(pat, p, 0);
      LastPrefixAtMost(pat, q, p);
    }
  }

  lemma NothingSkipped(text: seq<Byte>, pat: seq<Byte>, a: nat, q: nat, k: nat)
    requires NeverOvershoots(pat)
    requires 1 <= |pat| && a + |pat| <= |text| && q == StopsAt(text, pat, a, |pat| - 1)
    requires a <= k < a + q + Skip(pat, text[a + q], q) + 1 - |pat|
    ensures !MatchesAt(text, pat, k)
  {
    StopsAtAgrees(text, pat, a, |pat| - 1);
    if MatchesAt(text, pat, k) {
      if k > a {
        SkipIsSafe(text, pat, a, q, k - a);
      }
      assert false;
    }
  }

  lemma {:induction false} ScanFindsLeftmost(text: seq<Byte>, pat: seq<Byte>, i: nat)
    requires 1 <= |pat| <= i + 1 && NeverOvershoots(pat)
    requires forall k :: 0 <= k < i + 1 - |pat| ==> !MatchesAt(text, pat, k)
    ensures IsLeftmost(text, pat, Scan(text, pat, i))
    decreases |text| - i
  {
    ScanIsSound(text, pat, i);
    if i < |text| {
      var a := i + 1 - |pat|;
      var q := StopsAt(text, pat, a, |pat| - 1);
      if q >= 0 {
        var i' := a + q + Skip(pat, text[a + q], q);
        forall k | a <= k < i' + 1 - |pat| ensures !MatchesAt(text, pat, k) {
          NothingSkipped(text, pat, a, q, k);
        }
        ScanStep(text, pat, i, q, i');
        ScanFindsLeftmost(text, pat, i');
      }
    }
  }

  // Both tables are used: after a failed comparison no alignment is tried at which the mismatched byte
  // would meet another one although the pattern has it further left, or the matched suffix would not
  // be met again.
  lemma SkipIsLarger(pat: seq<Byte>, c: Byte, q: nat)
    requires q < |pat|
    ensures var d, d1, d2 := Skip(pat, c, q), Delta1(pat, c, |pat| - 1), Delta2(pat, q);
      d >= d1 && d >= d2 && (d == d1 || d == d2)
  {
  }

  // ---------- When the search is complete, exactly ----------

  // What the first loop has stored in last_prefix: one more than the first position from q on that
  // passes the test, or its initial value.
  lemma {:induction false} LastPrefixIs(pat: seq<Byte>, q: nat, p: nat)
    requires 1 <= |pat| && q <= p <= |pat| && forall b :: q <= b < p ==> !StrncmpEqual(pat, b, 0)
    requires p < |pat| ==> StrncmpEqual(pat, p, 0)
    ensures LastPrefix(pat, q) == if p < |pat| then p + 1 else |pat| - 1
    decreases p - q
  {
    if q < p {
      LastPrefixIs(pat, q + 1, p);
    }
  }

  // A mismatch at q, followed by an occurrence that starts at s.
  lemma OvershootText(pat: seq<Byte>, q: nat, s: nat) returns (text: seq<Byte>)
    requires q < s && IsBorder(pat, s)
    ensures |text| == |pat| + s && text[q] != pat[q] && forall k :: q < k < |pat| ==> text[k] == pat[k]
    ensures MatchesAt(text, pat, s)
  {
    var m := |pat|;
    text := pat[..q] + [if pat[q] == 0 then 1 else 0] + pat[q + 1..] + pat[m - s..];
    forall j | 0 <= j < m ensures text[s + j] == pat[j] {
      if s + j < m {
        assert Same(pat, s + j, s);
      }
    }
  }

  // After that mismatch the search resumes one place beyond that occurrence.
  lemma MissedOccurrence(pat: seq<Byte>, q: nat, s: nat) returns (text: seq<Byte>)
    requires OvershootsAt(pat, q, s)
    ensures MatchesAt(text, pat, s) && BmSearch(text, pat) == None
  {
    BorderIsDetected(pat, s, 0);
    LastPrefixIs(pat, q, s);
    text := OvershootText(pat, q, s);
    StopsAtMismatch(text, pat, q, |pat| - 1);
    var i' := q + Skip(pat, text[q], q);
    assert i' >= |text|;
    ScanStep(text, pat, |pat| - 1, q, i');
  }

  lemma {:induction false} StopsAtMismatch(text: seq<Byte>, pat: seq<Byte>, q: nat, j: nat)
    requires q <= j < |pat| <= |text| && text[q] != pat[q]
    requires forall k :: q < k < |pat| ==> text[k] == pat[k]
    ensures StopsAt(text, pat, 0, j) == q
  {
    if j > q { StopsAtMismatch(text, pat, q, j - 1); }
  }

  // The exact condition on any pattern: the search finds the leftmost occurrence in every text if and
  // only if no entry of the table overshoots.
  lemma SearchIsCompleteIff(pat: seq<Byte>)
    requires 1 <= |pat|
    ensures (forall text: seq<Byte> :: IsLeftmost(text, pat, BmSearch(text, pat))) <==> NeverOvershoots(pat)
  {
    if NeverOvershoots(pat) {
      forall text: seq<Byte> ensures IsLeftmost(text, pat, BmSearch(text, pat)) {
        ScanFindsLeftmost(text, pat, |pat| - 1);
      }
    } else {
      var q: nat, s: nat :| OvershootsAt(pat, q, s);
      var text := MissedOccurrence(pat, q, s);
      assert !IsLeftmost(text, pat, BmSearch(text, pat));
    }
  }

  // ---------- C strings ----------

  ghost predicate NulFree(pat: seq<Byte>) {
    forall k :: 0 <= k < |pat| ==> pat[k] != 0
  }

  lemma {:induction false} DetectedIsBorder(pat: seq<Byte>, p: nat, k: nat)
    requires p + k <= |pat| && p < |pat| && NulFree(pat) && StrncmpEqual(pat, p, k)
    requires forall j :: p <= j < p + k ==> Same(pat, j, p)
    ensures IsBorder(pat, p)
    decreases |pat| - p - k
  {
    if p + k < |pat| {
      DetectedIsBorder(pat, p, k + 1);
    }
  }

  // Agreeing with itself one place further on makes a pattern constant from there.
  lemma {:induction false} AgreesByOne(pat: seq<Byte>, lo: nat, k: nat)
    requires 1 <= lo && Agrees(pat, 1, lo) && lo - 1 <= k < |pat|
    ensures pat[k] == pat[lo - 1]
  {
    if k >= lo {
      assert Same(pat, k, 1);
      AgreesByOne(pat, lo, k - 1);
    }
  }

  lemma {:induction false} SmallestBorder(pat: seq<Byte>, from: nat) returns (p: nat)
    requires 1 <= from && exists b :: from <= b < |pat| && IsBorder(pat, b)
    ensures from <= p && IsBorder(pat, p) && forall b :: from <= b < p ==> !IsBorder(pat, b)
    decreases |pat| - from
  {
    if IsBorder(pat, from) {
      p := from;
    } else {
      p := SmallestBorder(pat, from + 1);
    }
  }

  // A C string that is bordered but not constant has its first proper border at p >= 2, and the
  // table then sends a mismatch at position 1 one place too far.
  lemma OvershootAtOne(pat: seq<Byte>) returns (p: nat)
    requires NulFree(pat) && !BorderFree(pat) && !Constant(pat)
    ensures OvershootsAt(pat, 1, p) && Delta2(pat, 1) == p + |pat| - 1
  {
    p := SmallestBorder(pat, 1);
    assert p > 1 by {
      if p == 1 {
        forall k | 0 <= k < |pat| ensures pat[k] == pat[0] { AgreesByOne(pat, 1, k); }
        assert false;
      }
    }
    forall b: nat | 1 <= b < p ensures !StrncmpEqual(pat, b, 0) {
      if StrncmpEqual(pat, b, 0) { DetectedIsBorder(pat, b, 0); }
    }
    assert !Reoccurs(pat, 1, 1) by {
      if Reoccurs(pat, 1, 1) {
        assert Same(pat, p, p);
        AgreesByOne(pat, 2, p);
        assert false;
      }
    }
    BorderIsDetected(pat, p, 0);
    LastPrefixIs(pat, 1, p);
  }

  // Bytes repeated throughout, or no border, leave nothing to overshoot; NUL bytes do no harm here.
  lemma SimplePatternsNeverOvershoot(pat: seq<Byte>)
    requires BorderFree(pat) || Constant(pat)
    ensures NeverOvershoots(pat)
  {
    forall q: nat, s: nat ensures !OvershootsAt(pat, q, s) {
      if Constant(pat) && 1 <= q < s < |pat| {
        assert IsBorder(pat, q);
        BorderIsDetected(pat, q, 0);
      }
    }
  }

  // On a C string the condition is that the pattern has no proper border or is one byte repeated.
  lemma CStringSearchIsCompleteIff(pat: seq<Byte>)
    requires 1 <= |pat| && NulFree(pat)
    ensures (forall text: seq<Byte> :: IsLeftmost(text, pat, BmSearch(text, pat)))
      <==> BorderFree(pat) || Constant(pat)
  {
    SearchIsCompleteIff(pat);
    if BorderFree(pat) || Constant(pat) {
      SimplePatternsNeverOvershoot(pat);
    } else {
      var p := OvershootAtOne(pat);
    }
  }

  // With a NUL byte that condition is no longer necessary: here strncmp stops early at position 2, and
  // the smaller entry it causes is what makes the search of this bordered pattern complete.
  lemma NulMayHelp() returns (pat: seq<Byte>)
    ensures |pat| == 4 && !BorderFree(pat) && !Constant(pat)
    ensures forall text: seq<Byte> :: IsLeftmost(text, pat, BmSearch(text, pat))
  {
    pat := [0, 2, 0, 0];
    assert pat[1] != pat[0];
    assert IsBorder(pat, 3) by { assert Same(pat, 3, 3); }
    assert StrncmpEqual(pat, 2, 0);
    forall q: nat, s: nat ensures !OvershootsAt(pat, q, s) {
      if q < s == 2 { assert !Same(pat, 3, 2); }
    }
    SearchIsCompleteIff(pat);
  }

  // ---------- The pattern of the updater ----------

  // "QC_IMAGE_VERSION_STRING=MPSS.BO."
  const BASEBAND_VER_STR_START: seq<Byte> := [
    81, 67, 95, 73, 77, 65, 71, 69, 95, 86, 69, 82, 83, 73, 79, 78,
    95, 83, 84, 82, 73, 78, 71, 61, 77, 80, 83, 83, 46, 66, 79, 46]

  const BASEBAND_VER_STR_START_LEN := 32

  lemma UniqueFirstByteIsBorderFree(pat: seq<Byte>)
    requires forall k :: 1 <= k < |pat| ==> pat[k] != pat[0]
    ensures BorderFree(pat)
  {
    forall p | 1 <= p < |pat| ensures !IsBorder(pat, p) {
      assert !Same(pat, p, p);
    }
  }

  // get_baseband_version: the search of any partition image finds the first version string in it,
  // or reports that there is none.
  lemma BasebandSearchIsExact(image: seq<Byte>)
    ensures |BASEBAND_VER_STR_START| == BASEBAND_VER_STR_START_LEN
    ensures IsLeftmost(image, BASEBAND_VER_STR_START, BmSearch(image, BASEBAND_VER_STR_START))
  {
    UniqueFirstByteIsBorderFree(BASEBAND_VER_STR_START);
    SimplePatternsNeverOvershoot(BASEBAND_VER_STR_START);
    ScanFindsLeftmost(image, BASEBAND_VER_STR_START, BASEBAND_VER_STR_START_LEN - 1);
  }
}
