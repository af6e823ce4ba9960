/** The streak engine: the current streak (a walk back from today), the longest
    streak (a run scan over the sorted keys) and the consecutive-day test.

    A calendar day is an integer ordinal, one per day, so "the day before d" is
    d - 1. The completion record maps a day to a marker; the walk back counts a
    day only when its marker is truthy, the longest-streak scan looks at the
    keys alone. */
module Streak {

  type Day = int

  /** A day that the walk back counts: present with a truthy marker. */
  predicate Marked(m: map<Day, bool>, d: Day)
  {
    d in m && m[d]
  }

  function Abs(x: int): nat
  {
    if x < 0 then -x else x
  }

  /** isConsecutiveDate: the two days are exactly one day apart, whichever comes first. */
  function IsConsecutive(a: Day, b: Day): (r: bool)
    ensures r <==> (b == a + 1 || a == b + 1)
    ensures a == b ==> !r
  {
    Abs(b - a) == 1
  }

  lemma IsConsecutiveSymmetric(a: Day, b: Day)
    ensures IsConsecutive(a, b) == IsConsecutive(b, a)
  {
  }

  // ---------------------------------------------------------------------------
  // Current streak

  /** The number of marked days met walking back from d one day at a time.
      Each visited day is taken out of the map: the walk only moves to earlier
      days, so this does not change what it sees, and it shows that the walk
      ends within as many steps as there are keys. */
  function StreakFrom(m: map<Day, bool>, d: Day): (k: nat)
    ensures k <= |m.Keys|
    decreases |m.Keys|
  {
    if Marked(m, d) then
      assert (m - {d}).Keys == m.Keys - {d};
      1 + StreakFrom(m - {d}, d - 1)
    else
      0
  }

  /** The k days ending at d (d - k + 1 .. d) are all marked. */
  ghost predicate MarkedRun(m: map<Day, bool>, d: Day, k: int)
  {
    forall x :: d - k < x <= d ==> Marked(m, x)
  }

  /** What the walk computes: the run of marked days ending at d, and the day
      just before it is not marked. */
  lemma {:induction false} StreakFromMeaning(m: map<Day, bool>, d: Day)
    ensures MarkedRun(m, d, StreakFrom(m, d))
    ensures !Marked(m, d - StreakFrom(m, d))
    decreases |m.Keys|
  {
    if Marked(m, d) {
      var rest := m - {d};
      assert rest.Keys == m.Keys - {d};
      StreakFromMeaning(rest, d - 1);
      var k := StreakFrom(rest, d - 1);
      assert StreakFrom(m, d) == k + 1;
      assert forall x :: x != d ==> (Marked(rest, x) <==> Marked(m, x));
      assert !Marked(m, d - (k + 1)) by {
        assert !Marked(rest, d - 1 - k);
      }
    }
  }

  /** The walk's result is the only k with a marked run of length k ending at d
      and an unmarked day before it. */
  lemma StreakFromUnique(m: map<Day, bool>, d: Day, k: nat)
    requires MarkedRun(m, d, k)
    requires !Marked(m, d - k)
    ensures StreakFrom(m, d) == k
  {
    StreakFromMeaning(m, d);
    var n := StreakFrom(m, d);
    assert !Marked(m, d - n);
    assert n < k ==> Marked(m, d - n);
    assert k < n ==> Marked(m, d - k);
  }

  /** The walk looks only at d and earlier days. */
  lemma StreakFromIgnoresLater(m: map<Day, bool>, m': map<Day, bool>, d: Day)
    requires forall x :: x <= d ==> (Marked(m, x) <==> Marked(m', x))
    ensures StreakFrom(m, d) == StreakFrom(m', d)
  {
    StreakFromMeaning(m, d);
    var k := StreakFrom(m, d);
    assert MarkedRun(m', d, k) by {
      forall x | d - k < x <= d
        ensures Marked(m', x)
      {
        assert Marked(m, x);
      }
    }
    StreakFromUnique(m', d, k);
  }

  /** The worked cases: no record, today alone, three days in a row, and a
      one-day gap that breaks the chain. */
  lemma CurrentStreakExamples(today: Day)
    ensures StreakFrom(map[], today) == 0
    ensures StreakFrom(map[today := true], today) == 1
    ensures StreakFrom(map[today := true, today - 1 := true, today - 2 := true], today) == 3
    ensures StreakFrom(map[today := true, today - 2 := true], today) == 1
  {
    var one := map[today := true];
    StreakFromUnique(one, today, 1);
    var three := map[today := true, today - 1 := true, today - 2 := true];
    assert MarkedRun(three, today, 3) by {
      forall x | today - 3 < x <= today
        ensures Marked(three, x)
      {
        assert x == today || x == today - 1 || x == today - 2;
      }
    }
    StreakFromUnique(three, today, 3);
    var gap := map[today := true, today - 2 := true];
    StreakFromUnique(gap, today, 1);
  }

  // ---------------------------------------------------------------------------
  // Sorting the keys

  predicate StrictlyAscending(s: seq<Day>)
  {
    forall i, j :: 0 <= i < j < |s| ==> s[i] < s[j]
  }

  /** s lists exactly the given days, in ascending order, each once: what
      sorting the keys of the record yields (ISO date strings with four-digit
      years sort in day order). */
  ghost predicate SortsKeys(s: seq<Day>, keys: set<Day>)
  {
    StrictlyAscending(s) && forall x :: x in s <==> x in keys
  }

  /** Inserts a new day into an ascending list of days. */
  function Insert(s: seq<Day>, d: Day): (r: seq<Day>)
    requires StrictlyAscending(s) && d !in s
    ensures StrictlyAscending(r) && |r| == |s| + 1
    ensures forall x :: x in r <==> x in s || x == d
  {
    if s == [] || d < s[0] then
      [d] + s
    else
      var t := Insert(s[1..], d);
      assert forall x :: x in t ==> s[0] < x;
      var r := [s[0]] + t;
      assert StrictlyAscending(r) by {
        forall i, j | 0 <= i < j < |r|
          ensures r[i] < r[j]
        {
          assert r[j] == t[j - 1];
          if i == 0 {
            assert t[j - 1] in t;
          } else {
            assert r[i] == t[i - 1];
          }
        }
      }
      r
  }

  lemma HasElement(s: set<Day>)
    requires s != {}
    ensures exists x :: x in s
  {
    if forall x :: x !in s {
      assert false;
    }
  }

  /** The sorted keys of the record. */
  method SortKeys(keys: set<Day>) returns (s: seq<Day>)
    ensures SortsKeys(s, keys) && |s| == |keys|
  {
    s := [];
    var rest := keys;
    while rest != {}
      invariant rest <= keys
      invariant StrictlyAscending(s)
      invariant forall x :: x in s <==> x in keys && x !in rest
      invariant |s| + |rest| == |keys|
      decreases rest
    {
      HasElement(rest);
      var d :| d in rest;
      s := Insert(s, d);
      rest := rest - {d};
    }
  }

  // ---------------------------------------------------------------------------
  // Longest streak

  /** The running count the scan holds at index i: the length of the run of
      consecutive days that ends at s[i]. */
  function RunEnd(s: seq<Day>, i: nat): (r: nat)
    requires i < |s|
    ensures 1 <= r <= i + 1
  {
    if i == 0 then 1
    else if IsConsecutive(s[i - 1], s[i]) then RunEnd(s, i - 1) + 1
    else 1
  }

  function Max(a: int, b: int): int
  {
    if a < b then b else a
  }

  /** The largest running count seen in the first n positions. */
  function MaxRun(s: seq<Day>, n: nat): (r: nat)
    requires n <= |s|
    ensures r <= n
    ensures n > 0 ==> 1 <= r
  {
    if n == 0 then 0 else Max(MaxRun(s, n - 1), RunEnd(s, n - 1))
  }

  /** The longest streak of a sorted key list. */
  function LongestRun(s: seq<Day>): (r: nat)
    ensures r <= |s|
    ensures r == 0 <==> |s| == 0
  {
    MaxRun(s, |s|)
  }

  /** Every day from lo to lo + k - 1 is a key. */
  ghost predicate Covers(keys: set<Day>, lo: Day, k: int)
  {
    forall x :: lo <= x < lo + k ==> x in keys
  }

  /** In an ascending list, the run ending at s[i] is the days s[i] - r + 1 .. s[i]. */
  lemma {:induction false} RunEndSpan(s: seq<Day>, i: nat)
    requires StrictlyAscending(s) && i < |s|
    ensures forall j :: i - RunEnd(s, i) < j <= i ==> s[j] == s[i] - (i - j)
  {
    if i > 0 && IsConsecutive(s[i - 1], s[i]) {
      RunEndSpan(s, i - 1);
      assert s[i - 1] == s[i] - 1;
    }
  }

  lemma RunEndCovers(s: seq<Day>, keys: set<Day>, i: nat)
    requires SortsKeys(s, keys) && i < |s|
    ensures Covers(keys, s[i] - RunEnd(s, i) + 1, RunEnd(s, i))
  {
    RunEndSpan(s, i);
    var r := RunEnd(s, i);
    forall x | s[i] - r + 1 <= x < s[i] + 1
      ensures x in keys
    {
      var j := i - (s[i] - x);
      assert s[j] == x;
    }
  }

  /** In an ascending list, a day one more than s[a] can only sit right after it. */
  lemma AdjacentIndex(s: seq<Day>, a: nat, b: nat)
    requires StrictlyAscending(s) && a < |s| && b < |s|
    requires s[b] == s[a] + 1
    ensures b == a + 1
  {
    assert a < b;
    assert s[a] <= s[b - 1] < s[b];
  }

  /** If the k days ending at s[j] are all keys, the scan's count at j is at least k. */
  lemma {:induction false} RunEndAtLeast(s: seq<Day>, keys: set<Day>, lo: Day, k: nat, j: nat)
    requires SortsKeys(s, keys) && j < |s|
    requires 1 <= k && Covers(keys, lo, k) && s[j] == lo + k - 1
    ensures k <= RunEnd(s, j)
    decreases k
  {
    if k > 1 {
      assert lo + k - 2 in keys;
      var j' :| 0 <= j' < |s| && s[j'] == lo + k - 2;
      AdjacentIndex(s, j', j);
      assert Covers(keys, lo, k - 1);
      RunEndAtLeast(s, keys, lo, k - 1, j');
    }
  }

  lemma {:induction false} MaxRunAtLeast(s: seq<Day>, n: nat, i: nat)
    requires i < n <= |s|
    ensures RunEnd(s, i) <= MaxRun(s, n)
    decreases n
  {
    if i < n - 1 {
      MaxRunAtLeast(s, n - 1, i);
    }
  }

  lemma {:induction false} MaxRunAttained(s: seq<Day>, n: nat) returns (i: nat)
    requires 0 < n <= |s|
    ensures i < n && MaxRun(s, n) == RunEnd(s, i)
    decreases n
  {
    if n == 1 || RunEnd(s, n - 1) >= MaxRun(s, n - 1) {
      i := n - 1;
    } else {
      i := MaxRunAttained(s, n - 1);
    }
  }

  /** No run of consecutive keys is longer than the longest streak. */
  lemma LongestRunBound(s: seq<Day>, keys: set<Day>, lo: Day, k: int)
    requires SortsKeys(s, keys) && Covers(keys, lo, k)
    ensures k <= LongestRun(s)
  {
    if k > 0 {
      assert lo + k - 1 in keys;
      var j :| 0 <= j < |s| && s[j] == lo + k - 1;
      RunEndAtLeast(s, keys, lo, k, j);
      MaxRunAtLeast(s, |s|, j);
    }
  }

  /** The longest streak is the length of an actual run of consecutive keys. */
  lemma LongestRunWitness(s: seq<Day>, keys: set<Day>) returns (lo: Day)
    requires SortsKeys(s, keys) && |s| > 0
    ensures Covers(keys, lo, LongestRun(s))
  {
    var i := MaxRunAttained(s, |s|);
    RunEndCovers(s, keys, i);
    lo := s[i] - RunEnd(s, i) + 1;
  }

  /** Five consecutive days, a gap, then two more: the longest streak is 5, not 7. */
  lemma LongestRunExample()
    ensures LongestRun([1, 2, 3, 4, 5, 7, 8]) == 5
  {
    var s := [1, 2, 3, 4, 5, 7, 8];
    assert RunEnd(s, 4) == 5;
    assert RunEnd(s, 5) == 1;
    assert RunEnd(s, 6) == 2;
  }

  /** The current streak never exceeds the longest streak. */
  lemma CurrentAtMostLongest(m: map<Day, bool>, today: Day, s: seq<Day>)
    requires SortsKeys(s, m.Keys)
    ensures StreakFrom(m, today) <= LongestRun(s)
  {
    StreakFromMeaning(m, today);
    var k := StreakFrom(m, today);
    assert Covers(m.Keys, today - k + 1, k) by {
      forall x | today - k + 1 <= x < today - k + 1 + k
        ensures x in m.Keys
      {
        assert Marked(m, x);
      }
    }
    LongestRunBound(s, m.Keys, today - k + 1, k);
  }

  // ---------------------------------------------------------------------------
  // updateStreakStats

  /** The two loops of updateStreakStats: the walk back from today and the run
      scan over the sorted keys. */
  method UpdateStreakStats(streakData: map<Day, bool>, today: Day) returns (currentStreak: nat, longestStreak: nat)
    ensures currentStreak == StreakFrom(streakData, today)
    ensures MarkedRun(streakData, today, currentStreak) && !Marked(streakData, today - currentStreak)
    ensures currentStreak <= longestStreak <= |streakData.Keys|
    ensures streakData.Keys == {} <==> longestStreak == 0
    ensures forall lo, k :: Covers(streakData.Keys, lo, k) ==> k <= longestStreak
    ensures longestStreak > 0 ==> exists lo :: Covers(streakData.Keys, lo, longestStreak)
  {
    // Current streak
    currentStreak := 0;
    var checkDate := today;
    ghost var unseen := streakData;
    while Marked(streakData, checkDate)
      invariant checkDate == today - currentStreak
      invariant forall x :: x <= checkDate ==> (Marked(unseen, x) <==> Marked(streakData, x))
      invariant currentStreak + StreakFrom(unseen, checkDate) == StreakFrom(streakData, today)
      decreases |unseen.Keys|
    {
      assert Marked(unseen, checkDate);
      assert (unseen - {checkDate}).Keys == unseen.Keys - {checkDate};
      unseen := unseen - {checkDate};
      currentStreak := currentStreak + 1;
      checkDate := checkDate - 1;
    }
    assert !Marked(unseen, checkDate);
    StreakFromMeaning(streakData, today);

    // Longest streak
    longestStreak := 0;
    var tempStreak := 0;
    var sortedDates := SortKeys(streakData.Keys);
    for i := 0 to |sortedDates|
      invariant i == 0 ==> tempStreak == 0 && longestStreak == 0
      invariant i > 0 ==> tempStreak == RunEnd(sortedDates, i - 1)
      invariant Max(longestStreak, tempStreak) == MaxRun(sortedDates, i)
    {
      if i == 0 || IsConsecutive(sortedDates[i - 1], sortedDates[i]) {
        tempStreak := tempStreak + 1;
      } else {
        longestStreak := Max(longestStreak, tempStreak);
        tempStreak := 1;
      }
    }
    longestStreak := Max(longestStreak, tempStreak);
    assert longestStreak == LongestRun(sortedDates);

    CurrentAtMostLongest(streakData, today, sortedDates);
    forall lo, k | Covers(streakData.Keys, lo, k)
      ensures k <= longestStreak
    {
      LongestRunBound(sortedDates, streakData.Keys, lo, k);
    }
    if longestStreak > 0 {
      var lo := LongestRunWitness(sortedDates, streakData.Keys);
    }
  }
}
