/**
 * The collection queries over the boss list (boss-tracker-bot.js, lines
 * 141-178): the ready bosses, the next two to spawn, and lookup by name.
 * The list `bossData` is passed in; `now` and `parseDate` are as in `Status`.
 */
module Queries {
  import opened Wrappers
  import opened Text
  import opened Records
  import opened Status

  // ---------------------------------------------------------------------
  // getReadyBosses
  // ---------------------------------------------------------------------

  /** The filter of `getReadyBosses`: not fixed, and classed ready. */
  predicate IsReady(boss: Boss, now: int, parseDate: string -> Option<int>) {
    boss.bossType != FixedBoss && GetTimeRemaining(boss, now, parseDate).timeClass == Ready
  }

  /** `getReadyBosses()`: the bosses that pass the filter, in list order. */
  function GetReadyBosses(bosses: seq<Boss>, now: int, parseDate: string -> Option<int>): (ready: seq<Boss>)
    ensures |ready| <= |bosses|
  {
    if bosses == [] then []
    else (if IsReady(bosses[0], now, parseDate) then [bosses[0]] else []) + GetReadyBosses(bosses[1..], now, parseDate)
  }

  /** The ready bosses are exactly the listed bosses that pass the filter. */
  lemma {:induction false} GetReadyBossesMembers(bosses: seq<Boss>, now: int, parseDate: string -> Option<int>)
    ensures forall b :: b in GetReadyBosses(bosses, now, parseDate) <==> b in bosses && IsReady(b, now, parseDate)
  {
    if bosses != [] {
      GetReadyBossesMembers(bosses[1..], now, parseDate);
      assert bosses == [bosses[0]] + bosses[1..];
    }
  }

  /** Filtering keeps list order: the ready bosses of two runs are those of each, one after the other. */
  lemma {:induction false} GetReadyBossesAppend(a: seq<Boss>, b: seq<Boss>, now: int, parseDate: string -> Option<int>)
    ensures GetReadyBosses(a + b, now, parseDate) == GetReadyBosses(a, now, parseDate) + GetReadyBosses(b, now, parseDate)
  {
    if a != [] {
      var head := if IsReady(a[0], now, parseDate) then [a[0]] else [];
      assert (a + b)[0] == a[0];
      assert (a + b)[1..] == a[1..] + b;
      assert GetReadyBosses(a + b, now, parseDate) == head + GetReadyBosses(a[1..] + b, now, parseDate);
      assert GetReadyBosses(a, now, parseDate) == head + GetReadyBosses(a[1..], now, parseDate);
      GetReadyBossesAppend(a[1..], b, now, parseDate);
    } else {
      assert a + b == b;
    }
  }

  /** A boss is ready exactly when it is regular, has a respawn time that parses, and that instant is not after now. */
  lemma IsReadyMeaning(boss: Boss, now: int, parseDate: string -> Option<int>)
    ensures IsReady(boss, now, parseDate) <==>
      boss.bossType == RegularBoss && boss.respawnTime != [] &&
      parseDate(boss.respawnTime).Some? && parseDate(boss.respawnTime).value <= now
  {
  }

  // ---------------------------------------------------------------------
  // getNextBosses
  // ---------------------------------------------------------------------

  /** `{ boss, timeRemaining }` as `getNextBosses` pushes it. */
  datatype Upcoming = Upcoming(boss: Boss, timeRemaining: int)

  /** The test of line 158: not fixed, not ready, and a truthy (present, non-zero) `totalMs`. */
  predicate IsUpcoming(boss: Boss, now: int, parseDate: string -> Option<int>) {
    var tr := GetTimeRemaining(boss, now, parseDate);
    boss.bossType != FixedBoss && tr.timeClass != Ready && tr.totalMs.Some? && tr.totalMs.value != 0
  }

  /** The entries the `forEach` of lines 154-164 pushes, in list order. */
  function UpcomingOf(bosses: seq<Boss>, now: int, parseDate: string -> Option<int>): (ups: seq<Upcoming>)
    ensures |ups| <= |bosses|
    ensures forall u :: u in ups ==>
      u.boss in bosses && IsUpcoming(u.boss, now, parseDate) &&
      GetTimeRemaining(u.boss, now, parseDate).totalMs == Some(u.timeRemaining)
    ensures forall b :: b in bosses && IsUpcoming(b, now, parseDate) ==>
      Upcoming(b, GetTimeRemaining(b, now, parseDate).totalMs.value) in ups
  {
    if bosses == [] then []
    else
      var last := bosses[|bosses| - 1];
      var tr := GetTimeRemaining(last, now, parseDate);
      UpcomingOf(bosses[..|bosses| - 1], now, parseDate) +
        (if IsUpcoming(last, now, parseDate) then [Upcoming(last, tr.totalMs.value)] else [])
  }

  /** An upcoming entry is a regular boss, not ready, with a positive countdown. */
  lemma UpcomingMeaning(bosses: seq<Boss>, now: int, parseDate: string -> Option<int>)
    ensures forall u :: u in UpcomingOf(bosses, now, parseDate) ==>
      u.boss.bossType == RegularBoss && u.timeRemaining > 0 &&
      u.timeRemaining == parseDate(u.boss.respawnTime).value - now &&
      GetTimeRemaining(u.boss, now, parseDate).timeClass in {Soon, Long}
  {
  }

  /** No boss is both ready and upcoming. */
  lemma ReadyAndUpcomingDisjoint(bosses: seq<Boss>, now: int, parseDate: string -> Option<int>)
    ensures forall u :: u in UpcomingOf(bosses, now, parseDate) ==> u.boss !in GetReadyBosses(bosses, now, parseDate)
  {
    GetReadyBossesMembers(bosses, now, parseDate);
  }

  predicate SortedByTime(s: seq<Upcoming>) {
    forall i, j :: 0 <= i < j < |s| ==> s[i].timeRemaining <= s[j].timeRemaining
  }

  /** `upcomingBosses.sort((a, b) => a.timeRemaining - b.timeRemaining)`, in place: insertion sort by adjacent swaps. */
  method SortByTime(a: array<Upcoming>)
    modifies a
    ensures SortedByTime(a[..])
    ensures multiset(a[..]) == old(multiset(a[..]))
    ensures SameTies(a[..], old(a[..]))
  {
    for i := 0 to a.Length
      invariant SortedByTime(a[..i])
      invariant multiset(a[..]) == old(multiset(a[..]))
      invariant SameTies(a[..], old(a[..]))
    {
      ghost var before := a[..];
      InsertLast(a, i);
      SameTiesTrans(a[..], before, old(a[..]));
    }
    assert a[..a.Length] == a[..];
  }

  /** Moves `a[i]` down past the larger entries before it, so that `a[..i + 1]` is sorted. */
  method InsertLast(a: array<Upcoming>, i: nat)
    requires i < a.Length && SortedByTime(a[..i])
    modifies a
    ensures SortedByTime(a[..i + 1])
    ensures multiset(a[..]) == old(multiset(a[..]))
    ensures multiset(a[..i + 1]) == old(multiset(a[..i + 1]))
    ensures a[i + 1..] == old(a[i + 1..])
    ensures SameTies(a[..], old(a[..]))
  {
    ghost var o := a[..];
    InsertStart(o, i);
    var j: nat := i;
    while j > 0 && a[j - 1].timeRemaining > a[j].timeRemaining
      invariant Inserting(a[..], o, i, j)
    {
      ghost var before := a[..];
      SwapAdjacent(a, j - 1);
      InsertStep(before, o, i, j);
      j := j - 1;
    }
    InsertDone(a[..], o, i, j);
  }

  /** Exchanges `a[k]` and `a[k + 1]`. */
  method SwapAdjacent(a: array<Upcoming>, k: nat)
    requires k + 1 < a.Length
    modifies a
    ensures a[..] == Swap(old(a[..]), k)
    ensures multiset(a[..]) == old(multiset(a[..]))
  {
    a[k], a[k + 1] := a[k + 1], a[k];
  }

  /** `s` with entries `k` and `k + 1` exchanged. */
  function Swap(s: seq<Upcoming>, k: nat): seq<Upcoming>
    requires k + 1 < |s|
  {
    s[k := s[k + 1]][k + 1 := s[k]]
  }

  /**
   * The state of `InsertLast` on `o` while the entry it moves sits at `j`:
   * `s[..i + 1]` is sorted apart from position `j`, the moved entry is smaller
   * than every entry above it, and `s` is `o` with its first `i + 1` entries
   * permuted and every tie kept in order.
   */
  ghost predicate Inserting(s: seq<Upcoming>, o: seq<Upcoming>, i: nat, j: nat) {
    && j <= i < |s| == |o|
    && (forall p, q :: 0 <= p < q <= i && p != j && q != j ==> s[p].timeRemaining <= s[q].timeRemaining)
    && (forall q :: j < q <= i ==> s[j].timeRemaining < s[q].timeRemaining)
    && multiset(s) == multiset(o)
    && s[i + 1..] == o[i + 1..]
    && SameTies(s, o)
  }

  lemma InsertStart(s: seq<Upcoming>, i: nat)
    requires i < |s| && SortedByTime(s[..i])
    ensures Inserting(s, s, i, i)
  {
    forall p, q | 0 <= p < q <= i && p != i && q != i
      ensures s[p].timeRemaining <= s[q].timeRemaining
    {
      assert s[p] == s[..i][p] && s[q] == s[..i][q];
    }
  }

  lemma InsertStep(s: seq<Upcoming>, o: seq<Upcoming>, i: nat, j: nat)
    requires Inserting(s, o, i, j) && 0 < j && s[j - 1].timeRemaining > s[j].timeRemaining
    ensures Inserting(Swap(s, j - 1), o, i, j - 1)
  {
    var u := Swap(s, j - 1);
    SwapKeepsTies(s, j - 1);
    SameTiesTrans(u, s, o);
    assert u[i + 1..] == s[i + 1..];
    InsertStepOrder(s, i, j);
  }

  lemma InsertStepOrder(s: seq<Upcoming>, i: nat, j: nat)
    requires 0 < j <= i < |s|
    requires forall p, q :: 0 <= p < q <= i && p != j && q != j ==> s[p].timeRemaining <= s[q].timeRemaining
    requires forall q :: j < q <= i ==> s[j].timeRemaining < s[q].timeRemaining
    requires s[j - 1].timeRemaining > s[j].timeRemaining
    ensures var u := Swap(s, j - 1);
      && (forall p, q :: 0 <= p < q <= i && p != j - 1 && q != j - 1 ==> u[p].timeRemaining <= u[q].timeRemaining)
      && (forall q :: j - 1 < q <= i ==> u[j - 1].timeRemaining < u[q].timeRemaining)
  {
  }

  lemma InsertDone(s: seq<Upcoming>, o: seq<Upcoming>, i: nat, j: nat)
    requires Inserting(s, o, i, j) && (j == 0 || s[j - 1].timeRemaining <= s[j].timeRemaining)
    ensures SortedByTime(s[..i + 1])
    ensures multiset(s) == multiset(o)
    ensures multiset(s[..i + 1]) == multiset(o[..i + 1])
    ensures s[i + 1..] == o[i + 1..]
    ensures SameTies(s, o)
  {
    SuffixMultiset(s, o, i + 1);
    forall p, q | 0 <= p < q <= i
      ensures s[p].timeRemaining <= s[q].timeRemaining
    {
      if q == j && p < j - 1 {
        assert s[p].timeRemaining <= s[j - 1].timeRemaining;
      }
    }
    assert forall k :: 0 <= k <= i ==> s[..i + 1][k] == s[k];
  }

  /** Two sequences that agree after index `n` and have the same multiset have the same multiset before it. */
  lemma SuffixMultiset(s: seq<Upcoming>, u: seq<Upcoming>, n: nat)
    requires n <= |s| == |u| && s[n..] == u[n..] && multiset(s) == multiset(u)
    ensures multiset(s[..n]) == multiset(u[..n])
  {
    assert s == s[..n] + s[n..];
    assert u == u[..n] + u[n..];
    assert multiset(s) == multiset(s[..n]) + multiset(s[n..]);
    assert multiset(u) == multiset(u[..n]) + multiset(u[n..]);
    assert multiset(s[..n]) == multiset(s) - multiset(s[n..]);
    assert multiset(u[..n]) == multiset(u) - multiset(u[n..]);
  }

  // The sort is stable, as `Array.prototype.sort` is: entries with equal
  // remaining time keep their relative order.

  /** The entries of `s` whose remaining time is `t`, in order. */
  function WithTime(s: seq<Upcoming>, t: int): seq<Upcoming> {
    if s == [] then []
    else WithTime(s[..|s| - 1], t) + (if s[|s| - 1].timeRemaining == t then [s[|s| - 1]] else [])
  }

  /** `s` and `u` list the entries of every remaining time in the same order. */
  ghost predicate SameTies(s: seq<Upcoming>, u: seq<Upcoming>) {
    forall t :: WithTime(s, t) == WithTime(u, t)
  }

  lemma SameTiesTrans(s: seq<Upcoming>, u: seq<Upcoming>, v: seq<Upcoming>)
    requires SameTies(s, u) && SameTies(u, v)
    ensures SameTies(s, v)
  {
  }

  /** The tied entries of a concatenation are those of each part, in turn. */
  lemma {:induction false} WithTimeAppend(s: seq<Upcoming>, u: seq<Upcoming>, t: int)
    ensures WithTime(s + u, t) == WithTime(s, t) + WithTime(u, t)
  {
    if u == [] {
      assert s + u == s;
    } else {
      var w := u[..|u| - 1];
      assert (s + u)[..|s + u| - 1] == s + w;
      WithTimeAppend(s, w, t);
    }
  }

  /** Exchanging neighbours with different remaining times keeps the order of every tie. */
  lemma SwapKeepsTies(s: seq<Upcoming>, k: nat)
    requires k + 1 < |s| && s[k].timeRemaining != s[k + 1].timeRemaining
    ensures SameTies(Swap(s, k), s)
  {
    var swapped := Swap(s, k);
    var pre, post := s[..k], s[k + 2..];
    assert s == pre + [s[k], s[k + 1]] + post;
    assert swapped == pre + [s[k + 1], s[k]] + post;
    forall t ensures WithTime(swapped, t) == WithTime(s, t) {
      WithTimeAppend(pre + [s[k], s[k + 1]], post, t);
      WithTimeAppend(pre, [s[k], s[k + 1]], t);
      WithTimeAppend(pre + [s[k + 1], s[k]], post, t);
      WithTimeAppend(pre, [s[k + 1], s[k]], t);
      assert [s[k], s[k + 1]][..1] == [s[k]];
      assert [s[k + 1], s[k]][..1] == [s[k + 1]];
    }
  }

  /**
   * `getNextBosses()`: the upcoming entries sorted by remaining time, cut to
   * the first two. The result holds the smallest remaining times: every
   * upcoming entry left out has at least the time of every entry kept.
   */
  method GetNextBosses(bosses: seq<Boss>, now: int, parseDate: string -> Option<int>) returns (next: seq<Upcoming>)
    ensures var ups := UpcomingOf(bosses, now, parseDate);
      && |next| == (if |ups| < 2 then |ups| else 2)
      && SortedByTime(next)
      && multiset(next) <= multiset(ups)
      && (forall x, y :: x in multiset(ups) - multiset(next) && y in next ==> y.timeRemaining <= x.timeRemaining)
      && (forall t :: WithTime(next, t) <= WithTime(ups, t))
  {
    var upcoming: seq<Upcoming> := [];
    for i := 0 to |bosses|
      invariant upcoming == UpcomingOf(bosses[..i], now, parseDate)
    {
      assert bosses[..i + 1][..i] == bosses[..i];
      var boss := bosses[i];
      if boss.bossType != FixedBoss {
        var timeRemaining := GetTimeRemaining(boss, now, parseDate);
        if timeRemaining.timeClass != Ready && timeRemaining.totalMs.Some? && timeRemaining.totalMs.value != 0 {
          upcoming := upcoming + [Upcoming(boss, timeRemaining.totalMs.value)];
        }
      }
    }
    assert bosses[..|bosses|] == bosses;
    var a := new Upcoming[|upcoming|](k requires 0 <= k < |upcoming| => upcoming[k]);
    assert a[..] == upcoming;
    SortByTime(a);
    var sorted := a[..];
    var n := if a.Length < 2 then a.Length else 2;
    next := sorted[..n];
    SortedPrefixSmallest(sorted, n);
    PrefixTies(sorted, upcoming, n);
  }

  /** A prefix of a sequence with the ties of `u` lists a prefix of each tie of `u`. */
  lemma PrefixTies(s: seq<Upcoming>, u: seq<Upcoming>, n: nat)
    requires SameTies(s, u) && n <= |s|
    ensures forall t :: WithTime(s[..n], t) <= WithTime(u, t)
  {
    forall t ensures WithTime(s[..n], t) <= WithTime(u, t) {
      assert s == s[..n] + s[n..];
      WithTimeAppend(s[..n], s[n..], t);
    }
  }

  /** A prefix of a sorted sequence holds its smallest elements. */
  lemma SortedPrefixSmallest(sorted: seq<Upcoming>, n: nat)
    requires SortedByTime(sorted) && n <= |sorted|
    ensures SortedByTime(sorted[..n])
    ensures multiset(sorted[..n]) <= multiset(sorted)
    ensures forall x, y :: x in multiset(sorted) - multiset(sorted[..n]) && y in sorted[..n] ==> y.timeRemaining <= x.timeRemaining
  {
    SplitMultiset(sorted, n);
    forall x, y | x in multiset(sorted) - multiset(sorted[..n]) && y in sorted[..n]
      ensures y.timeRemaining <= x.timeRemaining
    {
      assert x in multiset(sorted[n..]);
      PrefixBeforeSuffix(sorted, n, x, y);
    }
  }

  /** In a sorted sequence, an element of a prefix is no later than an element after it. */
  lemma PrefixBeforeSuffix(sorted: seq<Upcoming>, n: nat, x: Upcoming, y: Upcoming)
    requires SortedByTime(sorted) && n <= |sorted|
    requires x in sorted[n..] && y in sorted[..n]
    ensures y.timeRemaining <= x.timeRemaining
  {
    var p :| 0 <= p < n && sorted[..n][p] == y;
    var q :| 0 <= q < |sorted| - n && sorted[n..][q] == x;
    assert sorted[p] == y && sorted[n + q] == x;
  }


  /** Removing a prefix's elements from a sequence's multiset leaves those of the rest. */
  lemma SplitMultiset(s: seq<Upcoming>, n: nat)
    requires n <= |s|
    ensures multiset(s[..n]) <= multiset(s)
    ensures multiset(s) - multiset(s[..n]) == multiset(s[n..])
  {
    assert s == s[..n] + s[n..];
    assert multiset(s) == multiset(s[..n]) + multiset(s[n..]);
  }


  // ---------------------------------------------------------------------
  // findBossByName
  // ---------------------------------------------------------------------

  /** `boss.name.toLowerCase().includes(name.toLowerCase())`. */
  predicate NameMatches(boss: Boss, query: string) {
    Includes(ToLower(boss.name), ToLower(query))
  }

  /** `findBossByName(query)`: the first boss whose name contains the query, ignoring case. */
  function FindBossByName(bosses: seq<Boss>, query: string): (found: Option<Boss>)
    ensures found.None? <==> forall i :: 0 <= i < |bosses| ==> !NameMatches(bosses[i], query)
    ensures found.Some? ==> exists i :: 0 <= i < |bosses| && bosses[i] == found.value && NameMatches(bosses[i], query) &&
                                      (forall j :: 0 <= j < i ==> !NameMatches(bosses[j], query))
  {
    if bosses == [] then None
    else if NameMatches(bosses[0], query) then Some(bosses[0])
    else
      var rest := FindBossByName(bosses[1..], query);
      assert forall i :: 1 <= i < |bosses| ==> bosses[i] == bosses[1..][i - 1];
      rest
  }

  /** An empty query matches every name, so it finds the first boss. */
  lemma FindEmptyQuery(bosses: seq<Boss>)
    requires bosses != []
    ensures FindBossByName(bosses, "") == Some(bosses[0])
  {
    assert ToLower("") == "";
    assert ToLower("") <= ToLower(bosses[0].name);
  }

  /** Only the letters of the query matter, not their case: a lowercased query finds the same boss. */
  lemma {:induction false} FindIgnoresQueryCase(bosses: seq<Boss>, query: string)
    ensures FindBossByName(bosses, ToLower(query)) == FindBossByName(bosses, query)
  {
    ToLowerIdempotent(query);
    if bosses != [] {
      FindIgnoresQueryCase(bosses[1..], query);
    }
  }
}
