/** Least-recently-used replacement of one cache set, stated against the history of accesses. */
module LruOrder {
  import opened Words
  import opened Sram
  import opened CacheSets

  ghost predicate Distinct<T>(s: seq<T>) {
    forall i, j | 0 <= i < j < |s| :: s[i] != s[j]
  }

  function RemoveAt<T>(s: seq<T>, i: nat): (r: seq<T>)
    requires i < |s|
    ensures |r| == |s| - 1
    ensures forall j | 0 <= j < i :: r[j] == s[j]
    ensures forall j | i <= j < |r| :: r[j] == s[j + 1]
  {
    s[..i] + s[i + 1..]
  }

  function IndexOf(r: seq<u32>, t: u32): (i: nat)
    ensures i <= |r|
    ensures i < |r| ==> r[i] == t
    ensures i == |r| ==> t !in r
  {
    if r == [] || r[0] == t then 0 else 1 + IndexOf(r[1..], t)
  }

  /** Move the tag to the front. */
  function Promote(r: seq<u32>, t: u32): seq<u32> {
    [t] + if IndexOf(r, t) == |r| then r else RemoveAt(r, IndexOf(r, t))
  }

  /** The distinct tags of a history, most recently used first. */
  function Recent(history: seq<u32>): seq<u32> {
    if history == [] then [] else Promote(Recent(history[..|history| - 1]), history[|history| - 1])
  }

  /** One past the position of the last use of the tag; 0 if it was never used. */
  function LastUse(history: seq<u32>, t: u32): (n: nat)
    ensures n <= |history|
  {
    if history == [] then 0
    else if history[|history| - 1] == t then |history|
    else LastUse(history[..|history| - 1], t)
  }

  /** Where the element at position i of `Promote(r, t)` sat in r. */
  function Origin(r: seq<u32>, t: u32, i: nat): int {
    if i <= IndexOf(r, t) then i - 1 else i
  }

  lemma PromoteShape(r: seq<u32>, t: u32)
    requires Distinct(r)
    ensures Promote(r, t) != [] && Promote(r, t)[0] == t
    ensures forall i | 1 <= i < |Promote(r, t)| ::
      0 <= Origin(r, t, i) < |r| && Promote(r, t)[i] == r[Origin(r, t, i)] && Promote(r, t)[i] != t
    ensures Distinct(Promote(r, t))
  {
    var p := Promote(r, t);
    forall i | 1 <= i < |p|
      ensures 0 <= Origin(r, t, i) < |r| && p[i] == r[Origin(r, t, i)] && p[i] != t
    {
      assert r[Origin(r, t, i)] in r;
    }
  }

  lemma PromoteElements(r: seq<u32>, t: u32, u: u32)
    requires Distinct(r)
    ensures u in Promote(r, t) <==> u == t || u in r
  {
    var p := Promote(r, t);
    var k := IndexOf(r, t);
    assert p[0] == t;
    if u in r && u != t {
      var i :| 0 <= i < |r| && r[i] == u;
      assert p[if i < k then i + 1 else i] == u;
    }
    if u in p && u != t {
      PromoteShape(r, t);
    }
  }

  /** `Recent` lists exactly the used tags, once each, by decreasing last use. */
  lemma {:induction false} RecentIsByLastUse(history: seq<u32>)
    ensures Distinct(Recent(history))
    ensures forall t :: t in Recent(history) <==> LastUse(history, t) > 0
    ensures forall i, j | 0 <= i < j < |Recent(history)| ::
      LastUse(history, Recent(history)[i]) > LastUse(history, Recent(history)[j])
  {
    if history != [] {
      var before, t := history[..|history| - 1], history[|history| - 1];
      var r := Recent(before);
      RecentIsByLastUse(before);
      PromoteShape(r, t);
      forall u ensures u in Recent(history) <==> LastUse(history, u) > 0 {
        PromoteElements(r, t, u);
      }
      PromoteKeepsOrder(history, before, t, r);
    }
  }

  lemma PromoteKeepsOrder(history: seq<u32>, before: seq<u32>, t: u32, r: seq<u32>)
    requires history != [] && before == history[..|history| - 1] && t == history[|history| - 1]
    requires Distinct(r)
    requires forall i, j | 0 <= i < j < |r| :: LastUse(before, r[i]) > LastUse(before, r[j])
    ensures forall i, j | 0 <= i < j < |Promote(r, t)| ::
      LastUse(history, Promote(r, t)[i]) > LastUse(history, Promote(r, t)[j])
  {
    var p := Promote(r, t);
    PromoteShape(r, t);
    forall i, j | 0 <= i < j < |p|
      ensures LastUse(history, p[i]) > LastUse(history, p[j])
    {
      assert LastUse(history, p[j]) == LastUse(before, p[j]);
      if i > 0 {
        assert LastUse(history, p[i]) == LastUse(before, p[i]);
        assert Origin(r, t, i) < Origin(r, t, j);
      }
    }
  }

  /** The valid lines are, by stamp, the most recent distinct tags; `ways` lists where they sit. */
  ghost predicate LruInv(c: seq<CacheLine>, recent: seq<u32>, ways: seq<nat>, clock: nat) {
    && |ways| == (if |recent| < |c| then |recent| else |c|)
    && AllSit(c, ways, recent, clock)
    && Ordered(c, ways)
    && (forall w: nat | w < |c| && c[w].valid :: w in ways)
  }

  ghost predicate Sits(c: seq<CacheLine>, w: nat, tag: u32, clock: nat) {
    w < |c| && Holds(c[w], tag) && c[w].lastAccess <= clock
  }

  ghost predicate AllSit(c: seq<CacheLine>, ways: seq<nat>, tags: seq<u32>, clock: nat) {
    |ways| <= |tags| && forall i | 0 <= i < |ways| :: Sits(c, ways[i], tags[i], clock)
  }

  /** Distinct ways, by strictly decreasing stamp. */
  ghost predicate Ordered(c: seq<CacheLine>, ways: seq<nat>) {
    forall i, j | 0 <= i < j < |ways| :: ways[i] != ways[j] && Stamp(c, ways[i]) > Stamp(c, ways[j])
  }

  function Stamp(c: seq<CacheLine>, w: nat): nat {
    if w < |c| then c[w].lastAccess else 0
  }

  function WaysBelow(n: nat): (r: set<nat>)
    ensures forall w: nat :: w in r <==> w < n
    ensures |r| == n
  {
    if n == 0 then {} else WaysBelow(n - 1) + {n - 1}
  }

  /** Distinct ways of a set of n lines are at most n, all of them if they are n. */
  lemma AllWays(ways: seq<nat>, n: nat)
    requires Distinct(ways) && forall i | 0 <= i < |ways| :: ways[i] < n
    ensures |ways| <= n
    ensures |ways| < n ==> exists w: nat :: w < n && w !in ways
    ensures |ways| == n ==> forall w: nat | w < n :: w in ways
  {
    var held := set w | w in ways;
    var all := WaysBelow(n);
    DistinctSize(ways);
    SubsetSize(held, all);
    if |ways| < n {
      assert all - held != {};
      var w :| w in all - held;
    } else {
      assert held == all;
      forall w: nat | w < n
        ensures w in ways
      {
        assert w in all;
      }
    }
  }

  lemma SubsetSize<T>(a: set<T>, b: set<T>)
    requires a <= b
    ensures |a| <= |b|
    ensures |a| == |b| ==> a == b
  {
    assert |b| == |a| + |b - a| by { assert b == a + (b - a); }
  }

  lemma DistinctSize<T>(s: seq<T>)
    requires Distinct(s)
    ensures |set x | x in s| == |s|
  {
    if s != [] {
      var t := s[..|s| - 1];
      DistinctSize(t);
      assert (set x | x in s) == (set x | x in t) + {s[|s| - 1]};
    }
  }

  /** Fewer resident tags than ways leave a free way; as many leave none and the oldest is the victim. */
  lemma VictimIsOldest(c: seq<CacheLine>, recent: seq<u32>, ways: seq<nat>, clock: nat)
    requires c != []
    requires LruInv(c, recent, ways, clock)
    ensures |ways| < |c| ==> !c[VictimWay(c)].valid
    ensures |ways| == |c| ==> VictimWay(c) == ways[|c| - 1]
  {
    AllWays(ways, |c|);
    if |ways| < |c| {
      var w: nat :| w < |c| && w !in ways;
      assert FreeWay(c) <= w;
    } else {
      forall w: nat | w < |c|
        ensures c[w].valid
      {
        assert w in ways;
        var i :| 0 <= i < |ways| && ways[i] == w;
        assert Sits(c, ways[i], recent[i], clock);
      }
      var i :| 0 <= i < |ways| && ways[i] == LruWay(c);
    }
  }

  lemma HitKeepsLru(c: seq<CacheLine>, recent: seq<u32>, ways: seq<nat>, clock: nat, i: nat, now: u32)
    requires LruInv(c, recent, ways, clock) && clock < now && i < |ways|
    ensures LruInv(c[ways[i] := c[ways[i]].(lastAccess := now)],
                   [recent[i]] + RemoveAt(recent, i), [ways[i]] + RemoveAt(ways, i), now)
  {
    assert Sits(c, ways[i], recent[i], clock);
    var c' := c[ways[i] := c[ways[i]].(lastAccess := now)];
    var recent', ways' := [recent[i]] + RemoveAt(recent, i), [ways[i]] + RemoveAt(ways, i);
    HitSits(c, recent, ways, clock, i, now, c', recent', ways');
    HitCovers(c, recent, ways, clock, i, now, c', ways');
  }

  lemma HitSits(c: seq<CacheLine>, recent: seq<u32>, ways: seq<nat>, clock: nat, i: nat, now: u32,
                c': seq<CacheLine>, recent': seq<u32>, ways': seq<nat>)
    requires LruInv(c, recent, ways, clock) && clock < now && i < |ways| && ways[i] < |c|
    requires c' == c[ways[i] := c[ways[i]].(lastAccess := now)]
    requires recent' == [recent[i]] + RemoveAt(recent, i) && ways' == [ways[i]] + RemoveAt(ways, i)
    ensures AllSit(c', ways', recent', now) && Ordered(c', ways')
  {
    forall j: nat | j < |ways'|
      ensures Sits(c', ways'[j], recent'[j], now)
      ensures From(i, j) < |ways| && ways'[j] == ways[From(i, j)]
      ensures Stamp(c', ways'[j]) == if j == 0 then now as nat else Stamp(c, ways[From(i, j)])
      ensures Stamp(c, ways[From(i, j)]) <= clock
    {
      HitPosition(c, recent, ways, clock, i, now, j);
    }
    hide RemoveAt, Sits, Stamp;
    forall j: nat, k: nat | j < k < |ways'|
      ensures ways'[j] != ways'[k] && Stamp(c', ways'[j]) > Stamp(c', ways'[k])
    {
      FromOrder(i, j, k);
    }
  }

  /** What sits at position j after position i moved to the front. */
  lemma HitPosition(c: seq<CacheLine>, recent: seq<u32>, ways: seq<nat>, clock: nat, i: nat, now: u32, j: nat)
    requires LruInv(c, recent, ways, clock) && clock < now && i < |ways| && ways[i] < |c| && j < |ways|
    ensures var c', way := c[ways[i] := c[ways[i]].(lastAccess := now)], ([ways[i]] + RemoveAt(ways, i))[j];
      && Sits(c', way, ([recent[i]] + RemoveAt(recent, i))[j], now)
      && From(i, j) < |ways| && way == ways[From(i, j)]
      && Stamp(c', way) == (if j == 0 then now as nat else Stamp(c, ways[From(i, j)]))
      && Stamp(c, ways[From(i, j)]) <= clock
  {
    assert Sits(c, ways[From(i, j)], recent[From(i, j)], clock);
  }

  lemma FromOrder(i: nat, j: nat, k: nat)
    requires j < k
    ensures From(i, j) != From(i, k) && (j > 0 ==> From(i, j) < From(i, k))
  {
  }

  /** Where position j sat before position i moved to the front. */
  function From(i: nat, j: nat): nat {
    if j == 0 then i else if j <= i then j - 1 else j
  }

  lemma HitCovers(c: seq<CacheLine>, recent: seq<u32>, ways: seq<nat>, clock: nat, i: nat, now: u32,
                  c': seq<CacheLine>, ways': seq<nat>)
    requires LruInv(c, recent, ways, clock) && i < |ways| && ways[i] < |c|
    requires c' == c[ways[i] := c[ways[i]].(lastAccess := now)] && ways' == [ways[i]] + RemoveAt(ways, i)
    ensures forall w: nat | w < |c'| && c'[w].valid :: w in ways'
  {
    forall w: nat | w < |c'| && c'[w].valid
      ensures w in ways'
    {
      var j :| 0 <= j < |ways| && ways[j] == w;
      assert ways'[if j < i then j + 1 else if j == i then 0 else j] == w;
    }
  }

  lemma MissKeepsLru(c: seq<CacheLine>, recent: seq<u32>, ways: seq<nat>, clock: nat, line: CacheLine, rest: seq<u32>)
    returns (ways': seq<nat>)
    requires c != []
    requires LruInv(c, recent, ways, clock) && line.valid && clock < line.lastAccess
    requires |recent| < |c| ==> |rest| == |recent|
    requires |recent| >= |c| ==> |rest| >= |c|
    requires forall i | 0 <= i < |ways| :: rest[i] == recent[i]
    ensures LruInv(c[VictimWay(c) := line], [line.tag] + rest, ways', line.lastAccess)
  {
    var v, kept := VictimWay(c), Kept(ways, |c|);
    ways' := [v] + kept;
    VictimNotKept(c, recent, ways, clock);
    MissSits(c, recent, kept, clock, v, line, rest);
    MissCovers(c, recent, ways, clock, line);
  }

  /** The ways that keep their line on a miss. */
  function Kept(ways: seq<nat>, n: nat): (r: seq<nat>)
    requires n > 0
    ensures r <= ways
  {
    if |ways| < n then ways else ways[..n - 1]
  }

  lemma VictimNotKept(c: seq<CacheLine>, recent: seq<u32>, ways: seq<nat>, clock: nat)
    requires c != []
    requires LruInv(c, recent, ways, clock)
    ensures VictimWay(c) !in Kept(ways, |c|)
  {
    VictimIsOldest(c, recent, ways, clock);
    forall i | 0 <= i < |Kept(ways, |c|)|
      ensures Kept(ways, |c|)[i] != VictimWay(c)
    {
      assert Sits(c, ways[i], recent[i], clock);
    }
  }

  lemma MissSits(c: seq<CacheLine>, recent: seq<u32>, kept: seq<nat>, clock: nat, v: nat, line: CacheLine,
                 rest: seq<u32>)
    requires v < |c| && v !in kept && line.valid && clock < line.lastAccess
    requires AllSit(c, kept, recent, clock) && Ordered(c, kept)
    requires |kept| <= |rest| && forall i | 0 <= i < |kept| :: rest[i] == recent[i]
    ensures AllSit(c[v := line], [v] + kept, [line.tag] + rest, line.lastAccess)
    ensures Ordered(c[v := line], [v] + kept)
  {
    var ways', c' := [v] + kept, c[v := line];
    forall j | 1 <= j < |ways'|
      ensures Sits(c', ways'[j], ([line.tag] + rest)[j], line.lastAccess) && ways'[j] != v
      ensures Stamp(c', ways'[j]) == Stamp(c, kept[j - 1]) <= clock
    {
      assert ways'[j] == kept[j - 1];
      assert Sits(c, kept[j - 1], recent[j - 1], clock);
    }
  }

  lemma MissCovers(c: seq<CacheLine>, recent: seq<u32>, ways: seq<nat>, clock: nat, line: CacheLine)
    requires c != []
    requires LruInv(c, recent, ways, clock)
    ensures forall w: nat | w < |c| && c[VictimWay(c) := line][w].valid ::
      w in [VictimWay(c)] + Kept(ways, |c|)
  {
    hide VictimWay, AllSit, Ordered;
    VictimIsOldest(c, recent, ways, clock);
    var v := VictimWay(c);
    forall w: nat | w < |c| && c[v := line][w].valid
      ensures w in [v] + Kept(ways, |c|)
    {
      if w != v {
        assert c[w].valid;
        KeptCovers(ways, |c|, v, w);
      }
    }
  }

  /** Every way but the victim is kept. */
  lemma KeptCovers(ways: seq<nat>, n: nat, v: nat, w: nat)
    requires n > 0 && |ways| <= n && w in ways && w != v
    requires |ways| == n ==> ways[n - 1] == v
    ensures w in Kept(ways, n)
  {
    var j :| 0 <= j < |ways| && ways[j] == w;
    assert Kept(ways, n)[j] == w;
  }

  /** One access promotes its tag to the front of the recency order. */
  lemma AccessKeepsLru(c: seq<CacheLine>, recent: seq<u32>, ways: seq<nat>, clock: nat,
                       tag: u32, now: u32, fill: LineData) returns (ways': seq<nat>)
    requires c != []
    requires LruInv(c, recent, ways, clock) && Distinct(recent) && clock < now
    ensures LruInv(Access(c, tag, now, fill), Promote(recent, tag), ways', now)
  {
    var w := Lookup(c, tag);
    var k := IndexOf(recent, tag);
    if w < |c| {
      var i :| 0 <= i < |ways| && ways[i] == w;
      assert recent[i] == tag && k == i;
      HitKeepsLru(c, recent, ways, clock, i, now);
      ways' := [w] + RemoveAt(ways, i);
    } else {
      forall i | 0 <= i < |ways|
        ensures recent[i] != tag
      {
        assert Sits(c, ways[i], recent[i], clock);
      }
      ways' := MissKeepsLru(c, recent, ways, clock, CacheLine(tag, true, false, fill, now), Promote(recent, tag)[1..]);
      assert Promote(recent, tag) == [tag] + Promote(recent, tag)[1..];
    }
  }

  /** The first n tags, if there are as many. */
  function Top(recent: seq<u32>, n: nat): seq<u32> {
    if |recent| < n then recent else recent[..n]
  }

  /** What the invariant says about residency. */
  lemma ResidentAreRecent(c: seq<CacheLine>, recent: seq<u32>, ways: seq<nat>, clock: nat, tag: u32)
    requires LruInv(c, recent, ways, clock)
    ensures Lookup(c, tag) < |c| <==> tag in Top(recent, |c|)
  {
    if tag in Top(recent, |c|) {
      var i :| 0 <= i < |Top(recent, |c|)| && Top(recent, |c|)[i] == tag;
      assert Sits(c, ways[i], recent[i], clock);
    }
    if Lookup(c, tag) < |c| {
      assert c[Lookup(c, tag)].valid;
      var i :| 0 <= i < |ways| && ways[i] == Lookup(c, tag);
      assert Top(recent, |c|)[i] == tag;
    }
  }
}
