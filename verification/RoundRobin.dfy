/**
 The parent of a process pool gives every new connection to the next child
 that is alive, round robin.
 */
module RoundRobin {
  import opened Basics

  /** The children from `lo` up to `hi` that are alive. */
  function AliveIn(alive: seq<bool>, lo: nat, hi: nat): seq<nat>
    requires lo <= hi <= |alive|
    decreases hi - lo
  {
    if lo == hi then [] else (if alive[lo] then [lo] else []) + AliveIn(alive, lo + 1, hi)
  }

  /** `s` lists the living from `lo` up to `hi`, each once and in order. */
  ghost predicate Lists(alive: seq<bool>, lo: nat, hi: nat, s: seq<nat>)
    requires lo <= hi <= |alive|
  {
    && (forall i | 0 <= i < |s| :: lo <= s[i] < hi && alive[s[i]])
    && (forall i, j | 0 <= i < j < |s| :: s[i] < s[j])
    && (forall k: nat | lo <= k < hi && alive[k] :: k in s)
  }

  lemma {:induction false} AliveInMeaning(alive: seq<bool>, lo: nat, hi: nat)
    requires lo <= hi <= |alive|
    ensures Lists(alive, lo, hi, AliveIn(alive, lo, hi))
    decreases hi - lo
  {
    if lo < hi {
      AliveInMeaning(alive, lo + 1, hi);
      ListsOneMore(alive, lo, hi, AliveIn(alive, lo + 1, hi));
    }
  }

  lemma ListsOneMore(alive: seq<bool>, lo: nat, hi: nat, s: seq<nat>)
    requires lo < hi <= |alive| && Lists(alive, lo + 1, hi, s)
    ensures Lists(alive, lo, hi, (if alive[lo] then [lo] else []) + s)
  {
    if alive[lo] {
      forall k: nat | lo <= k < hi && alive[k] ensures k in [lo] + s {
        assert k == lo || k in s;
      }
    } else {
      assert [] + s == s;
    }
  }

  /** The children that are alive, in the order in which their turn comes when `c` is next. */
  function Turns(alive: seq<bool>, c: nat): seq<nat>
    requires c <= |alive|
  {
    AliveIn(alive, c, |alive|) + AliveIn(alive, 0, c)
  }

  function Next(alive: seq<bool>, c: nat): (next: nat)
    requires c < |alive|
    ensures next < |alive|
  {
    (c + 1) % |alive|
  }

  /** Every child that is alive has one turn, and no other child has any. */
  lemma TurnsAreFair(alive: seq<bool>, c: nat)
    requires c <= |alive|
    ensures forall k | k in Turns(alive, c) :: k < |alive| && alive[k]
    ensures forall k | 0 <= k < |alive| && alive[k] :: k in Turns(alive, c)
    ensures forall i, j | 0 <= i < j < |Turns(alive, c)| :: Turns(alive, c)[i] != Turns(alive, c)[j]
  {
    hide AliveIn;
    AliveInMeaning(alive, c, |alive|);
    AliveInMeaning(alive, 0, c);
    var a, b := AliveIn(alive, c, |alive|), AliveIn(alive, 0, c);
    forall i | 0 <= i < |a + b| ensures (a + b)[i] < |alive| && alive[(a + b)[i]] {
      if i < |a| {
        assert (a + b)[i] == a[i];
      } else {
        assert (a + b)[i] == b[i - |a|];
      }
    }
  }

  lemma {:induction false} AliveInSplit(alive: seq<bool>, lo: nat, mid: nat, hi: nat)
    requires lo <= mid <= hi <= |alive|
    ensures AliveIn(alive, lo, hi) == AliveIn(alive, lo, mid) + AliveIn(alive, mid, hi)
    decreases mid - lo
  {
    if lo < mid {
      AliveInSplit(alive, lo + 1, mid, hi);
    }
  }

  /** A child's turn goes to the end of the order; a dead child has none. */
  lemma TurnPasses(alive: seq<bool>, c: nat)
    requires c < |alive|
    ensures Turns(alive, Next(alive, c)) ==
            if alive[c] then Turns(alive, c)[1..] + [c] else Turns(alive, c)
    ensures alive[c] ==> Turns(alive, c) != [] && Turns(alive, c)[0] == c
  {
    hide AliveIn, Next;
    var n := |alive|;
    NextIs(alive, c);
    AliveOne(alive, c);
    AliveInSplit(alive, c, c + 1, n);
    AliveInSplit(alive, 0, c, c + 1);
    AliveNone(alive, 0);
    AliveNone(alive, n);
    var before, after := AliveIn(alive, 0, c), AliveIn(alive, c + 1, n);
    if alive[c] {
      assert Turns(alive, c) == [c] + (after + before);
    } else {
      assert Turns(alive, c) == after + before;
    }
  }

  lemma NextIs(alive: seq<bool>, c: nat)
    requires c < |alive|
    ensures Next(alive, c) == if c + 1 == |alive| then 0 else c + 1
  {
  }

  lemma AliveOne(alive: seq<bool>, c: nat)
    requires c < |alive|
    ensures AliveIn(alive, c, c + 1) == if alive[c] then [c] else []
  {
    AliveNone(alive, c + 1);
  }

  lemma AliveNone(alive: seq<bool>, c: nat)
    requires c <= |alive|
    ensures AliveIn(alive, c, c) == []
  {
  }

  /** The children that `m` selections in a row go to, and the child that is next then. */
  function Picks(alive: seq<bool>, c: nat, m: nat): (r: (seq<nat>, nat))
    requires c < |alive| && Turns(alive, c) != []
    ensures r.1 < |alive|
    decreases m
  {
    if m == 0 then ([], c)
    else
      var k := Turns(alive, c)[0];
      TurnsAreFair(alive, c);
      ComesNext(alive, c);
      var more := Picks(alive, Next(alive, k), m - 1);
      ([k] + more.0, more.1)
  }

  /** Selecting the first in the order moves it to the end of the order. */
  lemma ComesNext(alive: seq<bool>, c: nat)
    requires c < |alive| && Turns(alive, c) != []
    ensures var k := Turns(alive, c)[0];
            k < |alive| && alive[k] && Turns(alive, Next(alive, k)) == Turns(alive, c)[1..] + [k]
  {
    hide Turns, AliveIn;
    TurnsAreFair(alive, c);
    var k := Turns(alive, c)[0];
    SkipDead(alive, c, k);
    TurnPasses(alive, k);
  }

  /** Between the next child and the one that is selected nobody is alive. */
  lemma SkipDead(alive: seq<bool>, c: nat, k: nat)
    requires c < |alive| && Turns(alive, c) != [] && Turns(alive, c)[0] == k
    ensures k < |alive| && Turns(alive, k) == Turns(alive, c)
  {
    hide AliveIn;
    AliveInMeaning(alive, c, |alive|);
    AliveInMeaning(alive, 0, c);
    if AliveIn(alive, c, |alive|) != [] {
      DeadBefore(alive, c, k, |alive|);
      AliveInSplit(alive, 0, c, k);
    } else {
      DeadBefore(alive, 0, k, c);
      AliveInSplit(alive, k, c, |alive|);
    }
  }

  lemma {:induction false} DeadBefore(alive: seq<bool>, lo: nat, k: nat, hi: nat)
    requires lo <= k < hi <= |alive| && AliveIn(alive, lo, hi) != [] && AliveIn(alive, lo, hi)[0] == k
    ensures AliveIn(alive, lo, k) == [] && AliveIn(alive, k, hi) == AliveIn(alive, lo, hi)
    decreases hi - lo
  {
    if lo < k {
      DeadBefore(alive, lo + 1, k, hi);
    }
  }

  /** As many selections in a row as there are children alive pick each of them once, in order. */
  lemma OneRoundIsFair(alive: seq<bool>, c: nat)
    requires c < |alive| && Turns(alive, c) != []
    ensures Picks(alive, c, |Turns(alive, c)|).0 == Turns(alive, c)
  {
    hide Turns, Picks;
    PicksFollowTurns(alive, c, |Turns(alive, c)|);
  }

  lemma {:induction false} PicksFollowTurns(alive: seq<bool>, c: nat, m: nat)
    requires c < |alive| && Turns(alive, c) != [] && m <= |Turns(alive, c)|
    ensures Picks(alive, c, m).0 == Turns(alive, c)[..m]
    decreases m
  {
    hide Turns;
    if m > 0 {
      ComesNext(alive, c);
      var t := Turns(alive, c);
      PicksFollowTurns(alive, Next(alive, t[0]), m - 1);
      MovedToTheEnd(t, m);
    }
  }

  lemma MovedToTheEnd(t: seq<nat>, m: nat)
    requires 0 < m <= |t|
    ensures [t[0]] + (t[1..] + [t[0]])[..m - 1] == t[..m]
  {
    assert (t[1..] + [t[0]])[..m - 1] == t[1..m];
  }

  // ------------------------------------------------------------ while others die

  /** How many children that are alive have their turn before `j`. */
  function Ahead(alive: seq<bool>, c: nat, j: nat): nat
    requires c < |alive| && j < |alive|
  {
    if c <= j then |AliveIn(alive, c, j)| else |AliveIn(alive, c, |alive|)| + |AliveIn(alive, 0, j)|
  }

  /** That is where `j` stands in the order. */
  lemma PlaceOf(alive: seq<bool>, c: nat, j: nat)
    requires c < |alive| && j < |alive| && alive[j]
    ensures Ahead(alive, c, j) < |Turns(alive, c)| && Turns(alive, c)[Ahead(alive, c, j)] == j
  {
    hide AliveIn;
    var n := |alive|;
    AliveOne(alive, j);
    if c <= j {
      AliveInSplit(alive, c, j, n);
      AliveInSplit(alive, j, j + 1, n);
    } else {
      AliveInSplit(alive, 0, j, c);
      AliveInSplit(alive, j, j + 1, c);
    }
  }

  /** No child comes back to life. */
  ghost predicate OnlyDeaths(before: seq<bool>, after: seq<bool>) {
    |after| == |before| && forall k | 0 <= k < |after| :: after[k] ==> before[k]
  }

  lemma {:induction false} FewerAlive(before: seq<bool>, after: seq<bool>, lo: nat, hi: nat)
    requires OnlyDeaths(before, after) && lo <= hi <= |after|
    ensures |AliveIn(after, lo, hi)| <= |AliveIn(before, lo, hi)|
    decreases hi - lo
  {
    if lo < hi {
      assert after[lo] ==> before[lo];
      hide OnlyDeaths;
      FewerAlive(before, after, lo + 1, hi);
    }
  }

  lemma FewerAhead(before: seq<bool>, after: seq<bool>, c: nat, j: nat)
    requires OnlyDeaths(before, after) && c < |after| && j < |after|
    ensures Ahead(after, c, j) <= Ahead(before, c, j)
  {
    hide AliveIn, OnlyDeaths;
    assert |after| == |before| by { SameCount(before, after); }
    if c <= j {
      FewerAlive(before, after, c, j);
    } else {
      FewerAlive(before, after, c, |after|);
      FewerAlive(before, after, 0, j);
    }
  }

  lemma SameCount(before: seq<bool>, after: seq<bool>)
    requires OnlyDeaths(before, after)
    ensures |after| == |before|
  {
  }

  /** A selection picks `j`, or one of those ahead of it. */
  lemma SelectionAdvances(alive: seq<bool>, c: nat, j: nat)
    requires c < |alive| && j < |alive| && alive[j]
    ensures Turns(alive, c) != [] && Turns(alive, c)[0] < |alive|
    ensures var k := Turns(alive, c)[0];
            k == j || (Ahead(alive, c, j) > 0 && Ahead(alive, Next(alive, k), j) == Ahead(alive, c, j) - 1)
  {
    hide Turns, AliveIn, Ahead, Next;
    PlaceOf(alive, c, j);
    ComesNext(alive, c);
    var t := Turns(alive, c);
    if t[0] != j {
      var c' := Next(alive, t[0]);
      PlaceOf(alive, c', j);
      TurnsAreFair(alive, c');
      var a := Ahead(alive, c, j);
      assert Turns(alive, c')[a - 1] == t[1..][a - 1] == t[a] == j;
    }
  }

  /** The selections while children die: `lives[i]` says who is alive at the `i`-th. */
  function Selections(lives: seq<seq<bool>>, c: nat): seq<nat>
    requires forall i | 0 <= i < |lives| :: c < |lives[i]| == |lives[0]|
    decreases |lives|
  {
    if lives == [] || Turns(lives[0], c) == [] then []
    else
      var k := Turns(lives[0], c)[0];
      TurnsAreFair(lives[0], c);
      assert k in Turns(lives[0], c);
      var rest := lives[1..];
      assert forall i | 0 <= i < |rest| :: rest[i] == lives[i + 1] && |rest[i]| == |lives[0]|;
      [k] + Selections(rest, Next(lives[0], k))
  }

  /**
   A child that stays alive is picked within one more selection than there are
   children ahead of it at the start, whoever dies in between: at the latest
   after as many selections as children were alive.
   */
  lemma {:induction false} StaysPicked(lives: seq<seq<bool>>, c: nat, j: nat)
    requires forall i | 0 <= i < |lives| :: c < |lives[i]| == |lives[0]| && j < |lives[i]| && lives[i][j]
    requires forall i | 0 < i < |lives| :: OnlyDeaths(lives[i - 1], lives[i])
    requires lives != [] && |lives| > Ahead(lives[0], c, j)
    ensures Ahead(lives[0], c, j) < |Turns(lives[0], c)|
    ensures exists i | 0 <= i <= Ahead(lives[0], c, j) :: i < |Selections(lives, c)| && Selections(lives, c)[i] == j
    decreases |lives|
  {
    hide Turns, AliveIn, Ahead, Next, OnlyDeaths;
    PlaceOf(lives[0], c, j);
    SelectionAdvances(lives[0], c, j);
    var k := Turns(lives[0], c)[0];
    var picks := Selections(lives, c);
    if k == j {
      assert picks[0] == j;
    } else {
      var c' := Next(lives[0], k);
      var rest := lives[1..];
      assert forall i | 0 < i < |rest| :: rest[i - 1] == lives[i] && rest[i] == lives[i + 1];
      FewerAhead(lives[0], rest[0], c', j);
      StaysPicked(rest, c', j);
      var i :| 0 <= i <= Ahead(rest[0], c', j) && i < |Selections(rest, c')| && Selections(rest, c')[i] == j;
      assert picks[i + 1] == j;
    }
  }

  /** Counting on from `c`, around the end, `k` comes before `i`. */
  ghost predicate Between(c: nat, k: nat, i: nat) {
    if c <= i then c <= k < i else c <= k || k < i
  }

  /** The selection in letParentGo: nobody, if and only if nobody is alive, and then the server stops. */
  method Select(alive: seq<bool>, counter: nat) returns (index: Option<nat>, next: nat)
    requires counter < |alive|
    ensures index.Some? ==> index.value < |alive|
    ensures index == if Turns(alive, counter) == [] then None else Some(Turns(alive, counter)[0])
    ensures next == if index.None? then counter else Next(alive, index.value)
    ensures index.None? <==> forall k | 0 <= k < |alive| :: !alive[k]
    ensures index.Some? ==> alive[index.value] && next == if index.value + 1 < |alive| then index.value + 1 else 0
    ensures index.Some? ==> forall k | 0 <= k < |alive| && Between(counter, k, index.value) :: !alive[k]
  {
    hide AliveIn, Turns, Next;
    var i := counter;
    ghost var wrapped := false;
    AliveNone(alive, counter);
    AliveNone(alive, 0);
    while !alive[i]
      invariant 0 <= i < |alive| && Turns(alive, i) == Turns(alive, counter)
      invariant forall k | 0 <= k < |alive| && Between(counter, k, i) :: !alive[k]
      invariant wrapped <==> i < counter
      invariant !wrapped ==> counter <= i && AliveIn(alive, counter, i) == []
      invariant wrapped ==> i < counter && AliveIn(alive, counter, |alive|) == [] == AliveIn(alive, 0, i)
      decreases if wrapped then counter - i else |alive| - i + counter
    {
      NextIs(alive, i);
      TurnPasses(alive, i);
      AliveOne(alive, i);
      AliveInSplit(alive, if wrapped then 0 else counter, i, i + 1);
      wrapped := wrapped || i + 1 == |alive|;
      i := Next(alive, i);
      if i == counter {
        NobodyAlive(alive, counter);
        return None, counter;
      }
    }
    TurnPasses(alive, i);
    TurnsAreFair(alive, counter);
    NextIs(alive, i);
    index, next := Some(i), Next(alive, i);
  }

  lemma NobodyAlive(alive: seq<bool>, c: nat)
    requires c <= |alive| && AliveIn(alive, c, |alive|) == [] == AliveIn(alive, 0, c)
    ensures Turns(alive, c) == [] && forall k | 0 <= k < |alive| :: !alive[k]
  {
    hide AliveIn;
    AliveInMeaning(alive, c, |alive|);
    AliveInMeaning(alive, 0, c);
  }
}
