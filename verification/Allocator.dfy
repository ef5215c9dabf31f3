/** The cyclic presence-id allocator: 65,535 ids, a cursor, and a bounded search. */
module Allocator {
  import opened Bytes

  const ID_COUNT := 0xFFFF

  predicate IsPresenceId(v: int) {
    1 <= v <= ID_COUNT
  }

  /** One advance of the cursor: wrapping increment that skips zero. */
  function Next(cursor: u16): u16 {
    var wrapped := (cursor + 1) % 0x1_0000;
    if wrapped < 1 then 1 else wrapped
  }

  datatype Found = Found(id: Option<u16>, cursor: u16)

  function Search(active: set<u16>, cursor: u16, steps: nat): Found
    decreases steps
  {
    if steps == 0 then Found(None, cursor)
    else
      var c := Next(cursor);
      if c !in active then Found(Some(c), c) else Search(active, c, steps - 1)
  }

  method NextAvailable(active: set<u16>, cursor: u16) returns (r: Found)
    ensures r == Search(active, cursor, ID_COUNT)
  {
    var c := cursor;
    for i := 0 to ID_COUNT
      invariant Search(active, cursor, ID_COUNT) == Search(active, c, ID_COUNT - i)
    {
      c := Next(c);
      if c !in active {
        return Found(Some(c), c);
      }
    }
    return Found(None, c);
  }

  // -------------------------------------------------------- cyclic arithmetic

  /** Where the cursor stands after `k` advances from `c`. */
  function Visit(c: u16, k: nat): (v: u16)
    requires k > 0
    ensures IsPresenceId(v)
  {
    (c + k - 1) % ID_COUNT + 1
  }

  lemma VisitFirst(c: u16)
    ensures Visit(c, 1) == Next(c)
  {
  }

  lemma ModAdd(a: nat, b: nat)
    ensures (a % ID_COUNT + b) % ID_COUNT == (a + b) % ID_COUNT
  {
    var q := a / ID_COUNT;
    assert a + b == (a % ID_COUNT + b) + q * ID_COUNT;
  }

  lemma VisitAdds(c: u16, a: nat, b: nat)
    requires a > 0 && b > 0
    ensures Visit(Visit(c, a), b) == Visit(c, a + b)
  {
    ModAdd(c + a - 1, b);
  }

  /** A full round visits every id. */
  function StepsTo(c: u16, id: u16): (k: nat)
    requires IsPresenceId(id)
    ensures 1 <= k <= ID_COUNT && Visit(c, k) == id
  {
    if id > c then id - c else id - c + ID_COUNT
  }

  /** The cursor is back where it was exactly after whole rounds. */
  lemma BackAfterRounds(c: u16, k: nat)
    requires IsPresenceId(c) && k > 0
    ensures k == ID_COUNT ==> Visit(c, k) == c
    ensures Visit(c, k) == c ==> k >= ID_COUNT
  {
  }

  // --------------------------------------------------- what the search returns

  /** The search stops at the first visited id that is free, or after `steps` busy ones. */
  lemma {:induction false} SearchFinds(active: set<u16>, c: u16, steps: nat) returns (k: nat)
    requires steps > 0
    ensures 1 <= k <= steps
    ensures Search(active, c, steps).cursor == Visit(c, k)
    ensures forall j :: 1 <= j < k ==> Visit(c, j) in active
    ensures match Search(active, c, steps).id
            case Some(v) => v == Visit(c, k) && v !in active
            case None => k == steps && Visit(c, k) in active
    decreases steps
  {
    VisitFirst(c);
    var c' := Next(c);
    if c' !in active || steps == 1 {
      k := 1;
    } else {
      var k' := SearchFinds(active, c', steps - 1);
      k := k' + 1;
      VisitAdds(c, 1, k');
      forall j | 1 <= j < k ensures Visit(c, j) in active {
        if j > 1 {
          VisitAdds(c, 1, j - 1);
          assert Visit(c', j - 1) in active;
        }
      }
    }
  }

  /** A full search fails exactly when every id is active, and then leaves the cursor alone. */
  lemma SearchComplete(active: set<u16>, c: u16)
    ensures Search(active, c, ID_COUNT).id.None? <==> forall v: u16 :: IsPresenceId(v) ==> v in active
    ensures Search(active, c, ID_COUNT).id.None? && IsPresenceId(c) ==>
              Search(active, c, ID_COUNT).cursor == c
    ensures match Search(active, c, ID_COUNT).id
            case Some(v) => IsPresenceId(v) && v !in active && Search(active, c, ID_COUNT).cursor == v
            case None => true
  {
    hide Search;
    var k := SearchFinds(active, c, ID_COUNT);
    if Search(active, c, ID_COUNT).id.None? {
      forall v: u16 | IsPresenceId(v) ensures v in active {
        var j := StepsTo(c, v);
        assert j < k ==> Visit(c, j) in active;
      }
      if IsPresenceId(c) {
        BackAfterRounds(c, ID_COUNT);
      }
    }
  }

  // ----------------------------------------------------------------- fairness

  /** A run of successful allocations: `cursors[i + 1]` is handed out by search `i`, which saw
      the ids in `actives[i]` taken. What happens between searches is arbitrary. */
  ghost predicate AllocationRun(cursors: seq<u16>, actives: seq<set<u16>>) {
    |cursors| == |actives| + 1
    && forall i :: 0 <= i < |actives| ==>
         Search(actives[i], cursors[i], ID_COUNT) == Found(Some(cursors[i + 1]), cursors[i + 1])
  }

  /** A search that moves the cursor from `c` to `d` goes over `y` on the way, or stops there. */
  ghost predicate Crosses(c: u16, d: u16, y: u16) {
    IsPresenceId(d) && exists n :: 1 <= n <= StepsTo(c, d) && Visit(c, n) == y
  }

  /** The cursor went over `y` in one of the searches `i..j`: search `l` handed it out or, going
      on, had found it taken. */
  ghost predicate PassedOver(cursors: seq<u16>, actives: seq<set<u16>>, i: nat, j: nat, y: u16) {
    exists l: nat :: i <= l < j && PassedBy(cursors, actives, l, y)
  }

  ghost predicate PassedBy(cursors: seq<u16>, actives: seq<set<u16>>, l: nat, y: u16) {
    l < |actives| && l + 1 < |cursors|
    && Crosses(cursors[l], cursors[l + 1], y)
    && (cursors[l + 1] == y || y in actives[l])
  }

  /** Within one round, an id is met after exactly one number of steps. */
  lemma StepsUnique(c: u16, k: nat)
    requires 1 <= k <= ID_COUNT
    ensures StepsTo(c, Visit(c, k)) == k
  {
  }

  /** A successful search goes over exactly the ids up to the one it returns, all others taken. */
  lemma SearchPasses(cursors: seq<u16>, actives: seq<set<u16>>, l: nat) returns (k: nat)
    requires AllocationRun(cursors, actives) && l < |actives|
    ensures 1 <= k <= ID_COUNT && cursors[l + 1] == Visit(cursors[l], k)
    ensures forall n :: 1 <= n <= k ==> PassedBy(cursors, actives, l, Visit(cursors[l], n))
  {
    hide Search, Visit;
    k := SearchFinds(actives[l], cursors[l], ID_COUNT);
    assert Search(actives[l], cursors[l], ID_COUNT) == Found(Some(cursors[l + 1]), cursors[l + 1]);
    StepsUnique(cursors[l], k);
  }

  lemma {:induction false} RunAdvances(cursors: seq<u16>, actives: seq<set<u16>>, i: nat, j: nat)
    returns (total: nat)
    requires AllocationRun(cursors, actives) && i < j <= |actives|
    ensures total > 0 && cursors[j] == Visit(cursors[i], total)
    ensures forall m :: 1 <= m <= total ==> PassedOver(cursors, actives, i, j, Visit(cursors[i], m))
    decreases j
  {
    hide Search, Visit, PassedBy;
    var k := SearchPasses(cursors, actives, j - 1);
    var before := 0;
    if i < j - 1 {
      before := RunAdvances(cursors, actives, i, j - 1);
      VisitAdds(cursors[i], before, k);
    }
    total := before + k;
    forall m | 1 <= m <= total ensures PassedOver(cursors, actives, i, j, Visit(cursors[i], m)) {
      if m <= before {
        var y := Visit(cursors[i], m);
        assert PassedOver(cursors, actives, i, j - 1, y);
        var l: nat :| i <= l < j - 1 && PassedBy(cursors, actives, l, y);
      } else {
        var n := m - before;
        if before > 0 {
          VisitAdds(cursors[i], before, n);
        }
        assert Visit(cursors[i], m) == Visit(cursors[j - 1], n);
        assert PassedBy(cursors, actives, j - 1, Visit(cursors[j - 1], n));
      }
    }
  }

  /** An id is handed out again only after the cursor has gone over every other id, each handed
      out or found taken when it did. */
  lemma AllocationFair(cursors: seq<u16>, actives: seq<set<u16>>, i: nat, j: nat, y: u16)
    requires AllocationRun(cursors, actives) && 0 < i < j <= |actives|
    requires cursors[i] == cursors[j] && IsPresenceId(y)
    ensures PassedOver(cursors, actives, i, j, y)
  {
    hide Search, Visit, PassedBy;
    var first := SearchPasses(cursors, actives, i - 1);
    var total := RunAdvances(cursors, actives, i, j);
    BackAfterRounds(cursors[i], total);
    var k := StepsTo(cursors[i], y);
    assert PassedOver(cursors, actives, i, j, Visit(cursors[i], k));
  }
}
