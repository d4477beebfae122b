/** The runner's slot buffer seen as a sequence of cells. A cell holding 0 is a
    free slot; any other value is the rank marker of the job occupying it. */
module Slots {

  /** Largest value a cell of the `Uint16Array` buffer can hold. */
  const MaxCell := 65535

  /** Every cell holds a value a `Uint16Array` cell can hold. */
  ghost predicate CellsFit(cells: seq<int>) {
    forall i :: 0 <= i < |cells| ==> 0 <= cells[i] <= MaxCell
  }

  /** Number of forward steps, wrapping after cell `n - 1`, from `start` to `i`. */
  function Dist(start: nat, i: nat, n: nat): nat
    requires start < n && i < n
  {
    if start <= i then i - start else i + n - start
  }

  /** The cell reached after `d` forward steps from `start`, wrapping after `n - 1`. */
  function Circ(start: nat, d: nat, n: nat): nat
    requires start < n && d < n
  {
    if start + d < n then start + d else start + d - n
  }

  /** Stepping `d` cells and measuring the distance travelled are inverse. */
  lemma CircDist(start: nat, n: nat)
    requires start < n
    ensures forall d :: 0 <= d < n ==> Circ(start, d, n) < n && Dist(start, Circ(start, d, n), n) == d
    ensures forall i :: 0 <= i < n ==> Dist(start, i, n) < n && Circ(start, Dist(start, i, n), n) == i
  {
  }

  /** A remainder by a larger divisor is the number itself. */
  lemma ModSmall(x: nat, n: nat)
    requires x < n
    ensures x % n == x
  {
  }

  /** One more step, as the source writes it with `% n`, is the next cell of
      the walk, and returns to `start` exactly after `n` steps. */
  lemma StepForward(start: nat, d: nat, n: nat)
    requires start < n && d < n
    ensures (Circ(start, d, n) + 1) % n == if d + 1 < n then Circ(start, d + 1, n) else start
    ensures d + 1 < n ==> Circ(start, d + 1, n) != start
  {
    var c := Circ(start, d, n);
    if c + 1 < n {
      ModSmall(c + 1, n);
    } else {
      assert c + 1 == n;
    }
  }

  /** Every cell holds a job: the buffer has no free slot. */
  ghost predicate AllOccupied(cells: seq<int>) {
    forall i :: 0 <= i < |cells| ==> cells[i] != 0
  }

  /** Offset, counted from `start` and at least `d`, of the first free cell
      met walking forward; `|cells|` when every cell from offset `d` on is
      occupied. */
  function FirstFreeFrom(cells: seq<int>, start: nat, d: nat): (k: nat)
    requires start < |cells| && d <= |cells|
    ensures d <= k <= |cells|
    ensures k < |cells| ==> cells[Circ(start, k, |cells|)] == 0
    ensures forall e :: d <= e < k ==> cells[Circ(start, e, |cells|)] != 0
    decreases |cells| - d
  {
    if d == |cells| then d
    else if cells[Circ(start, d, |cells|)] == 0 then d
    else FirstFreeFrom(cells, start, d + 1)
  }

  /** The slot the circular scan of `getNextSlot` hands out when its cursor
      stands at `start`, or -1 when no cell is free. */
  function FreeSlot(cells: seq<int>, start: nat): (r: int)
    requires start < |cells|
    ensures r == -1 <==> AllOccupied(cells)
    ensures r != -1 ==> 0 <= r < |cells| && cells[r] == 0
    ensures r != -1 ==> forall i :: 0 <= i < |cells| && Dist(start, i, |cells|) < Dist(start, r, |cells|) ==> cells[i] != 0
  {
    var n := |cells|;
    var k := FirstFreeFrom(cells, start, 0);
    CircDist(start, n);
    assert k == n ==> forall i :: 0 <= i < n ==> cells[i] != 0 by {
      if k == n {
        forall i | 0 <= i < n ensures cells[i] != 0 {
          assert Circ(start, Dist(start, i, n), n) == i;
        }
      }
    }
    if k == n then -1 else Circ(start, k, n)
  }

  /** JavaScript's `Array.prototype.indexOf` on a list of numbers. */
  function IndexOf(s: seq<int>, x: int): (r: int)
    ensures -1 <= r < |s|
    ensures r == -1 <==> x !in s
    ensures r != -1 ==> s[r] == x && x !in s[..r]
  {
    if s == [] then -1
    else if s[0] == x then 0
    else
      var r := IndexOf(s[1..], x);
      assert s == [s[0]] + s[1..];
      if r == -1 then -1
      else
        assert s[..r + 1] == [s[0]] + s[1..][..r];
        r + 1
  }

  /** The value `runNextJob` writes into an acquired slot, as written:
      `priorities.indexOf(priority) + 1`. */
  function RankMarker(priorities: seq<int>, priority: int): (m: int)
    ensures 0 <= m <= |priorities|
  {
    IndexOf(priorities, priority) + 1
  }

  /** A priority missing from `priorities` gets the marker 0, the value that
      means "free". */
  lemma RankMarkerOfUnlistedPriority(priorities: seq<int>, priority: int)
    ensures RankMarker(priorities, priority) == 0 <==> priority !in priorities
    ensures priority in priorities ==> priorities[RankMarker(priorities, priority) - 1] == priority
    ensures priority in priorities ==> priority !in priorities[..RankMarker(priorities, priority) - 1]
  {
  }

  /** With the marker as written, a free cell given to a job whose priority
      is missing from `priorities` still holds 0: the buffer is unchanged,
      the next scan hands out the same slot as before, and when that cell
      was the only free one the scan hands out that very cell again. */
  lemma UnrankedJobLeavesSlotFree(cells: seq<int>, start: nat, slot: nat,
                                  priorities: seq<int>, priority: int)
    requires slot < |cells| && cells[slot] == 0 && start < |cells| && priority !in priorities
    ensures cells[slot := RankMarker(priorities, priority)] == cells
    ensures FreeSlot(cells[slot := RankMarker(priorities, priority)], start) == FreeSlot(cells, start) != -1
    ensures (forall i :: 0 <= i < |cells| && i != slot ==> cells[i] != 0) ==>
              FreeSlot(cells[slot := RankMarker(priorities, priority)], start) == slot
  {
    RankMarkerOfUnlistedPriority(priorities, priority);
  }

  /** The marker the model writes: the 1-based rank of the priority when it
      is listed, and `|priorities| + 1` (a rank past every listed one) when
      it is not, so that an occupied slot never reads as free. */
  function SlotMarker(priorities: seq<int>, priority: int): (m: int)
    ensures 1 <= m <= |priorities| + 1
    ensures priority in priorities ==> m == RankMarker(priorities, priority)
    ensures priority in priorities ==> priorities[m - 1] == priority && priority !in priorities[..m - 1]
  {
    var r := IndexOf(priorities, priority);
    if r == -1 then |priorities| + 1 else r + 1
  }

  /** Indices of the occupied cells. */
  ghost function OccupiedCells(cells: seq<int>): set<nat>
  {
    set i: nat | i < |cells| && cells[i] != 0
  }

  /** Different cells belong to different jobs. */
  ghost predicate Injective(inFlight: map<nat, string>) {
    forall i, j :: i in inFlight && j in inFlight && i != j ==> inFlight[i] != inFlight[j]
  }

  /** The bookkeeping that ties the buffer to the active set: `inFlight` maps
      every occupied cell, and only those, to the id of the job running in
      it, different cells to different ids, and the ids it holds are the
      active ones. */
  ghost predicate Tracks(cells: seq<int>, inFlight: map<nat, string>, active: set<string>)
  {
    (forall i :: i in inFlight ==> i < |cells| && cells[i] != 0) &&
    (forall i :: 0 <= i < |cells| && cells[i] != 0 ==> i in inFlight) &&
    inFlight.Values == active &&
    Injective(inFlight)
  }

  /** Dropping one cell of an injective map drops exactly that cell's id. */
  lemma RemoveKey(m: map<nat, string>, k: nat)
    requires Injective(m) && k in m
    ensures Injective(m - {k})
    ensures (m - {k}).Keys == m.Keys - {k}
    ensures (m - {k}).Values == m.Values - {m[k]}
  {
    var m' := m - {k};
    forall w | w in m.Values - {m[k]} ensures w in m'.Values {
      var j :| j in m && m[j] == w;
      assert j in m' && m'[j] == w;
    }
    forall w | w in m'.Values ensures w in m.Values - {m[k]} {
      var j :| j in m' && m'[j] == w;
      assert j in m && m[j] == w;
    }
  }

  /** A map that sends different cells to different ids has as many ids as
      cells. */
  lemma {:induction false} InjectiveCard(m: map<nat, string>)
    requires Injective(m)
    ensures |m.Values| == |m.Keys|
    decreases |m.Keys|
  {
    if m.Keys != {} {
      var k :| k in m.Keys;
      assert m[k] in m.Values;
      RemoveKey(m, k);
      InjectiveCard(m - {k});
    }
  }

  /** No more cells are occupied than there are cells. */
  lemma {:induction false} OccupiedCellsBound(cells: seq<int>)
    ensures |OccupiedCells(cells)| <= |cells|
  {
    if cells != [] {
      var n := |cells| - 1;
      OccupiedCellsBound(cells[..n]);
      var below := OccupiedCells(cells[..n]);
      assert n !in below;
      if cells[n] != 0 {
        assert OccupiedCells(cells) == below + {n};
      } else {
        assert OccupiedCells(cells) == below;
      }
    }
  }

  /** Under the bookkeeping, the number of active jobs is the number of
      occupied cells, and so never exceeds the capacity. */
  lemma ActiveCountIsOccupied(cells: seq<int>, inFlight: map<nat, string>, active: set<string>)
    requires Tracks(cells, inFlight, active)
    ensures |active| == |OccupiedCells(cells)| <= |cells|
  {
    assert inFlight.Keys == OccupiedCells(cells);
    InjectiveCard(inFlight);
    OccupiedCellsBound(cells);
  }

  /** Dispatch keeps the bookkeeping: a free cell receives a nonzero marker
      and a job id not yet active joins the active set. */
  lemma OccupyKeepsTracks(cells: seq<int>, inFlight: map<nat, string>, active: set<string>,
                          slot: nat, id: string, marker: int)
    requires Tracks(cells, inFlight, active)
    requires slot < |cells| && cells[slot] == 0 && marker != 0 && id !in active
    ensures Tracks(cells[slot := marker], inFlight[slot := id], active + {id})
  {
    var m := inFlight[slot := id];
    assert slot !in inFlight;
    assert m.Values == inFlight.Values + {id} by {
      forall v | v in m.Values ensures v in inFlight.Values + {id} {
        var i :| i in m && m[i] == v;
        if i != slot { assert inFlight[i] == v; }
      }
      forall v | v in inFlight.Values ensures v in m.Values {
        var i :| i in inFlight && inFlight[i] == v;
        assert m[i] == v;
      }
      assert m[slot] == id;
    }
  }

  /** Completion keeps the bookkeeping: clearing an occupied cell removes
      exactly the id of the job running in it from the active set. */
  lemma ReleaseKeepsTracks(cells: seq<int>, inFlight: map<nat, string>, active: set<string>, slot: nat)
    requires Tracks(cells, inFlight, active)
    requires slot in inFlight
    ensures Tracks(cells[slot := 0], inFlight - {slot}, active - {inFlight[slot]})
  {
    RemoveKey(inFlight, slot);
  }
}
