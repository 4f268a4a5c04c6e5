/** The pizzeria of lab7/main.c: cooks put pizzas into a shared oven slot table and
    then onto a circular table queue, deliverers take them off the table.  The
    `struct shared` segment is the class `Pizzeria`; the five semaphores become
    counters.  Each bracket `x_before_y(); <critical section>; x_after_y();` is one
    atomic method: the lock semaphores (OVEN_LK, TABLE_LK) only serve to make the
    section atomic, and a wait on a counting semaphore that would block is a
    precondition. */
module Pizzeria {
  import opened Common

  /** The compile-time default of SLOTS. */
  const SLOTS := 5

  /** The number of slots of `s` holding a pizza (a non-negative pizza type). */
  function Occupied(s: seq<int>): (n: nat)
    ensures n <= |s|
  {
    if s == [] then 0 else Occupied(s[..|s| - 1]) + (if s[|s| - 1] >= 0 then 1 else 0)
  }

  lemma {:induction false} OccupiedUpdate(s: seq<int>, i: nat, v: int)
    requires i < |s|
    ensures Occupied(s[i := v]) == Occupied(s) - (if s[i] >= 0 then 1 else 0) + (if v >= 0 then 1 else 0)
  {
    if i < |s| - 1 {
      assert s[i := v][..|s| - 1] == s[..|s| - 1][i := v];
      OccupiedUpdate(s[..|s| - 1], i, v);
    } else {
      assert s[i := v][..|s| - 1] == s[..|s| - 1];
    }
  }

  /** A table in which no slot is free is full. */
  lemma {:induction false} OccupiedFull(s: seq<int>)
    requires forall i :: 0 <= i < |s| ==> s[i] >= 0
    ensures Occupied(s) == |s|
  {
    if s != [] {
      OccupiedFull(s[..|s| - 1]);
    }
  }

  lemma {:induction false} OccupiedEmpty(s: seq<int>)
    requires forall i :: 0 <= i < |s| ==> s[i] < 0
    ensures Occupied(s) == 0
  {
    if s != [] {
      OccupiedEmpty(s[..|s| - 1]);
    }
  }

  /** The array index of the k-th slot counted from `t` around the circular table. */
  function Pos(t: int, k: int): int {
    if t + k < SLOTS then t + k else t + k - SLOTS
  }

  /** Advancing the tail by one (`(t + 1) % SLOTS`) shifts every position by one. */
  lemma PosShift(t: int, k: int)
    requires 0 <= t < SLOTS && 0 <= k < SLOTS - 1
    ensures Pos((t + 1) % SLOTS, k) == Pos(t, k + 1)
    ensures Pos((t + 1) % SLOTS, SLOTS - 1) == t
  {
  }

  /** The oven: each slot is empty (-1) or holds a pizza type, `inoven` counts the
      full ones and OVEN_CAP the empty ones. */
  ghost predicate Oven(slots: seq<int>, inoven: int, cap: int) {
    |slots| == SLOTS && (forall i :: 0 <= i < SLOTS ==> -1 <= slots[i] <= 9) &&
    inoven == Occupied(slots) && cap + inoven == SLOTS
  }

  /** The circular table: the queue `q` (oldest first) occupies the slots from `tail`
      on, wrapping around, and every other slot is -1. */
  ghost predicate Ring(slots: seq<int>, tail: int, q: seq<int>) {
    |slots| == SLOTS && 0 <= tail < SLOTS && |q| <= SLOTS &&
    (forall k :: 0 <= k < |q| ==> slots[Pos(tail, k)] == q[k] && 0 <= q[k] <= 9) &&
    (forall k :: |q| <= k < SLOTS ==> slots[Pos(tail, k)] == -1)
  }

  /** Writing at the head, the slot `|q|` positions after the tail, appends. */
  lemma RingPut(slots: seq<int>, tail: int, q: seq<int>, c: int)
    requires Ring(slots, tail, q) && |q| < SLOTS && 0 <= c <= 9
    ensures (Pos(tail, |q|) + 1) % SLOTS == Pos(tail, |q| + 1)
    ensures Ring(slots[Pos(tail, |q|) := c], tail, q + [c])
  {
  }

  /** The tail slot holds the oldest pizza; clearing it and advancing the tail
      removes that pizza from the front. */
  lemma RingGet(slots: seq<int>, tail: int, q: seq<int>)
    requires Ring(slots, tail, q) && |q| > 0
    ensures slots[tail] == q[0]
    ensures Pos((tail + 1) % SLOTS, |q| - 1) == Pos(tail, |q|)
    ensures Ring(slots[tail := -1], (tail + 1) % SLOTS, q[1..])
  {
    assert slots[Pos(tail, 0)] == q[0];
    PosShift(tail, 0);
    PosShift(tail, 1);
    PosShift(tail, 2);
    PosShift(tail, 3);
  }

  /** The table with its indices, its count and its two semaphores: the head is
      `ontable` slots after the tail, TABLE_AVAIL counts the pizzas on it and
      TABLE_CAP the free slots. */
  ghost predicate TableQueue(slots: seq<int>, tail: int, head: int, ontable: int, avail: int, cap: int, q: seq<int>) {
    0 <= tail < SLOTS && 0 <= head < SLOTS &&
    ontable == |q| && avail == ontable && cap + ontable == SLOTS &&
    head == Pos(tail, ontable) && Ring(slots, tail, q)
  }

  lemma TablePutStep(slots: seq<int>, tail: int, head: int, ontable: int, avail: int, cap: int, q: seq<int>, c: int)
    requires TableQueue(slots, tail, head, ontable, avail, cap, q) && cap > 0 && 0 <= c <= 9
    ensures TableQueue(slots[head := c], tail, (head + 1) % SLOTS, ontable + 1, avail + 1, cap - 1, q + [c])
  {
    RingPut(slots, tail, q, c);
  }

  lemma TableGetStep(slots: seq<int>, tail: int, head: int, ontable: int, avail: int, cap: int, q: seq<int>)
    requires TableQueue(slots, tail, head, ontable, avail, cap, q) && avail > 0
    ensures q != [] && slots[tail] == q[0] && 0 <= q[0] <= 9
    ensures TableQueue(slots[tail := -1], (tail + 1) % SLOTS, head, ontable - 1, avail - 1, cap + 1, q[1..])
  {
    RingGet(slots, tail, q);
  }

  /** `rand() % 10`: the pizza type a cook prepares, from rand()'s non-negative result. */
  function PizzaType(rand: nat): (t: int)
    ensures 0 <= t <= 9
  {
    rand % 10
  }

  class Pizzeria {
    var ovenslots: array<int>
    var tableslots: array<int>
    var tablehead: int
    var tabletail: int
    var inoven: int
    var ontable: int
    /** The values of the semaphores OVEN_CAP, TABLE_CAP and TABLE_AVAIL. */
    var ovenCap: nat
    var tableCap: nat
    var tableAvail: nat
    /** The pizzas on the table, oldest first. */
    ghost var Table: seq<int>

    ghost predicate Valid()
      reads this, ovenslots, tableslots
    {
      ovenslots != tableslots &&
      ovenslots.Length == SLOTS && tableslots.Length == SLOTS &&
      Oven(ovenslots[..], inoven, ovenCap) &&
      TableQueue(tableslots[..], tabletail, tablehead, ontable, tableAvail, tableCap, Table)
    }

    /** setup_shm: every oven and table slot -1, head, tail and both counts 0; the
        semaphores start at OVEN_CAP = SLOTS, TABLE_CAP = SLOTS, TABLE_AVAIL = 0. */
    constructor Setup()
      ensures Valid() && fresh(ovenslots) && fresh(tableslots)
      ensures ovenslots[..] == seq(SLOTS, _ => -1) && tableslots[..] == seq(SLOTS, _ => -1)
      ensures tablehead == 0 && tabletail == 0 && inoven == 0 && ontable == 0
      ensures ovenCap == SLOTS && tableCap == SLOTS && tableAvail == 0 && Table == []
    {
      var oven := new int[SLOTS];
      var table := new int[SLOTS];
      var i := 0;
      while i < SLOTS
        invariant 0 <= i <= SLOTS
        invariant forall j :: 0 <= j < i ==> oven[j] == -1 && table[j] == -1
      {
        oven[i] := -1;
        table[i] := -1;
        i := i + 1;
      }
      ovenslots, tableslots := oven, table;
      tablehead, tabletail, inoven, ontable := 0, 0, 0, 0;
      ovenCap, tableCap, tableAvail := SLOTS, SLOTS, 0;
      Table := [];
      new;
      OccupiedEmpty(ovenslots[..]);
      assert ovenslots[..] == seq(SLOTS, _ => -1);
      assert tableslots[..] == seq(SLOTS, _ => -1);
    }

    /** oven_before_insert (wait OVEN_CAP, lock), the slot search and the insert of
        cook_main: the pizza goes into the lowest-index slot holding a negative value.
        OVEN_CAP guarantees that such a slot exists, which is the assert after the
        search. */
    method OvenInsert(pizza: int) returns (slot: nat)
      requires Valid() && ovenCap > 0 && 0 <= pizza <= 9
      modifies this, ovenslots
      ensures Valid()
      ensures slot < SLOTS && old(ovenslots[slot]) < 0
      ensures forall i :: 0 <= i < slot ==> old(ovenslots[i]) >= 0
      ensures ovenslots[..] == old(ovenslots[..])[slot := pizza]
      ensures inoven == old(inoven) + 1 && ovenCap == old(ovenCap) - 1
      ensures tableslots == old(tableslots) && tableslots[..] == old(tableslots[..]) && Table == old(Table)
      ensures tablehead == old(tablehead) && tabletail == old(tabletail) && ontable == old(ontable)
      ensures tableCap == old(tableCap) && tableAvail == old(tableAvail) && ovenslots == old(ovenslots)
    {
      ovenCap := ovenCap - 1;
      slot := 0;
      while slot < SLOTS
        invariant 0 <= slot <= SLOTS
        invariant forall i :: 0 <= i < slot ==> ovenslots[i] >= 0
      {
        if ovenslots[slot] < 0 {
          break;
        }
        slot := slot + 1;
      }
      if slot == SLOTS {
        OccupiedFull(ovenslots[..]);
        assert false;
      }
      assert ovenslots[slot] < 0;
      OccupiedUpdate(ovenslots[..], slot, pizza);
      ovenslots[slot] := pizza;
      inoven := inoven + 1;
    }

    /** oven_before_remove (lock), taking the pizza out of the slot the cook filled,
        oven_after_remove (post OVEN_CAP, unlock).  No other slot changes. */
    method OvenRemove(slot: nat) returns (cooked: int)
      requires Valid() && slot < SLOTS && ovenslots[slot] >= 0
      modifies this, ovenslots
      ensures Valid()
      ensures cooked == old(ovenslots[slot]) && 0 <= cooked <= 9
      ensures ovenslots[..] == old(ovenslots[..])[slot := -1]
      ensures inoven == old(inoven) - 1 && ovenCap == old(ovenCap) + 1
      ensures tableslots == old(tableslots) && tableslots[..] == old(tableslots[..]) && Table == old(Table)
      ensures tablehead == old(tablehead) && tabletail == old(tabletail) && ontable == old(ontable)
      ensures tableCap == old(tableCap) && tableAvail == old(tableAvail) && ovenslots == old(ovenslots)
    {
      cooked := ovenslots[slot];
      OccupiedUpdate(ovenslots[..], slot, -1);
      ovenslots[slot] := -1;
      inoven := inoven - 1;
      ovenCap := ovenCap + 1;
    }

    /** table_before_put (wait TABLE_CAP, lock), the put at `tablehead` with the head
        advanced modulo SLOTS, table_after_put (unlock, post TABLE_AVAIL). */
    method TablePut(cooked: int)
      requires Valid() && tableCap > 0 && 0 <= cooked <= 9
      modifies this, tableslots
      ensures Valid()
      ensures Table == old(Table) + [cooked]
      ensures tableslots[..] == old(tableslots[..])[old(tablehead) := cooked]
      ensures tablehead == (old(tablehead) + 1) % SLOTS && tabletail == old(tabletail)
      ensures ontable == old(ontable) + 1 && tableCap == old(tableCap) - 1 && tableAvail == old(tableAvail) + 1
      ensures ovenslots == old(ovenslots) && ovenslots[..] == old(ovenslots[..])
      ensures inoven == old(inoven) && ovenCap == old(ovenCap) && tableslots == old(tableslots)
    {
      TablePutStep(tableslots[..], tabletail, tablehead, ontable, tableAvail, tableCap, Table, cooked);
      tableCap := tableCap - 1;
      tableslots[tablehead] := cooked;
      tablehead := tablehead + 1;
      tablehead := tablehead % SLOTS;
      ontable := ontable + 1;
      Table := Table + [cooked];
      tableAvail := tableAvail + 1;
    }

    /** table_before_get (wait TABLE_AVAIL, lock), the get at `tabletail` that clears
        the slot and advances the tail modulo SLOTS, table_after_get (unlock, post
        TABLE_CAP).  The pizza taken is the oldest one put: the table is FIFO. */
    method TableGet() returns (pizza: int)
      requires Valid() && tableAvail > 0
      modifies this, tableslots
      ensures Valid()
      ensures old(Table) != [] && pizza == old(Table)[0] && Table == old(Table)[1..]
      ensures 0 <= pizza <= 9
      ensures tableslots[..] == old(tableslots[..])[old(tabletail) := -1]
      ensures tabletail == (old(tabletail) + 1) % SLOTS && tablehead == old(tablehead)
      ensures ontable == old(ontable) - 1 && tableCap == old(tableCap) + 1 && tableAvail == old(tableAvail) - 1
      ensures ovenslots == old(ovenslots) && ovenslots[..] == old(ovenslots[..])
      ensures inoven == old(inoven) && ovenCap == old(ovenCap) && tableslots == old(tableslots)
    {
      TableGetStep(tableslots[..], tabletail, tablehead, ontable, tableAvail, tableCap, Table);
      tableAvail := tableAvail - 1;
      pizza := tableslots[tabletail];
      tableslots[tabletail] := -1;
      assert pizza >= 0;
      tabletail := tabletail + 1;
      tabletail := tabletail % SLOTS;
      ontable := ontable - 1;
      Table := Table[1..];
      tableCap := tableCap + 1;
    }
  }

  /** One pass of cook_main's loop with no other process in between: the pizza goes
      into a free oven slot, comes out of the same slot and is put on the table, so the
      oven is as before and the table gains the pizza at its end. */
  method CookPizza(z: Pizzeria, rand: nat)
    requires z.Valid() && z.ovenCap > 0 && z.tableCap > 0
    modifies z, z.ovenslots, z.tableslots
    ensures z.Valid()
    ensures z.Table == old(z.Table) + [PizzaType(rand)]
    ensures z.ovenslots[..] == old(z.ovenslots[..]) && z.inoven == old(z.inoven)
  {
    var pizza := PizzaType(rand);
    var slot := z.OvenInsert(pizza);
    var cooked := z.OvenRemove(slot);
    assert z.ovenslots[..] == old(z.ovenslots[..]);
    z.TablePut(cooked);
  }

  /** What `main` does with its arguments (argv without the program name). */
  datatype Role = Cook | Deliverer | Spawn(cooks: int, deliverers: int) | Usage

  /** The role selection of `main`.  With one argument the condition is
      `(cook = strcmp(arg, "cook") == 0) || (deliv = strcmp(arg, "deliv"))`: the
      second strcmp is not compared with 0, so every word other than "cook" and
      "deliv" selects the deliverer, and "deliv" itself falls through to the spawner's
      argument check, which rejects it.  With two arguments both must be whole
      numbers >= 1. */
  function SelectRole(args: seq<string>): (r: Role)
    ensures r == Cook <==> args == ["cook"]
    ensures r == Deliverer <==> |args| == 1 && args[0] != "cook" && args[0] != "deliv"
    ensures r.Spawn? <==>
      |args| == 2 && ParseLong(args[0]).Some? && ParseLong(args[0]).value >= 1 &&
      ParseLong(args[1]).Some? && ParseLong(args[1]).value >= 1
    ensures r.Spawn? ==> r == Spawn(ParseLong(args[0]).value, ParseLong(args[1]).value)
  {
    if |args| == 1 && (args[0] == "cook" || args[0] != "deliv") then
      (if args[0] == "cook" then Cook else Deliverer)
    else if |args| != 2 then Usage
    else
      var n, m := ParseLong(args[0]), ParseLong(args[1]);
      if n.Some? && n.value >= 1 && m.Some? && m.value >= 1 then Spawn(n.value, m.value) else Usage
  }

  /** The spawner execs its children with "cook" and "dlv"; "dlv" is a word the role
      selection takes for the deliverer, while "deliv" would be rejected. */
  lemma SpawnedRoles()
    ensures SelectRole(["cook"]) == Cook
    ensures SelectRole(["dlv"]) == Deliverer
    ensures SelectRole(["deliv"]) == Usage
  {
  }
}
