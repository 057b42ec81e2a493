/** A table of slots being filled with keys: what all placement searches keep true. */
module SlotTable {
  import opened Numbers

  /** Exactly the keys in `done` are in the table, key i at slot[i]; every other slot below m
      holds the empty marker, which is the number of keys. */
  ghost predicate Holds(slot: seq<nat>, done: set<nat>, m: nat, table: seq<nat>) {
    && m <= |table|
    && (forall i | i in done :: i < |slot| && slot[i] < m && table[slot[i]] == i)
    && (forall s: nat | s < m && table[s] != |slot| :: table[s] in done && slot[table[s]] == s)
  }

  /** Every key is at its slot, and every slot that is not empty holds the key whose slot it is. */
  ghost predicate Perfect(slot: seq<nat>, table: seq<nat>) {
    && (forall i: nat | i < |slot| :: slot[i] < |table| && table[slot[i]] == i)
    && (forall s: nat | s < |table| && table[s] != |slot| :: table[s] < |slot| && slot[table[s]] == s)
  }

  lemma FullTableIsPerfect(slot: seq<nat>, done: set<nat>, m: nat, table: seq<nat>)
    requires Holds(slot, done, m, table)
    requires forall i: nat | i < |slot| :: i in done
    requires forall s: nat | m <= s < |table| :: table[s] == |slot|
    ensures Perfect(slot, table)
  {
  }

  /** A perfect table has all keys at different slots and exactly as many slots in use as keys. */
  lemma PerfectTable(slot: seq<nat>, table: seq<nat>)
    requires Perfect(slot, table)
    ensures Distinct(slot)
    ensures |UsedSlots(table, |slot|)| == |slot|
  {
    var done := Below(|slot|);
    assert Holds(slot, done, |table|, table);
    forall i: nat, j: nat | i < j < |slot| ensures slot[i] != slot[j] {
      HeldKeysAreApart(slot, done, |table|, table, i, j);
    }
    FullTableCount(slot, done, |table|, table);
    assert table[..|table|] == table;
  }

  /** keys[x] was written to slots[x], for every x, and nothing else changed. */
  ghost predicate Written(keys: seq<nat>, slots: seq<nat>, table: seq<nat>, table': seq<nat>) {
    && |keys| == |slots| && |table'| == |table|
    && (forall x: nat | x < |keys| :: slots[x] < |table| && table'[slots[x]] == keys[x])
    && (forall s: nat | s < |table| && s !in slots :: table'[s] == table[s])
  }

  /** Writing more keys to free slots keeps the table exact. */
  lemma WrittenKeepsHolds(slot: seq<nat>, slot': seq<nat>, done: set<nat>, keys: seq<nat>, slots: seq<nat>, m: nat,
                          table: seq<nat>, table': seq<nat>)
    requires Holds(slot, done, m, table) && |slot'| == |slot|
    requires Written(keys, slots, table, table')
    requires forall i | i in done :: slot'[i] == slot[i]
    requires forall x: nat | x < |keys| ::
      keys[x] < |slot| && slot'[keys[x]] == slots[x] < m && table[slots[x]] == |slot|
    ensures Holds(slot', done + Elements(keys), m, table')
  {
  }

  /** Placed keys are at different slots. */
  lemma HeldKeysAreApart(slot: seq<nat>, done: set<nat>, m: nat, table: seq<nat>, i: nat, j: nat)
    requires Holds(slot, done, m, table)
    requires i in done && j in done && i != j
    ensures slot[i] != slot[j]
  {
  }

  /** With all n keys in the table, exactly n slots are in use. */
  lemma FullTableCount(slot: seq<nat>, done: set<nat>, m: nat, table: seq<nat>)
    requires Holds(slot, done, m, table)
    requires forall i: nat | i < |slot| :: i in done
    ensures |UsedSlots(table[..m], |slot|)| == |slot|
  {
    var used := UsedSlots(table[..m], |slot|);
    forall i: nat, j: nat | i < j < |slot| ensures slot[i] != slot[j] {
      HeldKeysAreApart(slot, done, m, table, i, j);
    }
    DistinctSize(slot);
    forall s ensures s in used <==> s in slot {
      if s in used {
        assert slot[table[s]] == s;
      }
      if i: nat :| i < |slot| && slot[i] == s {
        assert i in done && table[s] == i;
      }
    }
    assert used == Elements(slot);
  }

  /** The slots that do not hold the empty marker. */
  ghost function UsedSlots(table: seq<nat>, empty: nat): set<nat> {
    set s: nat | s < |table| && table[s] != empty
  }

  // ---------------------------------------------------------------- filling a table from a list of slots

  /** The final pass of the classic generators: enter every key at its slot, giving up on a collision. It
      succeeds exactly when the slots differ. */
  method BuildTable(slots: seq<nat>, m: nat) returns (ok: bool, table: array<nat>)
    requires forall i: nat | i < |slots| :: slots[i] < m
    ensures fresh(table) && table.Length == m
    ensures ok <==> Distinct(slots)
    ensures ok ==> Perfect(slots, table[..])
  {
    table := new nat[m](_ => |slots|);
    for i := 0 to |slots|
      invariant forall j: nat | j < i :: table[slots[j]] == j
      invariant forall s: nat | s < m && table[s] != |slots| :: table[s] < i && slots[table[s]] == s
      invariant forall j: nat, k: nat | j < k < i :: slots[j] != slots[k]
    {
      if table[slots[i]] != |slots| {
        var j := table[slots[i]];
        assert slots[j] == slots[i];
        return false, table;
      }
      table[slots[i]] := i;
    }
    ok := true;
  }

  /** Counts the slots in use. */
  method CountFilled(table: array<nat>, empty: nat) returns (filled: nat)
    ensures filled == |UsedSlots(table[..], empty)|
  {
    filled := 0;
    for i := 0 to table.Length
      invariant filled == |UsedSlots(table[..i], empty)|
    {
      assert UsedSlots(table[..i + 1], empty) ==
        UsedSlots(table[..i], empty) + if table[i] != empty then {i} else {};
      if table[i] != empty { filled := filled + 1; }
    }
    assert table[..table.Length] == table[..];
  }
}
