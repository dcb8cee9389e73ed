/** getAllData: the rows of a query result, grouped by their first field into
    lists of their second fields, in row order. The rows are taken as input;
    only their first two fields are read. */
module Grouping {
  import opened MapSums

  /** The distinct first fields of the rows. */
  function FirstFields<K, V>(rows: seq<(K, V)>): set<K>
  {
    set i | 0 <= i < |rows| :: rows[i].0
  }

  /** The second fields of the rows whose first field is key, in row order. */
  function ValuesFor<K(==), V>(rows: seq<(K, V)>, key: K): seq<V>
  {
    if rows == [] then []
    else
      var last := rows[|rows| - 1];
      ValuesFor(rows[..|rows| - 1], key) + (if last.0 == key then [last.1] else [])
  }

  /** The length of each group. */
  function GroupLengths<K(==), V>(rows: seq<(K, V)>): map<K, int>
  {
    map k | k in FirstFields(rows) :: |ValuesFor(rows, k)|
  }

  /** The loop of getAllData: a key seen for the first time gets an empty list,
      then the row's second field is appended to its key's list. */
  method GroupRows<K(==), V>(rows: seq<(K, V)>) returns (groups: map<K, seq<V>>)
    ensures groups.Keys == FirstFields(rows)
    ensures forall k :: k in groups ==> groups[k] == ValuesFor(rows, k)
  {
    groups := map[];
    for i := 0 to |rows|
      invariant groups.Keys == FirstFields(rows[..i])
      invariant forall k :: k in groups ==> groups[k] == ValuesFor(rows[..i], k)
    {
      var device, data := rows[i].0, rows[i].1;
      if device !in groups {
        ValuesForAbsent(rows[..i], device);
        groups := groups[device := []];
      }
      groups := groups[device := groups[device] + [data]];
      AppendRow(rows[..i], rows[i]);
      assert rows[..i + 1] == rows[..i] + [rows[i]];
    }
    assert rows[..|rows|] == rows;
  }

  /** Appending a row adds its first field to the keys and its second field to
      the end of that key's list only. */
  lemma AppendRow<K, V>(init: seq<(K, V)>, last: (K, V))
    ensures FirstFields(init + [last]) == FirstFields(init) + {last.0}
    ensures forall k :: ValuesFor(init + [last], k) == ValuesFor(init, k) + (if last.0 == k then [last.1] else [])
  {
    var rows := init + [last];
    assert rows[..|rows| - 1] == init;
    forall k | k in FirstFields(rows) ensures k in FirstFields(init) + {last.0} {
      var i :| 0 <= i < |rows| && rows[i].0 == k;
      if i < |init| {
        assert init[i].0 == k;
      }
    }
    forall k | k in FirstFields(init) ensures k in FirstFields(rows) {
      var i :| 0 <= i < |init| && init[i].0 == k;
      assert rows[i].0 == k;
    }
    assert rows[|init|].0 == last.0;
  }

  /** A key that is no row's first field has an empty list. */
  lemma {:induction false} ValuesForAbsent<K, V>(rows: seq<(K, V)>, key: K)
    requires key !in FirstFields(rows)
    ensures ValuesFor(rows, key) == []
  {
    if rows != [] {
      var init, last := rows[..|rows| - 1], rows[|rows| - 1];
      AppendRow(init, last);
      assert rows == init + [last];
      ValuesForAbsent(init, key);
    }
  }

  /** Grouping keeps the row order across a split: the list of a concatenation is
      the concatenation of the lists. */
  lemma {:induction false} ValuesForAppend<K, V>(a: seq<(K, V)>, b: seq<(K, V)>, key: K)
    ensures ValuesFor(a + b, key) == ValuesFor(a, key) + ValuesFor(b, key)
    decreases |b|
  {
    if b == [] {
      assert a + b == a;
    } else {
      var init, last := b[..|b| - 1], b[|b| - 1];
      assert a + b == (a + init) + [last];
      AppendRow(a + init, last);
      AppendRow(init, last);
      assert b == init + [last];
      ValuesForAppend(a, init, key);
    }
  }

  /** Every row's second field is in the list of its first field. */
  lemma RowInItsGroup<K, V>(rows: seq<(K, V)>, i: nat)
    requires i < |rows|
    ensures rows[i].1 in ValuesFor(rows, rows[i].0)
  {
    var key := rows[i].0;
    assert rows == rows[..i] + ([rows[i]] + rows[i + 1..]);
    ValuesForAppend(rows[..i], [rows[i]] + rows[i + 1..], key);
    ValuesForAppend([rows[i]], rows[i + 1..], key);
    AppendRow([], rows[i]);
    assert [] + [rows[i]] == [rows[i]];
  }

  /** The list lengths add up to the number of rows. */
  lemma {:induction false} GroupSizes<K, V>(rows: seq<(K, V)>)
    ensures SumOver(GroupLengths(rows), FirstFields(rows)) == |rows|
  {
    if rows != [] {
      var init, last := rows[..|rows| - 1], rows[|rows| - 1];
      assert rows == init + [last];
      AppendRow(init, last);
      GroupSizes(init);
      var key := last.0;
      var lengths, before := GroupLengths(rows), GroupLengths(init);
      var keys, keys0 := FirstFields(rows), FirstFields(init);
      SumOverRemove(lengths, keys, key);
      SumOverAgree(lengths, before, keys - {key});
      if key in keys0 {
        SumOverRemove(before, keys0, key);
        assert keys0 - {key} == keys - {key};
      } else {
        ValuesForAbsent(init, key);
        assert keys - {key} == keys0;
      }
    }
  }

  /** Every key of the grouping has a nonempty list. */
  lemma GroupsNonEmpty<K, V>(rows: seq<(K, V)>, key: K)
    requires key in FirstFields(rows)
    ensures |ValuesFor(rows, key)| > 0
  {
    var i :| 0 <= i < |rows| && rows[i].0 == key;
    RowInItsGroup(rows, i);
  }
}
