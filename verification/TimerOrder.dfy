/** Lists of timers ordered by deadline, and the rows of a skip list over them. */
module TimerOrder {
  import opened Seqs

  /** The deadline of every timer, as a count of ticks that never wraps. */
  type Due = map<nat, nat>

  predicate Known(row: seq<nat>, due: Due)
  {
    forall id | id in row :: id in due
  }

  ghost predicate Sorted(row: seq<nat>, due: Due)
    requires Known(row, due)
  {
    forall i, j | 0 <= i < j < |row| :: due[row[i]] <= due[row[j]]
  }

  /** Plain sorted insertion, behind all timers with the same deadline. */
  function Insert(row: seq<nat>, id: nat, due: Due): seq<nat>
    requires Known(row, due) && id in due
  {
    if row == [] then [id]
    else if due[row[0]] <= due[id] then [row[0]] + Insert(row[1..], id, due)
    else [id] + row
  }

  /** The timers of `row` that are in `part`, in the order of `row`. */
  function Filter(row: seq<nat>, part: set<nat>): (r: seq<nat>)
    ensures |r| <= |row|
  {
    if row == [] then []
    else if row[0] in part then [row[0]] + Filter(row[1..], part)
    else Filter(row[1..], part)
  }

  ghost function Members(row: seq<nat>): set<nat>
  {
    set id | id in row
  }

  /** `pos` is where `Insert` puts `id`: behind everything not later, before everything later. */
  ghost predicate Boundary(row: seq<nat>, id: nat, due: Due, pos: nat)
    requires Known(row, due) && id in due
  {
    && pos <= |row|
    && (forall i | 0 <= i < pos :: due[row[i]] <= due[id])
    && (pos < |row| ==> due[row[pos]] > due[id])
  }

  lemma {:induction false} BoundaryInsert(row: seq<nat>, id: nat, due: Due, pos: nat)
    requires Known(row, due) && id in due && Boundary(row, id, due, pos)
    ensures row[..pos] + [id] + row[pos..] == Insert(row, id, due)
    decreases pos
  {
    if pos > 0 {
      hide Insert;
      var rest := row[1..];
      BoundaryTail(row, id, due, pos);
      BoundaryInsert(rest, id, due, pos - 1);
      InsertBehind(row, id, due);
      PutBehind(row, id, pos);
    } else {
      assert row[..0] + [id] + row[0..] == [id] + row;
    }
  }

  lemma BoundaryTail(row: seq<nat>, id: nat, due: Due, pos: nat)
    requires Known(row, due) && id in due && Boundary(row, id, due, pos) && pos > 0
    ensures Known(row[1..], due) && Boundary(row[1..], id, due, pos - 1) && due[row[0]] <= due[id]
  {
    var rest := row[1..];
    assert forall i | 0 <= i < |rest| :: rest[i] == row[i + 1];
  }

  lemma InsertBehind(row: seq<nat>, id: nat, due: Due)
    requires Known(row, due) && id in due && row != [] && due[row[0]] <= due[id]
    ensures Known(row[1..], due) && Insert(row, id, due) == [row[0]] + Insert(row[1..], id, due)
  {
  }

  lemma {:induction false} InsertMembers(row: seq<nat>, id: nat, due: Due)
    requires Known(row, due) && id in due
    ensures forall x :: x in Insert(row, id, due) <==> x in row || x == id
    ensures |Insert(row, id, due)| == |row| + 1
  {
    if row != [] && due[row[0]] <= due[id] {
      InsertMembers(row[1..], id, due);
      assert row == [row[0]] + row[1..];
    }
  }

  lemma SortedTail(row: seq<nat>, due: Due)
    requires Known(row, due) && row != []
    ensures Known(row[1..], due)
    ensures Sorted(row, due) <==> Sorted(row[1..], due) && forall x | x in row[1..] :: due[row[0]] <= due[x]
  {
    var rest := row[1..];
    assert forall i | 0 <= i < |rest| :: rest[i] == row[i + 1];
    if Sorted(rest, due) && forall x | x in rest :: due[row[0]] <= due[x] {
      forall i, j | 0 <= i < j < |row|
        ensures due[row[i]] <= due[row[j]]
      {
        assert row[j] == rest[j - 1];
        if i > 0 {
          assert row[i] == rest[i - 1];
        }
      }
    }
  }

  lemma {:induction false} InsertSorted(row: seq<nat>, id: nat, due: Due)
    requires Known(row, due) && id in due && Sorted(row, due)
    ensures Known(Insert(row, id, due), due) && Sorted(Insert(row, id, due), due)
  {
    InsertMembers(row, id, due);
    if row != [] {
      SortedTail(row, due);
      var r := Insert(row, id, due);
      if due[row[0]] <= due[id] {
        InsertSorted(row[1..], id, due);
        InsertMembers(row[1..], id, due);
        assert r[1..] == Insert(row[1..], id, due);
      } else {
        assert r[1..] == row;
        forall x | x in row
          ensures due[id] <= due[x]
        {
          if x != row[0] {
            assert x in row[1..];
          }
        }
      }
      SortedTail(r, due);
    }
  }

  lemma {:induction false} WithoutSorted(row: seq<nat>, id: nat, due: Due)
    requires Known(row, due) && Sorted(row, due)
    ensures Known(Without(row, id), due) && Sorted(Without(row, id), due)
  {
    WithoutMembers(row, id);
    if row != [] {
      SortedTail(row, due);
      WithoutSorted(row[1..], id, due);
      WithoutMembers(row[1..], id);
      if row[0] != id {
        var r := Without(row, id);
        assert r[1..] == Without(row[1..], id);
        SortedTail(r, due);
      }
    }
  }

  // ------------------------------------------------------------ rows

  lemma {:induction false} FilterMembers(row: seq<nat>, part: set<nat>)
    ensures forall x :: x in Filter(row, part) <==> x in row && x in part
  {
    if row != [] {
      FilterMembers(row[1..], part);
      assert row == [row[0]] + row[1..];
    }
  }

  lemma {:induction false} FilterSorted(row: seq<nat>, part: set<nat>, due: Due)
    requires Known(row, due) && Sorted(row, due)
    ensures Known(Filter(row, part), due) && Sorted(Filter(row, part), due)
  {
    FilterMembers(row, part);
    if row != [] {
      SortedTail(row, due);
      FilterSorted(row[1..], part, due);
      FilterMembers(row[1..], part);
      if row[0] in part {
        var r := Filter(row, part);
        assert r[1..] == Filter(row[1..], part);
        SortedTail(r, due);
      }
    }
  }

  /** A row inserts a timer just where the row below does. */
  lemma {:induction false} FilterInsert(row: seq<nat>, part: set<nat>, id: nat, due: Due)
    requires Known(row, due) && id in due && Sorted(row, due) && id !in part && id !in row
    ensures Known(Filter(row, part), due)
    ensures Filter(Insert(row, id, due), part + {id}) == Insert(Filter(row, part), id, due)
    ensures Filter(Insert(row, id, due), part) == Filter(row, part)
  {
    FilterMembers(row, part);
    if row != [] {
      SortedTail(row, due);
      var r := Insert(row, id, due);
      if due[row[0]] <= due[id] {
        FilterInsert(row[1..], part, id, due);
        assert r[0] == row[0] && r[1..] == Insert(row[1..], id, due);
        var f := Filter(row, part);
        if row[0] in part {
          assert f[0] == row[0] && f[1..] == Filter(row[1..], part);
        }
      } else {
        assert r[1..] == row;
        FilterGrow(row, part, id);
        InsertFirst(Filter(row, part), id, due, row);
      }
    } else {
      assert Insert(row, id, due) == [id];
    }
  }

  lemma {:induction false} FilterGrow(row: seq<nat>, part: set<nat>, id: nat)
    requires id !in row
    ensures Filter(row, part + {id}) == Filter(row, part)
  {
    if row != [] {
      FilterGrow(row[1..], part, id);
    }
  }

  lemma InsertFirst(part: seq<nat>, id: nat, due: Due, row: seq<nat>)
    requires Known(row, due) && Known(part, due) && id in due && row != [] && Sorted(row, due)
    requires due[row[0]] > due[id] && forall x | x in part :: x in row
    ensures Insert(part, id, due) == [id] + part
  {
    if part != [] {
      SortedTail(row, due);
      assert part[0] in part;
      assert part[0] == row[0] || part[0] in row[1..];
    }
  }

  lemma {:induction false} FilterWithout(row: seq<nat>, part: set<nat>, id: nat)
    ensures Filter(Without(row, id), part) == Without(Filter(row, part), id)
  {
    if row != [] {
      FilterWithout(row[1..], part, id);
      if row[0] in part {
        var f := Filter(row, part);
        assert f[1..] == Filter(row[1..], part);
      }
      if row[0] != id {
        var w := Without(row, id);
        assert w[1..] == Without(row[1..], id);
      }
    }
  }

  /** Every row is a part of the bottom row in the same order, and of the row below. */
  ghost predicate RowsOk(rows: seq<seq<nat>>, due: Due)
  {
    && rows != []
    && var bottom := rows[|rows| - 1];
       && Known(bottom, due) && Sorted(bottom, due) && Distinct(bottom)
       && (forall i | 0 <= i < |rows| :: rows[i] == Filter(bottom, Members(rows[i])))
       && (forall i, j | 0 <= i < j < |rows| :: Members(rows[i]) <= Members(rows[j]))
  }

  /** A timer that is put in again is in the row twice. */
  lemma {:induction false} InsertAgain(row: seq<nat>, id: nat, due: Due)
    requires Known(row, due) && id in row
    ensures !Distinct(Insert(row, id, due))
  {
    if row[0] == id {
      InsertMembers(row[1..], id, due);
      DistinctTail(Insert(row, id, due));
      assert due[row[0]] <= due[id];
    } else if due[row[0]] <= due[id] {
      InsertAgain(row[1..], id, due);
      var r := Insert(row, id, due);
      assert r[1..] == Insert(row[1..], id, due);
      DistinctTail(r);
    } else {
      assert ([id] + row)[1..] == row;
      DistinctTail([id] + row);
    }
  }

  lemma {:induction false} InsertDistinct(row: seq<nat>, id: nat, due: Due)
    requires Known(row, due) && id in due && Distinct(row) && id !in row
    ensures Distinct(Insert(row, id, due))
  {
    if row != [] {
      DistinctTail(row);
      var r := Insert(row, id, due);
      if due[row[0]] <= due[id] {
        InsertDistinct(row[1..], id, due);
        InsertMembers(row[1..], id, due);
        assert r[0] == row[0] && r[1..] == Insert(row[1..], id, due);
      } else {
        assert r[0] == id && r[1..] == row;
      }
      DistinctTail(r);
    }
  }

  lemma RowKnown(rows: seq<seq<nat>>, due: Due, i: nat)
    requires RowsOk(rows, due) && i < |rows|
    ensures Known(rows[i], due) && Sorted(rows[i], due)
    ensures forall x | x in rows[i] :: x in rows[|rows| - 1]
  {
    FilterMembers(rows[|rows| - 1], Members(rows[i]));
    FilterSorted(rows[|rows| - 1], Members(rows[i]), due);
  }

  /** The rows from `from` down have got the timer, each by plain sorted insertion. */
  ghost predicate Inserted(rows: seq<seq<nat>>, rows': seq<seq<nat>>, id: nat, due: Due, from: nat)
    requires id in due && forall i | 0 <= i < |rows| :: Known(rows[i], due)
  {
    && |rows'| == |rows|
    && forall i | 0 <= i < |rows| :: rows'[i] == if i < from then rows[i] else Insert(rows[i], id, due)
  }

  lemma NoneInserted(rows: seq<seq<nat>>, id: nat, due: Due)
    requires id in due && forall i | 0 <= i < |rows| :: Known(rows[i], due)
    ensures Inserted(rows, rows, id, due, |rows|)
  {
  }

  /** One more row, at the place where the walk ended. */
  lemma OneMoreRow(rows: seq<seq<nat>>, rows': seq<seq<nat>>, id: nat, due: Due, from: nat, head: nat)
    requires id in due && forall i | 0 <= i < |rows| :: Known(rows[i], due)
    requires 0 < from <= |rows| && Inserted(rows, rows', id, due, from)
             && Boundary(rows[from - 1], id, due, head)
    ensures from <= |rows'| && head <= |rows'[from - 1]|
    ensures var row := rows'[from - 1];
            Inserted(rows, rows'[from - 1 := row[..head] + [id] + row[head..]], id, due, from - 1)
  {
    hide Insert;
    BoundaryInsert(rows[from - 1], id, due, head);
  }

  lemma BottomInserted(rows: seq<seq<nat>>, rows': seq<seq<nat>>, id: nat, due: Due, from: nat)
    requires id in due && forall i | 0 <= i < |rows| :: Known(rows[i], due)
    requires from < |rows| && Inserted(rows, rows', id, due, from)
    ensures |rows'| == |rows| && rows'[|rows| - 1] == Insert(rows[|rows| - 1], id, due)
  {
  }

  lemma RowInserted(rows: seq<seq<nat>>, due: Due, id: nat, i: nat)
    requires RowsOk(rows, due) && id in due && i < |rows| && id !in rows[|rows| - 1]
    ensures Known(rows[i], due) && id !in rows[i]
    ensures var b := Insert(rows[|rows| - 1], id, due);
            && Filter(b, Members(rows[i])) == rows[i]
            && Members(Insert(rows[i], id, due)) == Members(rows[i]) + {id}
            && Filter(b, Members(Insert(rows[i], id, due))) == Insert(rows[i], id, due)
  {
    RowKnown(rows, due, i);
    InsertMembers(rows[i], id, due);
    FilterInsert(rows[|rows| - 1], Members(rows[i]), id, due);
    assert Members(Insert(rows[i], id, due)) == Members(rows[i]) + {id};
  }

  /** However high the timer reaches, the rows stay rows of one skip list. */
  lemma InsertRows(rows: seq<seq<nat>>, rows': seq<seq<nat>>, id: nat, due: Due, from: nat)
    requires RowsOk(rows, due) && id in due && id !in rows[|rows| - 1] && from < |rows|
    requires forall i | 0 <= i < |rows| :: Known(rows[i], due)
    requires Inserted(rows, rows', id, due, from)
    ensures RowsOk(rows', due)
  {
    hide Insert, Filter, Sorted, Distinct, Known, Members, RowsOk;
    var last := |rows| - 1;
    BottomOk(rows, due);
    InsertMembers(rows[last], id, due);
    InsertSorted(rows[last], id, due);
    InsertDistinct(rows[last], id, due);
    forall i | 0 <= i < |rows'|
      ensures rows'[i] == Filter(rows'[last], Members(rows'[i]))
      ensures Members(rows'[i]) == if i < from then Members(rows[i]) else Members(rows[i]) + {id}
    {
      RowInserted(rows, due, id, i);
    }
    RowsFrom(rows', due, from, rows, id);
  }

  lemma BottomOk(rows: seq<seq<nat>>, due: Due)
    requires RowsOk(rows, due)
    ensures rows != [] && Known(rows[|rows| - 1], due) && Sorted(rows[|rows| - 1], due) && Distinct(rows[|rows| - 1])
  {
  }

  lemma RowsFrom(rows': seq<seq<nat>>, due: Due, from: nat, rows: seq<seq<nat>>, id: nat)
    requires RowsOk(rows, due) && |rows'| == |rows|
    requires var b := rows'[|rows'| - 1]; Known(b, due) && Sorted(b, due) && Distinct(b)
    requires forall i | 0 <= i < |rows'| :: rows'[i] == Filter(rows'[|rows'| - 1], Members(rows'[i]))
    requires forall i | 0 <= i < |rows'| :: Members(rows'[i]) == if i < from then Members(rows[i])
                                                                 else Members(rows[i]) + {id}
    ensures RowsOk(rows', due)
  {
    hide Insert, Filter, Sorted, Distinct, Known, Members;
  }

  lemma RemoveRows(rows: seq<seq<nat>>, rows': seq<seq<nat>>, id: nat, due: Due)
    requires RowsOk(rows, due) && |rows'| == |rows| && forall i | 0 <= i < |rows| :: rows'[i] == Without(rows[i], id)
    ensures RowsOk(rows', due)
  {
    hide Without, Filter, Sorted, Distinct;
    var last := |rows| - 1;
    WithoutMembers(rows[last], id);
    WithoutSorted(rows[last], id, due);
    WithoutDistinct(rows[last], id);
    forall i | 0 <= i < |rows'|
      ensures rows'[i] == Filter(rows'[last], Members(rows'[i]))
      ensures Members(rows'[i]) == Members(rows[i]) - {id}
    {
      WithoutMembers(rows[i], id);
      assert Members(rows'[i]) == Members(rows[i]) - {id};
      FilterWithout(rows[last], Members(rows[i]), id);
      FilterDrop(rows'[last], Members(rows[i]), id);
    }
  }

  lemma FilterDrop(row: seq<nat>, part: set<nat>, id: nat)
    requires id !in row
    ensures Filter(row, part) == Filter(row, part - {id})
  {
    FilterGrow(row, part - {id}, id);
    if id in part {
      assert part - {id} + {id} == part;
    } else {
      assert part - {id} == part;
    }
  }

  /** A deadline of a timer that is in no row does not matter. */
  lemma ForeignDue(rows: seq<seq<nat>>, due: Due, id: nat, v: nat)
    requires RowsOk(rows, due) && id !in rows[|rows| - 1]
    ensures RowsOk(rows, due[id := v])
  {
  }
}
