/** Moving the selected rows of the image list up or down by one place. The
    list store is an array of rows; the selection is the list of selected row
    indices in increasing order, as the tree selection reports it. Moving a row
    before the row above it (or after the row below it) swaps the two. */
module RowOrder {

  /** One row of the list: file name and size label. */
  datatype Row = Row(fileName: string, sizeLabel: string)

  /** Selected row indices: all in range and strictly increasing. */
  predicate IsSelection(paths: seq<int>, n: int) {
    && (forall k :: 0 <= k < |paths| ==> 0 <= paths[k] < n)
    && (forall a, b :: 0 <= a < b < |paths| ==> paths[a] < paths[b])
  }

  /** `rows` with the rows at `i` and `j` exchanged. */
  function Swap(rows: seq<Row>, i: nat, j: nat): (r: seq<Row>)
    requires i < |rows| && j < |rows|
    ensures |r| == |rows|
    ensures r[i] == rows[j] && r[j] == rows[i]
  {
    rows[i := rows[j]][j := rows[i]]
  }

  lemma SwapPermutes(rows: seq<Row>, i: nat, j: nat)
    requires i < |rows| && j < |rows|
    ensures multiset(Swap(rows, i, j)) == multiset(rows)
  {
  }

  /** The indices of `paths`, each shifted by `delta`. */
  function Shifted(paths: seq<int>, delta: int): set<int> {
    set p | p in paths :: p + delta
  }

  /** The indices of `paths` as a set. */
  function Selected(paths: seq<int>): set<int> {
    set p | p in paths
  }

  /** Shifting splits over concatenation. */
  lemma ShiftedAppend(a: seq<int>, b: seq<int>, delta: int)
    ensures Shifted(a + b, delta) == Shifted(a, delta) + Shifted(b, delta)
  {
    assert forall x :: x in a + b <==> x in a || x in b;
  }

  /** An index is in the shifted set exactly when it comes from an index of `paths`. */
  lemma InShifted(paths: seq<int>, delta: int)
    ensures forall x :: x in Shifted(paths, delta) <==> x - delta in paths
  {
    forall x | x - delta in paths
      ensures x in Shifted(paths, delta)
    {
      assert x == (x - delta) + delta;
    }
  }

  /** The rows whose indices are not in `marked`, in their order. */
  function Unselected(rows: seq<Row>, marked: set<int>): (r: seq<Row>)
    ensures |r| <= |rows|
    decreases |rows|
  {
    if rows == [] then []
    else
      var n := |rows| - 1;
      Unselected(rows[..n], marked) + (if n in marked then [] else [rows[n]])
  }

  /** Marks outside the rows do not matter. */
  lemma {:induction false} UnselectedAgree(rows: seq<Row>, a: set<int>, b: set<int>)
    requires forall x :: 0 <= x < |rows| ==> (x in a <==> x in b)
    ensures Unselected(rows, a) == Unselected(rows, b)
    decreases |rows|
  {
    if rows != [] {
      UnselectedAgree(rows[..|rows| - 1], a, b);
    }
  }

  /** Swapping a marked row with an unmarked neighbour, and moving the mark
      along with it, leaves the unmarked rows in the same order. */
  lemma {:induction false} UnselectedSwapAdjacent(rows: seq<Row>, i: nat, a: set<int>, b: set<int>)
    requires i + 1 < |rows|
    requires (i in a) != (i + 1 in a)
    requires (i in b) == (i + 1 in a) && (i + 1 in b) == (i in a)
    requires forall x :: 0 <= x < |rows| && x != i && x != i + 1 ==> (x in a <==> x in b)
    ensures Unselected(Swap(rows, i, i + 1), b) == Unselected(rows, a)
    decreases |rows|
  {
    var n := |rows| - 1;
    var swapped := Swap(rows, i, i + 1);
    if n == i + 1 {
      assert swapped[..i] == rows[..i];
      UnselectedAgree(rows[..i], a, b);
      assert swapped[..n][..i] == swapped[..i];
      assert rows[..n][..i] == rows[..i];
      var kept := if i in a then rows[i + 1] else rows[i];
      assert Unselected(rows, a) == Unselected(rows[..i], a) + [kept];
      assert Unselected(swapped, b) == Unselected(rows[..i], b) + [kept];
    } else {
      assert swapped[..n] == Swap(rows[..n], i, i + 1);
      UnselectedSwapAdjacent(rows[..n], i, a, b);
    }
  }

  /** The rows after moving the selected ones up, top-down, stopping at the
      first selected row that is already at the top. */
  function MovedUp(rows: seq<Row>, paths: seq<int>): (r: seq<Row>)
    requires IsSelection(paths, |rows|)
    ensures |r| == |rows|
    decreases |paths|
  {
    if paths == [] || paths[0] - 1 < 0 then rows
    else MovedUp(Swap(rows, paths[0] - 1, paths[0]), paths[1..])
  }

  /** The rows after moving the first `count` selected rows down, bottom-up
      (the selected row at `count - 1` first), stopping at the first selected row
      that is already at the bottom. */
  function MovedDown(rows: seq<Row>, paths: seq<int>, count: nat): (r: seq<Row>)
    requires IsSelection(paths, |rows|) && count <= |paths|
    ensures |r| == |rows|
    decreases count
  {
    if count == 0 || paths[count - 1] + 1 >= |rows| then rows
    else MovedDown(Swap(rows, paths[count - 1], paths[count - 1] + 1), paths, count - 1)
  }

  /** Moving up only swaps rows: the result is a permutation of the rows. */
  lemma {:induction false} MovedUpPermutes(rows: seq<Row>, paths: seq<int>)
    requires IsSelection(paths, |rows|)
    ensures multiset(MovedUp(rows, paths)) == multiset(rows)
    decreases |paths|
  {
    if paths != [] && paths[0] > 0 {
      SwapPermutes(rows, paths[0] - 1, paths[0]);
      MovedUpPermutes(Swap(rows, paths[0] - 1, paths[0]), paths[1..]);
    }
  }

  /** Moving up either moves nothing (the top row is selected) or moves every
      selected row exactly one place up. */
  lemma {:induction false} MovedUpAllOrNothing(rows: seq<Row>, paths: seq<int>)
    requires IsSelection(paths, |rows|)
    ensures paths != [] && paths[0] == 0 ==> MovedUp(rows, paths) == rows
    ensures paths == [] || paths[0] > 0 ==>
              forall k :: 0 <= k < |paths| ==> MovedUp(rows, paths)[paths[k] - 1] == rows[paths[k]]
    decreases |paths|
  {
    if paths != [] && paths[0] > 0 {
      var swapped := Swap(rows, paths[0] - 1, paths[0]);
      MovedUpAllOrNothing(swapped, paths[1..]);
      MovedUpKeepsAbove(swapped, paths[1..], paths[0] - 1);
      forall k | 0 < k < |paths|
        ensures MovedUp(rows, paths)[paths[k] - 1] == rows[paths[k]]
      {
        assert paths[1..][k - 1] == paths[k];
      }
    }
  }

  /** Moving up never touches a row above the one above the first selected row. */
  lemma {:induction false} MovedUpKeepsAbove(rows: seq<Row>, paths: seq<int>, j: nat)
    requires IsSelection(paths, |rows|)
    requires j < |rows|
    requires paths == [] || j < paths[0] - 1
    ensures MovedUp(rows, paths)[j] == rows[j]
    decreases |paths|
  {
    if paths != [] && paths[0] > 0 {
      var swapped := Swap(rows, paths[0] - 1, paths[0]);
      MovedUpKeepsAbove(swapped, paths[1..], j);
    }
  }

  /** Moving up leaves in place every row that is neither selected nor just above a selected row. */
  lemma {:induction false} MovedUpOthersUnchanged(rows: seq<Row>, paths: seq<int>, j: nat)
    requires IsSelection(paths, |rows|)
    requires j < |rows| && j !in paths && j + 1 !in paths
    ensures MovedUp(rows, paths)[j] == rows[j]
    decreases |paths|
  {
    if paths != [] && paths[0] > 0 {
      var swapped := Swap(rows, paths[0] - 1, paths[0]);
      assert paths[0] in paths;
      MovedUpOthersUnchanged(swapped, paths[1..], j);
    }
  }

  /** Moving up with the rows in `done` already handled: the rows that are
      neither selected nor handled keep their relative order. */
  lemma {:induction false} MovedUpOrder(rows: seq<Row>, paths: seq<int>, done: set<int>)
    requires IsSelection(paths, |rows|)
    requires paths != [] ==> paths[0] > 0 && forall d :: d in done ==> d < paths[0] - 1
    ensures Unselected(MovedUp(rows, paths), done + Shifted(paths, -1))
            == Unselected(rows, done + Selected(paths))
    decreases |paths|
  {
    if paths != [] {
      var q := paths[0];
      var rest := paths[1..];
      var swapped := Swap(rows, q - 1, q);
      var b := done + {q - 1} + Selected(rest);
      assert Unselected(swapped, b) == Unselected(rows, done + Selected(paths)) by {
        SelectedRestStep(paths, |rows|);
        UnselectedSwapAdjacent(rows, q - 1, done + Selected(paths), b);
      }
      assert done + Shifted(paths, -1) == done + {q - 1} + Shifted(rest, -1) by {
        SelectedRestStep(paths, |rows|);
      }
      assert MovedUp(rows, paths) == MovedUp(swapped, rest);
      MovedUpOrder(swapped, rest, done + {q - 1});
    } else {
      assert Shifted(paths, -1) == {} && Selected(paths) == {};
    }
  }

  /** Unless the early return fires, moving up keeps the rows that are not
      selected in their relative order: read at the indices just above no
      selected row, the result lists the unselected rows as they were. */
  lemma {:induction false} MovedUpKeepsOrder(rows: seq<Row>, paths: seq<int>)
    requires IsSelection(paths, |rows|)
    ensures paths == [] || paths[0] > 0 ==>
              Unselected(MovedUp(rows, paths), Shifted(paths, -1)) == Unselected(rows, Selected(paths))
  {
    if paths == [] || paths[0] > 0 {
      MovedUpOrder(rows, paths, {});
      assert {} + Shifted(paths, -1) == Shifted(paths, -1);
      assert {} + Selected(paths) == Selected(paths);
    }
  }

  /** Moving down only swaps rows: the result is a permutation of the rows. */
  lemma {:induction false} MovedDownPermutes(rows: seq<Row>, paths: seq<int>, count: nat)
    requires IsSelection(paths, |rows|) && count <= |paths|
    ensures multiset(MovedDown(rows, paths, count)) == multiset(rows)
    decreases count
  {
    if count > 0 && paths[count - 1] + 1 < |rows| {
      var last := paths[count - 1];
      SwapPermutes(rows, last, last + 1);
      MovedDownPermutes(Swap(rows, last, last + 1), paths, count - 1);
    }
  }

  /** Moving down either moves nothing (the bottom row is selected) or moves
      every selected row exactly one place down. */
  lemma {:induction false} MovedDownAllOrNothing(rows: seq<Row>, paths: seq<int>, count: nat)
    requires IsSelection(paths, |rows|) && count <= |paths|
    ensures count > 0 && paths[count - 1] == |rows| - 1 ==> MovedDown(rows, paths, count) == rows
    ensures count == 0 || paths[count - 1] < |rows| - 1 ==>
              forall k :: 0 <= k < count ==> MovedDown(rows, paths, count)[paths[k] + 1] == rows[paths[k]]
    decreases count
  {
    if count > 0 && paths[count - 1] < |rows| - 1 {
      var last := paths[count - 1];
      var swapped := Swap(rows, last, last + 1);
      var moved := MovedDown(swapped, paths, count - 1);
      assert MovedDown(rows, paths, count) == moved;
      MovedDownAllOrNothing(swapped, paths, count - 1);
      MovedDownKeepsBelow(swapped, paths, count - 1, last + 1);
      forall k | 0 <= k < count
        ensures moved[paths[k] + 1] == rows[paths[k]]
      {
        if k < count - 1 {
          assert paths[k] < last;
          assert moved[paths[k] + 1] == swapped[paths[k]];
        }
      }
    }
  }

  /** Moving down never touches a row below the one below the last selected row. */
  lemma {:induction false} MovedDownKeepsBelow(rows: seq<Row>, paths: seq<int>, count: nat, j: nat)
    requires IsSelection(paths, |rows|) && count <= |paths|
    requires j < |rows|
    requires count == 0 || j > paths[count - 1] + 1
    ensures MovedDown(rows, paths, count)[j] == rows[j]
    decreases count
  {
    if count > 0 && paths[count - 1] + 1 < |rows| {
      var last := paths[count - 1];
      var swapped := Swap(rows, last, last + 1);
      assert count > 1 ==> paths[count - 2] < last;
      MovedDownKeepsBelow(swapped, paths, count - 1, j);
      assert MovedDown(rows, paths, count) == MovedDown(swapped, paths, count - 1);
    }
  }

  /** Moving down leaves in place every row that is neither selected nor just below a selected row. */
  lemma {:induction false} MovedDownOthersUnchanged(rows: seq<Row>, paths: seq<int>, count: nat, j: nat)
    requires IsSelection(paths, |rows|) && count <= |paths|
    requires j < |rows| && j !in paths[..count] && j - 1 !in paths[..count]
    ensures MovedDown(rows, paths, count)[j] == rows[j]
    decreases count
  {
    if count > 0 && paths[count - 1] + 1 < |rows| {
      var last := paths[count - 1];
      assert last == paths[..count][count - 1];
      assert paths[..count - 1] == paths[..count][..count - 1];
      MovedDownOthersUnchanged(Swap(rows, last, last + 1), paths, count - 1, j);
    }
  }

  /** The selection split at its first index. */
  lemma SelectedRestStep(paths: seq<int>, n: int)
    requires IsSelection(paths, n) && |paths| > 0
    ensures Selected(paths) == {paths[0]} + Selected(paths[1..])
    ensures Shifted(paths, -1) == {paths[0] - 1} + Shifted(paths[1..], -1)
    ensures paths[0] !in paths[1..] && paths[0] - 1 !in paths
  {
    var q := paths[0];
    assert paths == [q] + paths[1..];
    ShiftedAppend([q], paths[1..], -1);
    InShifted([q], -1);
    assert Shifted([q], -1) == {q - 1};
    assert forall j :: 0 <= j < |paths| - 1 ==> paths[1..][j] == paths[j + 1] > q;
  }

  /** The selection's first `count` indices, split at the last of them. */
  lemma SelectedPrefixStep(paths: seq<int>, n: int, count: nat)
    requires IsSelection(paths, n) && 0 < count <= |paths|
    ensures Selected(paths[..count]) == Selected(paths[..count - 1]) + {paths[count - 1]}
    ensures Shifted(paths[..count], 1) == Shifted(paths[..count - 1], 1) + {paths[count - 1] + 1}
    ensures paths[count - 1] !in paths[..count - 1] && paths[count - 1] + 1 !in paths[..count - 1]
  {
    var q := paths[count - 1];
    assert paths[..count] == paths[..count - 1] + [q];
    ShiftedAppend(paths[..count - 1], [q], 1);
    InShifted([q], 1);
    assert Shifted([q], 1) == {q + 1};
    assert forall j :: 0 <= j < count - 1 ==> paths[..count - 1][j] == paths[j] < q;
  }

  /** Moving the first `count` selected rows down with the rows in `done`
      already handled: the rows that are neither selected nor handled keep
      their relative order. */
  lemma {:induction false} MovedDownOrder(rows: seq<Row>, paths: seq<int>, count: nat, done: set<int>)
    requires IsSelection(paths, |rows|) && count <= |paths|
    requires count > 0 ==> paths[count - 1] + 1 < |rows| && forall d :: d in done ==> d > paths[count - 1] + 1
    ensures Unselected(MovedDown(rows, paths, count), done + Shifted(paths[..count], 1))
            == Unselected(rows, done + Selected(paths[..count]))
    decreases count
  {
    if count > 0 {
      var q := paths[count - 1];
      var init := paths[..count - 1];
      var swapped := Swap(rows, q, q + 1);
      var b := done + {q + 1} + Selected(init);
      assert Unselected(swapped, b) == Unselected(rows, done + Selected(paths[..count])) by {
        SelectedPrefixStep(paths, |rows|, count);
        UnselectedSwapAdjacent(rows, q, done + Selected(paths[..count]), b);
      }
      assert done + Shifted(paths[..count], 1) == done + {q + 1} + Shifted(init, 1) by {
        SelectedPrefixStep(paths, |rows|, count);
      }
      assert count > 1 ==> paths[count - 2] < q;
      assert MovedDown(rows, paths, count) == MovedDown(swapped, paths, count - 1);
      MovedDownOrder(swapped, paths, count - 1, done + {q + 1});
    } else {
      assert Shifted(paths[..0], 1) == {} && Selected(paths[..0]) == {};
    }
  }

  /** Unless the early return fires, moving down keeps the rows that are not
      selected in their relative order: read at the indices just below no
      selected row, the result lists the unselected rows as they were. */
  lemma {:induction false} MovedDownKeepsOrder(rows: seq<Row>, paths: seq<int>)
    requires IsSelection(paths, |rows|)
    ensures paths == [] || paths[|paths| - 1] < |rows| - 1 ==>
              Unselected(MovedDown(rows, paths, |paths|), Shifted(paths, 1)) == Unselected(rows, Selected(paths))
  {
    if paths == [] || paths[|paths| - 1] < |rows| - 1 {
      MovedDownOrder(rows, paths, |paths|, {});
      assert paths[..|paths|] == paths;
      assert {} + Shifted(paths, 1) == Shifted(paths, 1);
      assert {} + Selected(paths) == Selected(paths);
    }
  }

  /** `move_selected_items_up`: swap each selected row with the row above it,
      top-down, returning early when a selected row has no row above it. */
  method MoveSelectedItemsUp(model: array<Row>, selectedPaths: seq<int>)
    requires IsSelection(selectedPaths, model.Length)
    modifies model
    ensures model[..] == MovedUp(old(model[..]), selectedPaths)
    ensures multiset(model[..]) == multiset(old(model[..]))
  {
    for k := 0 to |selectedPaths|
      invariant IsSelection(selectedPaths[k..], model.Length)
      invariant MovedUp(model[..], selectedPaths[k..]) == MovedUp(old(model[..]), selectedPaths)
    {
      var path := selectedPaths[k];
      var indexAbove := path - 1;
      if indexAbove < 0 {
        MovedUpPermutes(old(model[..]), selectedPaths);
        return;
      }
      assert selectedPaths[k..][1..] == selectedPaths[k + 1..];
      ghost var before := model[..];
      model[indexAbove], model[path] := model[path], model[indexAbove];
      assert model[..] == Swap(before, indexAbove, path);
    }
    MovedUpPermutes(old(model[..]), selectedPaths);
  }

  /** `move_selected_items_down`: swap each selected row with the row below it,
      bottom-up, returning early when a selected row has no row below it. */
  method MoveSelectedItemsDown(model: array<Row>, selectedPaths: seq<int>)
    requires IsSelection(selectedPaths, model.Length)
    modifies model
    ensures model[..] == MovedDown(old(model[..]), selectedPaths, |selectedPaths|)
    ensures multiset(model[..]) == multiset(old(model[..]))
  {
    var k := |selectedPaths|;
    while k > 0
      invariant 0 <= k <= |selectedPaths|
      invariant MovedDown(model[..], selectedPaths, k) == MovedDown(old(model[..]), selectedPaths, |selectedPaths|)
    {
      var path := selectedPaths[k - 1];
      var indexBelow := path + 1;
      if indexBelow >= model.Length {
        MovedDownPermutes(old(model[..]), selectedPaths, |selectedPaths|);
        return;
      }
      ghost var before := model[..];
      model[path], model[indexBelow] := model[indexBelow], model[path];
      assert model[..] == Swap(before, path, indexBelow);
      assert MovedDown(before, selectedPaths, k) == MovedDown(model[..], selectedPaths, k - 1);
      k := k - 1;
    }
    MovedDownPermutes(old(model[..]), selectedPaths, |selectedPaths|);
  }
}
