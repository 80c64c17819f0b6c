/** How long a handle stays what it was given for: the table of handles over whole runs. */
module HandleHistory {
  import opened DriveIndex
  import opened Bytes
  import opened Seqs

  /** The paths the slots are bound to. */
  type Bindings = seq<Option<Path>>

  function BindingsOf(items: seq<Item>): (b: Bindings)
    ensures |b| == |items|
  {
    seq(|items|, h requires 0 <= h < |items| => items[h].path)
  }

  /** Asking for a path's handle, and whatever else happens to listings and time stamps until the next time. */
  ghost predicate Asked(before: Bindings, path: Path, h: nat, after: Bindings) {
    exists items: seq<Item>, items': seq<Item>, now: int ::
      BindingsOf(items) == before && BindingsOf(items') == after && HandleGiven(items, path, now, h, items')
  }

  ghost predicate History(tables: seq<Bindings>, paths: seq<Path>, handles: seq<nat>) {
    && |tables| == |paths| + 1 && |handles| == |paths| && tables[0] == []
    && forall i | 0 <= i < |paths| :: Asked(tables[i], paths[i], handles[i], tables[i + 1])
  }

  function Requested(paths: seq<Path>): (r: set<Path>) {
    set p | p in paths
  }

  // ---------- one step ----------

  /** Every slot holds a path that was asked for, and no two hold the same. */
  ghost predicate BoundTo(b: Bindings, asked: set<Path>) {
    && |b| <= MAX_HANDLE_COUNT
    && (forall h | 0 <= h < |b| :: b[h].Some? && b[h].value in asked)
    && (forall h, k | 0 <= h < k < |b| :: b[h] != b[k])
  }

  lemma {:induction false} DistinctPaths(b: Bindings, asked: set<Path>)
    requires BoundTo(b, asked)
    ensures |b| <= |asked|
  {
    if b != [] {
      var n := |b| - 1;
      DistinctPaths(b[..n], asked - {b[n].value});
    }
  }

  lemma SlotsHold(items: seq<Item>, asked: set<Path>, path: Path)
    requires BoundTo(BindingsOf(items), asked)
    ensures forall h | 0 <= h < |items| :: items[h].path.Some? && items[h].path.value in asked
    ensures forall h, k | 0 <= h < k < |items| :: items[h].path != items[k].path
    ensures Bound(items, path) <==> Some(path) in BindingsOf(items)
  {
    var b := BindingsOf(items);
    assert forall h | 0 <= h < |items| :: b[h] == items[h].path;
  }

  /** With room for all paths asked for, a step binds the path and unbinds nothing. */
  lemma StepKeeps(before: Bindings, asked: set<Path>, path: Path, h: nat, after: Bindings)
    requires Asked(before, path, h, after) && BoundTo(before, asked) && |asked + {path}| <= MAX_HANDLE_COUNT
    ensures BoundTo(after, asked + {path}) && h < |after| && after[h] == Some(path)
    ensures |before| <= |after| && forall k | 0 <= k < |before| :: after[k] == before[k]
  {
    var items: seq<Item>, items': seq<Item>, now: int :|
      BindingsOf(items) == before && BindingsOf(items') == after && HandleGiven(items, path, now, h, items');
    SlotsHold(items, asked, path);
    if !Bound(items, path) && Full(items) {
      NoRoom(before, asked, path);
      assert false;
    }
    forall k | 0 <= k < |before| ensures after[k] == before[k] {
      assert before[k] == items[k].path && after[k] == items'[k].path;
    }
    assert after[h] == items'[h].path;
  }

  /** A full table holds 65535 different paths; another one is the 65536th. */
  lemma NoRoom(b: Bindings, asked: set<Path>, path: Path)
    requires BoundTo(b, asked) && |b| == MAX_HANDLE_COUNT && Some(path) !in b
    ensures |asked + {path}| > MAX_HANDLE_COUNT
  {
    if path in asked {
      DistinctPaths(b, asked - {path});
      assert |asked| == |asked - {path}| + 1 && asked + {path} == asked;
    } else {
      DistinctPaths(b, asked);
    }
  }

  // ---------- every run ----------

  lemma MorePaths(paths: seq<Path>, i: nat)
    requires i < |paths|
    ensures Requested(paths[..i + 1]) == Requested(paths[..i]) + {paths[i]}
    ensures Requested(paths[..i + 1]) <= Requested(paths)
  {
    assert paths[..i + 1] == paths[..i] + [paths[i]];
  }

  lemma {:induction false} TableHolds(tables: seq<Bindings>, paths: seq<Path>, handles: seq<nat>, i: nat)
    requires History(tables, paths, handles) && i <= |paths| && |Requested(paths)| <= MAX_HANDLE_COUNT
    ensures BoundTo(tables[i], Requested(paths[..i]))
  {
    hide Asked;
    if i > 0 {
      TableHolds(tables, paths, handles, i - 1);
      MorePaths(paths, i - 1);
      SubsetSize(Requested(paths[..i]), Requested(paths));
      StepKeeps(tables[i - 1], Requested(paths[..i - 1]), paths[i - 1], handles[i - 1], tables[i]);
    }
  }

  /** As long as no more than 65535 different paths are asked for, a handle stands for its path for ever, so the start
      clusters that clients keep in open files and searches stay good; and asking again gives the same handle. */
  lemma {:induction false} HandleKept(tables: seq<Bindings>, paths: seq<Path>, handles: seq<nat>, i: nat, j: nat)
    requires History(tables, paths, handles) && i < j <= |paths| && |Requested(paths)| <= 65535
    ensures handles[i] < |tables[j]| && tables[j][handles[i]] == Some(paths[i])
    ensures j < |paths| && paths[j] == paths[i] ==> handles[j] == handles[i]
    decreases j
  {
    hide Asked; hide BoundTo; hide Requested;
    TableHolds(tables, paths, handles, j - 1);
    MorePaths(paths, j - 1);
    SubsetSize(Requested(paths[..j]), Requested(paths));
    StepKeeps(tables[j - 1], Requested(paths[..j - 1]), paths[j - 1], handles[j - 1], tables[j]);
    if i < j - 1 {
      HandleKept(tables, paths, handles, i, j - 1);
    }
    if j < |paths| && paths[j] == paths[i] {
      TableHolds(tables, paths, handles, j);
      MorePaths(paths, j);
      SubsetSize(Requested(paths[..j + 1]), Requested(paths));
      StepKeeps(tables[j], Requested(paths[..j]), paths[j], handles[j], tables[j + 1]);
    }
  }
}
