/** A shared drive of the server: its table of handles with cached listings, and how client paths are resolved in it. */
module DriveIndex {
  import opened ShortNames
  import opened NameAllocation
  import opened Directories
  import opened Bytes

  const MAX_HANDLE_COUNT := 0xFFFF
  const MAX_LIST_AGE := 3600 // seconds

  /** A path below the root of the drive, in the server's own names. */
  type Path = seq<string>

  // ---------- the tree ----------

  /** Names as file systems have them; only the volume label has the bare volume attribute. */
  ghost predicate NamesGood(node: Node) {
    node.Dir? ==>
      && (forall i | 0 <= i < |node.children| ::
            && node.children[i].name !in {"", ".", "..", "/"} && node.children[i].node.info.attrs != FAT_VOLUME
            && NamesGood(node.children[i].node))
      && (forall i, j | 0 <= i < j < |node.children| :: node.children[i].name != node.children[j].name)
  }

  function ChildFrom(children: seq<Child>, name: string, i: nat): (k: nat)
    requires i <= |children|
    ensures i <= k <= |children| && (k < |children| ==> children[k].name == name)
    ensures forall j | i <= j < k :: children[j].name != name
    decreases |children| - i
  {
    if i < |children| && children[i].name != name then ChildFrom(children, name, i + 1) else i
  }

  function ChildNamed(children: seq<Child>, name: string): (r: Option<Node>) {
    var k := ChildFrom(children, name, 0);
    if k < |children| then Some(children[k].node) else None
  }

  /** The path without its dot entries. */
  function Plain(path: Path): (plain: Path)
    ensures |plain| <= |path|
  {
    if path == [] then []
    else
      var n := |path| - 1;
      var before := Plain(path[..n]);
      if path[n] == "." then before
      else if path[n] != ".." then before + [path[n]]
      else if before == [] then [] else before[..|before| - 1]
  }

  function NodeAt(tree: Node, plain: Path): (r: Option<Node>) {
    if plain == [] then Some(tree)
    else
      var n := |plain| - 1;
      match NodeAt(tree, plain[..n])
      case Some(Dir(_, children)) => ChildNamed(children, plain[n])
      case _ => None
  }

  predicate Exists(tree: Node, path: Path) {
    NodeAt(tree, Plain(path)).Some?
  }

  function InfoAt(tree: Node, path: Path): (r: Info) {
    match NodeAt(tree, Plain(path))
    case Some(node) => node.info
    case None => Info(0, 0, 0)
  }

  /** What listing a path gives; anything but a directory gives nothing. */
  function ListingAt(tree: Node, volume: Option<Fcb>, path: Path): (list: seq<Props>)
    ensures |list| <= MAX_ENTRIES
  {
    match NodeAt(tree, Plain(path))
    case Some(Dir(info, children)) =>
      Listing(children, Header(Plain(path) == [], volume, info, InfoAt(tree, path + [".."])))
    case _ => []
  }

  // ---------- resolving names ----------

  function EntryFrom(list: seq<Props>, fcb: Fcb, i: nat): (k: nat)
    requires i <= |list|
    ensures i <= k <= |list|
    decreases |list| - i
  {
    if i < |list| && !(list[i].info.attrs != FAT_VOLUME && list[i].fcb == fcb) then EntryFrom(list, fcb, i + 1) else i
  }

  /** The server's name behind a DOS name. */
  function Lookup(list: seq<Props>, fcb: Fcb): (r: Option<string>) {
    var k := EntryFrom(list, fcb, 0);
    if k < |list| then Some(list[k].serverName) else None
  }

  datatype Resolution = Resolved(path: Path, exist: bool) | PathNotFound

  /** Name by name, each in the listing of the directory found so far; only the last one may be missing. */
  function Resolve(tree: Node, volume: Option<Fcb>, at: Path, names: Path): (r: Resolution)
    requires names != []
    decreases |names|
  {
    match Lookup(ListingAt(tree, volume, at), FcbOf(names[0]))
    case Some(serverName) =>
      if |names| == 1 then Resolved(at + [serverName], true) else Resolve(tree, volume, at + [serverName], names[1..])
    case None =>
      if |names| == 1 then Resolved(at + [names[0]], false) else PathNotFound
  }

  // ---------- paths stay below the root ----------

  /** The levels a name goes down. */
  function Level(name: string): (r: int) {
    if name in {"", ".", "/"} then 0 else if name == ".." then -1 else 1
  }

  function Levels(names: Path): (r: int) {
    if names == [] then 0 else Level(names[0]) + Levels(names[1..])
  }

  /** On its way the path is above where it began. */
  ghost predicate Climbs(names: Path) {
    exists i :: 0 <= i <= |names| && Levels(names[..i]) < 0
  }

  /** How deep the path ends, or -1 if it climbs above the root. */
  ghost function Depth(names: Path): (r: int) {
    if Climbs(names) then -1 else Levels(names)
  }

  ghost function ResolveClientPath(tree: Node, volume: Option<Fcb>, client: Path): (r: Resolution) {
    if client == [] then Resolved([], true)
    else
      var depth := Depth(client);
      if depth < 0 then PathNotFound
      else if depth == 0 then Resolved([], true)
      else Resolve(tree, volume, [], client)
  }

  /** The levels a name goes down when it is looked up: what is read as ".." goes up, however it is spelled. */
  function DosLevel(fcb: Fcb): (r: int) {
    if fcb == FcbOf("..") then -1 else if fcb == FcbOf(".") then 0 else 1
  }

  function DosLevels(names: Path): (r: int) {
    if names == [] then 0 else DosLevels(names[..|names| - 1]) + DosLevel(FcbOf(names[|names| - 1]))
  }

  /** The names in front of the last one, as they are looked up, lead back to the root, and the last one leads up. */
  predicate LeavesRoot(client: Path) {
    client != [] && client[|client| - 1] == ".." && DosLevels(client[..|client| - 1]) == 0
  }

  /** What a path's levels are: its names, less those that stand for the directory itself, and less two for each ".." */
  lemma {:induction false} LevelsCount(names: Path)
    ensures var m := multiset(names); Levels(names) == |names| - m[""] - m["."] - m["/"] - 2 * m[".."]
  {
    if names != [] {
      hide Level;
      LevelsCount(names[1..]);
      assert names == [names[0]] + names[1..];
      LevelOfName(names[0]);
    }
  }

  lemma LevelOfName(name: string)
    ensures var m := multiset{name}; Level(name) + m[""] + m["."] + m["/"] + 2 * m[".."] == 1
  {
  }

  /** A request that has more steps up than down in front of some point is refused, and one with as many of both leads
      to the root. */
  lemma ClimbingRefused(tree: Node, volume: Option<Fcb>, client: Path)
    ensures (exists i :: 0 <= i <= |client| && Levels(client[..i]) < 0) ==>
      ResolveClientPath(tree, volume, client) == PathNotFound
    ensures !(exists i :: 0 <= i <= |client| && Levels(client[..i]) < 0) && Levels(client) == 0 ==>
      ResolveClientPath(tree, volume, client) == Resolved([], true)
  {
    hide Resolve; hide Levels;
    if client == [] {
      NoLevels();
      assert forall i | 0 <= i <= |client| :: client[..i] == [];
    }
  }

  lemma {:induction false} LevelsAppend(a: Path, b: Path)
    ensures Levels(a + b) == Levels(a) + Levels(b)
  {
    if a == [] {
      assert a + b == b;
    } else {
      LevelsAppend(a[1..], b);
      assert (a + b)[1..] == a[1..] + b;
    }
  }

  lemma OneLevel(path: Path, name: string)
    ensures Levels(path + [name]) == Levels(path) + Level(name)
    ensures Climbs(path + [name]) <==> Climbs(path) || Levels(path + [name]) < 0
  {
    var next := path + [name];
    LevelsAppend(path, [name]);
    assert [name][1..] == [];
    assert next[..|next|] == next;
    forall i | 0 <= i <= |path| ensures next[..i] == path[..i] {
    }
    if Climbs(path) {
      var i :| 0 <= i <= |path| && Levels(path[..i]) < 0;
      assert Levels(next[..i]) < 0;
    }
  }

  /** A path of the server: it has not climbed, and its levels are those of the path without dot entries. */
  ghost predicate Below(path: Path) {
    !Climbs(path) && Levels(path) == |Plain(path)|
  }

  /** A name that a listing of the path may contain. */
  predicate NameUnder(path: Path, name: string) {
    name !in {"", "/"} && (name == ".." ==> Plain(path) != [])
  }

  lemma StaysBelow(path: Path, name: string)
    requires Below(path) && NameUnder(path, name)
    ensures Below(path + [name])
  {
    hide Climbs; hide Levels; hide Plain;
    OneLevel(path, name);
    PlainStep(path, name);
  }

  /** Any last name but ".." stays below the root, and ".." does unless it follows the root. */
  lemma LastName(path: Path, name: string)
    requires Below(path)
    ensures Climbs(path + [name]) <==> name == ".." && Plain(path) == []
  {
    hide Climbs; hide Levels; hide Plain;
    OneLevel(path, name);
  }

  /** An entry may stand in a listing of the path, and its DOS name goes where its own name goes. */
  predicate EntryUnder(path: Path, p: Props) {
    NameUnder(path, p.serverName) && DosLevel(p.fcb) == Level(p.serverName)
  }

  ghost predicate ListedUnder(path: Path, list: seq<Props>) {
    forall k | 0 <= k < |list| && list[k].info.attrs != FAT_VOLUME :: EntryUnder(path, list[k])
  }

  lemma ListingUnder(tree: Node, volume: Option<Fcb>, path: Path)
    requires NamesGood(tree)
    ensures ListedUnder(path, ListingAt(tree, volume, path))
  {
    hide NamesGood; hide Plain; hide FcbOf; hide EntriesOf;
    var list, node := ListingAt(tree, volume, path), NodeAt(tree, Plain(path));
    if list != [] {
      var header := Header(Plain(path) == [], volume, node.value.info, InfoAt(tree, path + [".."]));
      GoodBelow(tree, Plain(path));
      DotNames();
      forall k | 0 <= k < |list| && list[k].info.attrs != FAT_VOLUME ensures EntryUnder(path, list[k]) {
        if k >= |header| {
          var children := node.value.children[..Min(|node.value.children|, MAX_ENTRIES - |header|)];
          EntryNamed(children, k - |header|);
          ChildIsNamed(node.value, k - |header|);
          ChildGoesDown(children, k - |header|);
        }
      }
    }
  }

  lemma ChildGoesDown(children: seq<Child>, i: nat)
    requires i < |children|
    ensures DosLevel(EntriesOf(children)[i].fcb) == 1
  {
    hide FcbOf; hide NamesOf; hide Ordinary;
    NamesMadeUp(children, i);
    NotADotName(NamesOf(children)[i]);
  }

  // ---------- the table of handles ----------

  /** A slot without a path is free. */
  datatype Item = Item(path: Option<Path>, lastUsed: int, list: seq<Props>, fcbNames: set<Fcb>)

  ghost predicate NoTwoHandles(items: seq<Item>) {
    forall h, k | 0 <= h < k < |items| && items[h].path.Some? :: items[h].path != items[k].path
  }

  /** Whatever tree the listing was made of, it is one that its path may have. */
  ghost predicate SlotValid(item: Item) {
    && ValidList(item.list) && |item.list| <= MAX_ENTRIES
    && (item.list != [] ==> item.path.Some? && ListedUnder(item.path.value, item.list))
  }

  ghost predicate TableValid(items: seq<Item>) {
    NoTwoHandles(items) && forall h | 0 <= h < |items| :: SlotValid(items[h])
  }

  /** A slot as the scan leaves it: a listing not used for an hour is dropped. */
  function Aged(item: Item, now: int): (r: Item) {
    if now - item.lastUsed > MAX_LIST_AGE then item.(list := []) else item
  }

  /** The same slots, some with their listing dropped. */
  ghost predicate OnlyListsDropped(before: seq<Item>, after: seq<Item>) {
    && |before| == |after|
    && forall h | 0 <= h < |before| :: after[h] == before[h] || after[h] == before[h].(list := [])
  }

  ghost predicate Oldest(items: seq<Item>, h: nat) {
    h < |items| && forall k | 0 <= k < |items| :: items[h].lastUsed <= items[k].lastUsed
  }

  ghost predicate Bound(items: seq<Item>, path: Path) {
    exists h :: 0 <= h < |items| && items[h].path == Some(path)
  }

  ghost predicate Full(items: seq<Item>) {
    |items| == MAX_HANDLE_COUNT && forall h | 0 <= h < |items| :: items[h].path.Some?
  }

  /** What asking for a path's handle does to the table: a bound path keeps its slot; otherwise a free or a new slot is
      bound, and only if there is none, a least recently used one. Of the other slots only old listings are dropped, as
      far as the scan came. */
  ghost predicate HandleGiven(before: seq<Item>, path: Path, now: int, handle: nat, after: seq<Item>) {
    && handle < |after| <= MAX_HANDLE_COUNT
    && after[handle].path == Some(path) && after[handle].lastUsed == now
    && |before| <= |after| <= |before| + 1
    && (forall h | 0 <= h < |before| && h != handle ::
          after[h] == if Bound(before, path) && handle < h then before[h] else Aged(before[h], now))
    && (if Bound(before, path) then
          && |after| == |before| && before[handle].path == Some(path) && after[handle].list == before[handle].list
        else if Full(before) then |after| == |before| && Oldest(before, handle) && after[handle].list == []
        else if handle < |before| then |after| == |before| && before[handle].path.None?
        else
          && handle == |before| == |after| - 1 && after[handle].list == []
          && forall h | 0 <= h < |before| :: before[h].path.Some?)
  }

  /** The slot that has the path; else one that is free; else a new one; and only in a table of 65535 slots that all
      have paths, one that was used least recently. */
  ghost predicate SlotChosen(before: seq<Item>, path: Path, handle: nat, after: seq<Item>) {
    && handle < |after|
    && if exists h :: 0 <= h < |before| && before[h].path == Some(path) then
         |after| == |before| && before[handle].path == Some(path)
       else if exists h :: 0 <= h < |before| && before[h].path.None? then
         |after| == |before| && before[handle].path.None?
       else if |before| < 65535 then handle == |before| == |after| - 1
       else |after| == |before| && forall k | 0 <= k < |before| :: before[handle].lastUsed <= before[k].lastUsed
  }

  /** Of the other slots nothing changes but that the lists of those not used for an hour are dropped, up to the slot
      that has the path. */
  ghost predicate OldListsDropped(before: seq<Item>, path: Path, handle: nat, after: seq<Item>, now: int) {
    && |before| <= |after|
    && var found := exists h :: 0 <= h < |before| && before[h].path == Some(path);
    forall k | 0 <= k < |before| && k != handle ::
      after[k] == if now - before[k].lastUsed <= 3600 || (found && handle < k) then before[k]
                  else before[k].(list := [])
  }

  lemma GivenMeans(before: seq<Item>, path: Path, now: int, handle: nat, after: seq<Item>)
    requires |before| <= 65535 && HandleGiven(before, path, now, handle, after)
    ensures |after| <= 65535 && after[handle].path == Some(path) && after[handle].lastUsed == now
    ensures SlotChosen(before, path, handle, after) && OldListsDropped(before, path, handle, after, now)
  {
  }

  class Drive {
    const volume: Option<Fcb>
    var tree: Node
    var items: seq<Item>

    constructor (volume: Option<Fcb>, tree: Node)
      requires volume.Some? ==> volume.value.Valid()
      ensures this.volume == volume && this.tree == tree && Valid() && Fresh()
    {
      this.volume, this.tree, items := volume, tree, [];
    }

    ghost predicate Valid()
      reads this
    {
      |items| <= MAX_HANDLE_COUNT && TableValid(items) && (volume.Some? ==> volume.value.Valid())
    }

    /** The cached listings are what the directories hold now. */
    ghost predicate Fresh()
      reads this
    {
      ListsFresh(tree, volume, items)
    }

    /** The scan of get_handle: drops old listings on its way, until it finds the path. */
    method ScanHandles(path: Path, now: int) returns (found: bool, handle: nat, firstFree: nat, oldest: nat)
      modifies this`items
      ensures |items| == |old(items)|
      ensures forall k | 0 <= k < |items| ::
        items[k] == if found && handle <= k then old(items[k]) else Aged(old(items[k]), now)
      ensures if found then handle < |items| && items[handle] == old(items[handle]) && items[handle].path == Some(path)
              else !Bound(items, path)
      ensures !found ==>
        if firstFree == |items| then
          (forall k | 0 <= k < |items| :: items[k].path.Some?) && (items != [] ==> Oldest(items, oldest))
        else firstFree < |items| && items[firstFree].path.None?
    {
      var count := |items|;
      firstFree, oldest, handle := count, 0, 0;
      for h := 0 to count
        invariant |items| == count
        invariant forall k | 0 <= k < count :: items[k] == if h <= k then old(items[k]) else Aged(old(items[k]), now)
        invariant forall k | 0 <= k < h :: items[k].path != Some(path)
        invariant if firstFree == count then
            (h > 0 ==> oldest < h) && (h == 0 ==> oldest == 0)
            && forall k | 0 <= k < h :: items[k].path.Some? && items[oldest].lastUsed <= items[k].lastUsed
          else firstFree < h && items[firstFree].path.None?
      {
        if items[h].path == Some(path) {
          return true, h, firstFree, oldest;
        }
        if now - items[h].lastUsed > MAX_LIST_AGE {
          if items[h].list != [] {
            items := items[h := items[h].(list := [])];
          }
        }
        if firstFree == count {
          if items[h].path.None? {
            firstFree := h;
          } else if items[oldest].lastUsed > items[h].lastUsed {
            oldest := h;
          }
        }
      }
      found := false;
    }

    method GetHandle(path: Path, now: int) returns (handle: uint16)
      requires Valid()
      modifies this`items
      ensures Valid() && (old(Fresh()) ==> Fresh())
      ensures HandleGiven(old(items), path, now, handle, items)
      ensures |items| <= 65535 && items[handle].path == Some(path) && items[handle].lastUsed == now
      ensures SlotChosen(old(items), path, handle, items) && OldListsDropped(old(items), path, handle, items, now)
    {
      hide TableValid; hide ListsFresh; hide Aged; hide HandleGiven; hide SlotChosen; hide OldListsDropped; hide Oldest;
      hide Bound; hide Full;
      ghost var before := items;
      var found, slot, firstFree, oldest := ScanHandles(path, now);
      ghost var scanned := items;
      if found {
        items := items[slot := items[slot].(lastUsed := now)];
        AgedKeeps(before, scanned, now, slot);
        SlotFound(tree, volume, before, scanned, path, now, slot);
        GivenMeans(before, path, now, slot, items);
        return slot;
      }
      AgedKeeps(before, scanned, now, |before|);
      if firstFree == |items| {
        if firstFree < MAX_HANDLE_COUNT {
          items := items + [Item(None, 0, [], {})];
        } else {
          items := items[oldest := items[oldest].(path := None, list := [])];
          firstFree := oldest;
        }
      }
      items := items[firstFree := items[firstFree].(path := Some(path), lastUsed := now)];
      SlotTaken(tree, volume, before, scanned, path, now, firstFree, items);
      handle := firstFree;
      GivenMeans(before, path, now, handle, items);
    }

    // ---------- names ----------

    /** create_directory_list on one slot. */
    method Relist(handle: nat, now: int)
      requires Valid() && NamesGood(tree) && handle < |items| && items[handle].path.Some?
      modifies this`items
      ensures Valid() && (old(Fresh()) ==> Fresh()) && SameBindings(old(items), items)
      ensures items[handle].list == ListingAt(tree, volume, items[handle].path.value)
    {
      hide ListingAt; hide Listing; hide Header; hide TableValid; hide ListsFresh; hide NamesGood; hide ListedUnder;
      var path := items[handle].path.value;
      var node := NodeAt(tree, Plain(path));
      if node.Some? && node.value.Dir? {
        var list, fcbNames := CreateDirectoryList(node.value.children, Plain(path) == [], volume,
                                                  node.value.info, InfoAt(tree, path + [".."]));
        assert list == ListingAt(tree, volume, path) by { ListingOfDir(tree, volume, path); }
        ListingValid(tree, volume, path);
        ListingUnder(tree, volume, path);
        ListReplaced(tree, volume, items, handle, items[handle].(list := list, fcbNames := fcbNames, lastUsed := now));
        items := items[handle := items[handle].(list := list, fcbNames := fcbNames, lastUsed := now)];
      } else {
        assert [] == ListingAt(tree, volume, path) by { ListingOfOther(tree, volume, path); }
        ListReplaced(tree, volume, items, handle, items[handle].(list := [], fcbNames := {}));
        items := items[handle := items[handle].(list := [], fcbNames := {})];
      }
    }

    /** A name found is always that of something there, however old the listing; with an up-to-date listing, found is
        what is there. */
    method GetServerName(handle: nat, fcb: Fcb, createList: bool, now: int) returns (name: Option<string>)
      requires Valid() && NamesGood(tree) && handle < |items| && items[handle].path.Some?
      modifies this`items
      ensures Valid() && (old(Fresh()) ==> Fresh()) && SameBindings(old(items), items)
      ensures name.Some? ==> Exists(tree, items[handle].path.value + [name.value])
      ensures name.Some? ==> NameUnder(items[handle].path.value, name.value) && Level(name.value) == DosLevel(fcb)
      ensures old(Fresh()) || createList ==> name == Lookup(ListingAt(tree, volume, items[handle].path.value), fcb)
    {
      hide ListingAt; hide Exists; hide NamesGood; hide TableValid; hide ListsFresh; hide NameUnder; hide Level;
      hide DosLevel;
      if createList || items[handle].list == [] {
        Relist(handle, now);
      }
      var path, list := items[handle].path.value, items[handle].list;
      assert old(Fresh()) || createList ==> list == ListingAt(tree, volume, path) by {
        if old(Fresh()) && list != [] { FreshSlot(tree, volume, items, handle); }
      }
      SlotIsValid(items, handle);
      var i := 0;
      while i < |list|
        invariant i <= |list| && EntryFrom(list, fcb, 0) == EntryFrom(list, fcb, i)
      {
        if list[i].info.attrs != FAT_VOLUME && list[i].fcb == fcb {
          if list == ListingAt(tree, volume, path) {
            ListedExists(tree, volume, path, i);
          }
          if !Exists(tree, path + [list[i].serverName]) {
            var rest := items[handle].(list := list[..i] + list[i + 1..], fcbNames := items[handle].fcbNames - {fcb});
            ListReplaced(tree, volume, items, handle, rest);
            items := items[handle := rest];
            return None;
          }
          return Some(list[i].serverName);
        }
        i := i + 1;
      }
      name := None;
    }

    /** What is resolved as existing exists, and the directory of the rest does, however old the listings; with listings
        up to date, or brought up to date on the way, the answer is that of the tree itself. */
    method CreateServerPath(client: Path, createList: bool, now: int) returns (r: Resolution)
      requires Valid() && NamesGood(tree)
      modifies this`items
      ensures Valid() && (old(Fresh()) ==> Fresh())
      ensures old(Fresh()) || createList ==> r == ResolveClientPath(tree, volume, client)
      ensures r.Resolved? ==>
        if r.exist then Exists(tree, r.path) else r.path != [] && Exists(tree, r.path[..|r.path| - 1])
      ensures r.Resolved? && r.exist ==> !Climbs(r.path)
      ensures r.Resolved? && !r.exist ==>
        !Climbs(r.path[..|r.path| - 1]) && (Climbs(r.path) <==> LeavesRoot(client))
    {
      hide Climbs; hide Levels; hide NameUnder; hide Level; hide DosLevel; hide DosLevels;
      hide ListingAt; hide Lookup; hide NamesGood; hide TableValid; hide ListsFresh; hide FcbOf; hide Plain;
      hide Exists;
      RootExists(tree);
      RootIsBelow();
      assert Levels([]) == DosLevels(client[..0]) by { NoLevels(); }
      if client == [] {
        return Resolved([], true);
      }
      var depth := CheckPathDepth(client);
      if depth < 0 {
        return PathNotFound;
      }
      if depth == 0 {
        return Resolved([], true);
      }
      var serverPath: Path, i := [], 0;
      while true
        invariant i < |client| && Valid() && (old(Fresh()) ==> Fresh())
        invariant Resolve(tree, volume, serverPath, client[i..]) == Resolve(tree, volume, [], client)
          || !(old(Fresh()) || createList)
        invariant Exists(tree, serverPath) && Below(serverPath) && Levels(serverPath) == DosLevels(client[..i])
        decreases |client| - i
      {
        var handle := GetHandle(serverPath, now);
        var found := GetServerName(handle, FcbOf(client[i]), createList, now);
        assert client[i..][1..] == client[i + 1..];
        if found.None? {
          if i + 1 == |client| {
            assert (serverPath + [client[i]])[..|serverPath|] == serverPath;
            LastName(serverPath, client[i]);
            return Resolved(serverPath + [client[i]], false);
          }
          return PathNotFound;
        }
        StaysBelow(serverPath, found.value);
        LevelsKept(serverPath, found.value, client, i);
        serverPath := serverPath + [found.value];
        i := i + 1;
        if i == |client| {
          return Resolved(serverPath, true);
        }
      }
    }

    // ---------- searches ----------

    /** One FIND request: with the volume attribute alone it asks for the label, else for the next entry of a listing.
        FIND_FIRST (position 0) lists anew, FIND_NEXT only if it has no listing. */
    method FindFile(handle: uint16, tmpl: Fcb, attr: bv8, nth: uint16, now: int) returns (invalid: bool, r: Found)
      requires Valid() && NamesGood(tree) && tmpl.Valid()
      modifies this`items
      ensures Valid() && (old(Fresh()) ==> Fresh()) && SameBindings(old(items), items)
      ensures attr == 0x08 ==>
        r == if nth == 0 && volume.Some? && Matches(tmpl, volume.value) then
               Found(Props(volume.value, Info(0x08, 0, 0), ""), 1)
             else NoMore
      ensures attr != 0x08 ==> (invalid <==> !(handle < |items| && items[handle].path.Some?))
      ensures attr != 0x08 && !invalid && (old(Fresh()) || nth == 0) ==>
        var list := ListingAt(tree, volume, items[handle].path.value);
        ValidList(list) && IsNext(list, tmpl, attr, nth, r)
    {
      hide ListingAt; hide NamesGood; hide TableValid; hide ListsFresh; hide Matches; hide Hits;
      if attr == FAT_VOLUME {
        if nth == 0 && volume.Some? {
          var matches := MatchFcbNameToMask(tmpl, volume.value);
          if matches {
            return false, Found(LabelEntry(volume.value), 1);
          }
        }
        return false, NoMore;
      }
      if handle >= |items| || items[handle].path.None? {
        return true, NoMore;
      }
      if nth == 0 || items[handle].list == [] {
        Relist(handle, now);
      }
      var list := items[handle].list;
      if old(Fresh()) && list != [] { FreshSlot(tree, volume, items, handle); }
      ListingValid(tree, volume, items[handle].path.value);
      SlotIsValid(items, handle);
      r := FindInList(list, tmpl, attr, nth);
      invalid := false;
    }
  }

  /** The code's test for paths that would leave the share. */
  method CheckPathDepth(names: Path) returns (depth: int)
    ensures depth == if Climbs(names) then -1 else Levels(names)
  {
    depth := 0;
    for i := 0 to |names|
      invariant depth == Levels(names[..i]) && depth >= 0 && forall j | 0 <= j <= i :: Levels(names[..j]) >= 0
    {
      assert names[..i + 1] == names[..i] + [names[i]];
      OneLevel(names[..i], names[i]);
      if names[i] == "" || names[i] == "." || names[i] == "/" {
      } else if names[i] == ".." {
        if depth == 0 {
          return -1;
        }
        depth := depth - 1;
      } else {
        depth := depth + 1;
      }
    }
    assert names[..|names|] == names;
  }

  lemma RootIsBelow()
    ensures Below([])
  {
  }

  lemma NoLevels()
    ensures Levels([]) == DosLevels([]) == 0
  {
  }

  lemma LevelsKept(path: Path, name: string, client: Path, i: nat)
    requires i < |client| && Levels(path) == DosLevels(client[..i]) && Level(name) == DosLevel(FcbOf(client[i]))
    ensures Levels(path + [name]) == DosLevels(client[..i + 1])
  {
    hide FcbOf; hide Level; hide DosLevel; hide Climbs; hide Levels;
    OneLevel(path, name);
    assert client[..i + 1][..i] == client[..i];
  }

  lemma ListingOfDir(tree: Node, volume: Option<Fcb>, path: Path)
    requires var node := NodeAt(tree, Plain(path)); node.Some? && node.value.Dir?
    ensures var node := NodeAt(tree, Plain(path)).value;
      ListingAt(tree, volume, path)
        == Listing(node.children, Header(Plain(path) == [], volume, node.info, InfoAt(tree, path + [".."])))
  {
  }

  lemma ListingOfOther(tree: Node, volume: Option<Fcb>, path: Path)
    requires var node := NodeAt(tree, Plain(path)); !(node.Some? && node.value.Dir?)
    ensures ListingAt(tree, volume, path) == []
  {
  }

  lemma ListingValid(tree: Node, volume: Option<Fcb>, path: Path)
    requires volume.Some? ==> volume.value.Valid()
    ensures ValidList(ListingAt(tree, volume, path))
  {
    hide FcbOf; hide Plain;
  }

  lemma SlotIsValid(items: seq<Item>, h: nat)
    requires TableValid(items) && h < |items|
    ensures SlotValid(items[h])
  {
  }

  /** A request that resolves to something missing leaves the root exactly if the names in front of the last one are
      looked up as a way back to it, and the last one is "..". */
  lemma RootLeft(tree: Node, volume: Option<Fcb>, client: Path)
    requires NamesGood(tree) && ResolveClientPath(tree, volume, client).Resolved?
    requires !ResolveClientPath(tree, volume, client).exist
    ensures var path := ResolveClientPath(tree, volume, client).path;
      path != [] && !Climbs(path[..|path| - 1]) && (Climbs(path) <==> LeavesRoot(client))
  {
    hide Resolve; hide Climbs; hide Depth; hide Levels; hide DosLevels; hide LeavesRoot; hide NamesGood;
    RootIsBelow();
    NoLevels();
    assert client[..0] == [] && client[0..] == client;
    LeftFrom(tree, volume, [], client, 0);
  }

  lemma {:induction false} LeftFrom(tree: Node, volume: Option<Fcb>, at: Path, client: Path, i: nat)
    requires NamesGood(tree) && i < |client| && Below(at) && Levels(at) == DosLevels(client[..i])
    ensures var r := Resolve(tree, volume, at, client[i..]);
      r.Resolved? && !r.exist ==>
        r.path != [] && !Climbs(r.path[..|r.path| - 1]) && (Climbs(r.path) <==> LeavesRoot(client))
    decreases |client| - i
  {
    hide Climbs; hide Levels; hide DosLevels; hide NamesGood; hide ListingAt; hide FcbOf; hide Plain; hide NameUnder;
    hide Level; hide DosLevel;
    var list := ListingAt(tree, volume, at);
    var k := EntryFrom(list, FcbOf(client[i]), 0);
    if k == |list| {
      if i + 1 == |client| {
        assert (at + [client[i]])[..|at|] == at;
        LastName(at, client[i]);
      }
    } else if i + 1 < |client| {
      ListingUnder(tree, volume, at);
      EntryFound(list, FcbOf(client[i]), 0);
      StaysBelow(at, list[k].serverName);
      LevelsKept(at, list[k].serverName, client, i);
      assert client[i..][1..] == client[i + 1..];
      LeftFrom(tree, volume, at + [list[k].serverName], client, i + 1);
    }
  }

  lemma {:induction false} EntryFound(list: seq<Props>, fcb: Fcb, i: nat)
    requires i <= |list| && EntryFrom(list, fcb, i) < |list|
    ensures var k := EntryFrom(list, fcb, i); list[k].info.attrs != FAT_VOLUME && list[k].fcb == fcb
    decreases |list| - i
  {
    if !(list[i].info.attrs != FAT_VOLUME && list[i].fcb == fcb) { EntryFound(list, fcb, i + 1); }
  }

  lemma RootExists(tree: Node)
    ensures Exists(tree, [])
  {
  }

  lemma ListReplaced(tree: Node, volume: Option<Fcb>, before: seq<Item>, h: nat, item: Item)
    requires h < |before| && item.path == before[h].path && SlotValid(item)
    requires ListsFresh(tree, volume, before) ==>
      item.list == [] || (item.path.Some? && item.list == ListingAt(tree, volume, item.path.value))
    ensures TableOk(tree, volume, before, before[h := item]) || |before| > MAX_HANDLE_COUNT
    ensures SameBindings(before, before[h := item])
  {
    hide ListingAt; hide SlotValid;
  }

  lemma FreshSlot(tree: Node, volume: Option<Fcb>, items: seq<Item>, h: nat)
    requires ListsFresh(tree, volume, items) && h < |items| && items[h].list != []
    ensures items[h].path.Some? && items[h].list == ListingAt(tree, volume, items[h].path.value)
  {
    hide ListingAt;
  }

  // ---------- what is listed is there ----------

  lemma {:induction false} GoodBelow(tree: Node, plain: Path)
    requires NamesGood(tree) && NodeAt(tree, plain).Some?
    ensures NamesGood(NodeAt(tree, plain).value)
    decreases |plain|
  {
    if plain != [] {
      GoodBelow(tree, plain[..|plain| - 1]);
    }
  }

  lemma PlainStep(path: Path, name: string)
    ensures Plain(path + [name]) ==
      if name == "." then Plain(path)
      else if name != ".." then Plain(path) + [name]
      else if Plain(path) == [] then [] else Plain(path)[..|Plain(path)| - 1]
  {
    assert (path + [name])[..|path|] == path;
  }

  lemma ListedExists(tree: Node, volume: Option<Fcb>, path: Path, k: nat)
    requires NamesGood(tree) && k < |ListingAt(tree, volume, path)|
    requires ListingAt(tree, volume, path)[k].info.attrs != FAT_VOLUME
    ensures Exists(tree, path + [ListingAt(tree, volume, path)[k].serverName])
  {
    hide NamesGood; hide Plain; hide FcbOf; hide EntriesOf;
    var plain := Plain(path);
    var node := NodeAt(tree, plain).value;
    var header := Header(plain == [], volume, node.info, InfoAt(tree, path + [".."]));
    if k < |header| {
      PlainStep(path, ".");
      PlainStep(path, "..");
    } else {
      ChildExists(tree, path, k - |header|);
      EntryNamed(node.children[..Min(|node.children|, MAX_ENTRIES - |header|)], k - |header|);
    }
  }

  /** Every entry but the label shows attributes, size and time of what it leads to, the dot entries too. */
  lemma ListedInfo(tree: Node, volume: Option<Fcb>, path: Path, k: nat)
    requires NamesGood(tree) && k < |ListingAt(tree, volume, path)|
    requires ListingAt(tree, volume, path)[k].info.attrs != 0x08
    ensures var p := ListingAt(tree, volume, path)[k]; p.info == InfoAt(tree, path + [p.serverName])
  {
    hide NamesGood; hide Plain; hide FcbOf; hide EntriesOf;
    var plain := Plain(path);
    var node := NodeAt(tree, plain).value;
    var header := Header(plain == [], volume, node.info, InfoAt(tree, path + [".."]));
    if k < |header| {
      PlainStep(path, ".");
    } else {
      ChildExists(tree, path, k - |header|);
      EntryNamed(node.children[..Min(|node.children|, MAX_ENTRIES - |header|)], k - |header|);
    }
  }

  /** The label stands in the root alone, and first. */
  lemma LabelListed(tree: Node, volume: Option<Fcb>, path: Path, k: nat)
    requires NamesGood(tree) && k < |ListingAt(tree, volume, path)|
    requires tree.info.attrs != 0x08 && ListingAt(tree, volume, path)[k].info.attrs == 0x08
    ensures Plain(path) == [] && k == 0 && volume == Some(ListingAt(tree, volume, path)[k].fcb)
  {
    hide NamesGood; hide Plain; hide FcbOf; hide EntriesOf; hide InfoAt;
    var node := NodeAt(tree, Plain(path)).value;
    var header := Header(Plain(path) == [], volume, node.info, InfoAt(tree, path + [".."]));
    if k >= |header| {
      GoodBelow(tree, Plain(path));
      EntryNamed(node.children[..Min(|node.children|, MAX_ENTRIES - |header|)], k - |header|);
      ChildInfoGood(node, k - |header|);
    } else if Plain(path) != [] {
      DirInfoGood(tree, Plain(path));
      DirInfoGood(tree, Plain(path + [".."]));
      InfoOf(tree, path + [".."]);
    }
  }

  lemma InfoOf(tree: Node, path: Path)
    requires var node := NodeAt(tree, Plain(path)); node.Some? ==> node.value.info.attrs != 0x08
    ensures InfoAt(tree, path).attrs != 0x08
  {
  }

  lemma ChildInfoGood(node: Node, i: nat)
    requires NamesGood(node) && node.Dir? && i < |node.children|
    ensures node.children[i].node.info.attrs != 0x08
  {
  }

  lemma {:induction false} DirInfoGood(tree: Node, plain: Path)
    requires NamesGood(tree) && tree.info.attrs != 0x08
    ensures var node := NodeAt(tree, plain); node.Some? ==> node.value.info.attrs != 0x08
    decreases |plain|
  {
    hide NamesGood;
    if plain != [] && NodeAt(tree, plain).Some? {
      var n := |plain| - 1;
      var parent := NodeAt(tree, plain[..n]).value;
      GoodBelow(tree, plain[..n]);
      ChildInfoGood(parent, ChildFrom(parent.children, plain[n], 0));
    }
  }

  lemma EntryNamed(children: seq<Child>, i: nat)
    requires i < |children|
    ensures EntriesOf(children)[i].serverName == children[i].name
    ensures EntriesOf(children)[i].info == children[i].node.info
  {
  }

  lemma NodeStep(tree: Node, plain: Path, name: string)
    requires var node := NodeAt(tree, plain); node.Some? && node.value.Dir?
    ensures NodeAt(tree, plain + [name]) == ChildNamed(NodeAt(tree, plain).value.children, name)
  {
    assert (plain + [name])[..|plain|] == plain;
  }

  lemma ChildIsNamed(node: Node, i: nat)
    requires NamesGood(node) && node.Dir? && i < |node.children|
    ensures node.children[i].name !in {"", ".", "..", "/"}
    ensures ChildNamed(node.children, node.children[i].name) == Some(node.children[i].node)
  {
  }

  lemma ChildExists(tree: Node, path: Path, i: nat)
    requires NamesGood(tree)
    requires var node := NodeAt(tree, Plain(path)); node.Some? && node.value.Dir? && i < |node.value.children|
    ensures var children := NodeAt(tree, Plain(path)).value.children;
      NodeAt(tree, Plain(path + [children[i].name])) == Some(children[i].node)
  {
    hide Plain; hide NamesGood; hide ChildNamed;
    var node := NodeAt(tree, Plain(path)).value;
    GoodBelow(tree, Plain(path));
    ChildIsNamed(node, i);
    PlainStep(path, node.children[i].name);
    NodeStep(tree, Plain(path), node.children[i].name);
  }

  ghost predicate SameBindings(before: seq<Item>, after: seq<Item>) {
    |after| == |before| && forall h | 0 <= h < |before| :: after[h].path == before[h].path
  }

  ghost predicate ListsFresh(tree: Node, volume: Option<Fcb>, items: seq<Item>) {
    forall h | 0 <= h < |items| && items[h].list != [] ::
      items[h].path.Some? && items[h].list == ListingAt(tree, volume, items[h].path.value)
  }

  ghost predicate TableOk(tree: Node, volume: Option<Fcb>, before: seq<Item>, after: seq<Item>) {
    && |after| <= MAX_HANDLE_COUNT
    && (TableValid(before) ==> TableValid(after))
    && (ListsFresh(tree, volume, before) ==> ListsFresh(tree, volume, after))
  }

  lemma AgedKeeps(before: seq<Item>, scanned: seq<Item>, now: int, end: nat)
    requires |scanned| == |before|
    requires forall k | 0 <= k < |before| :: scanned[k] == if end <= k then before[k] else Aged(before[k], now)
    ensures OnlyListsDropped(before, scanned)
  {
  }

  lemma SlotFound(tree: Node, volume: Option<Fcb>, before: seq<Item>, scanned: seq<Item>, path: Path, now: int, h: nat)
    requires |before| <= MAX_HANDLE_COUNT && OnlyListsDropped(before, scanned)
    requires h < |before| && before[h].path == Some(path)
    requires forall k | 0 <= k < |before| :: scanned[k] == if h <= k then before[k] else Aged(before[k], now)
    ensures var after := scanned[h := scanned[h].(lastUsed := now)];
      HandleGiven(before, path, now, h, after) && TableOk(tree, volume, before, after)
  {
    hide ListingAt;
  }

  /** A free slot, a new one or a least recently used one, bound to the path. */
  ghost predicate Taken(scanned: seq<Item>, path: Path, now: int, h: nat, after: seq<Item>) {
    || (h < |scanned| && scanned[h].path.None?
        && after == scanned[h := scanned[h].(path := Some(path), lastUsed := now)])
    || (|scanned| < MAX_HANDLE_COUNT && (forall k | 0 <= k < |scanned| :: scanned[k].path.Some?)
        && h == |scanned| && after == scanned + [Item(Some(path), now, [], {})])
    || (|scanned| == MAX_HANDLE_COUNT && (forall k | 0 <= k < |scanned| :: scanned[k].path.Some?)
        && Oldest(scanned, h) && after == scanned[h := scanned[h].(path := Some(path), lastUsed := now, list := [])])
  }

  lemma SlotTaken(tree: Node, volume: Option<Fcb>, before: seq<Item>, scanned: seq<Item>, path: Path, now: int, h: nat,
          after: seq<Item>)
    requires |before| <= MAX_HANDLE_COUNT && OnlyListsDropped(before, scanned) && !Bound(scanned, path)
    requires forall k | 0 <= k < |before| :: scanned[k] == Aged(before[k], now)
    requires Taken(scanned, path, now, h, after)
    ensures HandleGiven(before, path, now, h, after) && TableOk(tree, volume, before, after)
  {
    TableTaken(tree, volume, before, scanned, path, now, h, after);
    ScannedSame(before, scanned, path, h);
    hide TableOk; hide Aged; hide OnlyListsDropped; hide Bound; hide Oldest; hide Full;
    if h < |scanned| && scanned[h].path.None? {
      FreeGiven(before, scanned, path, now, h, after);
    } else if |scanned| < MAX_HANDLE_COUNT {
      NewGiven(before, scanned, path, now, h, after);
    } else {
      OldestGiven(before, scanned, path, now, h, after);
    }
  }

  /** The scan changes neither paths nor time stamps. */
  lemma ScannedSame(before: seq<Item>, scanned: seq<Item>, path: Path, h: nat)
    requires OnlyListsDropped(before, scanned)
    ensures Bound(scanned, path) <==> Bound(before, path)
    ensures Oldest(scanned, h) <==> Oldest(before, h)
    ensures Full(scanned) <==> Full(before)
    ensures |scanned| == |before| && forall k | 0 <= k < |before| :: scanned[k].path == before[k].path
  {
    assert forall k | 0 <= k < |before| ::
      scanned[k].path == before[k].path && scanned[k].lastUsed == before[k].lastUsed;
    if Bound(scanned, path) {
      var k :| 0 <= k < |scanned| && scanned[k].path == Some(path);
      assert before[k].path == Some(path);
    }
    if Bound(before, path) {
      var k :| 0 <= k < |before| && before[k].path == Some(path);
      assert scanned[k].path == Some(path);
    }
  }

  lemma FreeGiven(before: seq<Item>, scanned: seq<Item>, path: Path, now: int, h: nat, after: seq<Item>)
    requires h < |scanned| == |before| <= MAX_HANDLE_COUNT && !Bound(before, path) && before[h].path.None?
    requires forall k | 0 <= k < |before| :: scanned[k] == Aged(before[k], now)
    requires after == scanned[h := scanned[h].(path := Some(path), lastUsed := now)]
    ensures HandleGiven(before, path, now, h, after)
  {
    hide Aged; hide Bound; hide Oldest;
  }

  lemma NewGiven(before: seq<Item>, scanned: seq<Item>, path: Path, now: int, h: nat, after: seq<Item>)
    requires h == |scanned| == |before| < MAX_HANDLE_COUNT && !Bound(before, path)
    requires forall k | 0 <= k < |before| :: before[k].path.Some? && scanned[k] == Aged(before[k], now)
    requires after == scanned + [Item(Some(path), now, [], {})]
    ensures HandleGiven(before, path, now, h, after)
  {
    hide Aged; hide Bound; hide Oldest;
  }

  lemma OldestGiven(before: seq<Item>, scanned: seq<Item>, path: Path, now: int, h: nat, after: seq<Item>)
    requires h < |scanned| == |before| == MAX_HANDLE_COUNT && !Bound(before, path) && Oldest(before, h)
    requires forall k | 0 <= k < |before| :: before[k].path.Some? && scanned[k] == Aged(before[k], now)
    requires after == scanned[h := scanned[h].(path := Some(path), lastUsed := now, list := [])]
    ensures HandleGiven(before, path, now, h, after)
  {
    hide Aged; hide Bound; hide Oldest;
  }

  lemma TableTaken(tree: Node, volume: Option<Fcb>, before: seq<Item>, scanned: seq<Item>, path: Path, now: int, h: nat,
          after: seq<Item>)
    requires |before| <= MAX_HANDLE_COUNT && OnlyListsDropped(before, scanned) && !Bound(scanned, path)
    requires Taken(scanned, path, now, h, after)
    ensures TableOk(tree, volume, before, after)
  {
    hide ListingAt;
    assert forall k | 0 <= k < |before| :: scanned[k].path == before[k].path;
  }
}
