/** Directory listings as the server caches them, and the searches FIND_FIRST and FIND_NEXT do in them. */
module Directories {
  import opened ShortNames
  import opened NameAllocation
  import opened Bytes

  const FAT_HIDDEN: bv8 := 0x02
  const FAT_SYSTEM: bv8 := 0x04
  const FAT_VOLUME: bv8 := 0x08
  const FAT_DIRECTORY: bv8 := 0x10

  const MAX_ENTRIES := 0xFFFF

  datatype Info = Info(attrs: bv8, size: uint32, timeDate: uint32)

  /** The shared tree; the children are in the order the system lists them. */
  datatype Node = File(info: Info) | Dir(info: Info, children: seq<Child>)
  datatype Child = Child(name: string, node: Node)

  datatype Props = Props(fcb: Fcb, info: Info, serverName: string)

  // ---------- the specification of a listing ----------

  function Elements(names: seq<Fcb>): (r: set<Fcb>) {
    set f | f in names
  }

  /** The names of the children, each next to those before it. */
  function NamesOf(children: seq<Child>): (names: seq<Fcb>)
    ensures |names| == |children| && forall i | 0 <= i < |names| :: names[i].Valid()
  {
    if children == [] then []
    else
      var n := |children| - 1;
      var before := NamesOf(children[..n]);
      before + [NameFor(children[n].name, Elements(before))]
  }

  function EntryOf(fcb: Fcb, child: Child): (r: Props) {
    Props(fcb, child.node.info, child.name)
  }

  function EntriesOf(children: seq<Child>): (list: seq<Props>)
    ensures |list| == |children|
  {
    var names := NamesOf(children);
    seq(|children|, i requires 0 <= i < |children| => EntryOf(names[i], children[i]))
  }

  function LabelEntry(volume: Fcb): (r: Props) {
    Props(volume, Info(FAT_VOLUME, 0, 0), [])
  }

  /** What precedes the children: the volume label in the root, the two dot entries elsewhere. */
  function Header(isRoot: bool, volume: Option<Fcb>, self: Info, parent: Info): (h: seq<Props>)
    ensures |h| <= 2
  {
    if isRoot then
      if volume.Some? then [LabelEntry(volume.value)] else []
    else [Props(FcbOf("."), self, "."), Props(FcbOf(".."), parent, "..")]
  }

  /** An empty directory has no header either; 65535 entries are the most FIND can address. */
  function Listing(children: seq<Child>, header: seq<Props>): (list: seq<Props>)
    requires |header| <= 2
    ensures |list| <= MAX_ENTRIES
  {
    if children == [] then [] else header + EntriesOf(children[..Min(|children|, MAX_ENTRIES - |header|)])
  }

  // ---------- the code ----------

  method CreateDirectoryList(children: seq<Child>, isRoot: bool, volume: Option<Fcb>, self: Info, parent: Info)
    returns (list: seq<Props>, fcbNames: set<Fcb>)
    ensures list == Listing(children, Header(isRoot, volume, self, parent))
    ensures |list| == if children == [] then 0
                      else Min(65535, |children| + if !isRoot then 2 else if volume.Some? then 1 else 0)
  {
    hide NameFor; hide FcbOf; hide NamesOf; hide EntriesOf;
    list, fcbNames := [], {};
    assert Elements(NamesOf(children[..0])) == {};
    ghost var header := Header(isRoot, volume, self, parent);
    for i := 0 to |children|
      invariant list == (if i == 0 then [] else header + EntriesOf(children[..i]))
      invariant |list| <= MAX_ENTRIES && (i > 0 ==> |list| == |header| + i)
      invariant fcbNames == Elements(NamesOf(children[..i]))
    {
      if list == [] {
        if isRoot {
          if volume.Some? {
            list := list + [LabelEntry(volume.value)];
          }
        } else {
          list := list + [Props(FcbOf("."), self, ".")];
          list := list + [Props(FcbOf(".."), parent, "..")];
        }
        assert list == header;
      } else if |list| == MAX_ENTRIES {
        return;
      }
      var ok, fcb;
      ok, fcb, fcbNames := FileNameTo83(children[i].name, fcbNames);
      OneMore(children, i);
      list := list + [EntryOf(fcb, children[i])];
    }
    assert children[..|children|] == children;
  }

  lemma OneMore(children: seq<Child>, i: nat)
    requires i < |children|
    ensures var before := NamesOf(children[..i]); var f := NameFor(children[i].name, Elements(before));
      && NamesOf(children[..i + 1]) == before + [f] && Elements(before + [f]) == Elements(before) + {f}
      && EntriesOf(children[..i + 1]) == EntriesOf(children[..i]) + [EntryOf(f, children[i])]
  {
    hide NameFor;
    assert children[..i + 1][..i] == children[..i];
  }

  // ---------- names in a listing are distinct ----------

  ghost predicate DistinctNames(names: seq<Fcb>) {
    forall i, j | 0 <= i < j < |names| :: names[i] != names[j]
  }

  lemma ElementsCount(names: seq<Fcb>)
    ensures |Elements(names)| <= |names|
  {
    if names != [] {
      var n := |names| - 1;
      assert Elements(names) == Elements(names[..n]) + {names[n]};
      ElementsCount(names[..n]);
    }
  }

  lemma {:induction false} NamesDistinct(children: seq<Child>)
    requires |children| <= MAX_COUNTER
    ensures DistinctNames(NamesOf(children))
  {
    hide NameFor;
    if children != [] {
      var n := |children| - 1;
      var before := NamesOf(children[..n]);
      NamesDistinct(children[..n]);
      ElementsCount(before);
      NameIsFresh(children[n].name, Elements(before));
    }
  }

  lemma {:induction false} NamesMadeUp(children: seq<Child>, i: nat)
    requires i < |children|
    ensures var f := NamesOf(children)[i];
      && Ordinary(f) && (forall k | 0 <= k < 11 :: MadeUp(f.At(k)))
      && (IsBlank(f.name) ==> IsBlank(BaseOf(children[i].name)))
  {
    hide NameFor; hide Ordinary; hide BaseOf;
    var n := |children| - 1;
    if i < n {
      NamesMadeUp(children[..n], i);
    } else {
      NameIsMadeUp(children[n].name, Elements(NamesOf(children[..n])));
    }
  }

  lemma DotNames()
    ensures FcbOf(".").name[0] == '.' == FcbOf("..").name[0] && FcbOf(".") != FcbOf("..")
  {
    assert LeadingDots(".", 0, 2) == 1;
    assert LeadingDots("..", 0, 2) == LeadingDots("..", 1, 2) == 2;
    assert FcbOf(".").name[1] == ' ' && FcbOf("..").name[1] == '.';
  }

  /** The entries of a listing of at most 9998 files have different names, which are made of DOS's characters, and
      none of which is that of a dot entry. */
  lemma ListedNamesDistinct(children: seq<Child>, header: seq<Props>)
    requires |children| <= MAX_COUNTER && |header| <= 2
    ensures var list, h := Listing(children, header), |header|;
      children != [] ==>
        && |list| == h + |children|
        && (forall i | 0 <= i < |children| ::
              && list[h + i] == EntryOf(list[h + i].fcb, children[i]) && Ordinary(list[h + i].fcb)
              && list[h + i].fcb !in {FcbOf("."), FcbOf("..")})
        && (forall i, j | h <= i < j < |list| :: list[i].fcb != list[j].fcb)
  {
    hide Ordinary; hide FcbOf;
    if children != [] {
      assert children[..Min(|children|, MAX_ENTRIES - |header|)] == children;
      NamesDistinct(children);
      forall i | 0 <= i < |children|
        ensures Ordinary(NamesOf(children)[i]) && NamesOf(children)[i] !in {FcbOf("."), FcbOf("..")}
      {
        NamesMadeUp(children, i);
        NotADotName(NamesOf(children)[i]);
      }
    }
  }

  lemma NotADotName(f: Fcb)
    requires Ordinary(f)
    ensures f !in {FcbOf("."), FcbOf("..")}
  {
    hide FcbOf;
    DotNames();
  }

  // ---------- searching a listing ----------

  ghost predicate ValidList(list: seq<Props>) {
    forall i | 0 <= i < |list| :: list[i].fcb.Valid()
  }

  /** A name that matches, with at most the hidden, system, volume and directory attributes that were asked for. */
  ghost predicate Hit(p: Props, tmpl: Fcb, attr: bv8)
    requires p.fcb.Valid() && tmpl.Valid()
  {
    Matches(tmpl, p.fcb) && attr | (p.info.attrs & (FAT_HIDDEN | FAT_SYSTEM | FAT_VOLUME | FAT_DIRECTORY)) == attr
  }

  /** All hits from position n on, in the order of the listing. */
  ghost function Hits(list: seq<Props>, tmpl: Fcb, attr: bv8, n: nat): (r: seq<Props>)
    requires ValidList(list) && tmpl.Valid()
    decreases |list| - n
  {
    if n >= |list| then [] else (if Hit(list[n], tmpl, attr) then [list[n]] else []) + Hits(list, tmpl, attr, n + 1)
  }

  /** What FIND_FIRST and FIND_NEXT return: the next hit, and the position behind it. */
  datatype Found = Found(props: Props, next: uint16) | NoMore

  ghost predicate IsNext(list: seq<Props>, tmpl: Fcb, attr: bv8, nth: nat, r: Found)
    requires ValidList(list) && tmpl.Valid()
  {
    match r
    case NoMore => Hits(list, tmpl, attr, nth) == []
    case Found(props, next) =>
      && nth < next <= |list| && props == list[next - 1]
      && Hits(list, tmpl, attr, nth) == [props] + Hits(list, tmpl, attr, next)
  }

  /** The 16-bit position never wraps: a listing has at most 65535 entries. */
  method FindInList(list: seq<Props>, tmpl: Fcb, attr: bv8, nth: uint16) returns (r: Found)
    requires ValidList(list) && tmpl.Valid() && |list| <= MAX_ENTRIES
    ensures IsNext(list, tmpl, attr, nth, r)
  {
    var n := nth;
    while n < |list|
      invariant nth <= n && (n <= |list| || n == nth)
      invariant Hits(list, tmpl, attr, n) == Hits(list, tmpl, attr, nth)
    {
      var matches := MatchFcbNameToMask(tmpl, list[n].fcb);
      if matches {
        if attr | (list[n].info.attrs & (FAT_HIDDEN | FAT_SYSTEM | FAT_VOLUME | FAT_DIRECTORY)) == attr {
          return Found(list[n], n + 1);
        }
      }
      n := n + 1;
    }
    return NoMore;
  }

  /** An entry hits exactly if its name matches and each of the attributes hidden, system, volume and directory that it
      has was asked for. */
  lemma HitBits(p: Props, tmpl: Fcb, attr: bv8)
    requires p.fcb.Valid() && tmpl.Valid()
    ensures Hit(p, tmpl, attr) <==>
      && Matches(tmpl, p.fcb)
      && (p.info.attrs & 0x02 != 0 ==> attr & 0x02 != 0) && (p.info.attrs & 0x04 != 0 ==> attr & 0x04 != 0)
      && (p.info.attrs & 0x08 != 0 ==> attr & 0x08 != 0) && (p.info.attrs & 0x10 != 0 ==> attr & 0x10 != 0)
  {
    hide Matches;
    AskedBits(p.info.attrs, attr);
  }

  lemma AskedBits(attrs: bv8, attr: bv8)
    ensures attr | (attrs & (FAT_HIDDEN | FAT_SYSTEM | FAT_VOLUME | FAT_DIRECTORY)) == attr <==>
      && (attrs & 0x02 != 0 ==> attr & 0x02 != 0) && (attrs & 0x04 != 0 ==> attr & 0x04 != 0)
      && (attrs & 0x08 != 0 ==> attr & 0x08 != 0) && (attrs & 0x10 != 0 ==> attr & 0x10 != 0)
  {
    assert FAT_HIDDEN | FAT_SYSTEM | FAT_VOLUME | FAT_DIRECTORY == 0x1E;
  }

  /** There is no more exactly if no entry at or behind the position hits. */
  lemma {:induction false} NoMoreHits(list: seq<Props>, tmpl: Fcb, attr: bv8, nth: nat)
    requires ValidList(list) && tmpl.Valid()
    ensures IsNext(list, tmpl, attr, nth, NoMore) <==> forall k | nth <= k < |list| :: !Hit(list[k], tmpl, attr)
    decreases |list| - nth
  {
    hide Hit;
    if nth < |list| { NoMoreHits(list, tmpl, attr, nth + 1); }
  }

  /** The next hit is the first entry at or behind the position that hits; the position returned is that behind it. */
  lemma NextHit(list: seq<Props>, tmpl: Fcb, attr: bv8, nth: nat, props: Props, next: uint16)
    requires ValidList(list) && tmpl.Valid()
    ensures IsNext(list, tmpl, attr, nth, Found(props, next)) <==>
      && nth < next <= |list| && props == list[next - 1] && Hit(props, tmpl, attr)
      && forall k | nth <= k < next - 1 :: !Hit(list[k], tmpl, attr)
  {
    if nth < next <= |list| && props == list[next - 1] {
      FirstHit(list, tmpl, attr, nth, next);
    }
  }

  lemma {:induction false} FirstHit(list: seq<Props>, tmpl: Fcb, attr: bv8, nth: nat, next: nat)
    requires ValidList(list) && tmpl.Valid() && nth < next <= |list|
    ensures Hits(list, tmpl, attr, nth) == [list[next - 1]] + Hits(list, tmpl, attr, next) <==>
      Hit(list[next - 1], tmpl, attr) && forall k | nth <= k < next - 1 :: !Hit(list[k], tmpl, attr)
    decreases next - nth
  {
    hide Hit;
    if nth == next - 1 {
      OneHit(list, tmpl, attr, nth);
    } else if Hit(list[nth], tmpl, attr) {
      FewerHits(list, tmpl, attr, nth + 1, next);
      NotTheSame(list[nth], Hits(list, tmpl, attr, nth + 1), list[next - 1], Hits(list, tmpl, attr, next));
    } else {
      FirstHit(list, tmpl, attr, nth + 1, next);
    }
  }

  lemma OneHit(list: seq<Props>, tmpl: Fcb, attr: bv8, nth: nat)
    requires ValidList(list) && tmpl.Valid() && nth < |list|
    ensures Hits(list, tmpl, attr, nth) == [list[nth]] + Hits(list, tmpl, attr, nth + 1) <==> Hit(list[nth], tmpl, attr)
  {
    hide Hit;
  }

  lemma NotTheSame(x: Props, more: seq<Props>, y: Props, rest: seq<Props>)
    requires x == y ==> |more| > |rest|
    ensures [x] + more != [y] + rest
  {
    assert ([x] + more)[0] == x && ([y] + rest)[0] == y;
    assert |[x] + more| == 1 + |more| && |[y] + rest| == 1 + |rest|;
  }

  lemma {:induction false} FewerHits(list: seq<Props>, tmpl: Fcb, attr: bv8, m: nat, n: nat)
    requires ValidList(list) && tmpl.Valid() && m < n <= |list|
    ensures |Hits(list, tmpl, attr, m)| >= |Hits(list, tmpl, attr, n)| + if Hit(list[n - 1], tmpl, attr) then 1 else 0
    decreases n - m
  {
    hide Hit;
    if m < n - 1 { FewerHits(list, tmpl, attr, m + 1, n); }
  }

  lemma {:induction false} HitsHit(list: seq<Props>, tmpl: Fcb, attr: bv8, n: nat, p: Props)
    requires ValidList(list) && tmpl.Valid() && p.fcb.Valid() && n <= |list|
    ensures p in Hits(list, tmpl, attr, n) <==> p in list[n..] && Hit(p, tmpl, attr)
    decreases |list| - n
  {
    hide Hit;
    if n < |list| {
      HitsHit(list, tmpl, attr, n + 1, p);
      assert list[n..] == [list[n]] + list[n + 1..];
    }
  }

  /** The hits are the entries that match the mask and have no attribute of the four that was not asked for, and no
      others. */
  lemma HitsAreTheHits(list: seq<Props>, tmpl: Fcb, attr: bv8, n: nat, p: Props)
    requires ValidList(list) && tmpl.Valid() && p.fcb.Valid() && n <= |list|
    ensures p in Hits(list, tmpl, attr, n) <==>
      && p in list[n..] && Matches(tmpl, p.fcb)
      && (p.info.attrs & 0x02 != 0 ==> attr & 0x02 != 0) && (p.info.attrs & 0x04 != 0 ==> attr & 0x04 != 0)
      && (p.info.attrs & 0x08 != 0 ==> attr & 0x08 != 0) && (p.info.attrs & 0x10 != 0 ==> attr & 0x10 != 0)
  {
    hide Hit; hide Matches; hide Hits;
    HitsHit(list, tmpl, attr, n, p);
    HitBits(p, tmpl, attr);
  }

  /** Templates that match the same names find the same entries. */
  lemma {:induction false} SameHits(list: seq<Props>, tmpl: Fcb, tmpl': Fcb, attr: bv8, n: nat)
    requires ValidList(list) && tmpl.Valid() && tmpl'.Valid()
    requires forall f: Fcb | f.Valid() :: Matches(tmpl, f) <==> Matches(tmpl', f)
    ensures Hits(list, tmpl, attr, n) == Hits(list, tmpl', attr, n)
    decreases |list| - n
  {
    hide Matches;
    if n < |list| {
      SameHits(list, tmpl, tmpl', attr, n + 1);
    }
  }
}
