/** The client's view of a drive: the names it was listed lead back to the files they were listed for, and a search
    started with FIND_FIRST and continued with FIND_NEXT finds every match once. */
module ClientPaths {
  import opened ShortNames
  import opened NameAllocation
  import opened Directories
  import opened DriveIndex
  import opened Bytes
  import opened Seqs

  // ---------- the text of a path ----------

  function SkipSlashes(s: string): (t: string)
    ensures |t| <= |s| && (t != [] ==> t[0] != '/')
  {
    if s != [] && s[0] == '/' then SkipSlashes(s[1..]) else s
  }

  function NextSlash(s: string, i: nat): (k: nat)
    requires i <= |s|
    ensures i <= k <= |s|
    decreases |s| - i
  {
    if i < |s| && s[i] != '/' then NextSlash(s, i + 1) else i
  }

  /** The parts of a relative path; a slash at the end leaves an empty last one. */
  function Parts(s: string): (parts: Path)
    decreases |s|
  {
    var k := NextSlash(s, 0);
    if k == |s| then [s]
    else
      var rest := SkipSlashes(s[k + 1..]);
      [s[..k]] + if rest == [] then [""] else Parts(rest)
  }

  function ToSlash(c: char): (r: char) {
    if c == '\\' then '/' else c
  }

  function Translated(request: string): (s: string)
    ensures |s| == |request|
  {
    seq(|request|, i requires 0 <= i < |request| => ToSlash(Lower(request[i])))
  }

  /** create_relative_path: lower case, slashes for backslashes, and nothing in front of the first name. */
  function RelativePath(request: string): (r: Path) {
    var s := SkipSlashes(Translated(request));
    if s == [] then [] else Parts(s)
  }

  /** A path as DOS writes it, without the drive letter. */
  function DosPath(names: Path): (r: string) {
    if names == [] then "" else "\\" + names[0] + DosPath(names[1..])
  }

  predicate NameText(s: string) {
    s != [] && '/' !in s && '\\' !in s
  }

  function Lowered(names: Path): (l: Path)
    ensures |l| == |names|
  {
    seq(|names|, i requires 0 <= i < |names| => LowerAll(names[i]))
  }

  function SlashPath(names: Path): (r: string) {
    if names == [] then "" else "/" + names[0] + SlashPath(names[1..])
  }

  lemma TranslatedAppend(a: string, b: string)
    ensures Translated(a + b) == Translated(a) + Translated(b)
  {
  }

  lemma TranslatedName(name: string)
    requires NameText(name)
    ensures Translated(name) == LowerAll(name)
  {
    forall i | 0 <= i < |name| ensures ToSlash(Lower(name[i])) == Lower(name[i]) { assert name[i] in name; }
  }

  lemma {:induction false} TextOfPath(names: Path)
    requires forall i | 0 <= i < |names| :: NameText(names[i])
    ensures Translated(DosPath(names)) == SlashPath(Lowered(names))
  {
    if names != [] {
      TextOfPath(names[1..]);
      assert Lowered(names)[1..] == Lowered(names[1..]);
      TranslatedName(names[0]);
      hide Translated; hide NameText; hide Lowered; hide LowerAll;
      TranslatedAppend("\\" + names[0], DosPath(names[1..]));
      TranslatedAppend("\\", names[0]);
      BackslashTranslated();
    }
  }

  lemma BackslashTranslated()
    ensures Translated("\\") == "/"
  {
  }

  lemma {:induction false} NextSlashIs(s: string, i: nat, k: nat)
    requires i <= k <= |s| && (forall j | i <= j < k :: s[j] != '/') && (k < |s| ==> s[k] == '/')
    ensures NextSlash(s, i) == k
    decreases k - i
  {
    if i < k { NextSlashIs(s, i + 1, k); }
  }

  lemma FirstSlash(first: string, rest: string)
    requires '/' !in first && (rest != [] ==> rest[0] == '/' && SkipSlashes(rest) == rest[1..])
    ensures NextSlash(first + rest, 0) == |first| && (rest != [] ==> SkipSlashes(rest[1..]) == rest[1..])
    ensures rest == [] ==> first + rest == first
  {
    var t := first + rest;
    assert forall j | 0 <= j < |first| :: t[j] == first[j];
    NextSlashIs(t, 0, |first|);
  }

  /** The first name, and what a slash separates from it. */
  lemma FirstPart(first: string, rest: string)
    requires first != [] && '/' !in first
    requires rest != [] ==> rest[0] == '/' && SkipSlashes(rest) == rest[1..] && rest[1..] != []
    ensures Parts(first + rest) == [first] + if rest == [] then [] else Parts(rest[1..])
  {
    var t := first + rest;
    FirstSlash(first, rest);
    if rest != [] {
      DropPrefix(first, rest);
      assert t[|first| + 1..] == t[|first|..][1..];
    }
    PartsCut(t);
    hide NextSlash; hide SkipSlashes; hide Parts;
  }

  lemma PartsCut(t: string)
    ensures var k := NextSlash(t, 0);
      Parts(t) ==
      if k == |t| then [t]
      else [t[..k]] + if SkipSlashes(t[k + 1..]) == [] then [""] else Parts(SkipSlashes(t[k + 1..]))
  {
    hide NextSlash; hide SkipSlashes;
  }

  lemma {:induction false} PartsOfPath(names: Path)
    requires names != [] && forall i | 0 <= i < |names| :: names[i] != [] && '/' !in names[i]
    ensures var s := SlashPath(names); s != [] && s[0] == '/' && SkipSlashes(s) == s[1..] && Parts(s[1..]) == names
    ensures SlashPath(names)[1..] != []
  {
    hide Parts;
    var first, rest := names[0], SlashPath(names[1..]);
    HeadTail("/", first + rest);
    Associative("/", first, rest);
    assert (first + rest)[0] == first[0] && first[0] in first;
    assert SkipSlashes(first + rest) == first + rest;
    if |names| > 1 {
      PartsOfPath(names[1..]);
    }
    FirstPart(first, rest);
    assert names == [first] + names[1..];
  }

  lemma LoweredText(names: Path, i: nat)
    requires i < |names| && NameText(names[i])
    ensures Lowered(names)[i] != [] && '/' !in Lowered(names)[i]
  {
    var name := names[i];
    forall j | 0 <= j < |name| ensures Lower(name[j]) != '/' { assert name[j] in name; }
  }

  /** The names in a request come out as they were, in lower case. */
  lemma RequestNames(names: Path)
    requires forall i | 0 <= i < |names| :: NameText(names[i])
    ensures RelativePath(DosPath(names)) == Lowered(names)
  {
    hide NameText; hide Parts; hide DosPath;
    TextOfPath(names);
    var lowered := Lowered(names);
    if names != [] {
      forall i | 0 <= i < |lowered| ensures lowered[i] != [] && '/' !in lowered[i] { LoweredText(names, i); }
      hide Lowered;
      PartsOfPath(lowered);
    } else {
      assert lowered == [];
    }
  }

  /** Requests as programs may write them: slashes of either kind, several in a row, in front and at the end. */
  lemma OddRequests()
    ensures RelativePath("") == [] && RelativePath("\\") == []
    ensures RelativePath("\\A\\/b\\") == ["a", "b", ""]
  {
    assert Translated("") == "";
    BackslashTranslated();
    assert SkipSlashes("/") == SkipSlashes("/"[1..]) == "";
    OddSlashes();
  }

  lemma OddSlashes()
    ensures RelativePath("\\A\\/b\\") == ["a", "b", ""]
  {
    hide Parts; hide SkipSlashes; hide NextSlash;
    assert Translated("\\A\\/b\\") == "/a//b/";
    SlashesSkipped();
    SlashFound();
    PartsCut("a//b/");
    assert "a//b/"[..1] == "a" && "a//b/"[2..] == "/b/";
    PartsCut("b/");
    assert "b/"[..1] == "b" && "b/"[2..] == "";
  }

  lemma SlashesSkipped()
    ensures SkipSlashes("/a//b/") == "a//b/" && SkipSlashes("/b/") == "b/" && SkipSlashes("") == ""
  {
    assert "/a//b/"[1..] == "a//b/" && "/b/"[1..] == "b/";
    assert SkipSlashes("a//b/") == "a//b/" && SkipSlashes("b/") == "b/";
  }

  lemma SlashFound()
    ensures NextSlash("a//b/", 0) == 1 && NextSlash("b/", 0) == 1
  {
    NextSlashIs("a//b/", 0, 1);
    NextSlashIs("b/", 0, 1);
  }

  // ---------- listed names lead back ----------

  /** A file or directory, by its position in the listings on the way to it; every directory on the way is small enough
      for distinct names, and no name's base is blank. */
  ghost predicate Place(node: Node, at: seq<nat>)
    decreases |at|
  {
    at == [] ||
    (&& node.Dir? && at[0] < |node.children| <= MAX_COUNTER
     && !IsBlank(NamesOf(node.children)[at[0]].name)
     && Place(node.children[at[0]].node, at[1..]))
  }

  function ServerNames(node: Node, at: seq<nat>): (names: Path)
    requires Place(node, at)
    ensures |names| == |at|
    decreases |at|
  {
    if at == [] then [] else [node.children[at[0]].name] + ServerNames(node.children[at[0]].node, at[1..])
  }

  /** What a program types that was shown the listings. */
  function DosNames(node: Node, at: seq<nat>): (names: Path)
    requires Place(node, at)
    ensures |names| == |at|
    decreases |at|
  {
    if at == [] then [] else [Join(NamesOf(node.children)[at[0]])] + DosNames(node.children[at[0]].node, at[1..])
  }

  lemma JoinedText(f: Fcb)
    requires Ordinary(f) && (forall i | 0 <= i < 11 :: MadeUp(f.At(i))) && !IsBlank(f.name)
    ensures NameText(Join(f)) && Join(f)[0] != '.'
  {
    var base, ext := Trim(f.name), Trim(f.ext);
    forall i | 0 <= i < |base| ensures base[i] !in {'/', '\\', '.'} { assert MadeUp(f.At(i)); }
    forall i | 0 <= i < |ext| ensures ext[i] !in {'/', '\\', '.'} { assert MadeUp(f.At(8 + i)); }
    assert base != [];
  }

  lemma {:induction false} DosNamesAreText(node: Node, at: seq<nat>)
    requires Place(node, at)
    ensures forall i | 0 <= i < |at| :: NameText(DosNames(node, at)[i]) && DosNames(node, at)[i][0] != '.'
    decreases |at|
  {
    hide Join; hide NamesOf; hide Ordinary;
    if at != [] {
      NamesMadeUp(node.children, at[0]);
      JoinedText(NamesOf(node.children)[at[0]]);
      DosNamesAreText(node.children[at[0]].node, at[1..]);
    }
  }

  /** In one listing, a name finds its own entry. */
  lemma LookupListed(tree: Node, volume: Option<Fcb>, path: Path, i: nat)
    requires NamesGood(tree)
    requires var node := NodeAt(tree, Plain(path));
      node.Some? && node.value.Dir? && i < |node.value.children| <= MAX_COUNTER
    ensures var children := NodeAt(tree, Plain(path)).value.children;
      Lookup(ListingAt(tree, volume, path), NamesOf(children)[i]) == Some(children[i].name)
  {
    hide NamesGood; hide Plain; hide NodeAt; hide FcbOf; hide Ordinary; hide NamesOf; hide Lookup; hide Header;
    var node := NodeAt(tree, Plain(path)).value;
    var header := Header(Plain(path) == [], volume, node.info, InfoAt(tree, path + [".."]));
    var list, fcb := Listing(node.children, header), NamesOf(node.children)[i];
    ListingOfDir(tree, volume, path);
    GoodBelow(tree, Plain(path));
    HeaderNames(Plain(path) == [], volume, node.info, InfoAt(tree, path + [".."]));
    ListedNamesDistinct(node.children, header);
    WholeListing(node.children, header);
    AttrsGood(node, i);
    NotADotName(fcb);
    EntryFromIs(list, fcb, 0, |header| + i);
    assert Lookup(list, fcb) == Some(node.children[i].name) by { LookupIs(list, fcb, |header| + i); }
  }

  lemma WholeListing(children: seq<Child>, header: seq<Props>)
    requires 0 < |children| <= MAX_COUNTER && |header| <= 2
    ensures var list := Listing(children, header);
      && |list| == |header| + |children| && list[..|header|] == header
      && forall i | 0 <= i < |children| :: list[|header| + i] == EntryOf(NamesOf(children)[i], children[i])
  {
    hide NamesOf;
    assert children[..Min(|children|, MAX_ENTRIES - |header|)] == children;
  }

  lemma HeaderNames(isRoot: bool, volume: Option<Fcb>, self: Info, parent: Info)
    ensures forall p <- Header(isRoot, volume, self, parent) ::
      p.info.attrs == FAT_VOLUME || p.fcb in {FcbOf("."), FcbOf("..")}
  {
    hide FcbOf;
  }

  lemma AttrsGood(node: Node, i: nat)
    requires NamesGood(node) && node.Dir? && i < |node.children|
    ensures node.children[i].node.info.attrs != FAT_VOLUME
  {
  }

  lemma LookupIs(list: seq<Props>, fcb: Fcb, k: nat)
    requires k < |list| && EntryFrom(list, fcb, 0) == k
    ensures Lookup(list, fcb) == Some(list[k].serverName)
  {
  }

  lemma {:induction false} EntryFromIs(list: seq<Props>, fcb: Fcb, i: nat, k: nat)
    requires i <= k < |list| && list[k].info.attrs != FAT_VOLUME && list[k].fcb == fcb
    requires forall j | i <= j < k :: list[j].info.attrs == FAT_VOLUME || list[j].fcb != fcb
    ensures EntryFrom(list, fcb, i) == k
    decreases k - i
  {
    if i < k { EntryFromIs(list, fcb, i + 1, k); }
  }

  lemma TypedNameFound(tree: Node, volume: Option<Fcb>, path: Path, node: Node, at: seq<nat>)
    requires NamesGood(tree) && NodeAt(tree, Plain(path)) == Some(node) && Place(node, at) && at != []
    ensures var typed := LowerAll(Join(NamesOf(node.children)[at[0]]));
      Lookup(ListingAt(tree, volume, path), FcbOf(typed)) == Some(node.children[at[0]].name)
  {
    hide NamesGood; hide NodeAt; hide Plain; hide NamesOf; hide Join; hide FcbOf; hide Lookup; hide ListingAt;
    hide Ordinary;
    LookupListed(tree, volume, path, at[0]);
    NamesMadeUp(node.children, at[0]);
    JoinedNameIsFound(NamesOf(node.children)[at[0]]);
  }

  lemma LoweredHeadTail(name: string, rest: Path)
    ensures Lowered([name] + rest) == [LowerAll(name)] + Lowered(rest)
  {
  }

  /** A typed name leads into its directory. */
  lemma StepInto(tree: Node, volume: Option<Fcb>, path: Path, node: Node, at: seq<nat>, rest: Path)
    requires NamesGood(tree) && NodeAt(tree, Plain(path)) == Some(node) && Place(node, at) && at != [] && rest != []
    ensures var shown := Join(NamesOf(node.children)[at[0]]);
      Resolve(tree, volume, path, Lowered([shown] + rest))
        == Resolve(tree, volume, path + [node.children[at[0]].name], Lowered(rest))
  {
    hide NamesGood; hide NodeAt; hide Plain; hide NamesOf; hide Join; hide FcbOf; hide Lookup; hide ListingAt;
    hide Lowered; hide LowerAll; hide IsBlank;
    var shown := Join(NamesOf(node.children)[at[0]]);
    TypedNameFound(tree, volume, path, node, at);
    LoweredHeadTail(shown, rest);
    assert ([LowerAll(shown)] + Lowered(rest))[1..] == Lowered(rest);
  }

  lemma LastTyped(tree: Node, volume: Option<Fcb>, path: Path, node: Node, at: seq<nat>)
    requires NamesGood(tree) && NodeAt(tree, Plain(path)) == Some(node) && Place(node, at) && at != []
    ensures Resolve(tree, volume, path, Lowered([Join(NamesOf(node.children)[at[0]])]))
      == Resolved(path + [node.children[at[0]].name], true)
  {
    hide NamesGood; hide NodeAt; hide Plain; hide NamesOf; hide Join; hide FcbOf; hide Lookup; hide ListingAt;
    hide Place;
    TypedNameFound(tree, volume, path, node, at);
  }

  lemma {:induction false} ResolveListed(tree: Node, volume: Option<Fcb>, path: Path, node: Node, at: seq<nat>)
    requires NamesGood(tree) && NodeAt(tree, Plain(path)) == Some(node) && Place(node, at) && at != []
    ensures Resolve(tree, volume, path, Lowered(DosNames(node, at))) == Resolved(path + ServerNames(node, at), true)
    decreases |at|
  {
    hide NamesGood; hide NodeAt; hide Plain; hide NamesOf; hide Join; hide Lowered; hide IsBlank; hide Resolve;
    var child, shown := node.children[at[0]], Join(NamesOf(node.children)[at[0]]);
    if |at| > 1 {
      StepInto(tree, volume, path, node, at, DosNames(child.node, at[1..]));
      ChildExists(tree, path, at[0]);
      ResolveListed(tree, volume, path + [child.name], child.node, at[1..]);
      assert path + [child.name] + ServerNames(child.node, at[1..]) == path + ServerNames(node, at);
    } else {
      LastTyped(tree, volume, path, node, at);
      assert DosNames(node, at) == [shown] && ServerNames(node, at) == [child.name];
    }
  }

  /** Names of which each goes one level down. */
  predicate Descending(names: Path) {
    forall i | 0 <= i < |names| :: names[i] != [] && names[i][0] !in {'.', '/'}
  }

  lemma {:induction false} LevelsOfNames(names: Path)
    requires Descending(names)
    ensures Levels(names) == |names|
  {
    if names != [] { LevelsOfNames(names[1..]); }
  }

  lemma NamesDescend(names: Path)
    requires Descending(names)
    ensures Depth(names) == |names|
  {
    forall i | 0 <= i <= |names| ensures Levels(names[..i]) == i { LevelsOfNames(names[..i]); }
    assert names[..|names|] == names;
  }

  lemma TypedText(tree: Node, at: seq<nat>)
    requires Place(tree, at)
    ensures Descending(Lowered(DosNames(tree, at)))
  {
    hide NameText;
    var names := DosNames(tree, at);
    DosNamesAreText(tree, at);
    forall i | 0 <= i < |names| ensures LowerAll(names[i]) != [] && LowerAll(names[i])[0] !in {'.', '/'} {
      FirstChar(names[i]);
    }
  }

  lemma FirstChar(name: string)
    requires NameText(name) && name[0] != '.'
    ensures LowerAll(name) != [] && LowerAll(name)[0] !in {'.', '/'}
  {
    assert name[0] in name;
  }

  /** Listing and resolution are inverse: the path made of listed names, at any depth, leads to what was listed. */
  lemma ListedPathResolves(tree: Node, volume: Option<Fcb>, at: seq<nat>)
    requires NamesGood(tree) && Place(tree, at)
    ensures ResolveClientPath(tree, volume, RelativePath(DosPath(DosNames(tree, at))))
      == Resolved(ServerNames(tree, at), true)
  {
    hide NamesGood; hide Place; hide RelativePath; hide DosPath; hide Resolve; hide Depth; hide NameText; hide NodeAt;
    hide Plain; hide NamesOf; hide Join; hide Lowered;
    DosNamesAreText(tree, at);
    RequestNames(DosNames(tree, at));
    TypedText(tree, at);
    NamesDescend(Lowered(DosNames(tree, at)));
    if at == [] {
      assert ServerNames(tree, at) == [];
    } else {
      TreeAtRoot(tree);
      ResolveListed(tree, volume, [], tree, at);
      assert [] + ServerNames(tree, at) == ServerNames(tree, at);
    }
  }

  // ---------- the name above the root ----------

  predicate Blanks(s: string, from: nat, to: nat) {
    forall i | from <= i < to && i < |s| :: s[i] == ' '
  }

  /** Two dots and nothing but blanks in what is read of the rest: up to six characters in front of the next dot, and up
      to three behind it. */
  predicate TwoDotsAndBlanks(s: string) {
    && |s| >= 2 && s[0] == '.' && s[1] == '.'
    && Blanks(s, 2, Min(8, BaseEnd(s, 2)))
    && Blanks(s, ExtStart(s, 2), Min(ExtStart(s, 2) + 3, NextDot(s, ExtStart(s, 2))))
  }

  /** The names that are looked up as "..". */
  lemma ReadAsParent(s: string)
    ensures FcbOf(s) == FcbOf("..") <==> TwoDotsAndBlanks(s)
  {
    if TwoDotsAndBlanks(s) { BlanksRead(s); }
    hide NextDot;
    if FcbOf(s) == FcbOf("..") {
      TwoDotsRead();
      var end, e := BaseEnd(s, 2), ExtStart(s, 2);
      assert FcbOf(s).name[0] == '.' && FcbOf(s).name[1] == '.';
      forall i | 2 <= i < Min(8, end) ensures s[i] == ' ' { assert FcbOf(s).name[i] == Upper(s[i]); }
      forall i | e <= i < Min(e + 3, NextDot(s, e)) ensures s[i] == ' ' { assert FcbOf(s).ext[i - e] == Upper(s[i]); }
    }
  }

  lemma BlanksRead(s: string)
    requires TwoDotsAndBlanks(s)
    ensures FcbOf(s) == FcbOf("..")
  {
    TwoDotsRead();
    assert LeadingDots(s, 0, 2) == LeadingDots(s, 1, 2) == 2;
    hide NextDot; hide LeadingDots;
    assert FcbOf(s).name == "..      ";
    assert FcbOf(s).ext == "   ";
  }

  lemma TwoDotsRead()
    ensures FcbOf("..").name == "..      " && FcbOf("..").ext == "   "
  {
    assert LeadingDots("..", 0, 2) == LeadingDots("..", 1, 2) == 2;
  }

  lemma {:induction false} EntryFromNone(list: seq<Props>, fcb: Fcb, i: nat)
    requires i <= |list| && forall j | i <= j < |list| :: list[j].info.attrs == FAT_VOLUME || list[j].fcb != fcb
    ensures EntryFrom(list, fcb, i) == |list|
    decreases |list| - i
  {
    if i < |list| { EntryFromNone(list, fcb, i + 1); }
  }

  lemma NoParentInRoot(tree: Node, volume: Option<Fcb>, path: Path)
    requires tree.Dir? && 0 < |tree.children| <= MAX_COUNTER && Plain(path) == []
    ensures Lookup(ListingAt(tree, volume, path), FcbOf("..")) == None
  {
    hide FcbOf; hide Ordinary; hide NamesOf; hide Plain;
    var header := Header(true, volume, tree.info, InfoAt(tree, path + [".."]));
    ListingOfDir(tree, volume, path);
    WholeListing(tree.children, header);
    ListedNamesDistinct(tree.children, header);
    EntryFromNone(ListingAt(tree, volume, path), FcbOf(".."), 0);
  }

  lemma ParentInDirectory(tree: Node, volume: Option<Fcb>, path: Path)
    requires Plain(path) != [] && InfoAt(tree, path + [".."]).attrs != FAT_VOLUME
    requires var node := NodeAt(tree, Plain(path)); node.Some? && node.value.Dir? && node.value.children != []
    ensures Lookup(ListingAt(tree, volume, path), FcbOf("..")) == Some("..")
  {
    hide FcbOf; hide EntriesOf; hide Plain;
    DotNames();
    ListingOfDir(tree, volume, path);
    EntryFromIs(ListingAt(tree, volume, path), FcbOf(".."), 0, 1);
  }

  /** A finding: three dots are looked up as two, but do not count as a step up. So a request that passes the test for
      leaving the share ends with the parent of the root; nothing is said to exist there. */
  lemma ParentOfRootNamed(tree: Node, volume: Option<Fcb>, i: nat)
    requires NamesGood(tree) && Place(tree, [i]) && tree.info.attrs != FAT_VOLUME
    requires tree.children[i].node.Dir? && tree.children[i].node.children != []
    ensures var names := [LowerAll(Join(NamesOf(tree.children)[i])), "...", ".."];
      var path := [tree.children[i].name, "..", ".."];
      ResolveClientPath(tree, volume, names) == Resolved(path, false) && Depth(names) == 1 && Climbs(path)
  {
    hide NamesGood; hide FcbOf; hide NamesOf; hide Join; hide LowerAll; hide Lookup; hide ListingAt; hide Plain;
    hide NodeAt;
    hide Climbs; hide Depth;
    var typed, name := LowerAll(Join(NamesOf(tree.children)[i])), tree.children[i].name;
    assert NodeAt(tree, Plain([])) == Some(tree) by { TreeAtRoot(tree); }
    TypedNameFound(tree, volume, [], tree, [i]);
    ReadAsParent("...");
    assert BaseEnd("...", 2) == 2 && ExtStart("...", 2) == 3;
    InsideChild(tree, i);
    ParentInDirectory(tree, volume, [name]);
    NoParentInRoot(tree, volume, [name, ".."]);
    assert [] + [name] == [name] && [name] + [".."] == [name, ".."] && [name, ".."] + [".."] == [name, "..", ".."];
    assert [typed, "...", ".."][1..] == ["...", ".."] && ["...", ".."][1..] == [".."];
    assert Resolve(tree, volume, [name, ".."], [".."]) == Resolved([name, "..", ".."], false);
    assert Resolve(tree, volume, [name], ["...", ".."]) == Resolved([name, "..", ".."], false);
    TypedDepth(tree, i);
    ParentClimbs(name);
  }

  lemma TreeAtRoot(tree: Node)
    ensures NodeAt(tree, Plain([])) == Some(tree) && Plain([]) == []
  {
  }

  lemma InsideChild(tree: Node, i: nat)
    requires NamesGood(tree) && tree.Dir? && i < |tree.children|
    ensures var name := tree.children[i].name;
      && name !in {"", ".", "..", "/"} && Plain([name]) == [name] && Plain([name, ".."]) == []
      && NodeAt(tree, Plain([name])) == Some(tree.children[i].node) && InfoAt(tree, [name] + [".."]) == tree.info
  {
    hide NamesGood; hide NodeAt;
    var name := tree.children[i].name;
    TreeAtRoot(tree);
    ChildIsNamed(tree, i);
    ChildExists(tree, [], i);
    assert [] + [name] == [name] && [name] + [".."] == [name, ".."];
    PlainStep([], name);
    PlainStep([name], "..");
  }

  lemma TypedDepth(tree: Node, i: nat)
    requires Place(tree, [i])
    ensures Depth([LowerAll(Join(NamesOf(tree.children)[i])), "...", ".."]) == 1
  {
    hide NamesOf; hide Join; hide LowerAll;
    var typed := LowerAll(Join(NamesOf(tree.children)[i]));
    TypedText(tree, [i]);
    assert DosNames(tree, [i]) == [Join(NamesOf(tree.children)[i])] + DosNames(tree.children[i].node, [i][1..]);
    assert Lowered(DosNames(tree, [i]))[0] == typed;
    assert typed != [] && typed[0] !in {'.', '/'};
    RootIsBelow();
    OneLevel([], typed);
    OneLevel([typed], "...");
    OneLevel([typed, "..."], "..");
    assert [] + [typed] == [typed] && [typed] + ["..."] == [typed, "..."];
    assert [typed, "..."] + [".."] == [typed, "...", ".."];
  }

  lemma ParentClimbs(name: string)
    requires name !in {"", ".", "..", "/"}
    ensures Climbs([name, "..", ".."])
  {
    RootIsBelow();
    OneLevel([], name);
    OneLevel([name], "..");
    OneLevel([name, ".."], "..");
    assert [] + [name] == [name] && [name] + [".."] == [name, ".."] && [name, ".."] + [".."] == [name, "..", ".."];
  }

  // ---------- a search from its first to its last match ----------

  lemma {:induction false} ResolvedBehind(tree: Node, volume: Option<Fcb>, at: Path, names: Path)
    requires names != []
    ensures var r := Resolve(tree, volume, at, names); r.Resolved? ==> r.path != []
    decreases |names|
  {
    hide Lookup; hide ListingAt; hide FcbOf;
    var found := Lookup(ListingAt(tree, volume, at), FcbOf(names[0]));
    if found.Some? && |names| > 1 { ResolvedBehind(tree, volume, at + [found.value], names[1..]); }
  }

  /** A whole search for a name in a directory, by the path a program gives: FIND_FIRST resolves the path and lists the
      directory in front of the name; all hits come, each once and in order, and then no more. */
  method FindAll(drive: Drive, dirs: Path, name: string, attr: bv8, now: int) returns (all: seq<Props>)
    requires drive.Valid() && drive.Fresh() && NamesGood(drive.tree) && attr != FAT_VOLUME
    requires NameText(name) && (forall i | 0 <= i < |dirs| :: NameText(dirs[i]))
    requires LeadingDots(name, 0, |name|) <= 2 && Depth(Lowered(dirs + [name])) != 0
    modifies drive`items
    ensures drive.Valid() && drive.Fresh()
    ensures match ResolveClientPath(drive.tree, drive.volume, Lowered(dirs + [name]))
      case PathNotFound => all == []
      case Resolved(path, _) =>
        path != [] &&
        var list := ListingAt(drive.tree, drive.volume, path[..|path| - 1]);
        ValidList(list) && all == Hits(list, DosFn(name), attr, 0)
  {
    hide NamesGood; hide ListingAt; hide Hits; hide Matches; hide FcbOf; hide DosFn; hide LeadingDots; hide ValidList;
    hide Drive.Valid; hide Drive.Fresh; hide Resolve; hide Depth; hide Climbs; hide NameText; hide Plain; hide Exists;
    var request := DosPath(dirs + [name]);
    RequestNames(dirs + [name]);
    var template := RelativePath(request);
    ResolvedBehind(drive.tree, drive.volume, [], template);
    var r := drive.CreateServerPath(template, false, now);
    if r.PathNotFound? {
      return [];
    }
    all := FindIn(drive, r.path[..|r.path| - 1], name, attr, now);
  }

  lemma LastNameAppended(tree: Node, volume: Option<Fcb>, path: Path, name: string)
    ensures var r := Resolve(tree, volume, path, Lowered([name]));
      r.Resolved? && |r.path| == |path| + 1 && r.path[..|path|] == path
  {
    hide ListingAt; hide Lookup; hide FcbOf; hide LowerAll;
  }

  /** A search in a listed directory searches that directory. */
  lemma {:induction false} ListedDirectorySearched(tree: Node, volume: Option<Fcb>, path: Path, node: Node,
          at: seq<nat>, name: string)
    requires NamesGood(tree) && NodeAt(tree, Plain(path)) == Some(node) && Place(node, at)
    ensures var r := Resolve(tree, volume, path, Lowered(DosNames(node, at) + [name]));
      r.Resolved? && |r.path| == |path| + |at| + 1 && r.path[..|path| + |at|] == path + ServerNames(node, at)
    decreases |at|
  {
    hide NamesGood; hide NodeAt; hide Plain; hide NamesOf; hide Join; hide Lowered; hide Resolve; hide IsBlank;
    if at == [] {
      assert DosNames(node, at) + [name] == [name] && path + ServerNames(node, at) == path;
      LastNameAppended(tree, volume, path, name);
    } else {
      var child, shown := node.children[at[0]], Join(NamesOf(node.children)[at[0]]);
      var rest := DosNames(child.node, at[1..]) + [name];
      StepInto(tree, volume, path, node, at, rest);
      ChildExists(tree, path, at[0]);
      ListedDirectorySearched(tree, volume, path + [child.name], child.node, at[1..], name);
      NamesSplit(path, node, at, name);
    }
  }

  lemma NamesSplit(path: Path, node: Node, at: seq<nat>, name: string)
    requires Place(node, at) && at != []
    ensures var child := node.children[at[0]];
      && DosNames(node, at) + [name]
        == [Join(NamesOf(node.children)[at[0]])] + (DosNames(child.node, at[1..]) + [name])
      && path + ServerNames(node, at) == path + [child.name] + ServerNames(child.node, at[1..])
  {
    var child, rest := node.children[at[0]], DosNames(node.children[at[0]].node, at[1..]);
    Associative([Join(NamesOf(node.children)[at[0]])], rest, [name]);
    Associative(path, [child.name], ServerNames(child.node, at[1..]));
    assert DosNames(node, at) == [Join(NamesOf(node.children)[at[0]])] + rest by { hide Join; hide NamesOf; }
    assert ServerNames(node, at) == [child.name] + ServerNames(child.node, at[1..]);
    hide *;
  }

  /** FIND_FIRST with the server's reading of the name, then FIND_NEXT with the client's, until there is no more. */
  method FindIn(drive: Drive, path: Path, name: string, attr: bv8, now: int) returns (all: seq<Props>)
    requires drive.Valid() && drive.Fresh() && NamesGood(drive.tree) && attr != FAT_VOLUME
    requires LeadingDots(name, 0, |name|) <= 2
    modifies drive`items
    ensures drive.Valid() && drive.Fresh()
    ensures var list := ListingAt(drive.tree, drive.volume, path);
      ValidList(list) && all == Hits(list, DosFn(name), attr, 0)
  {
    hide NamesGood; hide ListingAt; hide Hits; hide Matches; hide FcbOf; hide DosFn; hide LeadingDots; hide ValidList;
    hide Drive.Valid; hide Drive.Fresh; hide LowerAll;
    ghost var list := ListingAt(drive.tree, drive.volume, path);
    TemplatesAgree(name);
    var template := ShortNameToFcb(LowerAll(name));
    var clientName, clientExt := new char[8], new char[3];
    ToDosFn(clientName, clientExt, name);
    var clientTemplate := Fcb(clientName[..], clientExt[..]);
    var handle := drive.GetHandle(path, now);
    var invalid, r := drive.FindFile(handle, template, attr, 0, now);
    SameHits(list, template, clientTemplate, attr, 0);
    all := [];
    ghost var pos := 0;
    while r.Found?
      invariant drive.Valid() && drive.Fresh() && handle < |drive.items| && drive.items[handle].path == Some(path)
      invariant ValidList(list) && all + Hits(list, clientTemplate, attr, pos) == Hits(list, clientTemplate, attr, 0)
      invariant IsNext(list, if pos == 0 then template else clientTemplate, attr, pos, r)
      decreases if r.Found? then |list| - pos else -1
    {
      ghost var tmpl := if pos == 0 then template else clientTemplate;
      assert Hits(list, tmpl, attr, pos) == [r.props] + Hits(list, tmpl, attr, r.next);
      SameHits(list, template, clientTemplate, attr, r.next);
      Associative(all, [r.props], Hits(list, clientTemplate, attr, r.next));
      all := all + [r.props];
      pos := r.next;
      invalid, r := drive.FindFile(handle, clientTemplate, attr, r.next, now);
    }
    assert all + [] == all;
  }
}
