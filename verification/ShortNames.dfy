/** DOS names of eight and three characters: how the server and the client each turn a file name into one, how such
    names match a search template, and how the client's names find their way back. A character is one octet. */
module ShortNames {
  /** The two blank-padded fields of a file control block. */
  datatype Fcb = Fcb(name: string, ext: string) {
    predicate Valid() {
      |name| == 8 && |ext| == 3
    }

    function At(i: nat): (r: char)
      requires Valid() && i < 11
    {
      if i < 8 then name[i] else ext[i - 8]
    }
  }

  function Upper(c: char): (r: char) {
    if 'a' <= c <= 'z' then c - 'a' + 'A' else c
  }

  function Lower(c: char): (r: char) {
    if 'A' <= c <= 'Z' then c - 'A' + 'a' else c
  }

  function LowerAll(s: string): (t: string)
    ensures |t| == |s|
  {
    seq(|s|, i requires 0 <= i < |s| => Lower(s[i]))
  }

  // ---------- the specification ----------

  /** The number of leading dots, counted from i and up to `most`. */
  function LeadingDots(s: string, i: nat, most: nat): (d: nat)
    requires i <= |s| && i <= most
    ensures i <= d <= |s| && d <= most
    decreases |s| - i
  {
    if i < |s| && i < most && s[i] == '.' then LeadingDots(s, i + 1, most) else i
  }

  /** Where the next dot is, or the end. */
  function NextDot(s: string, i: nat): (d: nat)
    requires i <= |s|
    ensures i <= d <= |s|
    decreases |s| - i
  {
    if i < |s| && s[i] != '.' then NextDot(s, i + 1) else i
  }

  /** n characters of s from `from` on, with blanks in place of those at `to` and behind. */
  function Field(s: string, from: nat, to: nat, n: nat): (f: string)
    requires from <= to <= |s|
    ensures |f| == n && forall i | 0 <= i < n :: f[i] == if from + i < to then s[from + i] else ' '
  {
    seq(n, i requires 0 <= i => if from + i < to then s[from + i] else ' ')
  }

  /** The dot that ends the base name: the first one behind at most `most` leading dots. */
  function BaseEnd(s: string, most: nat): (d: nat)
    ensures d <= |s|
  {
    NextDot(s, LeadingDots(s, 0, most))
  }

  function ExtStart(s: string, most: nat): (e: nat)
    ensures e <= |s|
  {
    var d := BaseEnd(s, most);
    if d < |s| then d + 1 else d
  }

  /** Base name up to its dot, extension up to the next one. */
  function Template(s: string, most: nat): (f: Fcb)
    ensures f.Valid()
  {
    var e := ExtStart(s, most);
    Fcb(Field(s, 0, BaseEnd(s, most), 8), Field(s, e, NextDot(s, e), 3))
  }

  function UpperField(f: string): (u: string)
    ensures |u| == |f|
  {
    seq(|f|, i requires 0 <= i < |f| => Upper(f[i]))
  }

  /** short_name_to_fcb: at most two leading dots belong to the name. */
  function FcbOf(s: string): (f: Fcb)
    ensures f.Valid()
  {
    var t := Template(s, 2);
    Fcb(UpperField(t.name), UpperField(t.ext))
  }

  /** to_dos_fn: all leading dots belong to the name, as far as they fit. */
  function DosFn(s: string): (f: Fcb)
    ensures f.Valid()
  {
    Template(s, 8)
  }

  predicate CharMatches(mask: char, c: char) {
    Upper(c) == Upper(mask) || mask == '?'
  }

  ghost predicate Matches(mask: Fcb, f: Fcb)
    requires mask.Valid() && f.Valid()
  {
    forall i | 0 <= i < 11 :: CharMatches(mask.At(i), f.At(i))
  }

  // ---------- the server's and the client's code ----------

  method ShortNameToFcb(s: string) returns (f: Fcb)
    ensures f == FcbOf(s)
  {
    hide NextDot; hide LeadingDots;
    var name, it := ServerBase(s);
    it := SkipToDot(s, it);
    if it != |s| {
      it := it + 1;
    }
    assert it == ExtStart(s, 2);
    var ext := ServerExt(s, it);
    f := Fcb(name, ext);
  }

  method ServerBase(s: string) returns (name: string, it: nat)
    ensures name == UpperField(Field(s, 0, BaseEnd(s, 2), 8)) && it <= |s| && NextDot(s, it) == BaseEnd(s, 2)
  {
    var buf := new char[8];
    it := FillBase(buf, s);
    ghost var end := BaseEnd(s, 2);
    hide NextDot; hide LeadingDots; hide BaseEnd;
    for i := it to 8
      invariant forall k | 0 <= k < i :: buf[k] == if k < end then Upper(s[k]) else ' '
    {
      buf[i] := ' ';
    }
    name := buf[..];
  }

  method FillDots(buf: array<char>, s: string) returns (it: nat)
    requires buf.Length == 8
    modifies buf
    ensures it <= 2 && it <= |s| && NextDot(s, it) == BaseEnd(s, 2)
    ensures forall k | 0 <= k < it :: buf[k] == Upper(s[k])
  {
    it := 0;
    while it < |s| && s[it] == '.'
      invariant it < 2 && it <= |s| && NextDot(s, LeadingDots(s, it, 2)) == BaseEnd(s, 2)
      invariant forall k | 0 <= k < it :: buf[k] == Upper(s[k])
    {
      buf[it] := '.';
      it := it + 1;
      if it == 2 { break; }
    }
  }

  method FillBase(buf: array<char>, s: string) returns (it: nat)
    requires buf.Length == 8
    modifies buf
    ensures it <= 8 && it <= |s| && NextDot(s, it) == BaseEnd(s, 2)
    ensures it == BaseEnd(s, 2) || (it == 8 && 8 <= BaseEnd(s, 2))
    ensures forall k | 0 <= k < it :: buf[k] == Upper(s[k])
  {
    it := FillDots(buf, s);
    hide LeadingDots; hide BaseEnd; hide Upper;
    while it < |s| && s[it] != '.'
      invariant it < 8 && it <= |s| && NextDot(s, it) == BaseEnd(s, 2)
      invariant forall k | 0 <= k < it :: buf[k] == Upper(s[k])
    {
      buf[it] := Upper(s[it]);
      it := it + 1;
      if it == 8 { break; }
    }
  }

  method SkipToDot(s: string, start: nat) returns (it: nat)
    requires start <= |s|
    ensures it == NextDot(s, start)
  {
    it := start;
    while it < |s| && s[it] != '.'
      invariant it <= |s| && NextDot(s, it) == NextDot(s, start)
    {
      it := it + 1;
    }
  }

  method ServerExt(s: string, start: nat) returns (ext: string)
    requires start <= |s|
    ensures ext == UpperField(Field(s, start, NextDot(s, start), 3))
  {
    var buf := new char[3];
    ghost var end := NextDot(s, start);
    var it, i := start, 0;
    while it < |s| && s[it] != '.'
      invariant i < 3 && it == start + i <= |s| && NextDot(s, it) == end
      invariant forall k | 0 <= k < i :: buf[k] == Upper(s[start + k])
    {
      buf[i] := Upper(s[it]);
      i := i + 1;
      it := it + 1;
      if i == 3 { break; }
    }
    assert it == end || (i == 3 && it <= end);
    for j := i to 3
      invariant forall k | 0 <= k < j :: buf[k] == if start + k < end then Upper(s[start + k]) else ' '
    {
      buf[j] := ' ';
    }
    ext := buf[..];
  }

  method ToDosFn(name: array<char>, ext: array<char>, s: string)
    requires name.Length == 8 && ext.Length == 3 && name != ext
    modifies name, ext
    ensures Fcb(name[..], ext[..]) == DosFn(s)
  {
    hide NextDot; hide LeadingDots;
    FillBlank(name);
    FillBlank(ext);
    var i := ClientBase(name, s);
    i := SkipToDot(s, i);
    if i == |s| {
      assert ExtStart(s, 8) == |s|;
      assert ext[..] == Field(s, |s|, NextDot(s, |s|), 3);
      return;
    }
    assert i + 1 == ExtStart(s, 8);
    ClientExt(ext, s, i + 1);
  }

  method FillBlank(field: array<char>)
    modifies field
    ensures forall k | 0 <= k < field.Length :: field[k] == ' '
  {
    for i := 0 to field.Length
      invariant forall k | 0 <= k < i :: field[k] == ' '
    {
      field[i] := ' ';
    }
  }

  method ClientBase(name: array<char>, s: string) returns (i: nat)
    requires name.Length == 8 && forall k | 0 <= k < 8 :: name[k] == ' '
    modifies name
    ensures name[..] == Field(s, 0, BaseEnd(s, 8), 8) && i <= |s| && NextDot(s, i) == BaseEnd(s, 8)
  {
    ghost var end := BaseEnd(s, 8);
    i := 0;
    while i < 8 && i < |s| && s[i] == '.'
      invariant i <= 8 && i <= |s| && NextDot(s, LeadingDots(s, i, 8)) == end
      invariant forall k | 0 <= k < 8 :: name[k] == if k < i then s[k] else ' '
    {
      name[i] := '.';
      i := i + 1;
    }
    while i < 8 && i < |s| && s[i] != '.'
      invariant i <= 8 && i <= |s| && NextDot(s, i) == end
      invariant forall k | 0 <= k < 8 :: name[k] == if k < i then s[k] else ' '
    {
      name[i] := s[i];
      i := i + 1;
    }
    assert i == end || (i == 8 && 8 <= end);
  }

  method ClientExt(ext: array<char>, s: string, start: nat)
    requires ext.Length == 3 && start <= |s| && forall k | 0 <= k < 3 :: ext[k] == ' '
    modifies ext
    ensures ext[..] == Field(s, start, NextDot(s, start), 3)
  {
    ghost var end := NextDot(s, start);
    var i := 0;
    while i < 3 && start + i < |s| && s[start + i] != '.'
      invariant i <= 3 && start + i <= |s| && NextDot(s, start + i) == end
      invariant forall k | 0 <= k < 3 :: ext[k] == if k < i then s[start + k] else ' '
    {
      ext[i] := s[start + i];
      i := i + 1;
    }
    assert start + i == end || (i == 3 && start + 3 <= end);
  }

  method MatchFcbNameToMask(mask: Fcb, f: Fcb) returns (matches: bool)
    requires mask.Valid() && f.Valid()
    ensures matches <==> Matches(mask, f)
  {
    for i := 0 to 8
      invariant forall k | 0 <= k < i :: CharMatches(mask.At(k), f.At(k))
    {
      if Upper(f.name[i]) != Upper(mask.name[i]) && mask.name[i] != '?' {
        assert !CharMatches(mask.At(i), f.At(i));
        return false;
      }
    }
    for i := 0 to 3
      invariant forall k | 0 <= k < 8 + i :: CharMatches(mask.At(k), f.At(k))
    {
      if Upper(f.ext[i]) != Upper(mask.ext[i]) && mask.ext[i] != '?' {
        assert !CharMatches(mask.At(8 + i), f.At(8 + i));
        return false;
      }
    }
    return true;
  }

  // ---------- FIND FIRST and FIND NEXT search for the same names ----------

  lemma {:induction false} LowerKeepsDots(s: string, i: nat, most: nat)
    requires i <= |s|
    ensures NextDot(LowerAll(s), i) == NextDot(s, i)
    ensures i <= most ==> LeadingDots(LowerAll(s), i, most) == LeadingDots(s, i, most)
    decreases |s| - i
  {
    if i < |s| {
      LowerKeepsDots(s, i + 1, most);
    }
  }

  lemma LowerKeepsFields(s: string, most: nat)
    ensures BaseEnd(LowerAll(s), most) == BaseEnd(s, most) && ExtStart(LowerAll(s), most) == ExtStart(s, most)
    ensures NextDot(LowerAll(s), ExtStart(s, most)) == NextDot(s, ExtStart(s, most))
  {
    LowerKeepsDots(s, 0, most);
    LowerKeepsDots(s, LeadingDots(s, 0, most), most);
    LowerKeepsDots(s, ExtStart(s, most), most);
  }

  /** FIND_FIRST searches with the lower-cased name, FIND_NEXT with the client's own template. */
  lemma LoweredTemplate(s: string, most: nat, i: nat)
    requires i < 11
    ensures Template(LowerAll(s), most).At(i) == Lower(Template(s, most).At(i))
  {
    hide BaseEnd; hide ExtStart; hide NextDot;
    LowerKeepsFields(s, most);
  }

  lemma ServerTemplateChar(s: string, i: nat)
    requires i < 11
    ensures FcbOf(LowerAll(s)).At(i) == Upper(Template(s, 2).At(i))
  {
    LoweredTemplate(s, 2, i);
  }

  /** FIND_FIRST and FIND_NEXT match the same set of names exactly if the name has at most two leading dots. */
  lemma TemplatesAgree(s: string)
    ensures (forall f: Fcb | f.Valid() :: Matches(FcbOf(LowerAll(s)), f) <==> Matches(DosFn(s), f))
      <==> LeadingDots(s, 0, |s|) <= 2
  {
    hide FcbOf; hide DosFn; hide LeadingDots; hide Matches;
    if LeadingDots(s, 0, |s|) <= 2 {
      forall f: Fcb | f.Valid() ensures Matches(FcbOf(LowerAll(s)), f) <==> Matches(DosFn(s), f) {
        FewDots(s, f);
      }
    } else {
      ManyDots(s);
    }
  }

  lemma FewDots(s: string, f: Fcb)
    requires f.Valid() && LeadingDots(s, 0, |s|) <= 2
    ensures Matches(FcbOf(LowerAll(s)), f) <==> Matches(DosFn(s), f)
  {
    hide FcbOf; hide DosFn; hide Template; hide LeadingDots;
    assert Template(s, 2) == DosFn(s) by { FewDotsSameTemplate(s); }
    forall i | 0 <= i < 11 ensures FcbOf(LowerAll(s)).At(i) == Upper(DosFn(s).At(i)) {
      ServerTemplateChar(s, i);
    }
    UpperMaskMatches(FcbOf(LowerAll(s)), DosFn(s), f);
  }

  lemma UpperMaskMatches(upper: Fcb, mask: Fcb, f: Fcb)
    requires upper.Valid() && mask.Valid() && f.Valid()
    requires forall i | 0 <= i < 11 :: upper.At(i) == Upper(mask.At(i))
    ensures Matches(upper, f) <==> Matches(mask, f)
  {
    assert forall i | 0 <= i < 11 :: CharMatches(upper.At(i), f.At(i)) == CharMatches(mask.At(i), f.At(i));
  }

  lemma FewDotsSameTemplate(s: string)
    requires LeadingDots(s, 0, |s|) <= 2
    ensures Template(s, 2) == DosFn(s)
  {
    hide NextDot; hide LeadingDots; hide Field;
    DotsUpTo(s, 0, 2, 8);
    assert BaseEnd(s, 2) == BaseEnd(s, 8);
    assert ExtStart(s, 2) == ExtStart(s, 8);
  }

  /** The server's template as a name: it matches itself, and not the client's template, which has a third dot. */
  lemma ManyDots(s: string)
    requires LeadingDots(s, 0, |s|) > 2
    ensures var server := FcbOf(LowerAll(s)); Matches(server, server) && !Matches(DosFn(s), server)
  {
    hide FcbOf; hide DosFn; hide LeadingDots;
    ThreeDots(s);
    ServerTemplateChar(s, 2);
    var server := FcbOf(LowerAll(s));
    forall i | 0 <= i < 11 ensures CharMatches(server.At(i), server.At(i)) {
    }
    assert !CharMatches(DosFn(s).At(2), server.At(2));
  }

  lemma ThreeDots(s: string)
    requires LeadingDots(s, 0, |s|) > 2
    ensures DosFn(s).At(2) == '.' && Template(s, 2).At(2) == ' '
  {
    assert LeadingDots(s, 1, |s|) > 2 && LeadingDots(s, 2, |s|) > 2;
    assert LeadingDots(s, 0, 2) == LeadingDots(s, 1, 2) == 2;
    assert LeadingDots(s, 0, 8) == LeadingDots(s, 1, 8) == LeadingDots(s, 2, 8) == LeadingDots(s, 3, 8) > 2;
  }

  lemma {:induction false} DotsUpTo(s: string, i: nat, few: nat, many: nat)
    requires i <= |s| && i <= few <= many
    requires i <= |s| && LeadingDots(s, i, |s|) <= few
    ensures LeadingDots(s, i, few) == LeadingDots(s, i, many)
    decreases |s| - i
  {
    if i < |s| && s[i] == '.' && i < few {
      DotsUpTo(s, i + 1, few, many);
    }
  }

  // ---------- a listed name, typed again ----------

  predicate IsBlank(field: string) {
    forall i | 0 <= i < |field| :: field[i] == ' '
  }

  /** A field without its padding. */
  function Trim(field: string): (t: string)
    ensures |t| <= |field| && t == field[..|t|]
    ensures t != [] ==> t[|t| - 1] != ' '
    ensures forall i | |t| <= i < |field| :: field[i] == ' '
  {
    if field == [] || field[|field| - 1] != ' ' then field else Trim(field[..|field| - 1])
  }

  /** The name as DOS shows it and programs type it. */
  function Join(f: Fcb): (r: string) {
    if IsBlank(f.ext) then Trim(f.name) else Trim(f.name) + "." + Trim(f.ext)
  }

  /** Upper-case and without dots, as all names are that the server makes up. */
  predicate Ordinary(f: Fcb) {
    && f.Valid()
    && (forall i | 0 <= i < 8 :: f.name[i] != '.' && Upper(f.name[i]) == f.name[i])
    && (forall i | 0 <= i < 3 :: f.ext[i] != '.' && Upper(f.ext[i]) == f.ext[i])
  }

  lemma {:induction false} NextDotIs(s: string, i: nat, d: nat)
    requires i <= d <= |s| && (forall k | i <= k < d :: s[k] != '.') && (d < |s| ==> s[d] == '.')
    ensures NextDot(s, i) == d
    decreases d - i
  {
    if i < d {
      NextDotIs(s, i + 1, d);
    }
  }

  /** The server finds a name again under what the client makes of it exactly if its base is not blank. */
  lemma JoinedNameIsFound(f: Fcb)
    requires Ordinary(f)
    ensures FcbOf(LowerAll(Join(f))) == f <==> !IsBlank(f.name) || IsBlank(f.ext)
  {
    hide FcbOf; hide Join;
    var s := Join(f);
    forall i | 0 <= i < 11 ensures FcbOf(LowerAll(s)).At(i) == Upper(Template(s, 2).At(i)) {
      ServerTemplateChar(s, i);
    }
    if !IsBlank(f.name) || IsBlank(f.ext) {
      JoinedTemplate(f);
      SameChars(FcbOf(LowerAll(s)), f);
    } else {
      BlankBaseLost(f);
    }
  }

  lemma SameChars(f: Fcb, g: Fcb)
    requires f.Valid() && g.Valid() && forall i | 0 <= i < 11 :: f.At(i) == g.At(i)
    ensures f == g
  {
    forall i | 0 <= i < 8 ensures f.name[i] == g.name[i] { assert f.At(i) == g.At(i); }
    forall i | 0 <= i < 3 ensures f.ext[i] == g.ext[i] { assert f.At(8 + i) == g.At(8 + i); }
  }

  lemma JoinedTemplate(f: Fcb)
    requires Ordinary(f) && (!IsBlank(f.name) || IsBlank(f.ext))
    ensures Template(Join(f), 2) == f
  {
    var s, base, ext := Join(f), Trim(f.name), Trim(f.ext);
    assert LeadingDots(s, 0, 2) == 0;
    NextDotIs(s, 0, |base|);
    var e := ExtStart(s, 2);
    assert e == if IsBlank(f.ext) then |s| else |base| + 1;
    NextDotIs(s, e, |s|);
    assert Field(s, 0, |base|, 8) == f.name;
    assert Field(s, e, |s|, 3) == f.ext;
  }

  /** ".TXT": the dot would become part of the name. */
  lemma BlankBaseLost(f: Fcb)
    requires Ordinary(f) && IsBlank(f.name) && !IsBlank(f.ext)
    ensures Template(Join(f), 2).At(0) == '.'
  {
    var s := Join(f);
    assert s[0] == '.';
    assert LeadingDots(s, 0, 2) >= 1;
  }

  // ---------- the order of names ----------

  /** strncmp over whole fields: the first difference, unless a NUL comes before it. */
  function Strncmp(a: string, b: string, i: nat): (r: int)
    requires |a| == |b| && i <= |a|
    decreases |a| - i
  {
    if i == |a| then 0
    else if a[i] != b[i] then a[i] as int - b[i] as int
    else if a[i] == '\0' then 0
    else Strncmp(a, b, i + 1)
  }

  /** operator<=> */
  function Compare(f: Fcb, g: Fcb): (r: int)
    requires f.Valid() && g.Valid()
  {
    var c := Strncmp(f.name, g.name, 0);
    if c == 0 then Strncmp(f.ext, g.ext, 0) else c
  }

  predicate NoNul(f: Fcb) {
    '\0' !in f.name && '\0' !in f.ext
  }

  lemma {:induction false} StrncmpEqual(a: string, b: string, i: nat)
    requires |a| == |b| && i <= |a| && '\0' !in a
    ensures Strncmp(a, b, i) == 0 <==> a[i..] == b[i..]
    decreases |a| - i
  {
    if i < |a| {
      assert a[i] in a;
      assert a[i..] == [a[i]] + a[i + 1..] && b[i..] == [b[i]] + b[i + 1..];
      StrncmpEqual(a, b, i + 1);
    }
  }

  lemma {:induction false} StrncmpOrder(a: string, b: string, c: string, i: nat)
    requires |a| == |b| == |c| && i <= |a|
    ensures Strncmp(a, b, i) == -Strncmp(b, a, i)
    ensures '\0' !in b && Strncmp(a, b, i) <= 0 && Strncmp(b, c, i) <= 0 ==>
      Strncmp(a, c, i) <= 0 && (Strncmp(a, c, i) == 0 ==> Strncmp(a, b, i) == 0 && Strncmp(b, c, i) == 0)
    decreases |a| - i
  {
    if i < |a| {
      assert b[i] in b;
      StrncmpOrder(a, b, c, i + 1);
    }
  }

  /** The order is strict and total on names without NULs, so a std::set of them is a set of names. */
  lemma CompareIsOrder(f: Fcb, g: Fcb, h: Fcb)
    requires f.Valid() && g.Valid() && h.Valid() && NoNul(f) && NoNul(g) && NoNul(h)
    ensures Compare(f, g) == 0 <==> f == g
    ensures Compare(f, g) == -Compare(g, f)
    ensures Compare(f, g) < 0 && Compare(g, h) < 0 ==> Compare(f, h) < 0
  {
    hide Strncmp;
    StrncmpEqual(f.name, g.name, 0);
    StrncmpEqual(f.ext, g.ext, 0);
    assert f.name[0..] == f.name && g.name[0..] == g.name && f.ext[0..] == f.ext && g.ext[0..] == g.ext;
    StrncmpEqual(g.name, h.name, 0);
    StrncmpEqual(f.name, h.name, 0);
    assert h.name[0..] == h.name;
    StrncmpOrder(f.name, g.name, h.name, 0);
    StrncmpOrder(f.ext, g.ext, h.ext, 0);
    StrncmpOrder(g.name, h.name, f.name, 0);
  }

  /** The first character that differs decides, by its code. */
  lemma CompareDecides(f: Fcb, g: Fcb, i: nat)
    requires f.Valid() && g.Valid() && NoNul(f) && i < 11
    requires (forall k | 0 <= k < i :: f.At(k) == g.At(k)) && f.At(i) < g.At(i)
    ensures Compare(f, g) < 0
  {
    hide Strncmp;
    forall k | 0 <= k < 8 && k < i ensures f.name[k] == g.name[k] { assert f.At(k) == g.At(k); }
    forall k | 0 <= k < 3 && 8 + k < i ensures f.ext[k] == g.ext[k] { assert f.At(8 + k) == g.At(8 + k); }
    if i < 8 {
      StrncmpDecides(f.name, g.name, 0, i);
    } else {
      assert f.name == g.name;
      StrncmpEqual(f.name, g.name, 0);
      StrncmpDecides(f.ext, g.ext, 0, i - 8);
    }
  }

  lemma {:induction false} StrncmpDecides(a: string, b: string, i: nat, k: nat)
    requires |a| == |b| && i <= k < |a| && '\0' !in a && a[k] < b[k] && forall j | i <= j < k :: a[j] == b[j]
    ensures Strncmp(a, b, i) < 0
    decreases k - i
  {
    assert a[i] in a;
    if i < k { StrncmpDecides(a, b, i + 1, k); }
  }

  // ---------- names in text ----------

  /** Character by character: a question mark, the same character, or the same letter in the other case. */
  lemma MatchedCharacters(mask: Fcb, f: Fcb)
    requires mask.Valid() && f.Valid()
    ensures Matches(mask, f) <==> forall i | 0 <= i < 11 ::
      || mask.At(i) == '?' || f.At(i) == mask.At(i)
      || ('a' <= f.At(i) <= 'z' && f.At(i) as int - 32 == mask.At(i) as int)
      || ('a' <= mask.At(i) <= 'z' && mask.At(i) as int - 32 == f.At(i) as int)
  {
    forall i | 0 <= i < 11
      ensures CharMatches(mask.At(i), f.At(i)) <==>
        || mask.At(i) == '?' || f.At(i) == mask.At(i)
        || ('a' <= f.At(i) <= 'z' && f.At(i) as int - 32 == mask.At(i) as int)
        || ('a' <= mask.At(i) <= 'z' && mask.At(i) as int - 32 == f.At(i) as int)
    {
      SameLetter(f.At(i), mask.At(i));
    }
    hide CharMatches;
  }

  lemma SameLetter(c: char, d: char)
    ensures Upper(c) == Upper(d) <==>
      || c == d || ('a' <= c <= 'z' && c as int - 32 == d as int) || ('a' <= d <= 'z' && d as int - 32 == c as int)
  {
  }

  /** The server reads up to two leading dots, then the characters in front of the next dot, and those behind it up to
      the one after: the first 8 and the first 3, as capitals. */
  lemma ServerReads(dots: string, base: string, ext: string, tail: string)
    requires dots in {"", ".", ".."} && base != "" && '.' !in base && '.' !in ext && (tail == "" || tail[0] == '.')
    ensures var f, name := FcbOf(dots + base + "." + ext + tail), dots + base;
      && (forall i | 0 <= i < 8 :: f.name[i] == if i < |name| then Upper(name[i]) else ' ')
      && (forall i | 0 <= i < 3 :: f.ext[i] == if i < |ext| then Upper(ext[i]) else ' ')
  {
    var s, n := dots + base + "." + ext + tail, |dots + base|;
    PartsOf(dots, base, ext, tail);
    assert LeadingDots(s, 0, 2) == |dots| by { assert LeadingDots(s, |dots|, 2) == |dots|; }
    NextDotIs(s, |dots|, n);
    NextDotIs(s, n + 1, n + 1 + |ext|);
    hide NextDot; hide LeadingDots; hide Upper;
    assert BaseEnd(s, 2) == n && ExtStart(s, 2) == n + 1;
    hide BaseEnd; hide ExtStart;
  }

  /** The client reads all leading dots, and keeps the case. */
  lemma ClientReads(dots: string, base: string, ext: string, tail: string)
    requires |dots| <= 8 && (forall i | 0 <= i < |dots| :: dots[i] == '.')
    requires base != "" && '.' !in base && '.' !in ext && (tail == "" || tail[0] == '.')
    ensures var f, name := DosFn(dots + base + "." + ext + tail), dots + base;
      && (forall i | 0 <= i < 8 :: f.name[i] == if i < |name| then name[i] else ' ')
      && (forall i | 0 <= i < 3 :: f.ext[i] == if i < |ext| then ext[i] else ' ')
  {
    var s, n := dots + base + "." + ext + tail, |dots + base|;
    PartsOf(dots, base, ext, tail);
    AllDots(s, 0, |dots|);
    NextDotIs(s, |dots|, n);
    NextDotIs(s, n + 1, n + 1 + |ext|);
    hide NextDot; hide LeadingDots;
    assert BaseEnd(s, 8) == n && ExtStart(s, 8) == n + 1;
    hide BaseEnd; hide ExtStart;
  }

  lemma {:induction false} AllDots(s: string, i: nat, n: nat)
    requires i <= n <= 8 && n < |s| && s[n] != '.' && forall k | i <= k < n :: s[k] == '.'
    ensures LeadingDots(s, i, 8) == n
    decreases n - i
  {
    if i < n { AllDots(s, i + 1, n); }
  }

  lemma PartsOf(dots: string, base: string, ext: string, tail: string)
    requires base != "" && '.' !in base && '.' !in ext && (tail == "" || tail[0] == '.')
    ensures var s, d, n := dots + base + "." + ext + tail, |dots|, |dots + base|;
      && (forall i | 0 <= i < d :: s[i] == dots[i]) && (forall i | d <= i < n :: s[i] == base[i - d] != '.')
      && s[n] == '.' && (forall i | 0 <= i < |ext| :: s[n + 1 + i] == ext[i] != '.')
      && |s| == n + 1 + |ext| + |tail| && (tail != "" ==> s[n + 1 + |ext|] == '.')
  {
  }

  lemma ServerReadsDotless(base: string)
    requires '.' !in base
    ensures var f := FcbOf(base);
      && (forall i | 0 <= i < 8 :: f.name[i] == if i < |base| then Upper(base[i]) else ' ') && f.ext == "   "
  {
    NextDotIs(base, 0, |base|);
    hide NextDot;
    assert LeadingDots(base, 0, 2) == 0;
    assert ExtStart(base, 2) == |base|;
  }
}
