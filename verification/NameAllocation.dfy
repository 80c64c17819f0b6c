/** How the server makes up a DOS name for a file: cleaned, cut and, where that is taken, numbered. */
module NameAllocation {
  import opened Bytes
  import opened ShortNames

  const MAX_COUNTER := 9998

  // ---------- the specification ----------

  predicate Allowed(c: char) {
    'A' <= c <= 'Z' || '0' <= c <= '9'
    || c in {'!', '#', '$', '%', '&', '\'', '(', ')', '-', '@', '^', '_', '`', '{', '}', '~'}
  }

  /** The last character that is not a blank; without one, no position is behind it. */
  function LastNonBlank(s: string): (last: nat)
    ensures last == |s| <==> IsBlank(s)
    ensures last < |s| ==> s[last] != ' ' && IsBlank(s[last + 1..])
  {
    var t := Trim(s);
    if t == [] then |s| else |t| - 1
  }

  /** Blanks behind the name proper become underscores, like all that DOS does not allow. */
  function CleanChar(s: string, i: nat): (c: char)
    requires i < |s|
    ensures Allowed(c) || c == ' '
    ensures c == ' ' ==> s[i] == ' ' && i < LastNonBlank(s)
  {
    if Allowed(s[i]) then s[i]
    else if 'a' <= s[i] <= 'z' then Upper(s[i])
    else if s[i] == ' ' && i < LastNonBlank(s) then ' '
    else '_'
  }

  function Cleaned(s: string, n: nat): (f: string)
    ensures |f| == n && forall i | 0 <= i < n :: f[i] == if i < |s| then CleanChar(s, i) else ' '
  {
    seq(n, i requires 0 <= i => if i < |s| then CleanChar(s, i) else ' ')
  }

  function LastDot(s: string): (d: nat)
    ensures d <= |s|
    ensures d < |s| ==> s[d] == '.' && '.' !in s[d + 1..]
    ensures d == |s| ==> '.' !in s
  {
    if s == [] then 0
    else if s[|s| - 1] == '.' then |s| - 1
    else var d := LastDot(s[..|s| - 1]); if d < |s| - 1 then d else |s|
  }

  function BaseOf(longName: string): (r: string) {
    longName[..LastDot(longName)]
  }

  function ExtOf(longName: string): (r: string) {
    var d := LastDot(longName);
    if d < |longName| then longName[d + 1..] else []
  }

  function DigitChar(d: nat): (r: char)
    requires d < 10
  {
    '0' + d as char
  }

  function Digits(n: nat): (d: string)
    ensures d != []
  {
    if n < 10 then [DigitChar(n)] else Digits(n / 10) + [DigitChar(n % 10)]
  }

  /** The first p characters of the base, a tilde and a number. */
  function Numbered(base: string, p: nat, digits: string): (f: string)
    requires |base| == 8 && p + 1 + |digits| <= 8
    ensures |f| == 8
  {
    seq(8, i requires 0 <= i < 8 =>
      if i < p then base[i] else if i == p then '~' else if i <= p + |digits| then digits[i - p - 1] else ' ')
  }

  predicate Fits(longName: string) {
    |BaseOf(longName)| <= 8 && |ExtOf(longName)| <= 3
  }

  function PlainName(longName: string): (f: Fcb)
    ensures f.Valid()
  {
    Fcb(Cleaned(BaseOf(longName), 8), Cleaned(ExtOf(longName), 3))
  }

  function PrefixLength(longName: string, counter: nat): (p: nat)
    requires 1 <= counter <= MAX_COUNTER
    ensures p + 1 + |Digits(counter)| <= 8
  {
    DigitsLength(counter);
    Min(Min(|BaseOf(longName)|, 8), 7 - |Digits(counter)|)
  }

  function Candidate(longName: string, counter: nat): (f: Fcb)
    requires 1 <= counter <= MAX_COUNTER
    ensures f.Valid()
  {
    var plain := PlainName(longName);
    Fcb(Numbered(plain.name, PrefixLength(longName, counter), Digits(counter)), plain.ext)
  }

  /** The first number from c on whose candidate is free, or the one behind the last. */
  function FreeNumber(longName: string, used: set<Fcb>, c: nat): (n: nat)
    requires 1 <= c <= MAX_COUNTER + 1
    ensures c <= n <= MAX_COUNTER + 1
    decreases MAX_COUNTER + 1 - c
  {
    if c <= MAX_COUNTER && Candidate(longName, c) in used then FreeNumber(longName, used, c + 1) else c
  }

  /** The name a file gets next to the used ones; a used one if no candidate is left. */
  function NameFor(longName: string, used: set<Fcb>): (f: Fcb)
    ensures f.Valid()
  {
    if Fits(longName) && PlainName(longName) !in used then PlainName(longName)
    else Candidate(longName, Min(FreeNumber(longName, used, 1), MAX_COUNTER))
  }

  // ---------- the code ----------

  method SanitizeShortName(s: string, buf: array<char>) returns (length: nat, shortened: bool)
    modifies buf
    ensures buf[..] == Cleaned(s, buf.Length)
    ensures length == Min(|s|, buf.Length) && (shortened <==> |s| > buf.Length)
  {
    hide CleanChar; hide LastNonBlank;
    var size := buf.Length;
    length := 0;
    for i := 0 to |s|
      invariant length == i <= size
      invariant forall k | 0 <= k < i :: buf[k] == CleanChar(s, k)
    {
      if length == size {
        return length, true;
      }
      buf[length] := CleanChar(s, i);
      length := length + 1;
    }
    while length < size
      invariant |s| == length <= size <= buf.Length
      invariant forall k | 0 <= k < length :: buf[k] == CleanChar(s, k)
      invariant forall k | size <= k < buf.Length :: buf[k] == ' '
    {
      size := size - 1;
      buf[size] := ' ';
    }
    shortened := false;
  }

  method FileNameTo83(longName: string, used: set<Fcb>) returns (ok: bool, f: Fcb, used': set<Fcb>)
    ensures f == NameFor(longName, used) && used' == used + {f} && (ok <==> f !in used)
  {
    hide LastDot; hide Candidate; hide FreeNumber; hide Cleaned;
    var name, ext := new char[8], new char[3];
    var baseLength, baseShortened := SanitizeShortName(BaseOf(longName), name);
    var extLength, extShortened := SanitizeShortName(ExtOf(longName), ext);
    f := Fcb(name[..], ext[..]);
    if !baseShortened && !extShortened && f !in used {
      return true, f, used + {f};
    }
    NothingWritten(BaseOf(longName));
    ok, f, used' := AddSuffixNumber(longName, name, baseLength, ext[..], used);
  }

  /** Tries the numbers in turn, in place in the name field. */
  method AddSuffixNumber(longName: string, name: array<char>, length: nat, ext: string, used: set<Fcb>)
    returns (ok: bool, f: Fcb, used': set<Fcb>)
    requires name.Length == 8 && ext == PlainName(longName).ext && length == Min(|BaseOf(longName)|, 8)
    requires name[..] == PlainName(longName).name && Written(name[..], name[..], length, length, 1)
    modifies name
    ensures f == Candidate(longName, Min(FreeNumber(longName, used, 1), MAX_COUNTER))
    ensures used' == used + {f} && (ok <==> f !in used)
  {
    hide Digits; hide LastDot; hide Written; hide Candidate; hide PlainName; hide BaseOf;
    f := Fcb(name[..], ext);
    ghost var start := name[..];
    var baseLength, counter := length, 1;
    while counter < 9999
      invariant 1 <= counter <= 9999
      invariant Written(name[..], start, length, baseLength, counter)
      invariant counter > 1 ==> f == Candidate(longName, counter - 1) && f in used
      invariant FreeNumber(longName, used, 1) == FreeNumber(longName, used, counter)
    {
      var counterLength := if counter > 999 then 4 else if counter > 99 then 3 else if counter > 9 then 2 else 1;
      ghost var before, beforeLength := name[..], baseLength;
      DigitsLength(counter);
      if baseLength + counterLength > 7 {
        baseLength := 7 - counterLength;
      }
      PutNumber(name, baseLength, Digits(counter));
      NextNumber(before, name[..], start, length, beforeLength, counter);
      WrittenIsCandidate(longName, name[..], baseLength, counter);
      f := Fcb(name[..], ext);
      if f !in used {
        return true, f, used + {f};
      }
      counter := counter + 1;
    }
    return false, f, used;
  }

  method PutNumber(name: array<char>, p: nat, digits: string)
    requires name.Length == 8 && p + 1 + |digits| <= 8
    modifies name
    ensures forall k | 0 <= k < 8 ::
      name[k] == if p < k <= p + |digits| then digits[k - p - 1] else if k == p then '~' else old(name[k])
  {
    name[p] := '~';
    for i := 0 to |digits|
      invariant forall k | 0 <= k < 8 ::
        name[k] == if p < k <= p + i then digits[k - p - 1] else if k == p then '~' else old(name[k])
    {
      name[p + 1 + i] := digits[i];
    }
  }

  /** The name field when candidate `counter` is up: the one before it has been written over the cleaned base. */
  ghost predicate Written(name: string, start: string, length: nat, baseLength: nat, counter: nat) {
    && |name| == |start| == 8 && length <= 8 && 1 <= counter <= MAX_COUNTER + 1
    && (forall k | length <= k < 8 :: start[k] == ' ')
    && if counter == 1 then name == start && baseLength == length
       else
         && |Digits(counter - 1)| <= 4 && baseLength == Min(length, 7 - |Digits(counter - 1)|)
         && name == Numbered(start, baseLength, Digits(counter - 1))
  }

  lemma NothingWritten(base: string)
    ensures Written(Cleaned(base, 8), Cleaned(base, 8), Min(|base|, 8), Min(|base|, 8), 1)
  {
  }

  lemma WrittenIsCandidate(longName: string, name: string, baseLength: nat, counter: nat)
    requires 1 <= counter <= MAX_COUNTER
    requires Written(name, PlainName(longName).name, Min(|BaseOf(longName)|, 8), baseLength, counter + 1)
    ensures Fcb(name, PlainName(longName).ext) == Candidate(longName, counter)
  {
    hide Digits; hide PlainName; hide BaseOf; hide Numbered;
  }

  lemma NextNumber(before: string, name: string, start: string, length: nat, baseLength: nat, counter: nat)
    requires Written(before, start, length, baseLength, counter) && counter <= MAX_COUNTER && |name| == 8
    requires |Digits(counter)| <= 4
    requires var p, digits := Min(baseLength, 7 - |Digits(counter)|), Digits(counter);
      forall k | 0 <= k < 8 ::
        name[k] == if p < k <= p + |digits| then digits[k - p - 1] else if k == p then '~' else before[k]
    ensures Written(name, start, length, Min(baseLength, 7 - |Digits(counter)|), counter + 1)
  {
    hide Digits;
    DigitsLength(counter);
    if counter > 1 { DigitsLength(counter - 1); }
    var p, digits := Min(baseLength, 7 - |Digits(counter)|), Digits(counter);
    assert name == Numbered(start, p, digits);
  }

  ghost predicate AllUsed(longName: string, used: set<Fcb>, end: nat) {
    end <= MAX_COUNTER + 1 && forall c | 1 <= c < end :: Candidate(longName, c) in used
  }

  lemma DigitsLength(n: nat)
    requires n < 10000
    ensures |Digits(n)| == if n > 999 then 4 else if n > 99 then 3 else if n > 9 then 2 else 1
  {
    assert |Digits(n / 10)| == if n > 999 then 3 else if n > 99 then 2 else 1;
  }

  // ---------- candidates never collide ----------

  function ValueOf(digits: string): (r: int)
  {
    if digits == [] then 0 else ValueOf(digits[..|digits| - 1]) * 10 + (digits[|digits| - 1] as int - '0' as int)
  }

  lemma {:induction false} DigitsValue(n: nat)
    ensures ValueOf(Digits(n)) == n
    ensures forall i | 0 <= i < |Digits(n)| :: '0' <= Digits(n)[i] <= '9'
  {
    if n >= 10 {
      DigitsValue(n / 10);
      assert Digits(n)[..|Digits(n)| - 1] == Digits(n / 10);
    } else {
      assert Digits(n)[..0] == [];
    }
  }

  /** The last tilde is the one in front of the number, so the number can be read off again. */
  lemma NumberedApart(base: string, p: nat, m: string, q: nat, n: string)
    requires |base| == 8 && p + 1 + |m| <= 8 && q + 1 + |n| <= 8 && q <= p
    requires forall i | 0 <= i < |m| :: '0' <= m[i] <= '9'
    requires forall i | 0 <= i < |n| :: '0' <= n[i] <= '9'
    requires Numbered(base, p, m) == Numbered(base, q, n)
    ensures m == n
  {
    var f, g := Numbered(base, p, m), Numbered(base, q, n);
    assert f[p] == '~' == g[p];
    assert p == q;
    if |m| < |n| {
      ShorterNumber(base, p, m, n);
    } else if |n| < |m| {
      ShorterNumber(base, p, n, m);
    }
    forall i | 0 <= i < |m| ensures m[i] == n[i] {
      assert f[p + 1 + i] == m[i] && g[p + 1 + i] == n[i];
    }
  }

  lemma ShorterNumber(base: string, p: nat, m: string, n: string)
    requires |base| == 8 && p + 1 + |n| <= 8 && |m| < |n|
    requires forall i | 0 <= i < |n| :: '0' <= n[i] <= '9'
    ensures Numbered(base, p, m) != Numbered(base, p, n)
  {
    var k := p + 1 + |m|;
    assert Numbered(base, p, m)[k] == ' ' && Numbered(base, p, n)[k] == n[|m|];
  }

  lemma CandidatesDistinct(longName: string, c: nat, d: nat)
    requires 1 <= c < d <= MAX_COUNTER
    ensures Candidate(longName, c) != Candidate(longName, d)
  {
    hide Digits; hide Numbered;
    DigitsValue(c);
    DigitsValue(d);
    DigitsLength(c);
    DigitsLength(d);
    if Candidate(longName, c) == Candidate(longName, d) {
      NumberedApart(PlainName(longName).name, PrefixLength(longName, c), Digits(c), PrefixLength(longName, d),
                    Digits(d));
      assert false;
    }
  }

  lemma {:induction false} FreeNumberSearches(longName: string, used: set<Fcb>, c: nat)
    requires 1 <= c <= MAX_COUNTER + 1 && AllUsed(longName, used, c)
    ensures var n := FreeNumber(longName, used, c);
      AllUsed(longName, used, n) && (n <= MAX_COUNTER ==> Candidate(longName, n) !in used)
    decreases MAX_COUNTER + 1 - c
  {
    hide Candidate;
    if c <= MAX_COUNTER && Candidate(longName, c) in used {
      FreeNumberSearches(longName, used, c + 1);
    }
  }

  /** A name is taken twice only when it does not fit as it is, or is taken, and all numbers are. */
  lemma NameIsFresh(longName: string, used: set<Fcb>)
    ensures NameFor(longName, used) in used <==>
      !(Fits(longName) && PlainName(longName) !in used) && AllUsed(longName, used, MAX_COUNTER + 1)
    ensures |used| < 9998 ==> NameFor(longName, used) !in used
  {
    hide Candidate; hide PlainName; hide Fits;
    FreeNumberSearches(longName, used, 1);
    if |used| < MAX_COUNTER {
      SomeCandidateFree(longName, used);
    }
  }

  /** Fewer used names than candidates: one of them is free. */
  lemma SomeCandidateFree(longName: string, used: set<Fcb>)
    requires |used| < MAX_COUNTER
    ensures !AllUsed(longName, used, MAX_COUNTER + 1)
  {
    if AllUsed(longName, used, MAX_COUNTER + 1) {
      hide Candidate;
      CandidateCount(longName, used, MAX_COUNTER);
    }
  }

  lemma {:induction false} CandidateCount(longName: string, used: set<Fcb>, n: nat)
    requires n <= MAX_COUNTER && forall c | 1 <= c <= n :: Candidate(longName, c) in used
    ensures |used| >= n
  {
    hide Candidate;
    if n > 0 {
      var rest := used - {Candidate(longName, n)};
      forall c | 1 <= c <= n - 1 ensures Candidate(longName, c) in rest {
        CandidatesDistinct(longName, c, n);
      }
      CandidateCount(longName, rest, n - 1);
    }
  }

  // ---------- what made-up names look like ----------

  predicate MadeUp(c: char) {
    Allowed(c) || c == ' '
  }

  /** Every name is upper-case, without dots and of DOS's characters; a number makes it more than blank. */
  lemma MadeUpPlain(longName: string)
    ensures var f := PlainName(longName);
      && Ordinary(f) && (forall i | 0 <= i < 11 :: MadeUp(f.At(i)))
      && (Fits(longName) ==> (IsBlank(f.name) <==> IsBlank(BaseOf(longName))))
  {
    hide BaseOf; hide ExtOf; hide LastNonBlank;
    var base := BaseOf(longName);
    MadeUpField(base, 8);
    MadeUpField(ExtOf(longName), 3);
  }

  lemma MadeUpField(s: string, n: nat)
    ensures var f := Cleaned(s, n);
      && (forall i | 0 <= i < n :: MadeUp(f[i]) && f[i] != '.' && Upper(f[i]) == f[i])
      && (|s| <= n ==> (IsBlank(f) <==> IsBlank(s)))
  {
    var f := Cleaned(s, n);
    if |s| <= n && !IsBlank(s) {
      var last := LastNonBlank(s);
      assert f[last] == CleanChar(s, last) != ' ';
    }
  }

  /** A finding: a blank of a name becomes an underscore exactly if nothing but blanks follows and the name is more than
      blanks. */
  lemma TrailingBlank(s: string, i: nat)
    requires i < |s| && s[i] == ' '
    ensures CleanChar(s, i) == '_' <==> !IsBlank(s) && IsBlank(s[i..])
    ensures CleanChar(s, i) in {'_', ' '}
  {
    var last := LastNonBlank(s);
    if last < i {
      assert forall k | i <= k < |s| :: s[k] == s[last + 1..][k - last - 1];
    } else if i < last < |s| {
      assert s[i..][last - i] == s[last];
    }
  }

  /** The two blanks in front of the dot end up in the DOS name. */
  lemma TrailingBlanksListed()
    ensures PlainName("a  .txt") == Fcb("A__     ", "TXT")
  {
    hide LastDot; hide LastNonBlank;
    var name, d := "a  .txt", LastDot("a  .txt");
    assert name[3] == '.' && d == 3;
    var base, ext := BaseOf(name), ExtOf(name);
    assert base == "a  " && ext == "txt";
    assert base[0] != ' ' && !IsBlank(base);
    TrailingBlank(base, 1);
    TrailingBlank(base, 2);
    assert Cleaned(base, 8) == "A__     ";
    assert Cleaned(ext, 3) == "TXT";
  }

  lemma MadeUpCandidate(longName: string, counter: nat)
    requires 1 <= counter <= MAX_COUNTER
    ensures var f := Candidate(longName, counter);
      Ordinary(f) && (forall i | 0 <= i < 11 :: MadeUp(f.At(i))) && !IsBlank(f.name)
  {
    hide PlainName; hide Digits;
    MadeUpPlain(longName);
    DigitsValue(counter);
    NumberedMadeUp(PlainName(longName), PrefixLength(longName, counter), Digits(counter));
  }

  lemma NumberedMadeUp(plain: Fcb, p: nat, digits: string)
    requires Ordinary(plain) && (forall i | 0 <= i < 11 :: MadeUp(plain.At(i))) && p + 1 + |digits| <= 8
    requires forall i | 0 <= i < |digits| :: '0' <= digits[i] <= '9'
    ensures var f := Fcb(Numbered(plain.name, p, digits), plain.ext);
      Ordinary(f) && (forall i | 0 <= i < 11 :: MadeUp(f.At(i))) && !IsBlank(f.name)
  {
    var f := Fcb(Numbered(plain.name, p, digits), plain.ext);
    forall i | 0 <= i < 8 ensures MadeUp(f.name[i]) && f.name[i] != '.' && Upper(f.name[i]) == f.name[i] {
      assert MadeUp(plain.At(i));
    }
    forall i | 0 <= i < 11 ensures MadeUp(f.At(i)) {
      if i < 8 { assert MadeUp(f.name[i]); } else { assert MadeUp(plain.At(i)); }
    }
    assert f.name[p] == '~';
  }

  /** What every listed name is like; its base is blank only if the file's own base is. */
  lemma NameIsMadeUp(longName: string, used: set<Fcb>)
    ensures var f := NameFor(longName, used);
      && Ordinary(f) && (forall i | 0 <= i < 11 :: MadeUp(f.At(i)))
      && (IsBlank(f.name) ==> IsBlank(BaseOf(longName)))
  {
    hide Candidate; hide PlainName; hide BaseOf; hide Ordinary;
    MadeUpPlain(longName);
    MadeUpCandidate(longName, Min(FreeNumber(longName, used, 1), MAX_COUNTER));
  }

  // ---------- the names in text ----------

  lemma {:induction false} LastDotIs(s: string, d: nat)
    requires d < |s| && s[d] == '.' && forall i | d < i < |s| :: s[i] != '.'
    ensures LastDot(s) == d
    decreases |s|
  {
    if d < |s| - 1 { LastDotIs(s[..|s| - 1], d); }
  }

  /** The last dot separates the extension. */
  lemma SplitAtDot(base: string, ext: string)
    requires '.' !in ext
    ensures BaseOf(base + "." + ext) == base && ExtOf(base + "." + ext) == ext
  {
    var s := base + "." + ext;
    assert forall i | |base| < i < |s| :: s[i] == ext[i - |base| - 1];
    LastDotIs(s, |base|);
  }

  lemma NoDot(name: string)
    requires '.' !in name
    ensures BaseOf(name) == name && ExtOf(name) == ""
  {
  }

  const SMALL := "abcdefghijklmnopqrstuvwxyz"
  const LARGE := "ABCDEFGHIJKLMNOPQRSTUVWXYZ"
  const NUMERALS := "0123456789"
  const SPECIALS := "!#$%&'()-@^_`{}~"

  /** Capitals, digits and sixteen others stay, small letters become capitals, blanks see `TrailingBlank`, and all else
      becomes an underscore. */
  lemma CharacterTable(s: string, i: nat)
    requires i < |s| && s[i] != ' '
    ensures s[i] in LARGE || s[i] in NUMERALS || s[i] in SPECIALS ==> CleanChar(s, i) == s[i]
    ensures forall k | 0 <= k < 26 && s[i] == SMALL[k] :: CleanChar(s, i) == LARGE[k]
    ensures s[i] !in LARGE && s[i] !in NUMERALS && s[i] !in SPECIALS && s[i] !in SMALL ==> CleanChar(s, i) == '_'
  {
    hide LastNonBlank;
    forall k | 0 <= k < 26 ensures SMALL[k] as int == 97 + k && LARGE[k] as int == 65 + k { Alphabet(k); }
    InAlphabet(s[i]);
    InNumerals(s[i]);
    InSpecials(s[i]);
  }

  lemma Alphabet(k: nat)
    requires k < 26
    ensures SMALL[k] as int == 97 + k && LARGE[k] as int == 65 + k
  {
  }

  lemma InAlphabet(c: char)
    ensures c in LARGE <==> 'A' <= c <= 'Z'
    ensures c in SMALL <==> 'a' <= c <= 'z'
  {
    forall k | 0 <= k < 26 ensures SMALL[k] as int == 97 + k && LARGE[k] as int == 65 + k { Alphabet(k); }
    if 'A' <= c <= 'Z' { assert LARGE[c as int - 65] == c; }
    if 'a' <= c <= 'z' { assert SMALL[c as int - 97] == c; }
  }

  lemma InNumerals(c: char)
    ensures c in NUMERALS <==> '0' <= c <= '9'
  {
    if '0' <= c <= '9' { assert NUMERALS[c as int - 48] == c; }
  }

  lemma InSpecials(c: char)
    ensures c in SPECIALS <==>
      c in {'!', '#', '$', '%', '&', '\'', '(', ')', '-', '@', '^', '_', '`', '{', '}', '~'}
  {
  }

  /** A file name and its two parts: the last dot separates them, if there is one. */
  predicate Parted(longName: string, base: string, ext: string) {
    '.' !in ext && (longName == base + "." + ext || (longName == base && '.' !in base && ext == ""))
  }

  lemma PartsFound(longName: string, base: string, ext: string)
    requires Parted(longName, base, ext)
    ensures BaseOf(longName) == base && ExtOf(longName) == ext
  {
    if longName == base + "." + ext { SplitAtDot(base, ext); } else { NoDot(longName); }
  }

  /** What a numbered name looks like: as much of the base as leaves room for a tilde and the number, then these and
      blanks, and the extension cut to three characters. */
  lemma CandidateText(longName: string, base: string, ext: string, n: nat)
    requires Parted(longName, base, ext) && 1 <= n <= 9998
    ensures var f, d := Candidate(longName, n), Digits(n);
      |d| <= 4 &&
      var p := Min(Min(|base|, 8), 7 - |d|);
      && f.name == Cleaned(base, 8)[..p] + "~" + d + seq(7 - p - |d|, _ => ' ')
      && f.ext == Cleaned(ext, 3)
  {
    hide Digits; hide Cleaned; hide BaseOf; hide ExtOf;
    PartsFound(longName, base, ext);
    DigitsLength(n);
    var f, d := Candidate(longName, n), Digits(n);
    var p := Min(Min(|base|, 8), 7 - |d|);
    var g := Cleaned(base, 8)[..p] + "~" + d + seq(7 - p - |d|, _ => ' ');
    forall i | 0 <= i < 8 ensures f.name[i] == g[i] {}
  }

  /** The whole rule: a file keeps its cleaned name exactly if its base has at most 8 characters, its extension at most
      3, and no file has that name yet; otherwise its name bears the least number whose name is not used, or 9998. */
  lemma NameOfFile(longName: string, base: string, ext: string, used: set<Fcb>) returns (n: nat)
    requires Parted(longName, base, ext)
    ensures var f, plain := NameFor(longName, used), Fcb(Cleaned(base, 8), Cleaned(ext, 3));
      if |base| <= 8 && |ext| <= 3 && plain !in used then f == plain
      else
        && 1 <= n <= 9998 && f == Candidate(longName, n)
        && (forall m | 1 <= m < n :: Candidate(longName, m) in used)
        && (f in used ==> n == 9998)
  {
    hide Cleaned; hide BaseOf; hide ExtOf; hide Candidate;
    PartsFound(longName, base, ext);
    FreeNumberSearches(longName, used, 1);
    n := Min(FreeNumber(longName, used, 1), MAX_COUNTER);
  }

  /** A cut extension alone makes a number necessary. */
  lemma CutExtension()
    ensures NameFor("index.html", {}) == Fcb("INDEX~1 ", "HTM")
  {
    hide Cleaned; hide Candidate; hide NameFor; hide CleanChar; hide Digits;
    assert "index.html" == "index" + "." + "html";
    var n := NameOfFile("index.html", "index", "html", {});
    CandidateText("index.html", "index", "html", 1);
    assert Digits(1) == "1" by { FirstNumber(); }
    CleanedIndex();
    assert 7 - 5 - 1 == 1 && seq(1, _ => ' ') == " ";
    assert "INDEX   "[..5] == "INDEX";
  }

  lemma FirstNumber()
    ensures Digits(1) == "1"
  {
  }

  lemma CleanedIndex()
    ensures Cleaned("index", 8) == "INDEX   " && Cleaned("html", 3) == "HTM"
  {
    hide LastNonBlank;
  }
}
