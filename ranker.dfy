/**
 * The top-N largest items ranker of `get_top_large_folders`
 * (adb_utils.py:163-227): list a directory (`ls -aF`), size each entry
 * (`du -sh`), turn the human-readable sizes into bytes, stable-sort them
 * from largest to smallest and keep the first `count`.
 */
module Ranker {
  import opened Wrappers
  import opened PyText
  import opened Shell

  // ------------------------------------------------------ listing entries

  /** `os.path.join(a, b)` on POSIX: an absolute `b` replaces `a`. */
  function PosixJoin(a: string, b: string): string {
    if StartsWith(b, "/") then b
    else if a == [] || EndsWith(a, "/") then a + b
    else a + "/" + b
  }

  /** An absolute name is taken as it is; a relative one is appended to the path, which stays in front. */
  lemma PosixJoinShape(a: string, b: string)
    ensures StartsWith(b, "/") ==> PosixJoin(a, b) == b
    ensures !StartsWith(b, "/") ==> EndsWith(PosixJoin(a, b), b) && StartsWith(PosixJoin(a, b), a)
  {
    var r := PosixJoin(a, b);
    if !StartsWith(b, "/") {
      assert r[|r| - |b|..] == b;
      assert r[..|a|] == a;
    }
  }

  /** The full path of a listed entry: joined onto `path`, backslashes turned into forward slashes. */
  function ItemPath(path: string, name: string): string {
    ReplaceChar(PosixJoin(path, name), '\\', '/')
  }

  /** Joining a relative name onto a path that does not end in '/' puts exactly one '/' between. */
  lemma ItemPathOfName(path: string, name: string)
    requires path != [] && path[|path| - 1] != '/' && '\\' !in path + name
    requires name == [] || name[0] != '/'
    ensures ItemPath(path, name) == path + "/" + name
  {
    var j := PosixJoin(path, name);
    assert !EndsWith(path, "/");
    assert j == path + "/" + name;
    assert '\\' !in j;
  }

  /** The filter as written at adb_utils.py:181: non-empty and not "." or "..". */
  predicate IsListedAsWritten(name: string) {
    name != "" && name != "." && name != ".."
  }

  /** The dot links, as `ls -aF` prints them: with and without the '/' it appends to directories. */
  predicate IsDotLink(name: string) {
    name == "." || name == ".." || name == "./" || name == "../"
  }

  /** The corrected filter: non-empty and not a dot link in either spelling. */
  predicate IsListed(name: string) {
    name != "" && !IsDotLink(name)
  }

  /**
   * With `-F` the dot links are listed as "./" and "../": a line that
   * strips to either passes the filter as written, although it is a dot link.
   */
  lemma DotLinksSlipThrough(line: string)
    requires Strip(line) == "./" || Strip(line) == "../"
    ensures IsListedAsWritten(Strip(line)) && IsDotLink(Strip(line)) && !IsListed(Strip(line))
  {
  }

  /** The parent link "../" of "/sdcard" is kept as the item "/sdcard/../", which du sizes as the parent itself. */
  lemma ParentLinkPath()
    ensures ItemPath("/sdcard", "../") == "/sdcard/../"
  {
    ParentLinkPieces();
    ItemPathOfName("/sdcard", "../");
  }

  lemma ParentLinkPieces()
    ensures "/sdcard" + "/" + "../" == "/sdcard/../"
    ensures '\\' !in "/sdcard" + "../"
    ensures "/sdcard"[|"/sdcard"| - 1] != '/' && "../"[0] != '/'
  {
  }

  /** What one listing line contributes: its item path when the entry is kept, nothing otherwise. */
  function Kept(path: string, line: string): seq<string> {
    if IsListed(Strip(line)) then [ItemPath(path, Strip(line))] else []
  }

  /** A line contributes `x` exactly when its entry is kept and `x` is its item path. */
  lemma KeptMeaning(path: string, line: string, x: string)
    ensures x in Kept(path, line) <==> IsListed(Strip(line)) && x == ItemPath(path, Strip(line))
  {
  }

  /** The item paths of the kept entries of a listing, in listing order. */
  function Candidates(path: string, lines: seq<string>): seq<string> {
    if lines == [] then []
    else Candidates(path, lines[..|lines| - 1]) + Kept(path, lines[|lines| - 1])
  }

  /** One more line adds what that line contributes. */
  lemma CandidatesSnoc(path: string, lines: seq<string>, i: nat)
    requires i < |lines|
    ensures Candidates(path, lines[..i + 1]) == Candidates(path, lines[..i]) + Kept(path, lines[i])
  {
    assert lines[..i + 1][..i] == lines[..i];
  }

  /** Candidates are taken line by line, so the listing's order is kept. */
  lemma {:induction false} CandidatesAppend(path: string, a: seq<string>, b: seq<string>)
    ensures Candidates(path, a + b) == Candidates(path, a) + Candidates(path, b)
    decreases |b|
  {
    if b == [] {
      assert a + b == a;
    } else {
      var b', last := b[..|b| - 1], b[|b| - 1];
      assert (a + b)[..|a + b| - 1] == a + b';
      assert (a + b)[|a + b| - 1] == last;
      CandidatesAppend(path, a, b');
      assert Candidates(path, a + b) == Candidates(path, a + b') + Kept(path, last);
      assert Candidates(path, b) == Candidates(path, b') + Kept(path, last);
    }
  }

  /** Every candidate is contributed by some line of the listing. */
  lemma {:induction false} CandidatesSound(path: string, lines: seq<string>, x: string)
    requires x in Candidates(path, lines)
    ensures exists i :: 0 <= i < |lines| && x in Kept(path, lines[i])
  {
    var init := lines[..|lines| - 1];
    if x in Candidates(path, init) {
      CandidatesSound(path, init, x);
      var i :| 0 <= i < |init| && x in Kept(path, init[i]);
      assert init[i] == lines[i];
    } else {
      assert x in Kept(path, lines[|lines| - 1]);
    }
  }

  /** Whatever a line of the listing contributes is a candidate. */
  lemma {:induction false} CandidatesComplete(path: string, lines: seq<string>, i: nat, x: string)
    requires i < |lines| && x in Kept(path, lines[i])
    ensures x in Candidates(path, lines)
  {
    var n := |lines| - 1;
    if i < n {
      var init := lines[..n];
      assert init[i] == lines[i];
      CandidatesComplete(path, init, i, x);
      CandidateKeptLater(path, lines, x);
    } else {
      assert i == n;
      CandidateOfLast(path, lines, i, x);
    }
  }

  lemma CandidateKeptLater(path: string, lines: seq<string>, x: string)
    requires lines != [] && x in Candidates(path, lines[..|lines| - 1])
    ensures x in Candidates(path, lines)
  {
    var before := Candidates(path, lines[..|lines| - 1]);
    assert Candidates(path, lines) == before + Kept(path, lines[|lines| - 1]);
  }

  lemma CandidateOfLast(path: string, lines: seq<string>, i: nat, x: string)
    requires i + 1 == |lines| && x in Kept(path, lines[i])
    ensures x in Candidates(path, lines)
  {
    var last := Kept(path, lines[i]);
    assert Candidates(path, lines) == Candidates(path, lines[..i]) + last;
  }

  /** The candidates are exactly the kept entries' item paths; no dot link is ever one. */
  lemma CandidatesMembers(path: string, lines: seq<string>, x: string)
    ensures x in Candidates(path, lines) <==>
            exists i :: 0 <= i < |lines| && IsListed(Strip(lines[i])) && x == ItemPath(path, Strip(lines[i]))
  {
    if x in Candidates(path, lines) {
      CandidatesSound(path, lines, x);
      var i :| 0 <= i < |lines| && x in Kept(path, lines[i]);
      KeptMeaning(path, lines[i], x);
    }
    if exists i :: 0 <= i < |lines| && IsListed(Strip(lines[i])) && x == ItemPath(path, Strip(lines[i])) {
      var i :| 0 <= i < |lines| && IsListed(Strip(lines[i])) && x == ItemPath(path, Strip(lines[i]));
      KeptMeaning(path, lines[i], x);
      CandidatesComplete(path, lines, i, x);
    }
  }

  // ------------------------------------------------------------ sizes

  /**
   * The bytes `v` units stand for, the unit letter already upper-cased:
   * G, M and K are powers of 1024, B or no letter are bytes, and any other
   * letter gives 0.
   */
  function Scaled(v: real, unit: Option<char>): real {
    match unit
    case None => v
    case Some(u) =>
      if u == 'G' then v * 1073741824.0
      else if u == 'M' then v * 1048576.0
      else if u == 'K' then v * 1024.0
      else if u == 'B' then v
      else 0.0
  }

  /** Whether a size string ends in a unit letter. */
  predicate HasUnit(sizeStr: string) {
    sizeStr != [] && IsAlpha(sizeStr[|sizeStr| - 1])
  }

  /** The number part of a size string: all but a trailing unit letter. */
  function SizeNumber(sizeStr: string): string {
    if HasUnit(sizeStr) then sizeStr[..|sizeStr| - 1] else sizeStr
  }

  /** The unit letter of a size string, upper-cased. */
  function SizeUnit(sizeStr: string): Option<char> {
    if HasUnit(sizeStr) then Some(Upper(sizeStr[|sizeStr| - 1])) else None
  }

  /**
   * The bytes a `du -h` size like "1.5G" stands for: a trailing letter
   * selects the unit, the rest must read as a number; `None` when it does
   * not, so the item is dropped.
   */
  function SizeBytes(sizeStr: string): Option<real> {
    match ParseFloat(SizeNumber(sizeStr))
    case None => None
    case Some(v) => Some(Scaled(v, SizeUnit(sizeStr)))
  }

  /** A size whose number part reads as `v` is `v` scaled by its unit. */
  lemma SizeOfNumber(sizeStr: string, v: real)
    requires ParseFloat(SizeNumber(sizeStr)) == Some(v)
    ensures SizeBytes(sizeStr) == Some(Scaled(v, SizeUnit(sizeStr)))
  {
  }

  /** A number followed by a unit letter: the number's value scaled by the letter. */
  lemma SizeWithUnit(number: string, u: char)
    requires IsAlpha(u)
    ensures SizeBytes(number + [u]) ==
            match ParseFloat(number) case None => None case Some(v) => Some(Scaled(v, Some(Upper(u))))
  {
    var s := number + [u];
    assert s[..|s| - 1] == number;
  }

  /** A number with no unit letter is a count of bytes. */
  lemma SizeWithoutUnit(number: string)
    requires number == [] || !IsAlpha(number[|number| - 1])
    ensures SizeBytes(number) == ParseFloat(number)
  {
  }

  /** Unit letters are read case-insensitively. */
  lemma UnitCaseInsensitive(number: string, u: char)
    requires 'a' <= u <= 'z'
    ensures SizeBytes(number + [u]) == SizeBytes(number + [Upper(u)])
  {
    var U := Upper(u);
    assert 'A' <= U <= 'Z' && Upper(U) == U;
    SizeWithUnit(number, u);
    SizeWithUnit(number, U);
  }

  /** A letter that is not a unit gives 0 bytes, so the item sorts last instead of being dropped. */
  lemma UnknownUnitIsZero(number: string, u: char)
    requires IsAlpha(u) && Upper(u) != 'G' && Upper(u) != 'M' && Upper(u) != 'K' && Upper(u) != 'B'
    requires ParseFloat(number).Some?
    ensures SizeBytes(number + [u]) == Some(0.0)
  {
    SizeWithUnit(number, u);
  }

  /** A lone unit letter has no number in front of it, so the item is dropped. */
  lemma LoneLetterDropped(u: char)
    requires IsAlpha(u)
    ensures SizeBytes([u]) == None
  {
    SizeWithUnit([], u);
  }

  /** A number with a decimal point at `p` and a unit letter, as `du -h` prints "1.5G". */
  lemma DecimalSize(number: string, p: nat, u: char)
    requires 0 < p < |number| - 1 && number[p] == '.' && AllDigits(number[..p]) && AllDigits(number[p + 1..])
    requires IsAlpha(u)
    ensures SizeBytes(number + [u]) ==
            Some(Scaled(PointValue(number[..p], number[p + 1..]), Some(Upper(u))))
  {
    DecimalLiteral(number, p);
    SizeWithUnit(number, u);
  }

  /** A whole number of bytes with no unit letter, as `du -h` prints "10". */
  lemma WholeSize(digits: string)
    requires digits != [] && AllDigits(digits)
    ensures SizeBytes(digits) == Some(DigitsValue(digits) as real)
  {
    DigitsLiteral(digits);
    DigitsHaveNoUnit(digits);
    NoUnitSize(digits, DigitsValue(digits) as real);
  }

  lemma DigitsHaveNoUnit(digits: string)
    requires digits != [] && AllDigits(digits)
    ensures !HasUnit(digits)
  {
    assert IsDigit(digits[|digits| - 1]);
  }

  lemma NoUnitSize(s: string, v: real)
    requires !HasUnit(s) && ParseFloat(s) == Some(v)
    ensures SizeBytes(s) == Some(v)
  {
  }

  /** A whole number with a unit letter, as `du -h` prints "512K". */
  lemma WholeSizeWithUnit(digits: string, u: char)
    requires digits != [] && AllDigits(digits) && IsAlpha(u)
    ensures SizeBytes(digits + [u]) == Some(Scaled(DigitsValue(digits) as real, Some(Upper(u))))
  {
    DigitsLiteral(digits);
    SizeWithUnit(digits, u);
  }

  /** Each unit is 1024 of the next smaller one; "B" and no letter both count bytes. */
  lemma UnitSteps(v: real)
    ensures Scaled(v, Some('G')) == Scaled(v * 1024.0, Some('M'))
    ensures Scaled(v, Some('M')) == Scaled(v * 1024.0, Some('K'))
    ensures Scaled(v, Some('K')) == Scaled(v * 1024.0, Some('B'))
    ensures Scaled(v, Some('B')) == Scaled(v, None) == v
  {
  }

  /** For a positive number, a larger unit gives more bytes. */
  lemma UnitsOrdered(v: real)
    requires v > 0.0
    ensures Scaled(v, Some('G')) > Scaled(v, Some('M')) > Scaled(v, Some('K')) > Scaled(v, Some('B')) > 0.0
  {
  }

  lemma UnitExamples()
    ensures Scaled(1.5, Some('G')) == 1610612736.0 && Scaled(512.0, Some('K')) == 524288.0
  {
  }

  lemma GigabytesLiteral()
    ensures SizeBytes("1.5G") == Some(Scaled(PointValue("1", "5"), Some('G')))
  {
    var n := "1.5";
    assert n + ['G'] == "1.5G";
    assert n[..1] == "1" && n[2..] == "5";
    DecimalSize(n, 1, 'G');
    assert Upper('G') == 'G';
  }

  lemma OnePointFive()
    ensures PointValue("1", "5") == 1.5
  {
    assert DigitsValue("1") == 1 && FracValue("5") == 0.5;
  }

  /** "1.5G", as `du -h` prints 1.5 GiB, is 1610612736 bytes. */
  lemma SizeOfGigabytes()
    ensures SizeBytes("1.5G") == Some(1610612736.0)
  {
    GigabytesLiteral();
    OnePointFive();
    UnitExamples();
  }

  lemma KilobytesLiteral()
    ensures SizeBytes("512K") == Some(Scaled(512.0, Some('K')))
  {
    var n := "512";
    assert n[..2] == "51" && "51"[..1] == "5";
    assert DigitsValue(n) == 512;
    assert n + ['K'] == "512K";
    WholeSizeWithUnit(n, 'K');
    assert Upper('K') == 'K';
  }

  /** "512K", as `du -h` prints 512 KiB, is 524288 bytes. */
  lemma SizeOfKilobytes()
    ensures SizeBytes("512K") == Some(524288.0)
  {
    KilobytesLiteral();
    UnitExamples();
  }

  lemma Ten()
    ensures DigitsValue("10") == 10
  {
    assert "10"[..1] == "1";
  }

  /** "10", with no unit letter, is 10 bytes. */
  lemma SizeOfBytes()
    ensures SizeBytes("10") == Some(10.0)
  {
    WholeSize("10");
    Ten();
  }

  /** An item that was sized: its bytes (the sort key), the size as du printed it, and its path. */
  datatype SizedItem = SizedItem(bytes: real, sizeStr: string, itemPath: string) {
    /** How the item is reported: the size as printed, a space, the path. */
    function Display(): string { sizeStr + " " + itemPath }
  }

  /**
   * What the du result for one item contributes: nothing unless du
   * succeeded with output that, stripped, splits at tabs into exactly two
   * fields whose first, stripped, reads as a size.
   */
  function DuEntry(itemPath: string, du: map<string, CommandResult>): Option<SizedItem> {
    if itemPath !in du then None
    else
      var r := du[itemPath];
      if !(r.success && r.stdout != []) then None
      else
        var parts := Split(Strip(r.stdout), '\t');
        if |parts| != 2 then None
        else
          var sizeStr := Strip(parts[0]);
          match SizeBytes(sizeStr)
          case None => None
          case Some(b) => Some(SizedItem(b, sizeStr, itemPath))
  }

  /** The output `<size>\t<path>\n`, stripped and split at tabs, gives back its two fields. */
  lemma DuOutputFields(sizeStr: string, reported: string)
    requires IsToken(sizeStr) && '\t' !in sizeStr
    requires reported != [] && '\t' !in reported && !IsSpace(reported[|reported| - 1])
    ensures Split(Strip(sizeStr + "\t" + reported + "\n"), '\t') == [sizeStr, reported]
    ensures Strip(sizeStr) == sizeStr
  {
    var body := sizeStr + ['\t'] + reported;
    assert sizeStr + "\t" + reported + "\n" == body + "\n";
    assert body[0] == sizeStr[0] && body[|body| - 1] == reported[|reported| - 1];
    StripTrailing(body, "\n");
    SplitTwo(sizeStr, reported, '\t');
  }

  /**
   * The line `du -sh` prints, `<size>\t<path>\n`, gives the item with
   * that size string, keyed by the item's own path.
   */
  lemma DuLine(itemPath: string, sizeStr: string, reported: string, du: map<string, CommandResult>)
    requires IsToken(sizeStr) && '\t' !in sizeStr
    requires reported != [] && '\t' !in reported && !IsSpace(reported[|reported| - 1])
    requires itemPath in du && du[itemPath] == CommandResult(true, sizeStr + "\t" + reported + "\n")
    ensures DuEntry(itemPath, du) ==
            match SizeBytes(sizeStr) case None => None case Some(b) => Some(SizedItem(b, sizeStr, itemPath))
  {
    DuOutputFields(sizeStr, reported);
  }

  /** The sized items of a list of item paths, in list order. */
  function SizedItems(items: seq<string>, du: map<string, CommandResult>): seq<SizedItem> {
    if items == [] then []
    else
      var last := DuEntry(items[|items| - 1], du);
      SizedItems(items[..|items| - 1], du) + (if last.Some? then [last.value] else [])
  }

  /** Every sized item is the contribution of one of the item paths. */
  lemma {:induction false} SizedItemsOrigin(items: seq<string>, du: map<string, CommandResult>, x: SizedItem)
    requires x in SizedItems(items, du)
    ensures x.itemPath in items && DuEntry(x.itemPath, du) == Some(x)
  {
    var init := items[..|items| - 1];
    if x in SizedItems(init, du) {
      SizedItemsOrigin(init, du, x);
    }
  }

  // ------------------------------------------------------------ sorting

  /** Non-increasing by bytes. */
  predicate SortedDesc(s: seq<SizedItem>) {
    forall i, j :: 0 <= i < j < |s| ==> s[i].bytes >= s[j].bytes
  }

  /** The items of `s` whose size is `b`, in order. */
  function KeyFilter(s: seq<SizedItem>, b: real): seq<SizedItem> {
    if s == [] then [] else (if s[0].bytes == b then [s[0]] else []) + KeyFilter(s[1..], b)
  }

  /** Inserts `x` in front of the first item that is not larger, so it stays ahead of its equals. */
  function InsertDesc(x: SizedItem, s: seq<SizedItem>): (r: seq<SizedItem>)
    ensures multiset(r) == multiset(s) + multiset{x}
  {
    if s == [] || s[0].bytes <= x.bytes then [x] + s
    else
      assert s == [s[0]] + s[1..];
      [s[0]] + InsertDesc(x, s[1..])
  }

  /** `sorted(s, key=bytes, reverse=True)`: a stable sort from largest to smallest. */
  function SortDesc(s: seq<SizedItem>): (r: seq<SizedItem>)
    ensures multiset(r) == multiset(s)
  {
    if s == [] then []
    else
      assert s == [s[0]] + s[1..];
      InsertDesc(s[0], SortDesc(s[1..]))
  }

  lemma SortedTail(s: seq<SizedItem>)
    requires s != [] && SortedDesc(s)
    ensures SortedDesc(s[1..])
  {
    forall i, j | 0 <= i < j < |s| - 1 ensures s[1..][i].bytes >= s[1..][j].bytes {
      assert s[1..][i] == s[i + 1] && s[1..][j] == s[j + 1];
    }
  }

  /** No item of `s` is larger than `c`. */
  predicate AtMost(s: seq<SizedItem>, c: real) {
    forall k :: 0 <= k < |s| ==> s[k].bytes <= c
  }

  /** Inserting an item no larger than `c` keeps every item at most `c`. */
  lemma {:induction false} InsertDescAtMost(x: SizedItem, s: seq<SizedItem>, c: real)
    requires x.bytes <= c && AtMost(s, c)
    ensures AtMost(InsertDesc(x, s), c)
  {
    if s != [] && s[0].bytes > x.bytes {
      var tail := s[1..];
      assert AtMost(tail, c) by {
        forall k | 0 <= k < |tail| ensures tail[k].bytes <= c {
          assert tail[k] == s[k + 1];
        }
      }
      InsertDescAtMost(x, tail, c);
      ConsAtMost(s[0], InsertDesc(x, tail), c);
    } else {
      ConsAtMost(x, s, c);
    }
  }

  lemma ConsAtMost(h: SizedItem, s: seq<SizedItem>, c: real)
    requires h.bytes <= c && AtMost(s, c)
    ensures AtMost([h] + s, c)
  {
    var r := [h] + s;
    forall k | 1 <= k < |r| ensures r[k].bytes <= c {
      assert r[k] == s[k - 1];
    }
  }

  /** An item in front of a sorted sequence of items no larger than it: still sorted. */
  lemma ConsSorted(h: SizedItem, s: seq<SizedItem>)
    requires SortedDesc(s) && AtMost(s, h.bytes)
    ensures SortedDesc([h] + s)
  {
    var r := [h] + s;
    forall i, j | 0 <= i < j < |r| ensures r[i].bytes >= r[j].bytes {
      assert r[j] == s[j - 1];
      if i > 0 {
        assert r[i] == s[i - 1];
      }
    }
  }

  /** The items after the first of a sorted sequence are at most the first. */
  lemma SortedHeadBound(s: seq<SizedItem>)
    requires s != [] && SortedDesc(s)
    ensures AtMost(s[1..], s[0].bytes)
  {
    var tail := s[1..];
    forall k | 0 <= k < |tail| ensures tail[k].bytes <= s[0].bytes {
      assert tail[k] == s[k + 1];
    }
  }

  lemma {:induction false} InsertDescSorted(x: SizedItem, s: seq<SizedItem>)
    requires SortedDesc(s)
    ensures SortedDesc(InsertDesc(x, s))
  {
    if s != [] && s[0].bytes > x.bytes {
      var tail := s[1..];
      SortedTail(s);
      InsertDescSorted(x, tail);
      SortedHeadBound(s);
      InsertDescAtMost(x, tail, s[0].bytes);
      ConsSorted(s[0], InsertDesc(x, tail));
    } else if s != [] {
      assert AtMost(s, x.bytes) by {
        forall k | 0 <= k < |s| ensures s[k].bytes <= x.bytes {
          assert s[k].bytes <= s[0].bytes;
        }
      }
      ConsSorted(x, s);
    }
  }

  lemma {:induction false} InsertDescKeyFilter(x: SizedItem, s: seq<SizedItem>, b: real)
    ensures KeyFilter(InsertDesc(x, s), b) == (if x.bytes == b then [x] else []) + KeyFilter(s, b)
  {
    if s == [] || s[0].bytes <= x.bytes {
      KeyFilterCons(x, s, b);
    } else {
      InsertDescKeyFilter(x, s[1..], b);
      KeyFilterCons(s[0], InsertDesc(x, s[1..]), b);
      KeyFilterCons(s[0], s[1..], b);
      assert [s[0]] + s[1..] == s;
    }
  }

  lemma KeyFilterCons(y: SizedItem, t: seq<SizedItem>, b: real)
    ensures KeyFilter([y] + t, b) == (if y.bytes == b then [y] else []) + KeyFilter(t, b)
  {
    assert ([y] + t)[1..] == t;
  }

  /** The sort's result is ordered from largest to smallest. */
  lemma {:induction false} SortDescSorted(s: seq<SizedItem>)
    ensures SortedDesc(SortDesc(s))
  {
    if s != [] {
      SortDescSorted(s[1..]);
      InsertDescSorted(s[0], SortDesc(s[1..]));
    }
  }

  /** The sort is stable: the items of any one size keep their original order. */
  lemma {:induction false} SortDescStable(s: seq<SizedItem>, b: real)
    ensures KeyFilter(SortDesc(s), b) == KeyFilter(s, b)
  {
    if s != [] {
      SortDescStable(s[1..], b);
      InsertDescKeyFilter(s[0], SortDesc(s[1..]), b);
    }
  }

  lemma {:induction false} KeyFilterMember(s: seq<SizedItem>, b: real, x: SizedItem)
    ensures x in KeyFilter(s, b) <==> x in s && x.bytes == b
  {
    if s != [] {
      KeyFilterMember(s[1..], b, x);
      assert s == [s[0]] + s[1..];
    }
  }

  lemma DropFirstOfFilter(t: seq<SizedItem>, u: seq<SizedItem>, b: real)
    requires t != [] && u != [] && t[0] == u[0]
    requires KeyFilter(t, b) == KeyFilter(u, b)
    ensures KeyFilter(t[1..], b) == KeyFilter(u[1..], b)
  {
    var ft, fu := KeyFilter(t, b), KeyFilter(u, b);
    if t[0].bytes == b {
      assert ft == [t[0]] + KeyFilter(t[1..], b);
      assert fu == [u[0]] + KeyFilter(u[1..], b);
      assert ft[1..] == KeyFilter(t[1..], b);
      assert fu[1..] == KeyFilter(u[1..], b);
    } else {
      assert ft == KeyFilter(t[1..], b);
      assert fu == KeyFilter(u[1..], b);
    }
  }

  lemma HeadInFilter(s: seq<SizedItem>)
    ensures s != [] ==> KeyFilter(s, s[0].bytes) != []
  {
  }

  /** The items of the first item's size start with the first item. */
  lemma KeyFilterHead(t: seq<SizedItem>)
    requires t != []
    ensures KeyFilter(t, t[0].bytes) == [t[0]] + KeyFilter(t[1..], t[0].bytes)
  {
  }

  /** When `u` holds the items of `t`'s first size, its first item is not smaller. */
  lemma HeadAtLeast(t: seq<SizedItem>, u: seq<SizedItem>)
    requires SortedDesc(u) && t != [] && u != [] && KeyFilter(t, t[0].bytes) == KeyFilter(u, t[0].bytes)
    ensures u[0].bytes >= t[0].bytes
  {
    var x := t[0];
    KeyFilterHead(t);
    assert x in KeyFilter(u, x.bytes);
    KeyFilterMember(u, x.bytes, x);
    var i :| 0 <= i < |u| && u[i] == x;
  }

  /** Two sorted orderings with the same items of every size start with the same item. */
  lemma HeadsAgree(t: seq<SizedItem>, u: seq<SizedItem>)
    requires SortedDesc(t) && SortedDesc(u) && t != [] && u != []
    requires forall b :: KeyFilter(t, b) == KeyFilter(u, b)
    ensures t[0] == u[0]
  {
    assert KeyFilter(t, t[0].bytes) == KeyFilter(u, t[0].bytes);
    HeadAtLeast(t, u);
    assert KeyFilter(u, u[0].bytes) == KeyFilter(t, u[0].bytes);
    HeadAtLeast(u, t);
    var b := t[0].bytes;
    KeyFilterHead(t);
    KeyFilterHead(u);
    assert KeyFilter(t, b)[0] == t[0] && KeyFilter(u, b)[0] == u[0];
  }

  /** Two orderings of the same items, both sorted and both keeping each size's order, are one. */
  lemma {:induction false} StableSortUnique(t: seq<SizedItem>, u: seq<SizedItem>)
    requires SortedDesc(t) && SortedDesc(u)
    requires forall b :: KeyFilter(t, b) == KeyFilter(u, b)
    ensures t == u
    decreases |t|
  {
    if t == [] || u == [] {
      if t != [] || u != [] {
        HeadInFilter(t);
        HeadInFilter(u);
        assert false;
      }
    } else {
      HeadsAgree(t, u);
      forall b ensures KeyFilter(t[1..], b) == KeyFilter(u[1..], b) {
        DropFirstOfFilter(t, u, b);
      }
      SortedTail(t);
      SortedTail(u);
      StableSortUnique(t[1..], u[1..]);
      SeqCons(t);
      SeqCons(u);
    }
  }

  /**
   * `SortDesc(s)` is exactly the ordering a stable descending sort must
   * produce: sorted, each size's items in their original order, and any
   * ordering with both properties is `SortDesc(s)`.
   */
  lemma StableSortIsSortDesc(s: seq<SizedItem>, t: seq<SizedItem>)
    ensures SortedDesc(SortDesc(s)) && forall b :: KeyFilter(SortDesc(s), b) == KeyFilter(s, b)
    ensures SortedDesc(t) && (forall b :: KeyFilter(t, b) == KeyFilter(s, b)) ==> t == SortDesc(s)
  {
    SortDescSorted(s);
    var r := SortDesc(s);
    forall b ensures KeyFilter(r, b) == KeyFilter(s, b) {
      SortDescStable(s, b);
    }
    if SortedDesc(t) && forall b :: KeyFilter(t, b) == KeyFilter(s, b) {
      forall b ensures KeyFilter(t, b) == KeyFilter(r, b) {
        assert KeyFilter(t, b) == KeyFilter(s, b);
      }
      StableSortUnique(t, r);
    }
  }

  // ------------------------------------------------------------ truncation

  /** `s[:count]`, with Python's meaning for a negative count (that many dropped from the end). */
  function Take<T>(s: seq<T>, count: int): (r: seq<T>)
    ensures count >= 0 ==> |r| == if count < |s| then count else |s|
    ensures count < 0 ==> |r| == if |s| + count > 0 then |s| + count else 0
    ensures r == s[..|r|]
  {
    if count >= 0 then (if count < |s| then s[..count] else s)
    else if |s| + count > 0 then s[..|s| + count] else []
  }

  /** The sized candidates of a listing; none when `ls` failed. */
  function Sized(path: string, ls: CommandResult, du: map<string, CommandResult>): seq<SizedItem> {
    if !ls.success then [] else SizedItems(Candidates(path, SplitLines(ls.stdout)), du)
  }

  /** The kept items: the sized candidates, largest first, the first `count` of them. */
  function Ranked(path: string, count: int, ls: CommandResult, du: map<string, CommandResult>): seq<SizedItem> {
    Take(SortDesc(Sized(path, ls, du)), count)
  }

  /**
   * Keeping a prefix of the sorted items splits them in two: the kept ones,
   * largest first, and the dropped rest, none of which is larger than any
   * kept one; together they are the items given.
   */
  lemma TopOfSorted(s: seq<SizedItem>, count: int)
    ensures var top := Take(SortDesc(s), count);
            var rest := SortDesc(s)[|top|..];
            && SortedDesc(top)
            && multiset(top) + multiset(rest) == multiset(s)
            && forall i, j :: 0 <= i < |top| && 0 <= j < |rest| ==> top[i].bytes >= rest[j].bytes
  {
    var r := SortDesc(s);
    SortDescSorted(s);
    var top := Take(r, count);
    SortedSplit(r, |top|);
  }

  /** Cutting a sorted sequence in two: both parts sorted, together the same items, the first part never smaller. */
  lemma SortedSplit(r: seq<SizedItem>, n: nat)
    requires SortedDesc(r) && n <= |r|
    ensures SortedDesc(r[..n])
    ensures multiset(r[..n]) + multiset(r[n..]) == multiset(r)
    ensures forall i, j :: 0 <= i < n && 0 <= j < |r| - n ==> r[..n][i].bytes >= r[n..][j].bytes
  {
    var top, rest := r[..n], r[n..];
    assert r == top + rest;
    forall i, j | 0 <= i < j < n ensures top[i].bytes >= top[j].bytes {
      assert top[i] == r[i] && top[j] == r[j];
    }
    forall i, j | 0 <= i < n && 0 <= j < |rest| ensures top[i].bytes >= rest[j].bytes {
      assert top[i] == r[i] && rest[j] == r[n + j];
    }
  }

  /**
   * What the ranking promises: `count` items, or all of them when fewer
   * were sized; largest first; no dropped item larger than a kept one.
   */
  lemma RankedProperties(path: string, count: int, ls: CommandResult, du: map<string, CommandResult>)
    ensures var sized := Sized(path, ls, du);
            var top := Ranked(path, count, ls, du);
            var rest := SortDesc(sized)[|top|..];
            && (count >= 0 ==> |top| == if count < |sized| then count else |sized|)
            && SortedDesc(top)
            && multiset(top) + multiset(rest) == multiset(sized)
            && forall i, j :: 0 <= i < |top| && 0 <= j < |rest| ==> top[i].bytes >= rest[j].bytes
  {
    TopOfSorted(Sized(path, ls, du), count);
  }

  /** Each kept item is a candidate of the listing, carrying what its du result says. */
  lemma RankedOrigin(path: string, count: int, ls: CommandResult, du: map<string, CommandResult>, i: nat)
    requires i < |Ranked(path, count, ls, du)|
    ensures var x := Ranked(path, count, ls, du)[i];
            && ls.success
            && x.itemPath in Candidates(path, SplitLines(ls.stdout))
            && DuEntry(x.itemPath, du) == Some(x)
  {
    var sized := Sized(path, ls, du);
    var r := SortDesc(sized);
    var top := Ranked(path, count, ls, du);
    assert top[i] == r[i];
    assert r[i] in multiset(sized);
    SizedItemsOrigin(Candidates(path, SplitLines(ls.stdout)), du, top[i]);
  }

  /** A failed listing, or one in which no line passes the filter, ranks nothing. */
  lemma NothingListed(path: string, count: int, ls: CommandResult, du: map<string, CommandResult>)
    requires !ls.success || Candidates(path, SplitLines(ls.stdout)) == []
    ensures Ranked(path, count, ls, du) == []
  {
  }

  /** An empty directory, which `ls -aF` lists as its two dot links, ranks nothing. */
  lemma EmptyDirectoryRanksNothing(path: string, count: int, du: map<string, CommandResult>)
    ensures Ranked(path, count, CommandResult(true, "./\n../\n"), du) == []
  {
    var lines := ["./", "../"];
    DotLinkLines();
    SplitLinesTerminated(lines);
    DotLinkNotListed("./");
    DotLinkNotListed("../");
    TwoUnlisted(path, "./", "../");
    NothingListed(path, count, CommandResult(true, "./\n../\n"), du);
  }

  lemma DotLinkLines()
    ensures Terminated(["./", "../"]) == "./\n../\n"
    ensures NoLineBreak("./") && NoLineBreak("../")
  {
  }

  lemma DotLinkNotListed(s: string)
    requires s == "./" || s == "../"
    ensures !IsListed(Strip(s))
  {
    assert s[0] == '.' && s[|s| - 1] == '/';
    StripUnchanged(s);
  }

  lemma TwoUnlisted(path: string, a: string, b: string)
    requires !IsListed(Strip(a)) && !IsListed(Strip(b))
    ensures Candidates(path, [a, b]) == []
  {
    assert Kept(path, a) == [] && Kept(path, b) == [];
    assert [a, b][..1] == [a] && [a][..0] == [];
    assert Candidates(path, [a]) == Candidates(path, []) + Kept(path, a);
  }

  /** Every item path whose du output gives a size contributes that sized item. */
  lemma {:induction false} SizedItemsComplete(items: seq<string>, du: map<string, CommandResult>, x: string)
    requires x in items && DuEntry(x, du).Some?
    ensures DuEntry(x, du).value in SizedItems(items, du)
  {
    var init, last := items[..|items| - 1], items[|items| - 1];
    assert SizedItems(items, du) == SizedItems(init, du) + (if DuEntry(last, du).Some? then [DuEntry(last, du).value] else []);
    if x != last {
      InInit(items, x);
      SizedItemsComplete(init, du, x);
    }
  }

  lemma InInit<T>(s: seq<T>, x: T)
    requires x in s && x != s[|s| - 1]
    ensures x in s[..|s| - 1]
  {
    var k :| 0 <= k < |s| && s[k] == x;
    assert s[..|s| - 1][k] == x;
  }

  /**
   * Every candidate whose du output gives a size is either ranked or no
   * larger than any ranked item.
   */
  lemma DroppedNotLarger(path: string, count: int, ls: CommandResult, du: map<string, CommandResult>, x: string)
    requires ls.success && x in Candidates(path, SplitLines(ls.stdout)) && DuEntry(x, du).Some?
    ensures var top := Ranked(path, count, ls, du);
            DuEntry(x, du).value in top || forall i :: 0 <= i < |top| ==> top[i].bytes >= DuEntry(x, du).value.bytes
  {
    var sized := Sized(path, ls, du);
    SizedItemsComplete(Candidates(path, SplitLines(ls.stdout)), du, x);
    RankedProperties(path, count, ls, du);
    var top := Ranked(path, count, ls, du);
    NotKeptNotLarger(top, SortDesc(sized)[|top|..], sized, DuEntry(x, du).value);
  }

  lemma NotKeptNotLarger(top: seq<SizedItem>, rest: seq<SizedItem>, all: seq<SizedItem>, y: SizedItem)
    requires multiset(top) + multiset(rest) == multiset(all) && y in all
    requires forall i, j :: 0 <= i < |top| && 0 <= j < |rest| ==> top[i].bytes >= rest[j].bytes
    ensures y in top || forall i :: 0 <= i < |top| ==> top[i].bytes >= y.bytes
  {
    assert y in multiset(all);
    if y !in top {
      assert y in rest;
      var j :| 0 <= j < |rest| && rest[j] == y;
    }
  }

  // ------------------------------------------------------------ the method

  /** The listing loop: the item paths of the kept lines, in listing order. */
  method ListCandidates(path: string, lines: seq<string>) returns (potentialItems: seq<string>)
    ensures potentialItems == Candidates(path, lines)
  {
    potentialItems := [];
    for i := 0 to |lines|
      invariant potentialItems == Candidates(path, lines[..i])
    {
      CandidatesSnoc(path, lines, i);
      var itemName := Strip(lines[i]);
      if itemName != "" && itemName != "." && itemName != ".." && itemName != "./" && itemName != "../" {
        var fullItemPath := ReplaceChar(PosixJoin(path, itemName), '\\', '/');
        potentialItems := potentialItems + [fullItemPath];
      }
    }
    assert lines[..|lines|] == lines;
  }

  /** The du loop: the items whose du output gives a size, in the order of `potentialItems`. */
  method SizeCandidates(potentialItems: seq<string>, du: map<string, CommandResult>)
    returns (folderSizesRaw: seq<SizedItem>)
    ensures folderSizesRaw == SizedItems(potentialItems, du)
  {
    folderSizesRaw := [];
    for i := 0 to |potentialItems|
      invariant folderSizesRaw == SizedItems(potentialItems[..i], du)
    {
      var itemPath := potentialItems[i];
      assert potentialItems[..i + 1][..i] == potentialItems[..i];
      assert SizedItems(potentialItems[..i + 1], du) == SizedItems(potentialItems[..i], du) +
        (if DuEntry(itemPath, du).Some? then [DuEntry(itemPath, du).value] else []);
      var result := if itemPath in du then du[itemPath] else CommandResult(false, "");
      if result.success && result.stdout != "" {
        var line := Strip(result.stdout);
        var parts := Split(line, '\t');
        if |parts| == 2 {
          var sizeStr := Strip(parts[0]);
          var sizeVal := ParseFloat(SizeNumber(sizeStr));
          var unit := SizeUnit(sizeStr);
          if sizeVal.Some? {
            var sizeBytes := Scaled(sizeVal.value, unit);
            SizeOfNumber(sizeStr, sizeVal.value);
            assert DuEntry(itemPath, du) == Some(SizedItem(sizeBytes, sizeStr, itemPath));
            folderSizesRaw := folderSizesRaw + [SizedItem(sizeBytes, sizeStr, itemPath)];
          } else {
            assert DuEntry(itemPath, du) == None;
          }
        } else {
          assert DuEntry(itemPath, du) == None;
        }
      } else {
        assert DuEntry(itemPath, du) == None;
      }
    }
    assert potentialItems[..|potentialItems|] == potentialItems;
  }

  /**
   * `get_top_large_folders`: the display strings of the ranked items,
   * "<size as printed> <item path>", largest first.
   */
  method GetTopLargeItems(path: string, count: int, ls: CommandResult, du: map<string, CommandResult>)
    returns (top: seq<string>)
    ensures |top| == |Ranked(path, count, ls, du)|
    ensures forall i :: 0 <= i < |top| ==> top[i] == Ranked(path, count, ls, du)[i].Display()
  {
    if !ls.success {
      return [];
    }
    var potentialItems := ListCandidates(path, SplitLines(ls.stdout));
    if potentialItems == [] {
      RankedOfSized(path, count, ls, du, []);
      return [];
    }
    var folderSizesRaw := SizeCandidates(potentialItems, du);
    RankedOfSized(path, count, ls, du, folderSizesRaw);
    folderSizesRaw := SortDesc(folderSizesRaw);
    top := Displays(Take(folderSizesRaw, count));
  }

  /** The list comprehension of the return: each item's display string, in order. */
  function Displays(s: seq<SizedItem>): (r: seq<string>)
    ensures |r| == |s| && forall i :: 0 <= i < |s| ==> r[i] == s[i].Display()
  {
    if s == [] then [] else [s[0].Display()] + Displays(s[1..])
  }

  lemma RankedOfSized(path: string, count: int, ls: CommandResult, du: map<string, CommandResult>, sized: seq<SizedItem>)
    requires ls.success && sized == SizedItems(Candidates(path, SplitLines(ls.stdout)), du)
    ensures Ranked(path, count, ls, du) == Take(SortDesc(sized), count)
  {
  }
}
