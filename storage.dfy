/**
 * The storage-capacity survey of `get_storage_details`
 * (adb_utils.py:79-161): one record per storage volume, with the capacity
 * read from the first line of the `df -k` report that describes it.
 */
module StorageSurvey {
  import opened Wrappers
  import opened PyText
  import opened Shell

  /** Kilobytes per gigabyte (`1024**2`). */
  const KB_PER_GB: int := 1024 * 1024

  const INTERNAL_0: string := "/storage/emulated/0"
  const INTERNAL: string := "/storage/emulated"
  const SDCARD: string := "/sdcard"

  /** The spellings under which the primary internal volume is mounted. */
  predicate IsInternalAlias(p: string) {
    p == INTERNAL_0 || p == INTERNAL || p == SDCARD
  }

  /** A df mount point describes a volume path: the same string, or two internal aliases. */
  predicate MountMatches(mount: string, path: string) {
    mount == path || (IsInternalAlias(path) && IsInternalAlias(mount))
  }

  /** Matching is an equivalence: the alias set is compared symmetrically. */
  lemma MountMatchesEquivalence(a: string, b: string, c: string)
    ensures MountMatches(a, a)
    ensures MountMatches(a, b) == MountMatches(b, a)
    ensures MountMatches(a, b) && MountMatches(b, c) ==> MountMatches(a, c)
  {
  }

  /** One line of the df report: where it is mounted and its three sizes in kilobytes. */
  datatype DfRow = DfRow(mount: string, totalKB: int, usedKB: int, availableKB: int)

  /** The four capacity figures of a volume, before they are formatted for display. */
  datatype Capacity = Capacity(totalGb: real, usedGb: real, availableGb: real, percentageUsed: real)

  /** A survey record; `capacity == None` is the record whose four figures read "N/A". */
  datatype StorageDetail = StorageDetail(name: string, path: string, capacity: Option<Capacity>)

  /** The report's lines: the stripped output split at '\n', or none when df failed. */
  function DfLines(df: CommandResult): seq<string> {
    if df.success then Split(Strip(df.stdout), '\n') else []
  }

  /**
   * The row a df line gives: it needs at least six whitespace-separated
   * tokens, the mount point is the last, and tokens 1 to 3 must read as
   * integers.
   */
  function ParseDfLine(line: string): Option<DfRow> {
    RowOfParts(SplitWs(line))
  }

  /** The row the words of a df line give (see ParseDfLine). */
  function RowOfParts(parts: seq<string>): Option<DfRow> {
    if |parts| < 6 then None
    else
      var total, used, available := ParseInt(parts[1]), ParseInt(parts[2]), ParseInt(parts[3]);
      if total.Some? && used.Some? && available.Some? then
        Some(DfRow(parts[|parts| - 1], total.value, used.value, available.value))
      else None
  }

  /** A df line written out from its tokens, with the sizes rendered as integers, reads back as that row. */
  lemma {:induction false} DfLineOfTokens(toks: seq<string>, total: int, used: int, available: int)
    requires |toks| >= 6
    requires forall i :: 0 <= i < |toks| ==> IsToken(toks[i])
    requires toks[1] == IntToString(total) && toks[2] == IntToString(used) && toks[3] == IntToString(available)
    ensures ParseDfLine(Join(toks, " ")) == Some(DfRow(toks[|toks| - 1], total, used, available))
  {
    SplitWsJoin(toks);
    var parts := SplitWs(Join(toks, " "));
    assert parts == toks;
    IntRoundTrip(total);
    IntRoundTrip(used);
    IntRoundTrip(available);
    assert ParseInt(parts[1]) == Some(total);
    assert ParseInt(parts[2]) == Some(used);
    assert ParseInt(parts[3]) == Some(available);
  }

  /** Sizes in gigabytes and the used percentage (see CapacityFigures). */
  function ToCapacity(row: DfRow): Capacity {
    var t, u, a := row.totalKB as real, row.usedKB as real, row.availableKB as real;
    Capacity(t / KB_PER_GB as real, u / KB_PER_GB as real, a / KB_PER_GB as real,
             if row.totalKB > 0 then (u / t) * 100.0 else 0.0)
  }

  /**
   * The figures of a row: kilobytes over 1024 * 1024, and the used share of
   * the total in percent, which is 0 (never a division by zero) when the
   * total is not positive and lies within 0..100 for a consistent row.
   */
  lemma CapacityFigures(row: DfRow)
    ensures ToCapacity(row).totalGb * KB_PER_GB as real == row.totalKB as real
    ensures ToCapacity(row).usedGb * KB_PER_GB as real == row.usedKB as real
    ensures ToCapacity(row).availableGb * KB_PER_GB as real == row.availableKB as real
    ensures row.totalKB > 0 ==> ToCapacity(row).percentageUsed * row.totalKB as real == 100.0 * row.usedKB as real
    ensures row.totalKB <= 0 ==> ToCapacity(row).percentageUsed == 0.0
    ensures 0 <= row.usedKB <= row.totalKB ==> 0.0 <= ToCapacity(row).percentageUsed <= 100.0
  {
    var t, u := row.totalKB as real, row.usedKB as real;
    if row.totalKB > 0 {
      assert (u / t) * t == u;
      if 0 <= row.usedKB <= row.totalKB {
        assert u / t <= 1.0;
      }
    }
  }

  /** `f` applied to each element of `s`, in order. */
  function MapSeq<A, B>(f: A -> B, s: seq<A>): (r: seq<B>)
    ensures |r| == |s|
  {
    if s == [] then [] else [f(s[0])] + MapSeq(f, s[1..])
  }

  lemma {:induction false} MapSeqAt<A, B>(f: A -> B, s: seq<A>, i: nat)
    requires i < |s|
    ensures MapSeq(f, s)[i] == f(s[i])
  {
    if i > 0 {
      assert s[1..][i - 1] == s[i];
      MapSeqAt(f, s[1..], i - 1);
    }
  }

  /** Each df line's row, in report order. */
  function DfRows(lines: seq<string>): (rows: seq<Option<DfRow>>)
    ensures |rows| == |lines|
  {
    MapSeq(ParseDfLine, lines)
  }

  /** The capacity a parsed df line supplies for `path`: its mount point matches. */
  function RowCapacity(row: Option<DfRow>, path: string): Option<Capacity> {
    match row
    case Some(r) => if MountMatches(r.mount, path) then Some(ToCapacity(r)) else None
    case None => None
  }

  /** The capacity of the first row, in report order, that supplies one for `path`. */
  function FirstCapacity(rows: seq<Option<DfRow>>, path: string): Option<Capacity> {
    if rows == [] then None
    else if RowCapacity(rows[0], path).Some? then RowCapacity(rows[0], path)
    else FirstCapacity(rows[1..], path)
  }

  /** The capacity the survey reports for `path` given the df report's lines. */
  function Resolve(lines: seq<string>, path: string): Option<Capacity> {
    FirstCapacity(DfRows(lines), path)
  }

  /** The first row that supplies a capacity decides; the rows after it are not looked at. */
  lemma {:induction false} FirstCapacityIsFirst(rows: seq<Option<DfRow>>, path: string, i: nat)
    requires i < |rows| && RowCapacity(rows[i], path).Some?
    requires forall j :: 0 <= j < i ==> RowCapacity(rows[j], path).None?
    ensures FirstCapacity(rows, path) == RowCapacity(rows[i], path)
  {
    if i > 0 {
      assert RowCapacity(rows[0], path).None?;
      assert rows[1..][i - 1] == rows[i];
      FirstCapacityIsFirst(rows[1..], path, i - 1);
    }
  }

  /** "N/A" comes out exactly when every row has been tried and none supplies a capacity. */
  lemma {:induction false} FirstCapacityNone(rows: seq<Option<DfRow>>, path: string)
    ensures FirstCapacity(rows, path).None? <==> forall j :: 0 <= j < |rows| ==> RowCapacity(rows[j], path).None?
  {
    if rows != [] {
      FirstCapacityNone(rows[1..], path);
      assert forall j :: 1 <= j < |rows| ==> rows[j] == rows[1..][j - 1];
    }
  }

  /** A found capacity comes from some row, with no earlier row supplying one. */
  lemma {:induction false} FirstCapacityFound(rows: seq<Option<DfRow>>, path: string)
    requires FirstCapacity(rows, path).Some?
    ensures exists i :: 0 <= i < |rows| && RowCapacity(rows[i], path) == FirstCapacity(rows, path)
                        && forall j :: 0 <= j < i ==> RowCapacity(rows[j], path).None?
  {
    if RowCapacity(rows[0], path).None? {
      FirstCapacityFound(rows[1..], path);
      var i :| 0 <= i < |rows[1..]| && RowCapacity(rows[1..][i], path) == FirstCapacity(rows[1..], path)
               && forall j :: 0 <= j < i ==> RowCapacity(rows[1..][j], path).None?;
      assert rows[i + 1] == rows[1..][i];
      assert forall j :: 1 <= j < i + 1 ==> rows[j] == rows[1..][j - 1];
    } else {
      assert RowCapacity(rows[0], path) == FirstCapacity(rows, path);
    }
  }

  /** An internal-storage path finds a capacity whenever some parsed row is mounted under an internal alias. */
  lemma AliasResolves(rows: seq<Option<DfRow>>, path: string, i: nat)
    requires IsInternalAlias(path)
    requires i < |rows| && rows[i].Some? && IsInternalAlias(rows[i].value.mount)
    ensures FirstCapacity(rows, path).Some?
  {
    FirstCapacityNone(rows, path);
    assert RowCapacity(rows[i], path).Some?;
  }

  /**
   * Resolution is a single pass: an internal-alias line that comes first
   * wins over a later line whose mount point is the path itself.
   */
  lemma AliasBeforeExactWins(first: string, second: string, alias: DfRow, exact: DfRow)
    requires ParseDfLine(first) == Some(alias) && alias.mount == SDCARD
    requires ParseDfLine(second) == Some(exact) && exact.mount == INTERNAL_0
    ensures Resolve([first, second], INTERNAL_0) == Some(ToCapacity(alias))
  {
    var rows := DfRows([first, second]);
    assert MountMatches(alias.mount, INTERNAL_0);
    FirstCapacityIsFirst(rows, INTERNAL_0, 0);
  }

  /**
   * A df line of the usual shape, "fs 100 40 55 40% /sdcard", parses to its
   * row; the line is written as its six words joined by single spaces, the
   * sizes as `str` renders them, which is that same text.
   */
  lemma SdcardLineParses()
    ensures ParseDfLine(Join(["fs", IntToString(100), IntToString(40), IntToString(55), "40%", SDCARD], " "))
            == Some(DfRow(SDCARD, 100, 40, 55))
  {
    var toks := ["fs", IntToString(100), IntToString(40), IntToString(55), "40%", SDCARD];
    SampleTokens(toks);
    DfLineOfTokens(toks, 100, 40, 55);
  }

  lemma SampleTokens(toks: seq<string>)
    requires toks == ["fs", IntToString(100), IntToString(40), IntToString(55), "40%", SDCARD]
    ensures forall i :: 0 <= i < |toks| ==> IsToken(toks[i])
  {
    DigitsToken(IntToString(100));
    DigitsToken(IntToString(40));
    DigitsToken(IntToString(55));
    assert IsToken("fs") && IsToken("40%") && IsToken(SDCARD);
  }

  lemma DigitsToken(d: string)
    requires d != [] && AllDigits(d)
    ensures IsToken(d)
  {
    forall j | 0 <= j < |d| ensures !IsSpace(d[j]) {
      DigitNotSpace(d[j]);
    }
  }

  /** Skipping a row that supplies nothing leaves the search result unchanged. */
  lemma SkipRow(rows: seq<Option<DfRow>>, j: nat, path: string)
    requires j < |rows| && RowCapacity(rows[j], path).None?
    ensures FirstCapacity(rows[j..], path) == FirstCapacity(rows[j + 1..], path)
  {
    assert rows[j..][0] == rows[j];
    assert rows[j..][1..] == rows[j + 1..];
  }

  /** A row that supplies a capacity ends the search there. */
  lemma StopAtRow(rows: seq<Option<DfRow>>, j: nat, path: string)
    requires j < |rows| && RowCapacity(rows[j], path).Some?
    ensures FirstCapacity(rows[j..], path) == RowCapacity(rows[j], path)
  {
    assert rows[j..][0] == rows[j];
  }

  /** The words of a matching line whose sizes read as integers supply that line's capacity. */
  lemma MatchedLine(parts: seq<string>, path: string, total: int, used: int, available: int)
    requires |parts| >= 6 && MountMatches(parts[|parts| - 1], path)
    requires ParseInt(parts[1]) == Some(total) && ParseInt(parts[2]) == Some(used) && ParseInt(parts[3]) == Some(available)
    ensures RowCapacity(RowOfParts(parts), path) == Some(ToCapacity(DfRow(parts[|parts| - 1], total, used, available)))
  {
  }

  /** Any other line supplies nothing: too few words, another mount point, or a size that is not an integer. */
  lemma SkippedLine(parts: seq<string>, path: string)
    requires !(|parts| >= 6 && MountMatches(parts[|parts| - 1], path)
               && ParseInt(parts[1]).Some? && ParseInt(parts[2]).Some? && ParseInt(parts[3]).Some?)
    ensures RowCapacity(RowOfParts(parts), path).None?
  {
  }

  /**
   * The body of the inner loop of `get_storage_details`: a line gives a
   * capacity when it has six or more words, its last word matches `path`
   * and words 1 to 3 read as integers.
   */
  method LineCapacity(line: string, path: string) returns (capacity: Option<Capacity>)
    ensures capacity == RowCapacity(ParseDfLine(line), path)
  {
    var parts := SplitWs(line);
    if |parts| >= 6 {
      var mountPoint := parts[|parts| - 1];
      var isInternalCanonicalPath := path == INTERNAL_0 || path == INTERNAL || path == SDCARD;
      var isDfInternalMount := mountPoint == INTERNAL_0 || mountPoint == INTERNAL || mountPoint == SDCARD;
      if mountPoint == path || (isInternalCanonicalPath && isDfInternalMount) {
        var total, used, available := ParseInt(parts[1]), ParseInt(parts[2]), ParseInt(parts[3]);
        if total.Some? && used.Some? && available.Some? {
          MatchedLine(parts, path, total.value, used.value, available.value);
          return Some(ToCapacity(DfRow(mountPoint, total.value, used.value, available.value)));
        }
      }
    }
    SkippedLine(parts, path);
    return None;
  }

  /**
   * The inner loop of `get_storage_details`: the df lines are scanned in
   * order and the first one that matches `path` and parses gives the
   * capacity; a matching line that does not parse is skipped.
   */
  method FindCapacity(dfLines: seq<string>, path: string) returns (capacity: Option<Capacity>)
    ensures capacity == Resolve(dfLines, path)
  {
    capacity := None;
    ghost var rows := DfRows(dfLines);
    assert rows[0..] == rows;
    var j := 0;
    while j < |dfLines|
      invariant 0 <= j <= |dfLines|
      invariant capacity.None?
      invariant FirstCapacity(rows, path) == FirstCapacity(rows[j..], path)
    {
      var found := LineCapacity(dfLines[j], path);
      MapSeqAt(ParseDfLine, dfLines, j);
      if found.Some? {
        capacity := found;
        StopAtRow(rows, j, path);
        break;
      }
      SkipRow(rows, j, path);
      j := j + 1;
    }
    assert Resolve(dfLines, path) == FirstCapacity(rows, path);
  }

  /**
   * `get_storage_details`: for each (name, path) volume, in order, a
   * record with the name and path copied and the capacity of the first
   * df line that matches the path and parses ("N/A" when there is none,
   * in particular when df failed).
   */
  method GetStorageDetails(storages: seq<(string, string)>, df: CommandResult) returns (all: seq<StorageDetail>)
    ensures |all| == |storages|
    ensures forall i :: 0 <= i < |all| ==> all[i].name == storages[i].0 && all[i].path == storages[i].1
    ensures forall i :: 0 <= i < |all| ==> all[i].capacity == Resolve(DfLines(df), storages[i].1)
    ensures !df.success ==> forall i :: 0 <= i < |all| ==> all[i].capacity.None?
  {
    if |storages| == 0 {
      return [];
    }
    var dfLines: seq<string> := [];
    if df.success {
      dfLines := Split(Strip(df.stdout), '\n');
    }
    assert dfLines == DfLines(df);
    all := [];
    for k := 0 to |storages|
      invariant |all| == k
      invariant forall i :: 0 <= i < k ==> all[i] == StorageDetail(storages[i].0, storages[i].1, Resolve(dfLines, storages[i].1))
    {
      var (name, path) := storages[k];
      var capacity := FindCapacity(dfLines, path);
      all := all + [StorageDetail(name, path, capacity)];
    }
  }
}
