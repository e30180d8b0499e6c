/**
 * Reading device properties out of the text `adb shell getprop` prints,
 * one `[key]: [value]` line per property (adb_utils.py:48-77, and the
 * same loop for the additional properties at adb_utils.py:329-346).
 */
module Getprop {
  import opened Wrappers
  import opened PyText

  /** The text that separates a key from its value on a property line. */
  const SEP: string := "]: ["

  const NA: string := "N/A"

  /** The four properties `get_device_info` reports. */
  const DEVICE_KEYS: set<string> := {"net.bt.name", "ro.product.model", "ro.product.manufacturer", "net.hostname"}

  /** The eight further properties the device listing reports when present. */
  const ADDITIONAL_KEYS: set<string> := {
    "ro.product.name", "ro.oxygen.version", "ro.build.description", "ro.build.kernel.id",
    "ro.build.soft.version", "ro.build.version.ota", "ro.product.cpu.abilist", "ro.system.build.date"
  }

  /** A line of the shape the parser accepts: starts with '[', holds "]: [", ends with ']'. */
  predicate IsPropLine(line: string) {
    StartsWith(line, "[") && Contains(line, SEP) && EndsWith(line, "]")
  }

  /** An accepted line starts with '['. */
  lemma OpensWithBracket(line: string)
    requires StartsWith(line, "[")
    ensures line[0] == '['
  {
    assert line[..1] == "[";
  }

  /** An accepted line ends with ']'. */
  lemma ClosesWithBracket(line: string)
    requires EndsWith(line, "]")
    ensures line[|line| - 1] == ']'
  {
    assert line[|line| - 1..] == "]";
  }

  /** A separator at `p` has ']' at `p` and '[' at `p + 3`. */
  lemma SeparatorChars(line: string, p: nat)
    requires OccursAt(line, SEP, p)
    ensures line[p] == ']' && line[p + 3] == '['
  {
    var window := line[p..p + 4];
    assert window == SEP;
    assert line[p] == window[0];
    assert line[p + 3] == window[3];
  }

  /** On an accepted line the first separator starts after the '[' and ends before the final ']'. */
  lemma SeparatorInside(line: string)
    requires IsPropLine(line)
    ensures 1 <= FindSub(line, SEP).value && FindSub(line, SEP).value + |SEP| < |line|
  {
    var p := FindSub(line, SEP).value;
    SeparatorChars(line, p);
    OpensWithBracket(line);
    ClosesWithBracket(line);
  }

  /** An occurrence at `q` inside `line[1..p]` is an occurrence at `q + 1` in `line`. */
  lemma OccursShifted(line: string, p: nat, q: nat)
    requires 1 <= p <= |line| && OccursAt(line[1..p], SEP, q)
    ensures OccursAt(line, SEP, q + 1) && q + 1 < p
  {
    SliceOfSlice(line, 1, p, q, |SEP|);
  }

  lemma SliceOfSlice(s: string, a: nat, b: nat, q: nat, n: nat)
    requires a <= b <= |s| && q + n <= b - a
    ensures s[a..b][q..q + n] == s[a + q..a + q + n]
  {
    var u, v := s[a..b][q..q + n], s[a + q..a + q + n];
    forall i | 0 <= i < n ensures u[i] == v[i] {
    }
    assert u == v;
  }

  /** The text before the first separator holds no separator. */
  lemma KeyFree(line: string, p: nat)
    requires FindSub(line, SEP) == Some(p) && 1 <= p
    ensures !Contains(line[1..p], SEP)
  {
    var r := FindSub(line[1..p], SEP);
    if r.Some? {
      OccursShifted(line, p, r.value);
      assert false;
    }
  }

  /** The key: the text between the leading '[' and the first "]: [". */
  function PropKey(line: string): (k: string)
    requires IsPropLine(line)
    ensures !Contains(k, SEP)
  {
    SeparatorInside(line);
    var p := FindSub(line, SEP).value;
    KeyFree(line, p);
    line[1..p]
  }

  /** The value: the rest of the line after the separator, without its final ']'. */
  function PropValue(line: string): string
    requires IsPropLine(line)
  {
    SeparatorInside(line);
    var p := FindSub(line, SEP).value;
    line[p + |SEP|..|line| - 1]
  }

  /** How `getprop` prints a property. */
  function Render(key: string, value: string): string {
    "[" + key + SEP + value + "]"
  }

  /** Every accepted line is the rendering of its key and value. */
  lemma PropLineParts(line: string)
    requires IsPropLine(line)
    ensures line == Render(PropKey(line), PropValue(line))
  {
    SeparatorInside(line);
    var p := FindSub(line, SEP).value;
    OpensWithBracket(line);
    ClosesWithBracket(line);
    Reassemble(line, p, |SEP|);
  }

  /** A text cut at its first character, at `p`, at `p + n` and at its last character. */
  lemma Reassemble(s: string, p: nat, n: nat)
    requires 1 <= p && p + n < |s|
    ensures s == [s[0]] + s[1..p] + s[p..p + n] + s[p + n..|s| - 1] + [s[|s| - 1]]
  {
    assert s == s[..1] + s[1..p] + s[p..p + n] + s[p + n..|s| - 1] + s[|s| - 1..];
  }

  /** A rendered property whose key holds no ']' is accepted and gives back its key and value. */
  lemma RenderedPropLine(key: string, value: string)
    requires ']' !in key
    ensures IsPropLine(Render(key, value))
    ensures PropKey(Render(key, value)) == key && PropValue(Render(key, value)) == value
  {
    var line := Render(key, value);
    var p := |key| + 1;
    RenderPieces(key, value);
    NoSeparatorBefore(line, key, p);
    FirstOccurrence(line, SEP, p);
    EndsAndStarts(key, value);
  }

  /** Where the pieces of a rendered property sit. */
  lemma RenderPieces(key: string, value: string)
    ensures var line, p := Render(key, value), |key| + 1;
            && |line| == p + |SEP| + |value| + 1
            && line[0] == '[' && line[1..p] == key && line[p..p + |SEP|] == SEP
            && line[p + |SEP|..|line| - 1] == value
            && forall j :: 1 <= j < p ==> line[j] == key[j - 1]
  {
  }

  /** A rendered property starts with '[' and ends with ']'. */
  lemma EndsAndStarts(key: string, value: string)
    ensures StartsWith(Render(key, value), "[") && EndsWith(Render(key, value), "]")
  {
    var line := Render(key, value);
    assert line[..1] == "[";
    assert line[|line| - 1..] == "]";
  }

  /** No separator starts at the '[' or inside a key free of ']'. */
  lemma NoSeparatorBefore(line: string, key: string, p: nat)
    requires ']' !in key && p == |key| + 1 && p <= |line| && line[0] == '['
    requires forall j :: 1 <= j < p ==> line[j] == key[j - 1]
    ensures forall q: nat :: q < p ==> !OccursAt(line, SEP, q)
  {
    forall q: nat | q < p ensures !OccursAt(line, SEP, q) {
      if q > 0 {
        assert line[q] == key[q - 1];
      }
      NotSeparatorAt(line, q);
    }
  }

  /** No separator starts at a character other than ']'. */
  lemma NotSeparatorAt(line: string, q: nat)
    requires q < |line| && line[q] != ']'
    ensures !OccursAt(line, SEP, q)
  {
    if q + |SEP| <= |line| {
      assert line[q..q + |SEP|][0] == line[q];
    }
  }

  /** The value of the last accepted line in `lines` whose key is `key`, if there is one. */
  function LastValue(lines: seq<string>, key: string): Option<string> {
    if lines == [] then None
    else
      var line := lines[|lines| - 1];
      if IsPropLine(line) && PropKey(line) == key then Some(PropValue(line))
      else LastValue(lines[..|lines| - 1], key)
  }

  /** A later line for a key overrides every earlier one. */
  lemma LaterLineWins(lines: seq<string>, key: string, value: string)
    requires ']' !in key
    ensures LastValue(lines + [Render(key, value)], key) == Some(value)
  {
    RenderedPropLine(key, value);
    var ls := lines + [Render(key, value)];
    assert ls[|ls| - 1] == Render(key, value);
  }

  /** What the loop leaves under `k`: the last value read for a desired key, otherwise the initial entry. */
  function Expected(lines: seq<string>, desired: set<string>, init: map<string, string>, k: string): Option<string> {
    if k in desired && LastValue(lines, k).Some? then LastValue(lines, k)
    else if k in init then Some(init[k])
    else None
  }

  /** The loop's invariant: `info` holds what `Expected` says for every key. */
  ghost predicate Agrees(info: map<string, string>, lines: seq<string>, desired: set<string>, init: map<string, string>) {
    forall k :: (k in info) == Expected(lines, desired, init, k).Some?
                && (k in info ==> info[k] == Expected(lines, desired, init, k).value)
  }

  /** What one line does to the dict: an accepted line with a desired key overwrites that key. */
  function Absorb(info: map<string, string>, line: string, desired: set<string>): map<string, string> {
    if IsPropLine(line) && PropKey(line) in desired then info[PropKey(line) := PropValue(line)] else info
  }

  lemma LastValueSnoc(lines: seq<string>, line: string, k: string)
    ensures LastValue(lines + [line], k) ==
            if IsPropLine(line) && PropKey(line) == k then Some(PropValue(line)) else LastValue(lines, k)
  {
    var ls := lines + [line];
    assert ls[|ls| - 1] == line && ls[..|ls| - 1] == lines;
  }

  /** Absorbing the next line keeps the invariant. */
  lemma AbsorbAgrees(info: map<string, string>, lines: seq<string>, line: string, desired: set<string>, init: map<string, string>)
    requires Agrees(info, lines, desired, init)
    ensures Agrees(Absorb(info, line, desired), lines + [line], desired, init)
  {
    forall k ensures LastValue(lines + [line], k) ==
      if IsPropLine(line) && PropKey(line) == k then Some(PropValue(line)) else LastValue(lines, k) {
      LastValueSnoc(lines, line, k);
    }
  }

  /** The source's two-step slicing (`split` at the separator, then trim a bracket) gives the key and the value. */
  lemma SlicedParts(line: string, p: nat)
    requires IsPropLine(line) && FindSub(line, SEP) == Some(p)
    ensures 1 <= p && p + |SEP| < |line|
    ensures line[..p][1..] == PropKey(line)
    ensures line[p + |SEP|..][..|line| - p - |SEP| - 1] == PropValue(line)
  {
    SeparatorInside(line);
    PrefixThenDrop(line, p);
    SuffixThenTake(line, p + |SEP|);
  }

  lemma PrefixThenDrop(s: string, p: nat)
    requires 1 <= p <= |s|
    ensures s[..p][1..] == s[1..p]
  {
  }

  lemma SuffixThenTake(s: string, a: nat)
    requires a < |s|
    ensures s[a..][..|s| - a - 1] == s[a..|s| - 1]
  {
  }

  /**
   * The parsing loop: each accepted line whose key is desired overwrites
   * that key's entry, every other line is ignored.
   */
  method ParseProps(output: string, desired: set<string>, init: map<string, string>) returns (info: map<string, string>)
    ensures forall k :: (k in info) == Expected(SplitLines(output), desired, init, k).Some?
    ensures forall k :: k in info ==> info[k] == Expected(SplitLines(output), desired, init, k).value
  {
    var lines := SplitLines(output);
    info := init;
    assert lines[..0] == [];
    for i := 0 to |lines|
      invariant Agrees(info, lines[..i], desired, init)
    {
      var line := lines[i];
      assert lines[..i + 1] == lines[..i] + [line];
      AbsorbAgrees(info, lines[..i], line, desired, init);
      if StartsWith(line, "[") && Contains(line, SEP) && EndsWith(line, "]") {
        var p := FindSub(line, SEP).value;
        SlicedParts(line, p);
        var keyPart, valuePart := line[..p], line[p + |SEP|..];
        var key := keyPart[1..];
        var value := valuePart[..|valuePart| - 1];
        if key in desired {
          info := info[key := value];
        }
      }
    }
    assert lines[..|lines|] == lines;
  }

  /**
   * `get_device_info`: the four device properties, each "N/A" unless the
   * getprop text (absent when the command failed) holds a line for it.
   */
  method GetDeviceInfo(propOutput: Option<string>) returns (info: map<string, string>)
    ensures info.Keys == DEVICE_KEYS
    ensures forall k :: k in info ==>
      info[k] == if propOutput.Some? && LastValue(SplitLines(propOutput.value), k).Some?
                 then LastValue(SplitLines(propOutput.value), k).value else NA
  {
    info := map["net.bt.name" := NA, "ro.product.model" := NA, "ro.product.manufacturer" := NA, "net.hostname" := NA];
    assert info.Keys == DEVICE_KEYS;
    if propOutput.Some? && propOutput.value != "" {
      var base := info;
      info := ParseProps(propOutput.value, DEVICE_KEYS, base);
      assert forall k :: k in info <==> k in base;
    }
  }

  /**
   * The additional-properties loop of the device listing: the additional
   * keys that some accepted line supplies, with the last value read for
   * each; no map at all when the getprop text is absent or empty.
   */
  method GetAdditionalProps(propOutput: Option<string>) returns (found: Option<map<string, string>>)
    ensures found.None? <==> propOutput.None? || propOutput.value == ""
    ensures found.Some? ==> forall k :: (k in found.value) == (k in ADDITIONAL_KEYS && LastValue(SplitLines(propOutput.value), k).Some?)
    ensures found.Some? ==> forall k :: k in found.value ==> found.value[k] == LastValue(SplitLines(propOutput.value), k).value
  {
    if propOutput.Some? && propOutput.value != "" {
      var m := ParseProps(propOutput.value, ADDITIONAL_KEYS, map[]);
      found := Some(m);
    } else {
      found := None;
    }
  }
}
