/**
 * The readiness test of `check_adb_status` (adb_utils.py:240-248): the
 * output of `adb devices` must carry its header and at least one line
 * after it, and no line after the first may mention "offline" or
 * "unauthorized".
 */
module AdbStatus {
  import opened PyText
  import opened Shell

  const HEADER: string := "List of devices attached"

  /** The lines of the output as the test sees them: stripped, split at '\n'. */
  function DeviceLines(stdout: string): seq<string> {
    Split(Strip(stdout), '\n')
  }

  /** A device line that reports a device not ready for use. */
  predicate Blocked(line: string) {
    Contains(line, "offline") || Contains(line, "unauthorized")
  }

  /** Whether `adb devices` says ADB is ready with an authorized device. */
  function CheckAdbStatus(r: CommandResult): (ready: bool)
    ensures ready ==> r.success && Contains(r.stdout, HEADER) && |DeviceLines(r.stdout)| > 1
  {
    if !r.success then false
    else if !Contains(r.stdout, HEADER) then false
    else
      var lines := DeviceLines(r.stdout);
      |lines| > 1 && forall i :: 1 <= i < |lines| ==> !Blocked(lines[i])
  }

  /** Readiness needs a line break inside the stripped output: the header alone is not enough. */
  lemma HeaderOnlyNotReady(r: CommandResult)
    requires '\n' !in Strip(r.stdout)
    ensures !CheckAdbStatus(r)
  {
    SplitPieces(Strip(r.stdout), '\n');
  }

  /** Any line after the first that mentions "offline" or "unauthorized" makes the test fail. */
  lemma BlockedLineNotReady(r: CommandResult, i: nat)
    requires 1 <= i < |DeviceLines(r.stdout)| && Blocked(DeviceLines(r.stdout)[i])
    ensures !CheckAdbStatus(r)
  {
  }

  /** Two lines, each free of line breaks and ending in non-space, read back as those two lines. */
  lemma {:induction false} TwoLines(a: string, b: string)
    requires a != [] && !IsSpace(a[0]) && !IsSpace(a[|a| - 1]) && '\n' !in a
    requires b != [] && !IsSpace(b[|b| - 1]) && '\n' !in b
    ensures DeviceLines(a + "\n" + b + "\n") == [a, b]
  {
    var body := a + ['\n'] + b;
    assert a + "\n" + b + "\n" == body + "\n";
    assert body[0] == a[0] && body[|body| - 1] == b[|b| - 1];
    StripTrailing(body, "\n");
    SplitTwo(a, b, '\n');
  }

  /** The header followed by one device line that mentions neither word: ready. */
  lemma OneDeviceReady(line: string)
    requires line != [] && '\n' !in line && !IsSpace(line[|line| - 1]) && !Blocked(line)
    ensures CheckAdbStatus(CommandResult(true, HEADER + "\n" + line + "\n"))
  {
    PrefixContained(HEADER, "\n" + line + "\n");
    assert HEADER + "\n" + line + "\n" == HEADER + ("\n" + line + "\n");
    HeaderShape();
    TwoLines(HEADER, line);
  }

  lemma HeaderShape()
    ensures HEADER != [] && '\n' !in HEADER && !IsSpace(HEADER[0]) && !IsSpace(HEADER[|HEADER| - 1])
  {
    assert HEADER[0] == 'L' && HEADER[|HEADER| - 1] == 'd';
  }
}
